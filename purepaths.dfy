/**
 * The part of Python's `pathlib` (POSIX flavour) that `describe_image`
 * uses: parsing a string into a root and a list of parts, printing it
 * back, `.parent`, `.relative_to("/")` and the `/` operator. Everything is
 * lexical; the file system is never consulted.
 */
module PurePaths {
  import opened Wrappers
  import opened PyStr

  /** No root, "/" or "//" (POSIX keeps exactly two leading slashes; three or more mean "/"). */
  datatype Root = NoRoot | Slash | DoubleSlash

  datatype PurePath = PurePath(root: Root, parts: seq<string>)

  /** A part as pathlib keeps it: not empty, not ".", no slash. */
  predicate IsPart(s: string) {
    s != "" && s != "." && '/' !in s
  }

  predicate WellFormed(p: PurePath) {
    forall i :: 0 <= i < |p.parts| ==> IsPart(p.parts[i])
  }

  /** Drops the empty and "." pieces, as pathlib does with "a//b" and "a/./b". */
  function KeepParts(pieces: seq<string>): (r: seq<string>)
    requires forall i :: 0 <= i < |pieces| ==> '/' !in pieces[i]
    ensures forall i :: 0 <= i < |r| ==> IsPart(r[i])
    ensures (forall i :: 0 <= i < |pieces| ==> IsPart(pieces[i])) ==> r == pieces
  {
    if |pieces| == 0 then []
    else
      var rest := KeepParts(pieces[1..]);
      if pieces[0] == "" || pieces[0] == "." then rest else [pieces[0]] + rest
  }

  function Components(s: string): (r: seq<string>)
    ensures forall i :: 0 <= i < |r| ==> IsPart(r[i])
  {
    KeepParts(Split(s, '/'))
  }

  /** `PurePosixPath(s)`. */
  function Parse(s: string): (p: PurePath)
    ensures WellFormed(p)
    ensures p.root == NoRoot <==> s == "" || s[0] != '/'
  {
    if |s| >= 2 && s[0] == '/' && s[1] == '/' && (|s| == 2 || s[2] != '/') then
      PurePath(DoubleSlash, Components(s[2..]))
    else if |s| >= 1 && s[0] == '/' then
      PurePath(Slash, Components(s))
    else
      PurePath(NoRoot, Components(s))
  }

  function RootText(r: Root): string {
    match r
    case NoRoot => ""
    case Slash => "/"
    case DoubleSlash => "//"
  }

  /** `str(p)`: the root followed by the parts joined with "/", or "." for the empty path. */
  function Format(p: PurePath): (s: string)
    ensures s != ""
  {
    var t := RootText(p.root) + Join(p.parts, '/');
    if t == "" then "." else t
  }

  /** `p.parent`: the last part dropped; a path without parts is its own parent. */
  function Parent(p: PurePath): (q: PurePath)
    ensures q.root == p.root
    ensures |p.parts| > 0 ==> q.parts + [p.parts[|p.parts| - 1]] == p.parts
    ensures |p.parts| == 0 ==> q == p
  {
    if |p.parts| == 0 then p else PurePath(p.root, p.parts[..|p.parts| - 1])
  }

  /** `p.relative_to("/")`: defined only for paths whose root is exactly "/" (otherwise ValueError). */
  function RelativeToSlash(p: PurePath): (r: Option<PurePath>)
    ensures r.Some? <==> p.root == Slash
    ensures r.Some? ==> r.value.root == NoRoot && r.value.parts == p.parts
  {
    if p.root == Slash then Some(PurePath(NoRoot, p.parts)) else None
  }

  /** `base / s`: an absolute `s` replaces `base`, a relative one is appended to it. */
  function Append(base: PurePath, s: string): (r: PurePath)
    ensures Parse(s).root == NoRoot ==> r == PurePath(base.root, base.parts + Parse(s).parts)
  {
    var rel := Parse(s);
    if rel.root != NoRoot then rel else PurePath(base.root, base.parts + rel.parts)
  }

  lemma {:induction false} JoinStartsWithFirstPart(parts: seq<string>, sep: char)
    requires |parts| >= 1 && |parts[0]| >= 1
    ensures |Join(parts, sep)| >= 1 && Join(parts, sep)[0] == parts[0][0]
  {
  }

  /** Printing a relative well-formed path and parsing the text gives the path back. */
  lemma ParseFormatRelative(p: PurePath)
    requires p.root == NoRoot && WellFormed(p)
    ensures Parse(Format(p)) == p
  {
    if |p.parts| == 0 {
      assert Format(p) == ".";
      SplitWithoutSep(".", '/');
    } else {
      var t := Join(p.parts, '/');
      JoinStartsWithFirstPart(p.parts, '/');
      assert RootText(p.root) + t == t;
      assert Format(p) == t;
      SplitJoin(p.parts, '/');
    }
  }

  /** "/" followed by well-formed parts parses to those parts under the root "/". */
  lemma ParseAbsolute(parts: seq<string>)
    requires |parts| >= 1 && forall i :: 0 <= i < |parts| ==> IsPart(parts[i])
    ensures Parse("/" + Join(parts, '/')) == PurePath(Slash, parts)
  {
    var t := Join(parts, '/');
    var s := "/" + t;
    JoinStartsWithFirstPart(parts, '/');
    ParseSingleSlash(s);
    SplitAfterSlash(parts, t, s);
    KeepAfterEmpty(Split(s, '/'), parts);
  }

  /** A single leading slash is the root "/". */
  lemma ParseSingleSlash(s: string)
    requires |s| >= 2 && s[0] == '/' && s[1] != '/'
    ensures Parse(s) == PurePath(Slash, KeepParts(Split(s, '/')))
  {
  }

  /** "/" followed by the join of separator-free parts splits into "" and those parts. */
  lemma SplitAfterSlash(parts: seq<string>, t: string, s: string)
    requires |parts| >= 1 && forall i :: 0 <= i < |parts| ==> '/' !in parts[i]
    requires t == Join(parts, '/') && s == "/" + t
    ensures Split(s, '/') == [""] + parts
  {
    assert s == "" + ['/'] + t;
    SplitAtFirst("", '/', t);
    SplitJoin(parts, '/');
  }

  /** The empty piece before the first separator is dropped. */
  lemma KeepAfterEmpty(pieces: seq<string>, parts: seq<string>)
    requires forall i :: 0 <= i < |pieces| ==> '/' !in pieces[i]
    requires pieces == [""] + parts && forall i :: 0 <= i < |parts| ==> IsPart(parts[i])
    ensures KeepParts(pieces) == parts
  {
    assert pieces[1..] == parts;
  }

  /** Keeping parts works piece by piece: it distributes over concatenation. */
  lemma {:induction false} KeepPartsConcat(a: seq<string>, b: seq<string>)
    requires forall i :: 0 <= i < |a| ==> '/' !in a[i]
    requires forall i :: 0 <= i < |b| ==> '/' !in b[i]
    ensures KeepParts(a + b) == KeepParts(a) + KeepParts(b)
    decreases |a|
  {
    if |a| == 0 {
      assert a + b == b;
    } else {
      assert (a + b)[0] == a[0];
      assert (a + b)[1..] == a[1..] + b;
      KeepPartsConcat(a[1..], b);
    }
  }

  /** A single piece is kept exactly when it is a part. */
  lemma KeepPartsOne(x: string)
    requires '/' !in x
    ensures KeepParts([x]) == if IsPart(x) then [x] else []
  {
    assert [x][1..] == [];
  }

  /** The parts of a text are its slash-separated pieces with the empty and "." ones dropped. */
  lemma ComponentsOfJoin(pieces: seq<string>)
    requires |pieces| >= 1 && forall i :: 0 <= i < |pieces| ==> '/' !in pieces[i]
    ensures Components(Join(pieces, '/')) == KeepParts(pieces)
  {
    SplitJoin(pieces, '/');
  }

  /** pathlib's own example: "a//./b" has the parts "a" and "b". */
  lemma ComponentsExample()
    ensures Components("a//./b") == ["a", "b"]
  {
    var pieces := ["a", "", ".", "b"];
    JoinExample(pieces);
    ComponentsOfJoin(pieces);
    KeepExample(pieces);
  }

  lemma JoinExample(pieces: seq<string>)
    requires pieces == ["a", "", ".", "b"]
    ensures Join(pieces, '/') == "a//./b"
  {
    assert pieces[1..] == ["", ".", "b"];
    assert ["", ".", "b"][1..] == [".", "b"];
    assert [".", "b"][1..] == ["b"];
    assert Join(["b"], '/') == "b";
    assert Join([".", "b"], '/') == "./b";
    assert Join(["", ".", "b"], '/') == "/./b";
  }

  lemma KeepExample(pieces: seq<string>)
    requires pieces == ["a", "", ".", "b"]
    ensures KeepParts(pieces) == ["a", "b"]
  {
    assert pieces[1..] == ["", ".", "b"];
    assert ["", ".", "b"][1..] == [".", "b"];
    assert [".", "b"][1..] == ["b"];
    assert ["b"][1..] == [];
    assert KeepParts(["b"]) == ["b"];
    assert KeepParts([".", "b"]) == ["b"];
    assert KeepParts(["", ".", "b"]) == ["b"];
  }

  /** Printing a well-formed path of any root and parsing the text gives the path back. */
  lemma ParseFormat(p: PurePath)
    requires WellFormed(p)
    ensures Parse(Format(p)) == p
  {
    match p.root
    case NoRoot =>
      ParseFormatRelative(p);
    case Slash =>
      if |p.parts| == 0 {
        assert Format(p) == "/";
        assert Split("/", '/') == ["", ""] by {
          assert "/" == "" + ['/'] + "";
          SplitAtFirst("", '/', "");
        }
      } else {
        assert Format(p) == "/" + Join(p.parts, '/');
        ParseAbsolute(p.parts);
      }
    case DoubleSlash =>
      var t := Join(p.parts, '/');
      var s := "//" + t;
      assert Format(p) == s;
      if |p.parts| == 0 {
        assert s[2..] == "";
      } else {
        JoinStartsWithFirstPart(p.parts, '/');
        assert s[2] == t[0] == p.parts[0][0];
        assert s[2..] == t;
        ComponentsOfJoin(p.parts);
      }
  }

  /** A well-formed path prints as "." exactly when it is the empty relative path. */
  lemma FormatDot(p: PurePath)
    requires WellFormed(p)
    ensures Format(p) == "." <==> p == PurePath(NoRoot, [])
  {
    if Format(p) == "." {
      ParseFormat(p);
      assert Parse(".").parts == [] by {
        SplitWithoutSep(".", '/');
      }
    }
  }
}
