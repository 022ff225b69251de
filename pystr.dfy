/**
 * The few Python `str` operations the journal code relies on, with their
 * Python meaning: `find`, `split`, `strip`, `replace(pat, "")` and the
 * substring test `pat in s`. Strings are sequences of characters.
 */
module PyStr {

  /** Every character of `s` is `c`. */
  predicate AllAre(s: string, c: char) {
    forall i :: 0 <= i < |s| ==> s[i] == c
  }

  predicate StartsWith(s: string, prefix: string) {
    |prefix| <= |s| && s[..|prefix|] == prefix
  }

  /** Python's `pat in s`: `pat` occurs in `s` at some position (the empty string occurs everywhere). */
  predicate Occurs(pat: string, s: string)
    decreases |s|
  {
    StartsWith(s, pat) || (|s| > 0 && Occurs(pat, s[1..]))
  }

  /** `s.find(c)`: the index of the first `c` in `s`, or -1 when there is none. */
  function Find(s: string, c: char): (i: int)
    ensures -1 <= i < |s|
    ensures i == -1 <==> c !in s
    ensures 0 <= i ==> s[i] == c && c !in s[..i]
  {
    if |s| == 0 then -1
    else if s[0] == c then 0
    else
      var k := Find(s[1..], c);
      if k == -1 then -1
      else
        assert s[..k + 1] == [s[0]] + s[1..][..k];
        k + 1
  }

  /** The first `c` of `s` is the one `Find` reports. */
  lemma {:induction false} FindAt(s: string, c: char, i: nat)
    requires i < |s| && s[i] == c && c !in s[..i]
    ensures Find(s, c) == i
    decreases i
  {
    if i > 0 {
      assert s[0] == s[..i][0];
      assert s[1..][..i - 1] == s[1..i];
      FindAt(s[1..], c, i - 1);
    }
  }

  /** `sep.join(parts)` for a one-character separator. */
  function Join(parts: seq<string>, sep: char): string {
    if |parts| == 0 then ""
    else if |parts| == 1 then parts[0]
    else parts[0] + [sep] + Join(parts[1..], sep)
  }

  /**
   * `s.split(sep)` for a one-character separator: the pieces between
   * separators, in order, always at least one (possibly empty) piece.
   */
  function Split(s: string, sep: char): (r: seq<string>)
    ensures |r| >= 1
    ensures forall i :: 0 <= i < |r| ==> sep !in r[i]
    ensures Join(r, sep) == s
    ensures |r[0]| <= |s| && r[0] == s[..|r[0]|]
    ensures |r[0]| == |s| || s[|r[0]|] == sep
    decreases |s|
  {
    if |s| == 0 then [""]
    else
      var rest := Split(s[1..], sep);
      if s[0] == sep then
        assert Join([""] + rest, sep) == "" + [sep] + Join(rest, sep) by {
          assert ([""] + rest)[1..] == rest;
        }
        assert s == [sep] + s[1..];
        [""] + rest
      else
        var head := [s[0]] + rest[0];
        var r := [head] + rest[1..];
        assert r[1..] == rest[1..];
        assert s == [s[0]] + s[1..];
        assert Join(r, sep) == s by {
          if |rest| == 1 {
          } else {
            assert Join(rest, sep) == rest[0] + [sep] + Join(rest[1..], sep);
          }
        }
        assert sep !in head;
        assert s[..|head|] == [s[0]] + s[1..][..|rest[0]|];
        r
  }

  /** A string without the separator splits into itself. */
  lemma {:induction false} SplitWithoutSep(s: string, sep: char)
    requires sep !in s
    ensures Split(s, sep) == [s]
    decreases |s|
  {
    if |s| > 0 {
      SplitWithoutSep(s[1..], sep);
      assert [s[0]] + s[1..] == s;
    }
  }

  /** Splitting stops at the first separator and goes on with the rest. */
  lemma {:induction false} SplitAtFirst(a: string, sep: char, rest: string)
    requires sep !in a
    ensures Split(a + [sep] + rest, sep) == [a] + Split(rest, sep)
    decreases |a|
  {
    var s := a + [sep] + rest;
    if |a| == 0 {
      assert s[1..] == rest;
    } else {
      assert s[1..] == a[1..] + [sep] + rest;
      SplitAtFirst(a[1..], sep, rest);
      assert [a[0]] + a[1..] == a;
    }
  }

  /** Split undoes Join when no part contains the separator. */
  lemma {:induction false} SplitJoin(parts: seq<string>, sep: char)
    requires |parts| >= 1
    requires forall i :: 0 <= i < |parts| ==> sep !in parts[i]
    ensures Split(Join(parts, sep), sep) == parts
    decreases |parts|
  {
    if |parts| == 1 {
      SplitWithoutSep(parts[0], sep);
    } else {
      SplitJoin(parts[1..], sep);
      SplitAtFirst(parts[0], sep, Join(parts[1..], sep));
      assert [parts[0]] + parts[1..] == parts;
    }
  }

  /** `s.split(sep)[0]`: the text of `s` before its first `sep` (all of `s` when there is none). */
  function FirstPiece(s: string, sep: char): (r: string)
    ensures sep !in r
    ensures |r| <= |s| && r == s[..|r|]
    ensures |r| == |s| || s[|r|] == sep
    ensures sep !in s ==> r == s
  {
    Split(s, sep)[0]
  }

  /** `s.lstrip(c)`: `s` without its leading run of `c`. */
  function LStrip(s: string, c: char): (r: string)
    ensures |r| <= |s| && r == s[|s| - |r|..]
    ensures AllAre(s[..|s| - |r|], c)
    ensures r == [] || r[0] != c
    decreases |s|
  {
    if |s| > 0 && s[0] == c then
      var r := LStrip(s[1..], c);
      assert s[..|s| - |r|] == [c] + s[1..][..|s| - 1 - |r|];
      r
    else s
  }

  /** `s.rstrip(c)`: `s` without its trailing run of `c`. */
  function RStrip(s: string, c: char): (r: string)
    ensures |r| <= |s| && r == s[..|r|]
    ensures AllAre(s[|r|..], c)
    ensures r == [] || r[|r| - 1] != c
    decreases |s|
  {
    if |s| > 0 && s[|s| - 1] == c then
      var r := RStrip(s[..|s| - 1], c);
      assert s[|r|..] == s[..|s| - 1][|r|..] + [c];
      r
    else s
  }

  /**
   * `s.strip(c)`: `s` without its leading and trailing runs of `c`; the
   * result neither starts nor ends with `c` (StripShape says what is left).
   */
  function Strip(s: string, c: char): (r: string)
    ensures |r| <= |s|
    ensures r == [] || (r[0] != c && r[|r| - 1] != c)
  {
    var t := LStrip(s, c);
    var r := RStrip(t, c);
    assert r == [] || r[0] == t[0];
    r
  }

  /** What `Strip` keeps is a middle part of `s`, and only `c` surrounds it. */
  lemma StripShape(s: string, c: char, i: int, r: string)
    requires i == |s| - |LStrip(s, c)| && r == Strip(s, c)
    ensures 0 <= i && i + |r| <= |s| && s[i..i + |r|] == r
    ensures AllAre(s[..i], c) && AllAre(s[i + |r|..], c)
  {
    var t := LStrip(s, c);
    StripIs(s, c, t, r);
    LeadingRun(s, c, i, t);
    MiddleShape(s, c, i, t, r);
  }

  lemma StripIs(s: string, c: char, t: string, r: string)
    requires t == LStrip(s, c) && r == Strip(s, c)
    ensures r == RStrip(t, c)
  {
  }

  lemma LeadingRun(s: string, c: char, i: int, t: string)
    requires t == LStrip(s, c) && i == |s| - |t|
    ensures 0 <= i <= |s| && t == s[i..] && AllAre(s[..i], c)
  {
  }

  /** A prefix `r` of the suffix `t == s[i..]` is a slice of `s`, and what surrounds it in `t` surrounds it in `s`. */
  lemma MiddleShape(s: string, c: char, i: int, t: string, r: string)
    requires 0 <= i <= |s| && t == s[i..] && |r| <= |t| && r == t[..|r|]
    requires AllAre(t[|r|..], c)
    ensures i + |r| <= |s| && s[i..i + |r|] == r && AllAre(s[i + |r|..], c)
  {
    assert t[|r|..] == s[i + |r|..];
  }

  /** Stripping adds no character. */
  lemma StripKeepsAbsent(s: string, c: char, d: char)
    requires d !in s
    ensures d !in Strip(s, c)
  {
    var i := |s| - |LStrip(s, c)|;
    var r := Strip(s, c);
    StripShape(s, c, i, r);
    forall k | 0 <= k < |r| ensures r[k] != d {
      assert r[k] == s[i + k];
    }
  }

  /**
   * `s.replace(pat, "")`: every occurrence of `pat` found scanning `s` from
   * left to right, without overlaps, is removed. An empty `pat` leaves `s`
   * unchanged, as in Python.
   */
  function RemoveAll(s: string, pat: string): (r: string)
    ensures |r| <= |s|
    ensures |pat| == 0 ==> r == s
    decreases |s|
  {
    if |pat| == 0 then s
    else if StartsWith(s, pat) then RemoveAll(s[|pat|..], pat)
    else if |s| == 0 then s
    else [s[0]] + RemoveAll(s[1..], pat)
  }

  /** Removal adds nothing: every character left comes from `s`. */
  lemma {:induction false} RemoveKeepsCharacters(s: string, pat: string)
    ensures forall i :: 0 <= i < |RemoveAll(s, pat)| ==> RemoveAll(s, pat)[i] in s
    decreases |s|
  {
    if |pat| > 0 && StartsWith(s, pat) {
      RemoveKeepsCharacters(s[|pat|..], pat);
      forall c | c in s[|pat|..]
        ensures c in s
      {
      }
    } else if |pat| > 0 && |s| > 0 {
      RemoveKeepsCharacters(s[1..], pat);
      forall c | c in s[1..]
        ensures c in s
      {
      }
    }
  }

  /** Removing a pattern that does not occur changes nothing. */
  lemma {:induction false} RemoveAbsent(s: string, pat: string)
    requires !Occurs(pat, s)
    ensures RemoveAll(s, pat) == s
    decreases |s|
  {
    if |s| > 0 {
      RemoveAbsent(s[1..], pat);
      assert [s[0]] + s[1..] == s;
    }
  }

  /** Where no occurrence starts, the first character is kept and the scan moves on. */
  lemma RemoveStep(s: string, pat: string)
    requires pat != "" && |s| > 0 && !StartsWith(s, pat)
    ensures RemoveAll(s, pat) == [s[0]] + RemoveAll(s[1..], pat)
  {
  }

  /** An occurrence of `pat` starts at position `j` of `s`. */
  predicate StartsAt(s: string, pat: string, j: int) {
    0 <= j <= |s| && StartsWith(s[j..], pat)
  }

  /** A position where no occurrence starts keeps its character, and the scan moves on. */
  lemma KeepAt(s: string, pat: string, k: nat)
    requires pat != "" && k < |s| && !StartsAt(s, pat, k)
    ensures RemoveAll(s[k..], pat) == [s[k]] + RemoveAll(s[k + 1..], pat)
  {
    var t := s[k..];
    RemoveStep(t, pat);
    assert t[0] == s[k] && t[1..] == s[k + 1..];
  }

  /** An occurrence at position `i` is removed, and the scan resumes after it. */
  lemma RemoveAtStart(s: string, pat: string, i: nat)
    requires pat != "" && i + |pat| <= |s| && s[i..i + |pat|] == pat
    ensures RemoveAll(s[i..], pat) == RemoveAll(s[i + |pat|..], pat)
  {
    var t := s[i..];
    assert t[..|pat|] == s[i..i + |pat|];
    assert t[|pat|..] == s[i + |pat|..];
  }

  /** From position `k` on, the text up to the next occurrence at `i` is kept and that occurrence is removed. */
  lemma {:induction false} RemoveFrom(s: string, pat: string, k: nat, i: nat)
    requires pat != "" && k <= i && i + |pat| <= |s| && s[i..i + |pat|] == pat
    requires forall j :: k <= j < i ==> !StartsAt(s, pat, j)
    ensures RemoveAll(s[k..], pat) == s[k..i] + RemoveAll(s[i + |pat|..], pat)
    decreases i - k
  {
    var rest := RemoveAll(s[i + |pat|..], pat);
    if k == i {
      RemoveAtStart(s, pat, i);
      assert s[k..i] == [];
    } else {
      var here := RemoveAll(s[k..], pat);
      var next := RemoveAll(s[k + 1..], pat);
      assert next == s[k + 1..i] + rest by {
        RemoveFrom(s, pat, k + 1, i);
      }
      assert here == [s[k]] + next by {
        KeepAt(s, pat, k);
      }
      assert s[k..i] == [s[k]] + s[k + 1..i];
    }
  }

  /**
   * The scan removes the leftmost occurrence first: everything before it is
   * kept and removal goes on after it. With RemoveAbsent this fixes the
   * whole result.
   */
  lemma RemoveFirst(s: string, pat: string, i: nat)
    requires pat != "" && i + |pat| <= |s| && s[i..i + |pat|] == pat
    requires forall j :: 0 <= j < i ==> !StartsWith(s[j..], pat)
    ensures RemoveAll(s, pat) == s[..i] + RemoveAll(s[i + |pat|..], pat)
  {
    forall j | 0 <= j < i
      ensures !StartsAt(s, pat, j)
    {
    }
    RemoveFrom(s, pat, 0, i);
    assert s[0..] == s && s[0..i] == s[..i];
  }

  /** A leading occurrence is removed and the scan resumes after it. */
  lemma RemoveLeading(pat: string, rest: string)
    requires !Occurs(pat, rest)
    ensures RemoveAll(pat + rest, pat) == rest
  {
    // `pat` is not empty: the empty string occurs in every string.
    assert (pat + rest)[..|pat|] == pat;
    assert (pat + rest)[|pat|..] == rest;
    RemoveAbsent(rest, pat);
  }
}
