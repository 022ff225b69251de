/**
 * The helpers of the journal service: splitting generated text into a
 * title and a body, describing a stored image with the vision service, and
 * composing a journal with the text-generation service. The two services
 * are passed in as functions; what they compute is not modelled.
 */
module Functions {
  import opened Wrappers
  import opened PyStr
  import opened PurePaths
  import opened Records

  /** The pair `get_title_from_journal` returns. */
  datatype Extracted = Extracted(title: string, body: string)

  /**
   * Drops everything before the first '#' (when there is one), then takes
   * the first line of what remains with its leading and trailing '#'
   * removed as the title. Spaces are kept and there is no fallback title.
   */
  function GetTitleFromJournal(journal: string): (r: Extracted)
    ensures '#' !in journal ==> r.body == journal
    ensures '#' in journal ==>
      0 < |r.body| <= |journal| && r.body == journal[|journal| - |r.body|..]
      && r.body[0] == '#' && '#' !in journal[..|journal| - |r.body|]
    ensures '\n' !in r.title
    ensures r.title == [] || (r.title[0] != '#' && r.title[|r.title| - 1] != '#')
  {
    var idx := Find(journal, '#');
    var body := if idx != -1 then journal[idx..] else journal;
    var line := FirstPiece(body, '\n');
    var title := Strip(line, '#');
    StripKeepsAbsent(line, '#', '\n');
    Extracted(title, body)
  }

  /**
   * The title is the first line of the body with its runs of '#' removed
   * from both ends (`Strip` and `FirstPiece` state what those are).
   */
  lemma TitleIsStrippedFirstLine(journal: string)
    ensures var r := GetTitleFromJournal(journal);
      r.title == Strip(FirstPiece(r.body, '\n'), '#')
  {
  }

  /** Extracting again from the extracted body gives the same title and body. */
  lemma {:induction false} ExtractionIdempotent(journal: string)
    ensures GetTitleFromJournal(GetTitleFromJournal(journal).body) == GetTitleFromJournal(journal)
  {
    var r := GetTitleFromJournal(journal);
    if '#' in journal {
      assert r.body[0] == '#';
      assert Find(r.body, '#') == 0;
      assert r.body[0..] == r.body;
    } else {
      assert r.body == journal;
    }
  }

  /**
   * Text before the first '#' is dropped: the body starts at the heading
   * line and the title is that line with its '#' runs stripped.
   */
  lemma HeadingAfterPreamble(pre: string, line: string, rest: string)
    requires '#' !in pre && '\n' !in line
    requires |line| > 0 && line[0] == '#'
    ensures GetTitleFromJournal(pre + line + ['\n'] + rest)
         == Extracted(Strip(line, '#'), line + ['\n'] + rest)
  {
    var body := line + ['\n'] + rest;
    var s := pre + body;
    assert pre + line + ['\n'] + rest == s;
    assert s[..|pre|] == pre && s[|pre|..] == body;
    FindAt(s, '#', |pre|);
    SplitAtFirst(line, '\n', rest);
  }

  /** A preamble before the heading is dropped; the space after the '#' stays in the title. */
  lemma ExtractionExample()
    ensures GetTitleFromJournal("intro junk\n" + "# My Title" + "\n" + "Body text")
         == Extracted(" My Title", "# My Title" + "\n" + "Body text")
  {
    HeadingAfterPreamble("intro junk\n", "# My Title", "Body text");
    StripHeading();
  }

  /** Only the '#' goes; the space after it stays. */
  lemma StripHeading()
    ensures Strip("# My Title", '#') == " My Title"
  {
    var line := "# My Title";
    assert LStrip(line, '#') == " My Title" by {
      assert line[1..] == " My Title";
    }
    assert RStrip(" My Title", '#') == " My Title";
  }

  /** One item of the list `generate_journal` hands to the text-generation service. */
  datatype EntryItem = EntryItem(timeCreated: Time, kind: string, content: string, url: string)

  /** What the text-generation service answers: no output at all, or a text. */
  datatype GenerationResponse = NoOutput | Output(text: string)

  const FailedTitle := "Failed Entry"
  const FailedBody := "Failed to generate journal."

  /**
   * `generate_journal_func`. Without output it returns the fixed failure
   * pair. With output it extracts a title but never returns it: the
   * function ends without a `return`, so the caller receives `None`.
   */
  function GenerateJournalFunc(entries: seq<EntryItem>, generate: seq<EntryItem> -> GenerationResponse): (r: Option<Extracted>)
    ensures generate(entries).NoOutput? <==> r == Some(Extracted(FailedTitle, FailedBody))
    ensures generate(entries).Output? <==> r.None?
  {
    match generate(entries)
    case Output(text) =>
      var _ := GetTitleFromJournal(text);
      None
    case NoOutput => Some(Extracted(FailedTitle, FailedBody))
  }

  const DescribeFailure := "Failed to describe image."

  /**
   * The file the vision service is shown for an image URL: every
   * occurrence of the static-server prefix is removed, the remainder must
   * be a path whose root is exactly "/" (otherwise `relative_to("/")` raises
   * and the result is `None`), and it is placed under the parent of the
   * static directory.
   */
  function ImageLocalPath(imageUrl: string, staticServer: string, staticPath: string): (r: Option<string>)
    ensures r.None? <==> Parse(RemoveAll(imageUrl, staticServer)).root != Slash
    ensures r.Some? ==>
      var base := Parent(Parse(staticPath));
      r.value == Format(PurePath(base.root, base.parts + Parse(RemoveAll(imageUrl, staticServer)).parts))
  {
    var stripped := RemoveAll(imageUrl, staticServer);
    match RelativeToSlash(Parse(stripped))
    case None => None
    case Some(rel) =>
      ParseFormatRelative(rel);
      Some(Format(Append(Parent(Parse(staticPath)), Format(rel))))
  }

  /** "//a" is an absolute path, but its root is "//", so `relative_to("/")` refuses it. */
  lemma DoubleSlashRefused(staticPath: string)
    ensures ImageLocalPath("//a", "", staticPath).None?
  {
    assert Parse("//a").root == DoubleSlash;
  }

  /** The description in a vision answer: the first content text, or the fixed failure text. */
  function FirstText(content: seq<string>): (d: string)
    ensures |content| > 0 ==> d == content[0]
    ensures |content| == 0 ==> d == DescribeFailure
  {
    if |content| > 0 then content[0] else DescribeFailure
  }

  /**
   * `describe_image`: `None` when the URL does not lead to an absolute path
   * (the exception), otherwise the vision service's description of the
   * local file, or the failure text when its answer has no content.
   */
  function DescribeImage(imageUrl: string, staticServer: string, staticPath: string,
                         vision: string -> seq<string>): (r: Option<string>)
    ensures r.None? <==> ImageLocalPath(imageUrl, staticServer, staticPath).None?
    ensures r.Some? ==> var content := vision(ImageLocalPath(imageUrl, staticServer, staticPath).value);
      (|content| > 0 ==> r.value == content[0]) && (|content| == 0 ==> r.value == DescribeFailure)
  {
    match ImageLocalPath(imageUrl, staticServer, staticPath)
    case None => None
    case Some(path) => Some(FirstText(vision(path)))
  }
}
