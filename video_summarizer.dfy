/** The lesson page's summary panel: it asks the summarization action for a
    summary, keeps the summary or an error message, and turns the summary
    into a PDF document whose text is stripped of Markdown marks and whose
    file name is derived from the lesson title. PDF layout is left to the
    PDF library and is not part of the model. */
module VideoSummarizer {
  import opened Wrappers
  import opened JsStrings
  import opened Summarize

  const UnexpectedError: string := "An unexpected error occurred"
  const HeadingPrefix: string := "Lesson Summary: "
  const FilenameSuffix: string := "_Summary.pdf"

  // ---------------------------------------------------------------------
  // The Markdown strip of the PDF text: `summary.replace(/[#*`]/g, "")`
  // ---------------------------------------------------------------------

  predicate IsMarkdownMark(c: char) {
    c == '#' || c == '*' || c == '`'
  }

  /** `s` without its `#`, `*` and backtick characters. */
  function CleanText(s: string): (r: string)
    ensures |r| <= |s|
    ensures forall i :: 0 <= i < |r| ==> !IsMarkdownMark(r[i])
  {
    if s == [] then []
    else (if IsMarkdownMark(s[0]) then [] else [s[0]]) + CleanText(s[1..])
  }

  /** `a` is `b` with some characters left out, the rest in order. */
  predicate Subsequence(a: string, b: string)
    decreases |b|
  {
    if a == [] then true
    else if b == [] then false
    else if a[0] == b[0] then Subsequence(a[1..], b[1..])
    else Subsequence(a, b[1..])
  }

  /** The strip keeps the other characters in their original order. */
  lemma {:induction false} CleanTextIsSubsequence(s: string)
    ensures Subsequence(CleanText(s), s)
  {
    if s != [] {
      CleanTextIsSubsequence(s[1..]);
      if !IsMarkdownMark(s[0]) {
        assert CleanText(s) == [s[0]] + CleanText(s[1..]);
        assert CleanText(s)[1..] == CleanText(s[1..]);
      } else {
        assert CleanText(s) == CleanText(s[1..]);
        if CleanText(s) != [] {
          assert CleanText(s)[0] != s[0];
        }
      }
    }
  }

  /** The strip removes every mark and keeps every other character as many
      times as it occurs. */
  lemma {:induction false} CleanTextCounts(s: string, c: char)
    ensures multiset(CleanText(s))[c] == if IsMarkdownMark(c) then 0 else multiset(s)[c]
  {
    if s != [] {
      CleanTextCounts(s[1..], c);
      assert s == [s[0]] + s[1..];
      var head: string := if IsMarkdownMark(s[0]) then [] else [s[0]];
      assert multiset(CleanText(s)) == multiset(head) + multiset(CleanText(s[1..]));
      assert multiset(s) == multiset([s[0]]) + multiset(s[1..]);
    }
  }

  /** Text without marks is left as it is. */
  lemma {:induction false} CleanTextKeepsPlain(s: string)
    requires forall i :: 0 <= i < |s| ==> !IsMarkdownMark(s[i])
    ensures CleanText(s) == s
  {
    if s != [] {
      CleanTextKeepsPlain(s[1..]);
      assert [s[0]] + s[1..] == s;
    }
  }

  /** Stripping twice strips no more than stripping once. */
  lemma CleanTextIdempotent(s: string)
    ensures CleanText(CleanText(s)) == CleanText(s)
  {
    CleanTextKeepsPlain(CleanText(s));
  }

  /** The strip works character by character: it commutes with
      concatenation. */
  lemma {:induction false} CleanTextAppend(a: string, b: string)
    ensures CleanText(a + b) == CleanText(a) + CleanText(b)
  {
    if a == [] {
      assert a + b == b;
    } else {
      assert (a + b)[0] == a[0];
      assert (a + b)[1..] == a[1..] + b;
      CleanTextAppend(a[1..], b);
    }
  }

  // ---------------------------------------------------------------------
  // The file name: `${lessonTitle.replace(/\s+/g, "_")}_Summary.pdf`
  // ---------------------------------------------------------------------

  lemma {:induction false} TrimStartShrinks(s: string)
    requires s != [] && IsWhitespace(s[0])
    ensures |TrimStart(s)| < |s|
  {
    assert TrimStart(s) == TrimStart(s[1..]);
  }

  /** `s` with each maximal run of whitespace replaced by one `_`. */
  function UnderscoreRuns(s: string): (r: string)
    ensures |r| <= |s|
    ensures NoWhitespace(r)
    decreases |s|
  {
    if s == [] then []
    else if IsWhitespace(s[0]) then
      TrimStartShrinks(s);
      "_" + UnderscoreRuns(TrimStart(s))
    else [s[0]] + UnderscoreRuns(s[1..])
  }

  /** Text without whitespace is left as it is. */
  lemma {:induction false} UnderscoreKeepsPlain(s: string)
    requires NoWhitespace(s)
    ensures UnderscoreRuns(s) == s
  {
    if s != [] {
      UnderscoreKeepsPlain(s[1..]);
      assert [s[0]] + s[1..] == s;
    }
  }

  /** Replacing twice replaces no more than replacing once. */
  lemma UnderscoreIdempotent(s: string)
    ensures UnderscoreRuns(UnderscoreRuns(s)) == UnderscoreRuns(s)
  {
    UnderscoreKeepsPlain(UnderscoreRuns(s));
  }

  /** Only whitespace is dropped from the front of whitespace followed by
      text that does not start with whitespace. */
  lemma {:induction false} TrimStartRun(w: string, b: string)
    requires AllWhitespace(w)
    requires b == [] || !IsWhitespace(b[0])
    ensures TrimStart(w + b) == b
  {
    if w == [] {
      assert w + b == b;
    } else {
      assert (w + b)[1..] == w[1..] + b;
      TrimStartRun(w[1..], b);
    }
  }

  /** A whole whitespace run becomes one `_`, however long it is. */
  lemma UnderscoreRun(w: string, b: string)
    requires w != [] && AllWhitespace(w)
    requires b == [] || !IsWhitespace(b[0])
    ensures UnderscoreRuns(w + b) == "_" + UnderscoreRuns(b)
  {
    assert (w + b)[0] == w[0];
    TrimStartRun(w, b);
  }

  /** Text that is not whitespace at its end, followed by anything, is
      replaced piece by piece. */
  lemma {:induction false} UnderscoreAppend(a: string, b: string)
    requires a == [] || !IsWhitespace(a[|a| - 1])
    ensures UnderscoreRuns(a + b) == UnderscoreRuns(a) + UnderscoreRuns(b)
    decreases |a|
  {
    if a == [] {
      assert a + b == b;
    } else if !IsWhitespace(a[0]) {
      assert (a + b)[0] == a[0];
      assert (a + b)[1..] == a[1..] + b;
      UnderscoreAppend(a[1..], b);
    } else {
      var rest := TrimStart(a);
      TrimStartDropsPrefix(a);
      var w := a[..|a| - |rest|];
      assert a == w + rest;
      assert a + b == w + (rest + b);
      assert w != [];
      assert a[|a| - 1] == (w + rest)[|a| - 1];
      assert rest != [];
      UnderscoreRun(w, rest + b);
      UnderscoreRun(w, rest);
      assert rest[|rest| - 1] == a[|a| - 1];
      TrimStartShrinks(a);
      UnderscoreAppend(rest, b);
    }
  }

  /** The PDF's file name. */
  function PdfFilename(lessonTitle: string): (r: string)
    ensures |r| >= |FilenameSuffix|
    ensures r[|r| - |FilenameSuffix|..] == FilenameSuffix
    ensures NoWhitespace(r[..|r| - |FilenameSuffix|])
    ensures r[..|r| - |FilenameSuffix|] == UnderscoreRuns(lessonTitle)
  {
    var stem := UnderscoreRuns(lessonTitle);
    assert (stem + FilenameSuffix)[..|stem|] == stem;
    stem + FilenameSuffix
  }

  /** A word, then a whitespace run: the word stays, the run becomes `_`. */
  lemma UnderscoreWord(x: string, w: string, y: string)
    requires x != [] && NoWhitespace(x)
    requires w != [] && AllWhitespace(w)
    requires y == [] || !IsWhitespace(y[0])
    ensures UnderscoreRuns(x + (w + y)) == x + ("_" + UnderscoreRuns(y))
  {
    UnderscoreKeepsPlain(x);
    UnderscoreAppend(x, w + y);
    UnderscoreRun(w, y);
  }

  /** A title with a double space. */
  lemma PdfFilenameExample(title: string)
    requires title == "Intro  Dafny"
    ensures PdfFilename(title) == "Intro" + "_" + "Dafny" + "_Summary.pdf"
  {
    var intro, dafny := "Intro", "Dafny";
    assert UnderscoreRuns(title) == intro + ("_" + dafny) by {
      assert title == intro + ("  " + dafny);
      UnderscoreKeepsPlain(dafny);
      UnderscoreWord(intro, "  ", dafny);
    }
  }

  // ---------------------------------------------------------------------
  // The panel
  // ---------------------------------------------------------------------

  /** How the call to the summarization action ended: with its result
      record, or with an exception (the action itself never throws, but
      the call to it can fail). */
  datatype CallOutcome = Returned(result: SummaryResult) | CallThrew

  /** Whether an outcome carries a summary the panel keeps: a successful
      result whose summary is truthy. */
  predicate Keeps(outcome: CallOutcome) {
    outcome.Returned? && outcome.result.Success? && outcome.result.summary != ""
  }

  /** The error shown for an outcome that carries no summary: the result's
      error when it is truthy, a fixed message otherwise, and another fixed
      message when the call threw. */
  function FailureMessage(outcome: CallOutcome): (r: string)
    ensures r != ""
    ensures outcome.CallThrew? ==> r == UnexpectedError
    ensures outcome.Returned? && outcome.result.Failure? && outcome.result.error != "" ==> r == outcome.result.error
    ensures outcome.Returned? && !(outcome.result.Failure? && outcome.result.error != "") ==> r == DefaultError
  {
    match outcome
    case CallThrew => UnexpectedError
    case Returned(result) =>
      Or(if result.Failure? then Some(result.error) else None, DefaultError)
  }

  /** What the panel shows: the summary, the loading flag and the error. */
  datatype View = View(summary: Option<string>, loading: bool, error: Option<string>)

  /** The document `downloadPDF` saves: a heading, the stripped text and a
      file name. */
  datatype PdfDoc = PdfDoc(heading: string, body: string, filename: string)

  class SummaryPanel {
    const lessonId: string
    const lessonTitle: string
    var summary: Option<string>
    var loading: bool
    var error: Option<string>
    /** The states rendered so far, in order. */
    ghost var views: seq<View>

    constructor(lessonId: string, lessonTitle: string)
      ensures this.lessonId == lessonId && this.lessonTitle == lessonTitle
      ensures summary == None && !loading && error == None && views == []
    {
      this.lessonId := lessonId;
      this.lessonTitle := lessonTitle;
      summary := None;
      loading := false;
      error := None;
      views := [];
    }

    /** `handleSummarize`: loading starts and the error is cleared while the
        call is pending; then a kept summary replaces the old one, or the
        error is set and the old summary stays; loading ends either way. */
    method HandleSummarize(outcome: CallOutcome)
      modifies this
      ensures Keeps(outcome) ==> summary == Some(outcome.result.summary) && error == None
      ensures !Keeps(outcome) ==> summary == old(summary) && error == Some(FailureMessage(outcome))
      ensures !loading
      ensures views == old(views) + [View(old(summary), true, None), View(summary, false, error)]
    {
      loading := true;
      error := None;
      views := views + [View(summary, loading, error)];
      match outcome {
        case CallThrew =>
          error := Some(UnexpectedError);
        case Returned(result) =>
          if result.Success? && result.summary != "" {
            summary := Some(result.summary);
          } else {
            var message := if result.Failure? then result.error else "";
            error := Some(if message != "" then message else DefaultError);
          }
      }
      loading := false;
      views := views + [View(summary, loading, error)];
    }

    /** "Clear and summarize again". */
    method ClearSummary()
      modifies this
      ensures summary == None
      ensures loading == old(loading) && error == old(error)
      ensures views == old(views) + [View(None, loading, error)]
      ensures DownloadPdf() == None
    {
      summary := None;
      views := views + [View(summary, loading, error)];
    }

    /** `downloadPDF`: nothing without a truthy summary; otherwise the
        document with the lesson heading, the stripped summary and the file
        name derived from the title. */
    function DownloadPdf(): (r: Option<PdfDoc>)
      reads this
      ensures r.None? <==> !Truthy(summary)
      ensures r.Some? ==>
        && HeadingPrefix <= r.value.heading
        && r.value.heading[|HeadingPrefix|..] == lessonTitle
        && r.value.body == CleanText(summary.value)
        && r.value.filename == PdfFilename(lessonTitle)
    {
      if !Truthy(summary) then None
      else Some(PdfDoc(HeadingPrefix + lessonTitle, CleanText(summary.value), PdfFilename(lessonTitle)))
    }
  }
}
