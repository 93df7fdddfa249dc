/**
 * Page-text concatenation of `extract_text_from_pdf`. The PDF library is
 * abstracted: opening and parsing the file either fails with a message or
 * yields the pages, and each page's text extraction either fails with a
 * message or yields the page's text, which may be `None`.
 */
module PdfText {
  import opened Wrappers

  datatype PageText = Extracted(text: Option<string>) | ExtractFailed(reason: string)

  /** Every failure is re-raised with this prefix in front of its message. */
  const FailurePrefix: string := "Failed to extract text from PDF: "

  /** What one page adds: its text and one space, or nothing for `None` or "". */
  function Contribution(page: PageText): (s: string)
    ensures s == "" <==> !(page.Extracted? && page.text.Some? && page.text.value != "")
    ensures s != "" ==> s == page.text.value + " "
  {
    match page
    case Extracted(Some(t)) => if t != "" then t + " " else ""
    case _ => ""
  }

  /** The text the loop accumulates over `pages`, in page order. */
  function JoinPages(pages: seq<PageText>): string
  {
    if pages == [] then "" else Contribution(pages[0]) + JoinPages(pages[1..])
  }

  /** The index of the first page whose extraction fails, if any. */
  function FirstFailure(pages: seq<PageText>): (k: Option<nat>)
    ensures k.Some? ==> k.value < |pages| && pages[k.value].ExtractFailed?
    ensures k.Some? ==> forall j :: 0 <= j < k.value ==> pages[j].Extracted?
    ensures k.None? <==> forall j :: 0 <= j < |pages| ==> pages[j].Extracted?
  {
    if pages == [] then None
    else if pages[0].ExtractFailed? then Some(0)
    else match FirstFailure(pages[1..])
      case None => None
      case Some(j) => Some(j + 1)
  }

  /**
   * The outcome `extract_text_from_pdf` promises for a given reader outcome:
   * text exactly when the file opened and every page extracted, and otherwise
   * a message behind the fixed prefix.
   */
  function ExtractedText(reader: Result<seq<PageText>, string>): (r: Result<string, string>)
    ensures r.Success? <==> reader.Success? && forall j :: 0 <= j < |reader.value| ==> reader.value[j].Extracted?
    ensures r.Success? ==> r.value == JoinPages(reader.value)
    ensures r.Failure? ==> |FailurePrefix| <= |r.error| && r.error[..|FailurePrefix|] == FailurePrefix
    ensures reader.Failure? ==> r.error == FailurePrefix + reader.error
    ensures reader.Success? && FirstFailure(reader.value).Some? ==>
      r.error == FailurePrefix + reader.value[FirstFailure(reader.value).value].reason
  {
    match reader
    case Failure(e) => Failure(FailurePrefix + e)
    case Success(pages) =>
      match FirstFailure(pages)
      case Some(k) => Failure(FailurePrefix + pages[k].reason)
      case None => Success(JoinPages(pages))
  }

  /** The extraction loop: append each non-empty page text and a space. */
  method ExtractText(reader: Result<seq<PageText>, string>) returns (r: Result<string, string>)
    ensures r == ExtractedText(reader)
  {
    if reader.Failure? {
      return Failure(FailurePrefix + reader.error);
    }
    var pages := reader.value;
    var text := "";
    var i := 0;
    while i < |pages|
      invariant 0 <= i <= |pages|
      invariant text == JoinPages(pages[..i])
      invariant forall j :: 0 <= j < i ==> pages[j].Extracted?
    {
      match pages[i]
      case ExtractFailed(reason) =>
        FirstFailureAt(pages, i);
        return Failure(FailurePrefix + reason);
      case Extracted(pageText) =>
        ExtendByPage(pages, i, text);
        if pageText.Some? && pageText.value != "" {
          text := text + (pageText.value + " ");
        }
        i := i + 1;
    }
    assert pages[..i] == pages;
    AllExtractedGivesText(pages);
    return Success(text);
  }

  /** A failing page after a run of extracted pages is the first failure. */
  lemma FirstFailureAt(pages: seq<PageText>, i: int)
    requires 0 <= i < |pages| && pages[i].ExtractFailed?
    requires forall j :: 0 <= j < i ==> pages[j].Extracted?
    ensures FirstFailure(pages) == Some(i)
  {
    var k := FirstFailure(pages);
    assert k.Some?;
    assert !(k.value < i) && !(i < k.value);
  }

  /** When every page extracted, the outcome is the joined text. */
  lemma AllExtractedGivesText(pages: seq<PageText>)
    requires forall j :: 0 <= j < |pages| ==> pages[j].Extracted?
    ensures ExtractedText(Success(pages)) == Success(JoinPages(pages))
  {
    assert FirstFailure(pages).None?;
  }

  /** One step of the loop: page `i` of an extracted run adds its text and a space, or nothing. */
  lemma ExtendByPage(pages: seq<PageText>, i: int, text: string)
    requires 0 <= i < |pages| && pages[i].Extracted?
    requires text == JoinPages(pages[..i])
    ensures var t := pages[i].text;
      if t.Some? && t.value != "" then text + (t.value + " ") == JoinPages(pages[..i + 1])
      else text == JoinPages(pages[..i + 1])
  {
    JoinPagesExtend(pages, i);
    var t := pages[i].text;
    if t.Some? && t.value != "" {
      assert Contribution(pages[i]) == t.value + " ";
    } else {
      assert Contribution(pages[i]) == "";
    }
  }

  /** Joining splits over concatenation of page lists. */
  lemma {:induction false} JoinPagesAppend(a: seq<PageText>, b: seq<PageText>)
    ensures JoinPages(a + b) == JoinPages(a) + JoinPages(b)
  {
    if a == [] {
      assert a + b == b;
    } else {
      assert (a + b)[1..] == a[1..] + b;
      JoinPagesAppend(a[1..], b);
    }
  }

  /** The text after `i + 1` pages is the text after `i` pages and page `i`'s contribution. */
  lemma JoinPagesExtend(pages: seq<PageText>, i: int)
    requires 0 <= i < |pages|
    ensures JoinPages(pages[..i + 1]) == JoinPages(pages[..i]) + Contribution(pages[i])
  {
    assert pages[..i + 1] == pages[..i] + [pages[i]];
    JoinPagesAppend(pages[..i], [pages[i]]);
  }

  /** The extracted text is empty exactly when no page has non-empty text. */
  lemma {:induction false} JoinPagesEmptyIff(pages: seq<PageText>)
    ensures JoinPages(pages) == "" <==> forall j :: 0 <= j < |pages| ==> Contribution(pages[j]) == ""
  {
    if pages != [] {
      JoinPagesEmptyIff(pages[1..]);
      assert forall j :: 0 < j < |pages| ==> pages[1..][j - 1] == pages[j];
    }
  }

  /** Page `k` contributes its text at its own place, between the pages before and after it. */
  lemma {:induction false} PageInPlace(pages: seq<PageText>, k: int)
    requires 0 <= k < |pages|
    ensures JoinPages(pages) == JoinPages(pages[..k]) + Contribution(pages[k]) + JoinPages(pages[k + 1..])
  {
    var before, rest := pages[..k], pages[k..];
    assert pages == before + rest;
    JoinPagesAppend(before, rest);
    assert rest[0] == pages[k] && rest[1..] == pages[k + 1..];
    assert JoinPages(rest) == Contribution(pages[k]) + JoinPages(pages[k + 1..]);
  }

  /** Non-empty extracted text always ends in the separating space. */
  lemma {:induction false} JoinPagesEndsWithSpace(pages: seq<PageText>)
    requires JoinPages(pages) != ""
    ensures JoinPages(pages)[|JoinPages(pages)| - 1] == ' '
  {
    if JoinPages(pages[1..]) != "" {
      JoinPagesEndsWithSpace(pages[1..]);
    }
  }

  /** A document without pages gives the empty text, not an error. */
  lemma NoPagesGiveEmptyText()
    ensures ExtractedText(Success([])) == Success("")
  {
  }
}
