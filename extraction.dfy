/**
 * The text-normalisation half of `_extract_text_from_pdf`. Parsing the PDF
 * is not modelled: its result, one optional text per page as
 * `page.extract_text()` returns it, is the input.
 */
module Extraction {
  import opened Outcomes
  import opened PyStr
  import opened SeqFacts

  /** `page.extract_text() or ""` */
  function PageText(page: Option<string>): string
  {
    page.GetOr("")
  }

  /** The `text_parts` list: each page's text, in page order. */
  function PageTexts(pages: seq<Option<string>>): (parts: seq<string>)
    ensures |parts| == |pages|
    ensures forall i :: 0 <= i < |pages| ==> parts[i] == PageText(pages[i])
  {
    seq(|pages|, i requires 0 <= i < |pages| => PageText(pages[i]))
  }

  /** `" ".join(" ".join(parts).split())`: empty exactly when every part is blank. */
  function NormalizeWhitespace(parts: seq<string>): (text: string)
    ensures text == "" <==> forall i :: 0 <= i < |parts| ==> AllSpace(parts[i])
  {
    WordsOfJoinedParts(parts);
    AllWordsEmpty(parts);
    JoinWordsEmpty(Words(Join(" ", parts)));
    Join(" ", Words(Join(" ", parts)))
  }

  /** `_extract_text_from_pdf`, after the pages have been read (rag_logic.py:19-29). */
  function ExtractText(pages: seq<Option<string>>): (r: Result<string, Error>)
    ensures r.Ok? ==> r.value != ""
  {
    if |pages| == 0 then Err(NoPages)
    else
      var text := NormalizeWhitespace(PageTexts(pages));
      if text == "" then Err(NoExtractableText) else Ok(text)
  }

  /** `_extract_text_from_pdf`, with the loop that collects the page texts. */
  method ExtractTextFromPdf(pages: seq<Option<string>>) returns (r: Result<string, Error>)
    ensures r == ExtractText(pages)
  {
    if |pages| == 0 {
      return Err(NoPages);
    }
    var textParts: seq<string> := [];
    for i := 0 to |pages|
      invariant |textParts| == i
      invariant forall k :: 0 <= k < i ==> textParts[k] == PageText(pages[k])
    {
      var pageText := pages[i].GetOr("");
      textParts := textParts + [pageText];
    }
    assert textParts == PageTexts(pages);
    var text := Join(" ", textParts);
    text := Join(" ", Words(text));
    if text == "" {
      return Err(NoExtractableText);
    }
    return Ok(text);
  }

  /** Joining parts with spaces yields exactly the parts' words, in order. */
  lemma {:induction false} WordsOfJoinedParts(parts: seq<string>)
    ensures Words(Join(" ", parts)) == AllWords(parts)
  {
    if |parts| == 1 {
      assert AllWords(parts[1..]) == [];
      assert Words(parts[0]) + [] == Words(parts[0]);
    } else if |parts| > 1 {
      WordsAroundSpace(parts[0], Join(" ", parts[1..]));
      WordsOfJoinedParts(parts[1..]);
    }
  }

  /** The parts have no words exactly when every part is blank. */
  lemma {:induction false} AllWordsEmpty(parts: seq<string>)
    ensures AllWords(parts) == [] <==> forall i :: 0 <= i < |parts| ==> AllSpace(parts[i])
  {
    if parts != [] {
      var rest := parts[1..];
      WordsEmpty(parts[0]);
      AllWordsEmpty(rest);
      assert |AllWords(parts)| == |Words(parts[0])| + |AllWords(rest)|;
      if forall i :: 0 <= i < |parts| ==> AllSpace(parts[i]) {
        assert AllSpace(parts[0]);
        forall i | 0 <= i < |rest| ensures AllSpace(rest[i]) {
          assert rest[i] == parts[i + 1];
        }
      } else if AllSpace(parts[0]) {
        forall i | 0 < i < |parts| ensures parts[i] == rest[i - 1] { }
      }
    }
  }

  /**
   * The normalised text is the words of all the parts, in order, joined by
   * single spaces: its own words are those words, and normalising it again
   * changes nothing.
   */
  lemma NormalizeWhitespaceWords(parts: seq<string>)
    ensures Words(NormalizeWhitespace(parts)) == AllWords(parts)
    ensures NormalizeWhitespace(parts) == Join(" ", AllWords(parts))
    ensures NormalizeWhitespace([NormalizeWhitespace(parts)]) == NormalizeWhitespace(parts)
  {
    WordsOfJoinedParts(parts);
    var words := AllWords(parts);
    WordsOfJoin(words);
  }

  /**
   * `_extract_text_from_pdf` fails with "no pages" exactly when there are no
   * pages, and with "no extractable text" exactly when every page's text is
   * missing or blank; otherwise its text is the pages' words joined by
   * single spaces.
   */
  lemma ExtractTextOutcome(pages: seq<Option<string>>)
    ensures ExtractText(pages) == Err(NoPages) <==> pages == []
    ensures ExtractText(pages) == Err(NoExtractableText)
      <==> pages != [] && forall i :: 0 <= i < |pages| ==> AllSpace(PageText(pages[i]))
    ensures ExtractText(pages).Ok? ==>
      ExtractText(pages).value == Join(" ", AllWords(PageTexts(pages)))
  {
    var parts := PageTexts(pages);
    NormalizeWhitespaceWords(parts);
    AllWordsEmpty(parts);
    var words := AllWords(parts);
    JoinWordsEmpty(words);
  }
}
