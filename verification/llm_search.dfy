/** Web-search augmentation of `src/llm.py`: the scraped results page is
    summarised as text and appended to the outgoing message. The HTTP
    request and the HTML parse are an oracle: their outcome is the
    `Fetch` value below. */
module LlmSearch {
  import opened Wrappers
  import opened Text

  /** One `div.g` of the results page: its first link (anchor text, href)
      if any, and the text of its `div.s` snippet if any. */
  datatype ResultDiv = ResultDiv(link: Option<(string, string)>, snippet: Option<string>)

  /** What fetching and parsing the results page produced. */
  datatype Fetch =
    | Fetched(divs: seq<ResultDiv>)
    | RequestError(message: string)     // a `requests` exception
    | ProcessingError(message: string)  // any other exception

  /** The "simple summarization": the stripped snippet up to its first
      ". ", followed by ".", or nothing when there is no snippet. */
  function Summary(snippet: Option<string>): (r: string)
    ensures snippet.None? ==> r == ""
    ensures snippet.Some? ==> |r| > 0 && r[|r| - 1] == '.'
  {
    match snippet
    case None => ""
    case Some(s) => Split(Strip(s), ". ")[0] + "."
  }

  /** The summary keeps the beginning of the snippet and stops before its
      first sentence break. */
  lemma SummaryIsFirstSentence(s: string)
    ensures var r := Summary(Some(s));
      && r[..|r| - 1] <= Strip(s)
      && !Contains(r[..|r| - 1], ". ")
  {
    var head := Split(Strip(s), ". ")[0];
    SplitHead(Strip(s), ". ");
    assert (head + ".")[..|head|] == head;
  }

  /** The line written for one result. */
  function FormatHit(title: string, url: string, snippet: Option<string>): (r: string)
    ensures StartsWith(r, "- ") && |r| > 0 && r[|r| - 1] == '\n'
  {
    "- " + Strip(title) + " (" + url + ")\nSummary: " + Summary(snippet) + "\n"
  }

  /** `"".join(results)` over the divs that have a link. */
  function FormatResults(divs: seq<ResultDiv>): string {
    if |divs| == 0 then ""
    else
      var rest := FormatResults(divs[1..]);
      match divs[0].link
      case None => rest
      case Some(l) => FormatHit(l.0, l.1, divs[0].snippet) + rest
  }

  /** The summary is empty exactly when no result carries a link. */
  lemma {:induction false} FormatResultsEmpty(divs: seq<ResultDiv>)
    ensures FormatResults(divs) == "" <==> forall i :: 0 <= i < |divs| ==> divs[i].link.None?
  {
    if |divs| > 0 {
      FormatResultsEmpty(divs[1..]);
      assert forall i :: 1 <= i < |divs| ==> divs[i] == divs[1..][i - 1];
    }
  }

  /** `perform_web_search`: the summary, or the exception's text behind a
      fixed prefix. */
  function PerformWebSearch(f: Fetch): (r: string)
    ensures f.RequestError? ==> StartsWith(r, "Error performing web search: ")
    ensures f.ProcessingError? ==> StartsWith(r, "Error processing web search results: ")
  {
    match f
    case Fetched(divs) => FormatResults(divs)
    case RequestError(e) => "Error performing web search: " + e
    case ProcessingError(e) => "Error processing web search results: " + e
  }

  /** The message `send_message` and `send_message_stream` pass on. */
  function AugmentMessage(message: string, enabled: bool, f: Fetch): (r: string)
    ensures message <= r
  {
    if enabled then
      var result := PerformWebSearch(f);
      if result != "" then message + "\n\nWeb Search Results:\n" + result else message
    else message
  }

  /** The message goes out unchanged exactly when the search is off or its
      result is empty; otherwise the result follows the fixed header. */
  lemma AugmentUnchanged(message: string, enabled: bool, f: Fetch)
    ensures AugmentMessage(message, enabled, f) == message <==> !enabled || PerformWebSearch(f) == ""
    ensures enabled && PerformWebSearch(f) != "" ==>
      AugmentMessage(message, enabled, f)[|message|..] == "\n\nWeb Search Results:\n" + PerformWebSearch(f)
  {
    if enabled && PerformWebSearch(f) != "" {
      var res := PerformWebSearch(f);
      var tail := "\n\nWeb Search Results:\n" + res;
      var r := message + tail;
      assert AugmentMessage(message, enabled, f) == r;
      assert r[|message|..] == tail;
      assert |r| > |message|;
    }
  }

  /** A failed search is not skipped: its error text is appended to the
      message like a result. */
  lemma SearchFailureAugments(message: string, f: Fetch)
    requires f.RequestError? || f.ProcessingError?
    ensures AugmentMessage(message, true, f) != message
  {
    AugmentUnchanged(message, true, f);
  }
}
