/**
 * `_extract_author_name` and `_extract_tweet_text`: try a list of selectors in order and take
 * the stripped text of the first element of the first selector that matches anything.
 */
module Extractors {
  import opened Text
  import opened Json
  import opened Page

  /** The index of the first selector at or after `from` whose match list is non-empty. */
  function FirstMatchingFrom(page: Page, selectors: seq<Selector>, from: nat): (r: Option<nat>)
    requires from <= |selectors|
    ensures r.Some? ==> from <= r.value < |selectors| && FindElements(page, selectors[r.value]) != []
                        && forall j :: from <= j < r.value ==> FindElements(page, selectors[j]) == []
    ensures r.None? ==> forall j :: from <= j < |selectors| ==> FindElements(page, selectors[j]) == []
    decreases |selectors| - from
  {
    if from == |selectors| then None
    else if FindElements(page, selectors[from]) != [] then Some(from)
    else FirstMatchingFrom(page, selectors, from + 1)
  }

  /** The text the fallback chain yields: the first matching selector's first element, stripped,
      or "" when no selector matches. */
  function FirstMatchText(page: Page, selectors: seq<Selector>): string {
    match FirstMatchingFrom(page, selectors, 0)
    case None => ""
    case Some(i) => Strip(FindElements(page, selectors[i])[0].text)
  }

  /** The selector loop with its early return. */
  method ExtractFirstMatch(page: Page, selectors: seq<Selector>) returns (text: string)
    ensures text == FirstMatchText(page, selectors)
  {
    var k := 0;
    while k < |selectors|
      invariant 0 <= k <= |selectors|
      invariant FirstMatchingFrom(page, selectors, k) == FirstMatchingFrom(page, selectors, 0)
    {
      var elements := FindElements(page, selectors[k]);
      if elements != [] {
        return Strip(elements[0].text);
      }
      k := k + 1;
    }
    return "";
  }

  /** `_extract_author_name` */
  method ExtractAuthorName(page: Page) returns (name: string)
    ensures name == FirstMatchText(page, AUTHOR_SELECTORS)
    ensures name != [] ==> !IsSpace(name[0]) && !IsSpace(name[|name| - 1])
  {
    name := ExtractFirstMatch(page, AUTHOR_SELECTORS);
  }

  /** `_extract_tweet_text` */
  method ExtractTweetText(page: Page) returns (text: string)
    ensures text == FirstMatchText(page, TEXT_SELECTORS)
    ensures text != [] ==> !IsSpace(text[0]) && !IsSpace(text[|text| - 1])
  {
    text := ExtractFirstMatch(page, TEXT_SELECTORS);
  }
}
