/**
 * The loaded tweet page as the extractor sees it through the browser: for every CSS selector
 * it queries, the list of elements `find_elements` returns, in document order.
 */
module Page {
  import opened Json

  /** An element as the extractor reads it: its visible text, its `src` attribute (None when
      the attribute is absent) and the texts of the `span`s that follow it as siblings
      (the `./following-sibling::span` query). */
  datatype Element = Element(text: string, src: Option<string>, followingSpans: seq<string>)

  /** The CSS selectors the extractor queries, in the order the source names them. */
  datatype Selector =
    | TweetArticle
    | UserNameSpan | LinkedNameSpan | UserNameFirstSpan
    | TweetTextDiv | LangDiv
    | ReplyButton | RetweetButton | LikeButton | ViewsLink
    | ImageTag

  /** The CSS text of each selector. */
  function Css(s: Selector): string {
    match s
    case TweetArticle => "article[data-testid=\"tweet\"]"
    case UserNameSpan => "article[data-testid=\"tweet\"] div[data-testid=\"User-Name\"] span.css-901oao.css-16my406.r-poiln3.r-bcqeeo.r-qvutc0"
    case LinkedNameSpan => "article[data-testid=\"tweet\"] a[role=\"link\"] div[dir=\"auto\"] span span"
    case UserNameFirstSpan => "article[data-testid=\"tweet\"] div[data-testid=\"User-Name\"] > div:first-child > div:first-child span"
    case TweetTextDiv => "article[data-testid=\"tweet\"] div[data-testid=\"tweetText\"]"
    case LangDiv => "article[data-testid=\"tweet\"] div[lang]"
    case ReplyButton => "article[data-testid=\"tweet\"] div[data-testid=\"reply\"]"
    case RetweetButton => "article[data-testid=\"tweet\"] div[data-testid=\"retweet\"]"
    case LikeButton => "article[data-testid=\"tweet\"] div[data-testid=\"like\"]"
    case ViewsLink => "article[data-testid=\"tweet\"] a[aria-label*=\"view\"]"
    case ImageTag => "article[data-testid=\"tweet\"] img[alt=\"Image\"]"
  }

  /** A loaded page: the match lists of the selectors that match something, and the date
      `_extract_date` derives from it (already formatted, or "" when there is none). */
  datatype Page = Page(matches: map<Selector, seq<Element>>, createdAt: string)

  /** `driver.find_elements(By.CSS_SELECTOR, Css(selector))`: empty when nothing matches. */
  function FindElements(page: Page, selector: Selector): seq<Element> {
    if selector in page.matches then page.matches[selector] else []
  }

  /** What `driver.get(url)` leaves: the page, or a failed load (a timeout or other error). */
  datatype PageLoad = LoadFails | Loaded(page: Page)

  /** The element the extractor waits for before reading anything. */
  const TWEET_SELECTOR := TweetArticle

  /** The author-name selectors, in the order they are tried. */
  const AUTHOR_SELECTORS := [UserNameSpan, LinkedNameSpan, UserNameFirstSpan]

  /** The tweet-text selectors, in the order they are tried. */
  const TEXT_SELECTORS := [TweetTextDiv, LangDiv]

  const REPLY_SELECTOR := ReplyButton
  const RETWEET_SELECTOR := RetweetButton
  const LIKE_SELECTOR := LikeButton
  const VIEW_SELECTOR := ViewsLink
  const IMAGE_SELECTOR := ImageTag
}
