/** The pure parts of the home page: how a stored URL is made absolute
    before it is opened, and which of a category's links its card shows. */
module HomePage {
  import opened JsText

  const MAX_VISIBLE_LINKS: nat := 6

  predicate HasScheme(url: string) {
    StartsWith(url, "http://") || StartsWith(url, "https://")
  }

  /** `normalizeUrl`: the empty URL stays empty, a URL with an http or https
      scheme is kept, and any other URL is taken to be https. */
  function NormalizeUrl(url: string): (r: string)
    ensures url == "" <==> r == ""
    ensures url != "" ==> HasScheme(r)
    ensures r == url || r == "https://" + url
    ensures HasScheme(url) ==> r == url
  {
    if url == "" then ""
    else if HasScheme(url) then url
    else
      assert ("https://" + url)[..|"https://"|] == "https://";
      "https://" + url
  }

  /** Normalising twice is normalising once. */
  lemma NormalizeUrlIdempotent(url: string)
    ensures NormalizeUrl(NormalizeUrl(url)) == NormalizeUrl(url)
  {
  }

  /** The links a category card shows: all of them when expanded, else the
      first `MAX_VISIBLE_LINKS` (`slice(0, MAX_VISIBLE_LINKS)`). */
  function VisibleLinks<T>(links: seq<T>, expanded: bool): (r: seq<T>)
    ensures expanded ==> r == links
    ensures !expanded ==> |r| == (if |links| <= MAX_VISIBLE_LINKS then |links| else MAX_VISIBLE_LINKS)
    ensures |r| <= |links| && r == links[..|r|]
  {
    if expanded || |links| <= MAX_VISIBLE_LINKS then links else links[..MAX_VISIBLE_LINKS]
  }

  /** Whether the card shows its "Show N more" / "Show less" button. */
  predicate HasMoreLinks<T>(links: seq<T>) {
    |links| > MAX_VISIBLE_LINKS
  }

  /** The button is shown exactly when the collapsed card hides a link,
      and the number of hidden links it announces is then at least one. */
  lemma ButtonShownIffLinksHidden<T>(links: seq<T>)
    ensures HasMoreLinks(links) <==> VisibleLinks(links, false) != links
    ensures HasMoreLinks(links) ==> |links| - MAX_VISIBLE_LINKS >= 1
    ensures HasMoreLinks(links) ==> |links| - MAX_VISIBLE_LINKS == |links| - |VisibleLinks(links, false)|
  {
    if HasMoreLinks(links) {
      assert |VisibleLinks(links, false)| < |links|;
    }
  }
}
