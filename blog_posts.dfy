/** The public post listing, `GET /api/blog/posts`: published posts,
    optionally only featured ones or only those with a given tag, newest
    publication first, one page at a time, each with a reading time. */
module BlogPosts {
  import opened Auth
  import opened JsText
  import opened Ordering
  import opened AdminBlogPosts

  const DEFAULT_LIMIT: int := 10
  const DEFAULT_PAGE: int := 1
  const WORDS_PER_MINUTE: nat := 200

  /** The query string, with `limit` and `page` already through `parseInt`:
      None stands for a parameter that is absent or empty, so that the
      default applies. */
  datatype Query = Query(limit: Option<int>, page: Option<int>, tag: Option<string>, featured: Option<string>)

  /** `limit` and `page` once the defaults are applied. */
  function Limit(q: Query): int {
    q.limit.GetOr(DEFAULT_LIMIT)
  }

  function Page(q: Query): int {
    q.page.GetOr(DEFAULT_PAGE)
  }

  /** `searchParams.get(...) || "10"` and `|| "1"`: a given value is kept,
      an absent or empty one gives 10 rows per page and page 1. */
  lemma QueryDefaults(q: Query)
    ensures q.limit.Some? ==> Limit(q) == q.limit.value
    ensures q.limit.None? ==> Limit(q) == 10
    ensures q.page.Some? ==> Page(q) == q.page.value
    ensures q.page.None? ==> Page(q) == 1
  {
  }

  /** `(page - 1) * limit`. */
  function Skip(q: Query): (r: nat)
    requires Limit(q) >= 1 && Page(q) >= 1
    ensures r == (Page(q) - 1) * Limit(q)
  {
    MulMonotone(0, Page(q) - 1, Limit(q));
    (Page(q) - 1) * Limit(q)
  }

  /** The `where` object: `published: true` always, plus `featured: true`
      and `tags: { some: { slug } }` when they were added. */
  datatype Where = Where(featured: bool, tag: Option<string>)

  /** The rows the database returns for a `where` object. */
  predicate Matches(w: Where, p: Post) {
    && p.published
    && (w.featured ==> p.featured)
    && (w.tag.Some? ==> exists t :: t in p.tags && t.slug == w.tag.value)
  }

  /** What the query asks for: published posts, featured ones when
      `featured=true`, and ones carrying a tag with the given slug when a
      non-empty `tag` is given. */
  predicate Wanted(q: Query, p: Post) {
    && p.published
    && (q.featured == Some("true") ==> p.featured)
    && (Present(q.tag) ==> exists t :: t in p.tags && t.slug == q.tag.value)
  }

  /** Builds the `where` object field by field, as the handler does. */
  method BuildWhere(q: Query) returns (w: Where)
    ensures forall p :: Matches(w, p) <==> Wanted(q, p)
  {
    w := Where(false, None);
    if q.featured == Some("true") {
      w := w.(featured := true);
    }
    if Present(q.tag) {
      w := w.(tag := q.tag);
    }
  }

  /** `findMany({ where })` before ordering and paging: each row as often
      as the table holds it when it matches, and not at all otherwise. */
  function Filter(w: Where, posts: seq<Post>): (r: seq<Post>)
    ensures forall i :: 0 <= i < |r| ==> Matches(w, r[i])
    ensures forall p :: multiset(r)[p] == if Matches(w, p) then multiset(posts)[p] else 0
  {
    if posts == [] then []
    else
      assert posts == [posts[0]] + posts[1..];
      (if Matches(w, posts[0]) then [posts[0]] else []) + Filter(w, posts[1..])
  }

  /** `orderBy: { publishedAt: "desc" }`; a post without a publication time
      sorts below every timestamp, as NULL does in a descending SQLite order. */
  function PublishedAtKey(p: Post): int {
    match p.publishedAt
    case Some(t) => t
    case None => -1
  }

  /** Published posts sort by their publication time, and every published
      post sorts above every post without one. */
  lemma PublishedAtKeyOrder(p: Post, q: Post)
    ensures p.publishedAt.Some? && q.publishedAt.Some? ==>
              (PublishedAtKey(p) >= PublishedAtKey(q) <==> p.publishedAt.value >= q.publishedAt.value)
    ensures p.publishedAt.Some? && q.publishedAt.None? ==> PublishedAtKey(p) > PublishedAtKey(q)
  {
  }

  function Min(a: int, b: int): int {
    if a <= b then a else b
  }

  /** `skip` and `take`: at most `take` rows, starting at row `skip`. */
  function Window<T>(s: seq<T>, skip: nat, take: nat): (r: seq<T>)
    ensures |r| == if skip >= |s| then 0 else Min(take, |s| - skip)
    ensures forall i :: 0 <= i < |r| ==> r[i] == s[skip + i]
  {
    if skip >= |s| then [] else s[skip..skip + Min(take, |s| - skip)]
  }

  /** `Math.ceil(a / b)` for a non-negative `a` and a positive `b`. */
  function CeilDiv(a: nat, b: nat): (r: nat)
    requires b >= 1
    ensures r * b >= a && r * b < a + b
  {
    var q := (a + b - 1) / b;
    assert a + b - 1 == q * b + (a + b - 1) % b;
    q
  }

  lemma MulMonotone(x: int, y: int, b: nat)
    ensures x <= y ==> x * b <= y * b
  {
    if x <= y {
      assert y * b == x * b + (y - x) * b;
    }
  }

  /** Only one number is the ceiling. */
  lemma CeilDivUnique(a: nat, b: nat, r: nat)
    requires b >= 1
    requires r * b >= a && r * b < a + b
    ensures r == CeilDiv(a, b)
  {
    var c := CeilDiv(a, b);
    MulMonotone(c + 1, r, b);
    MulMonotone(r + 1, c, b);
  }

  /** `Math.ceil(content.split(/\s+/).length / 200)`. */
  function ReadingTime(content: string): (r: nat)
    ensures r >= 1
    ensures r * WORDS_PER_MINUTE >= 1 + WhitespaceRuns(content)
    ensures (r - 1) * WORDS_PER_MINUTE < 1 + WhitespaceRuns(content)
  {
    SplitCount(content);
    CeilDiv(|Split(content)|, WORDS_PER_MINUTE)
  }

  /** A post as the listing sends it: the row plus `reading_time`. */
  datatype PostWithMeta = PostWithMeta(post: Post, readingTime: nat)

  datatype Meta = Meta(total: nat, page: int, limit: int, totalPages: nat)

  datatype Listing = Listing(posts: seq<PostWithMeta>, meta: Meta)

  /** `posts.map(post => ({ ...post, reading_time }))`. */
  function WithReadingTime(posts: seq<Post>): (r: seq<PostWithMeta>)
    ensures |r| == |posts|
    ensures forall i :: 0 <= i < |r| ==> r[i] == PostWithMeta(posts[i], ReadingTime(posts[i].content))
    ensures forall i :: 0 <= i < |r| ==> r[i].readingTime >= 1
  {
    seq(|posts|, i requires 0 <= i < |posts| => PostWithMeta(posts[i], ReadingTime(posts[i].content)))
  }

  /** `GET /api/blog/posts`. The order of posts published at the same time
      is left open, as the database leaves it: `ordered` is the filtered,
      ordered list the page is cut from. */
  method ListPublished(posts: seq<Post>, q: Query) returns (r: Listing, ghost ordered: seq<Post>)
    requires Limit(q) >= 1 && Page(q) >= 1
    ensures SortedDesc(ordered, PublishedAtKey)
    ensures forall p :: multiset(ordered)[p] == if Wanted(q, p) then multiset(posts)[p] else 0
    ensures r.meta == Meta(|ordered|, Page(q), Limit(q), CeilDiv(|ordered|, Limit(q)))
    ensures r.posts == WithReadingTime(Window(ordered, Skip(q), Limit(q)))
    ensures |r.posts| <= Limit(q)
    ensures forall i :: 0 <= i < |r.posts| ==> Wanted(q, r.posts[i].post) && r.posts[i].readingTime >= 1
  {
    var limit := Limit(q);
    var page := Page(q);
    var skip := Skip(q);
    var w := BuildWhere(q);
    var filtered := Filter(w, posts);
    var sorted := SortDesc(filtered, PublishedAtKey);
    ordered := sorted;
    var total := |filtered|;
    assert |sorted| == total by {
      assert |multiset(sorted)| == |multiset(filtered)|;
    }
    var shown := Window(sorted, skip, limit);
    forall i | 0 <= i < |shown|
      ensures Wanted(q, shown[i])
    {
      assert shown[i] in multiset(sorted);
    }
    r := Listing(WithReadingTime(shown), Meta(total, page, limit, CeilDiv(total, limit)));
  }

  /** Every row of the ordered list is on the page `k / limit + 1`, at
      position `k % limit`, and that page is not past `totalPages`. */
  lemma PagesCover<T>(s: seq<T>, limit: nat, k: nat)
    requires limit >= 1 && k < |s|
    ensures var page := k / limit + 1;
            && page <= CeilDiv(|s|, limit)
            && var shown := Window(s, (page - 1) * limit, limit);
            && k % limit < |shown| && shown[k % limit] == s[k]
  {
    var page := k / limit + 1;
    assert k == (k / limit) * limit + k % limit;
    var skip := (page - 1) * limit;
    assert skip <= k;
    MulMonotone(CeilDiv(|s|, limit), k / limit, limit);
  }
}
