/** The admin post route: the post and tag tables it writes, the slug
    search and tag upsert of its POST handler, and its GET listing. */
module AdminBlogPosts {
  import opened Auth
  import opened Slugs
  import opened Excerpts
  import opened Ordering
  import JsText

  /** A row of the Tag table. */
  datatype Tag = Tag(id: nat, name: string, slug: string)

  /** A row of the Post table together with the tags it is connected to.
      Timestamps are opaque numbers supplied by the caller. */
  datatype Post = Post(
    id: nat,
    title: string,
    slug: string,
    content: string,
    excerpt: string,
    featured: bool,
    published: bool,
    publishedAt: Option<nat>,
    viewCount: nat,
    authorId: string,
    createdAt: nat,
    tags: set<Tag>)

  /** The JSON body of a create request. A field missing from the body is
      None; so is `tags` when it is not an array. */
  datatype PostBody = PostBody(
    title: Option<string>,
    content: Option<string>,
    tags: Option<seq<string>>,
    featured: Option<bool>,
    published: Option<bool>)

  /** A post carries a publication time exactly when it is published. */
  predicate PublishedAtMatches(p: Post) {
    p.publishedAt.Some? <==> p.published
  }

  /** Tag rows are keyed by their slug, the slug is derived from the name,
      so names are unique as well (Tag.name and Tag.slug are UNIQUE). */
  ghost predicate TagTableWellFormed(tags: map<string, Tag>) {
    forall s :: s in tags ==> tags[s].slug == s && GenerateSlug(tags[s].name) == s
  }

  lemma TagNamesUnique(tags: map<string, Tag>, s1: string, s2: string)
    requires TagTableWellFormed(tags)
    requires s1 in tags && s2 in tags && s1 != s2
    ensures tags[s1].name != tags[s2].name
  {
  }

  // ---------------------------------------------------------------------
  // The slug search

  /** `${originalSlug}-${counter}`. */
  function Candidate(base: string, k: nat): string {
    base + "-" + JsText.NatToString(k)
  }

  /** The slug the search tries in its k-th step: the base itself, then
      base-1, base-2, ... */
  function Attempt(base: string, k: nat): string {
    if k == 0 then base else Candidate(base, k)
  }

  /** No slug is tried twice. */
  lemma AttemptsDistinct(base: string, j: nat, k: nat)
    requires j != k
    ensures Attempt(base, j) != Attempt(base, k)
  {
    if j > 0 && k > 0 && Candidate(base, j) == Candidate(base, k) {
      var n := |base| + 1;
      assert Candidate(base, j)[n..] == JsText.NatToString(j);
      assert Candidate(base, k)[n..] == JsText.NatToString(k);
      JsText.NatToStringInjective(j, k);
    }
  }

  /** The slugs tried in the first n steps. */
  ghost function Attempted(base: string, n: nat): set<string> {
    if n == 0 then {} else Attempted(base, n - 1) + {Attempt(base, n - 1)}
  }

  lemma {:induction false} NotYetAttempted(base: string, n: nat, k: nat)
    requires k >= n
    ensures Attempt(base, k) !in Attempted(base, n)
  {
    if n > 0 {
      NotYetAttempted(base, n - 1, k);
      AttemptsDistinct(base, n - 1, k);
    }
  }

  lemma {:induction false} AttemptedAreTaken(base: string, n: nat, taken: set<string>)
    requires forall j :: 0 <= j < n ==> Attempt(base, j) in taken
    ensures Attempted(base, n) <= taken
  {
    if n > 0 {
      AttemptedAreTaken(base, n - 1, taken);
    }
  }

  /** Step k of the search is the first whose slug is free. */
  ghost predicate FirstFreeAt(taken: set<string>, base: string, k: nat) {
    && Attempt(base, k) !in taken
    && forall j :: 0 <= j < k ==> Attempt(base, j) in taken
  }

  /** The first free step is unique, hence so is the slug chosen. */
  lemma FirstFreeUnique(taken: set<string>, base: string, k1: nat, k2: nat)
    requires FirstFreeAt(taken, base, k1) && FirstFreeAt(taken, base, k2)
    ensures k1 == k2
  {
  }

  /** `slug` is what the search chooses from `base` given the taken slugs. */
  ghost predicate SlugChosen(taken: set<string>, base: string, slug: string) {
    exists k :: FirstFreeAt(taken, base, k) && slug == Attempt(base, k)
  }

  // ---------------------------------------------------------------------
  // The tag upsert

  /** `db.tag.upsert({ where: { slug }, update: {}, create: { name, slug } })`:
      an existing row with that slug is left as it is; otherwise a row is
      created with the next free id. */
  function TagUpsert(tags: map<string, Tag>, name: string, freshId: nat): (r: map<string, Tag>)
    ensures r.Keys == tags.Keys + {GenerateSlug(name)}
    ensures forall s :: s in tags ==> r[s] == tags[s]
    ensures GenerateSlug(name) !in tags ==> r[GenerateSlug(name)] == Tag(freshId, name, GenerateSlug(name))
  {
    var slug := GenerateSlug(name);
    if slug in tags then tags else tags[slug := Tag(freshId, name, slug)]
  }

  /** Upserting a name twice is upserting it once, whatever id the second
      upsert would have used. */
  lemma TagUpsertIdempotent(tags: map<string, Tag>, name: string, id1: nat, id2: nat)
    ensures TagUpsert(TagUpsert(tags, name, id1), name, id2) == TagUpsert(tags, name, id1)
  {
  }

  /** Two names with the same slug share one tag row. */
  lemma TagUpsertSameSlug(tags: map<string, Tag>, n1: string, n2: string, id1: nat, id2: nat)
    requires GenerateSlug(n1) == GenerateSlug(n2)
    ensures TagUpsert(TagUpsert(tags, n1, id1), n2, id2) == TagUpsert(tags, n1, id1)
  {
  }

  lemma TagUpsertWellFormed(tags: map<string, Tag>, name: string, freshId: nat)
    requires TagTableWellFormed(tags)
    ensures TagTableWellFormed(TagUpsert(tags, name, freshId))
  {
  }

  /** The values `f` takes on the elements of `xs`, gathered from the
      front. */
  ghost function Image(xs: seq<string>, f: string -> string): set<string> {
    if xs == [] then {} else Image(xs[..|xs| - 1], f) + {f(xs[|xs| - 1])}
  }

  lemma {:induction false} ImageMembers(xs: seq<string>, f: string -> string)
    ensures forall s :: s in Image(xs, f) <==> exists j :: 0 <= j < |xs| && f(xs[j]) == s
  {
    if xs != [] {
      var front := xs[..|xs| - 1];
      ImageMembers(front, f);
      assert forall j :: 0 <= j < |front| ==> front[j] == xs[j];
    }
  }

  /** The slugs of the given tag names. */
  ghost function NameSlugs(names: seq<string>): set<string> {
    Image(names, GenerateSlug)
  }

  lemma NameSlugsMembers(names: seq<string>)
    ensures forall s :: s in NameSlugs(names) <==> exists j :: 0 <= j < |names| && GenerateSlug(names[j]) == s
  {
    ImageMembers(names, GenerateSlug);
  }

  // ---------------------------------------------------------------------
  // The admin listing

  function CreatedAtKey(p: Post): int {
    p.createdAt
  }

  /** `GET` of the admin post route: the gate, then every post, drafts
      included, newest first. */
  function AdminListPosts(session: Option<Session>, posts: seq<Post>): (r: Reply<seq<Post>>)
    ensures !IsAdmin(session) ==> r == Unauthorized()
    ensures IsAdmin(session) ==> r.Json? && r.status == 200
    ensures IsAdmin(session) ==> multiset(r.value) == multiset(posts) && SortedDesc(r.value, CreatedAtKey)
  {
    if !IsAdmin(session) then Unauthorized()
    else Json(200, SortDesc(posts, CreatedAtKey))
  }

  // ---------------------------------------------------------------------
  // The store

  /** The columns the POST handler fills from the body, the session and the
      clock: `featured` and `published` default to false, `publishedAt` is
      set exactly for a published post, the counters start at zero. */
  ghost predicate FieldsFromBody(p: Post, body: PostBody, authorId: string, now: nat) {
    && body.title == Some(p.title) && body.content == Some(p.content)
    && p.excerpt == GenerateExcerpt(p.content, EXCERPT_LENGTH)
    && p.featured == body.featured.GetOr(false)
    && p.published == body.published.GetOr(false)
    && PublishedAtMatches(p) && (p.published ==> p.publishedAt == Some(now))
    && p.authorId == authorId
    && p.createdAt == now && p.viewCount == 0
  }

  /** The row `db.post.create` inserts. */
  function NewPost(id: nat, slug: string, body: PostBody, authorId: string, now: nat, tags: set<Tag>): (p: Post)
    requires body.title.Some? && body.content.Some?
    ensures FieldsFromBody(p, body, authorId, now)
    ensures p.id == id && p.slug == slug && p.tags == tags
  {
    var published := body.published.GetOr(false);
    Post(id, body.title.value, slug, body.content.value,
         GenerateExcerpt(body.content.value, EXCERPT_LENGTH),
         body.featured.GetOr(false), published,
         if published then Some(now) else None,
         0, authorId, now, tags)
  }

  /** The Post and Tag tables. */
  class BlogStore {
    var posts: seq<Post>
    var tags: map<string, Tag>
    var nextId: nat

    /** The table constraints: Post.slug and Post.id are unique, every post
        keeps `publishedAt` in step with `published`, the tag table is keyed
        by slug, and every connected tag is a row of the tag table. */
    ghost predicate Valid()
      reads this
    {
      && (forall i, j :: 0 <= i < j < |posts| ==> posts[i].slug != posts[j].slug)
      && (forall i :: 0 <= i < |posts| ==> posts[i].id < nextId)
      && (forall i, j :: 0 <= i < j < |posts| ==> posts[i].id != posts[j].id)
      && (forall i :: 0 <= i < |posts| ==> PublishedAtMatches(posts[i]))
      && TagTableWellFormed(tags)
      && (forall s :: s in tags ==> tags[s].id < nextId)
      && (forall i, t :: 0 <= i < |posts| && t in posts[i].tags ==> t.slug in tags && tags[t.slug] == t)
    }

    /** The slugs in use. */
    function TakenSlugs(): set<string>
      reads this
    {
      set i | 0 <= i < |posts| :: posts[i].slug
    }

    constructor ()
      ensures Valid()
      ensures posts == [] && tags == map[]
    {
      posts := [];
      tags := map[];
      nextId := 0;
    }

    /** The loop of the POST handler that looks the slug up and, while a
        post has it, tries base-1, base-2, ... It stops because every slug
        it tries is new and only finitely many are taken. */
    method FindFreeSlug(base: string) returns (slug: string)
      ensures slug !in TakenSlugs()
      ensures base !in TakenSlugs() ==> slug == base
      ensures SlugChosen(TakenSlugs(), base, slug)
    {
      slug := base;
      var existing := slug in TakenSlugs();
      var counter: nat := 1;
      while existing
        invariant counter >= 1
        invariant slug == Attempt(base, counter - 1)
        invariant existing <==> slug in TakenSlugs()
        invariant forall j :: 0 <= j < counter - 1 ==> Attempt(base, j) in TakenSlugs()
        decreases TakenSlugs() - Attempted(base, counter - 1)
      {
        NotYetAttempted(base, counter - 1, counter - 1);
        AttemptedAreTaken(base, counter - 1, TakenSlugs());
        assert Attempted(base, counter) == Attempted(base, counter - 1) + {slug};
        slug := Candidate(base, counter);
        existing := slug in TakenSlugs();
        counter := counter + 1;
      }
      assert FirstFreeAt(TakenSlugs(), base, counter - 1);
      assert SlugChosen(TakenSlugs(), base, slug);
    }

    /** One step of the tag loop of the POST handler. */
    method UpsertTag(name: string) returns (tag: Tag)
      requires Valid()
      modifies this
      ensures Valid()
      ensures posts == old(posts)
      ensures tags == TagUpsert(old(tags), name, old(nextId))
      ensures tag == tags[GenerateSlug(name)]
    {
      var slug := GenerateSlug(name);
      TagUpsertWellFormed(tags, name, nextId);
      if slug !in tags {
        tags := tags[slug := Tag(nextId, name, slug)];
        nextId := nextId + 1;
      }
      tag := tags[slug];
    }

    /** The tag loop of the POST handler: one upsert per supplied name, and
        the row it returns collected as a connection. */
    method UpsertTags(names: seq<string>) returns (connections: seq<Tag>)
      requires Valid()
      modifies this
      ensures Valid()
      ensures posts == old(posts)
      ensures |connections| == |names|
      ensures forall j :: 0 <= j < |names| ==>
                GenerateSlug(names[j]) in tags && connections[j] == tags[GenerateSlug(names[j])]
      ensures TagsUpserted(old(tags), tags, names)
      ensures (set j | 0 <= j < |connections| :: connections[j]) == set s | s in NameSlugs(names) :: tags[s]
    {
      connections := [];
      for i := 0 to |names|
        invariant Valid()
        invariant posts == old(posts)
        invariant UpsertedSoFar(old(tags), tags, names, i, connections)
      {
        UpsertStep(old(tags), tags, names, i, connections, nextId);
        var tag := UpsertTag(names[i]);
        connections := connections + [tag];
      }
      assert names[..|names|] == names;
      ConnectionsAreNameTags(names, connections, tags);
    }

    /** The insert of the POST handler: a new row under the next id, whose
        slug is free and whose tags are rows of the tag table. */
    method InsertPost(post: Post)
      requires Valid()
      requires post.id == nextId && post.slug !in TakenSlugs() && PublishedAtMatches(post)
      requires forall t :: t in post.tags ==> t.slug in tags && tags[t.slug] == t
      modifies this
      ensures Valid()
      ensures posts == old(posts) + [post] && tags == old(tags) && nextId == old(nextId) + 1
    {
      assert forall i :: 0 <= i < |posts| ==> posts[i].slug in TakenSlugs();
      posts := posts + [post];
      nextId := nextId + 1;
    }

    /** `POST` of the admin post route. */
    method CreatePost(session: Option<Session>, body: PostBody, now: nat) returns (reply: Reply<Post>)
      requires Valid()
      modifies this
      ensures Valid()
      ensures !IsAdmin(session) ==> reply == Unauthorized() && unchanged(this)
      ensures IsAdmin(session) && !(Present(body.title) && Present(body.content)) ==>
                reply == Error(400, "Title and content are required") && unchanged(this)
      ensures IsAdmin(session) && Present(body.title) && Present(body.content) ==>
                && reply.Json? && reply.status == 201
                && posts == old(posts) + [reply.value]
                && SlugChosen(old(TakenSlugs()), GenerateSlug(body.title.value), reply.value.slug)
                && FieldsFromBody(reply.value, body, session.value.user.id, now)
      ensures IsAdmin(session) && Present(body.title) && Present(body.content) ==>
                && TagsUpserted(old(tags), tags, body.tags.GetOr([]))
                && reply.value.tags == set s | s in NameSlugs(body.tags.GetOr([])) :: tags[s]
    {
      if !IsAdmin(session) {
        return Unauthorized();
      }
      if !Present(body.title) || !Present(body.content) {
        return Error(400, "Title and content are required");
      }
      var post := CreateValidated(body, session.value.user.id, now);
      reply := Json(201, post);
    }

    /** The POST handler once the request is admitted: the slug search, the
        tag loop and the insert. */
    method CreateValidated(body: PostBody, authorId: string, now: nat) returns (post: Post)
      requires Valid() && Present(body.title) && Present(body.content)
      modifies this
      ensures Valid()
      ensures posts == old(posts) + [post]
      ensures SlugChosen(old(TakenSlugs()), GenerateSlug(body.title.value), post.slug)
      ensures FieldsFromBody(post, body, authorId, now)
      ensures TagsUpserted(old(tags), tags, body.tags.GetOr([]))
      ensures post.tags == set s | s in NameSlugs(body.tags.GetOr([])) :: tags[s]
    {
      var slug := FindFreeSlug(GenerateSlug(body.title.value));

      var connections := UpsertTags(body.tags.GetOr([]));

      post := NewPost(nextId, slug, body, authorId, now, set j | 0 <= j < |connections| :: connections[j]);
      InsertPost(post);
    }
  }

  /** `after` is `before` once every name has been upserted in order: the
      names' slugs are added, existing rows are kept, and a new row carries
      the first name that produced its slug. */
  ghost predicate TagsUpserted(before: map<string, Tag>, after: map<string, Tag>, names: seq<string>) {
    && after.Keys == before.Keys + NameSlugs(names)
    && (forall s :: s in before ==> after[s] == before[s])
    && (forall s :: s in after && s !in before ==>
          exists j :: 0 <= j < |names| && after[s].name == names[j] && FirstWithSlug(names, s, j))
  }

  /** The state of the tag loop after its first i names: `tags` is
      `before` with those names upserted and `connections` holds their rows. */
  ghost predicate UpsertedSoFar(before: map<string, Tag>, tags: map<string, Tag>, names: seq<string>,
                                i: nat, connections: seq<Tag>) {
    && i <= |names| && |connections| == i
    && (forall j :: 0 <= j < i ==> GenerateSlug(names[j]) in tags && connections[j] == tags[GenerateSlug(names[j])])
    && tags.Keys == before.Keys + NameSlugs(names[..i])
    && (forall s :: s in before ==> tags[s] == before[s])
    && (forall s :: s in tags && s !in before ==>
          exists j :: 0 <= j < i && tags[s].name == names[j] && FirstWithSlug(names, s, j))
  }

  /** One more upsert advances the tag loop by one name. */
  lemma UpsertStep(before: map<string, Tag>, tags: map<string, Tag>, names: seq<string>,
                   i: nat, connections: seq<Tag>, freshId: nat)
    requires UpsertedSoFar(before, tags, names, i, connections) && i < |names|
    ensures var after := TagUpsert(tags, names[i], freshId);
            UpsertedSoFar(before, after, names, i + 1, connections + [after[GenerateSlug(names[i])]])
  {
    UpsertStepKeys(before, tags, names, i, freshId);
    UpsertStepNewRows(before, tags, names, i, freshId);
    UpsertStepConnections(tags, names, i, connections, freshId);
  }

  /** The upsert of names[i] adds its slug to the keys. */
  lemma UpsertStepKeys(before: map<string, Tag>, tags: map<string, Tag>, names: seq<string>, i: nat, freshId: nat)
    requires i < |names| && tags.Keys == before.Keys + NameSlugs(names[..i])
    ensures TagUpsert(tags, names[i], freshId).Keys == before.Keys + NameSlugs(names[..i + 1])
  {
    assert names[..i + 1][..i] == names[..i];
    assert NameSlugs(names[..i + 1]) == NameSlugs(names[..i]) + {GenerateSlug(names[i])};
  }

  /** The row collected for names[i] joins the rows of the earlier names,
      which the upsert leaves in place. */
  lemma UpsertStepConnections(tags: map<string, Tag>, names: seq<string>, i: nat, connections: seq<Tag>, freshId: nat)
    requires i < |names| && |connections| == i
    requires forall j :: 0 <= j < i ==> GenerateSlug(names[j]) in tags && connections[j] == tags[GenerateSlug(names[j])]
    ensures var after := TagUpsert(tags, names[i], freshId);
            var conn := connections + [after[GenerateSlug(names[i])]];
            forall j :: 0 <= j < i + 1 ==> GenerateSlug(names[j]) in after && conn[j] == after[GenerateSlug(names[j])]
  {
    var after := TagUpsert(tags, names[i], freshId);
    var conn := connections + [after[GenerateSlug(names[i])]];
    forall j | 0 <= j <= i
      ensures GenerateSlug(names[j]) in after && conn[j] == after[GenerateSlug(names[j])]
    {
      if j < i {
        assert conn[j] == connections[j] == tags[GenerateSlug(names[j])];
      }
    }
  }

  /** A row the upsert of names[i] creates carries the first name with
      its slug, since every earlier name's slug is already a key. */
  lemma UpsertStepNewRows(before: map<string, Tag>, tags: map<string, Tag>, names: seq<string>,
                          i: nat, freshId: nat)
    requires i < |names|
    requires forall j :: 0 <= j < i ==> GenerateSlug(names[j]) in tags
    requires forall s :: s in tags && s !in before ==>
               exists j :: 0 <= j < i && tags[s].name == names[j] && FirstWithSlug(names, s, j)
    ensures var after := TagUpsert(tags, names[i], freshId);
            forall s :: s in after && s !in before ==>
              exists j :: 0 <= j < i + 1 && after[s].name == names[j] && FirstWithSlug(names, s, j)
  {
    var slug := GenerateSlug(names[i]);
    if slug !in tags {
      assert FirstWithSlug(names, slug, i);
    }
  }

  /** names[j] is the first of the names whose slug is s. */
  ghost predicate FirstWithSlug(names: seq<string>, s: string, j: nat)
    requires j < |names|
  {
    GenerateSlug(names[j]) == s && forall i :: 0 <= i < j ==> GenerateSlug(names[i]) != s
  }

  /** The tags collected by the loop, one per name, are the rows of the
      names' slugs. */
  lemma ConnectionsAreNameTags(names: seq<string>, connections: seq<Tag>, tags: map<string, Tag>)
    requires |connections| == |names|
    requires forall j :: 0 <= j < |names| ==> GenerateSlug(names[j]) in tags && connections[j] == tags[GenerateSlug(names[j])]
    ensures NameSlugs(names) <= tags.Keys
    ensures (set j | 0 <= j < |connections| :: connections[j]) == set s | s in NameSlugs(names) :: tags[s]
  {
    NameSlugsMembers(names);
    ConnectionsInNameTags(names, connections, tags);
    NameTagsInConnections(names, connections, tags);
  }

  lemma ConnectionsInNameTags(names: seq<string>, connections: seq<Tag>, tags: map<string, Tag>)
    requires |connections| == |names|
    requires forall j :: 0 <= j < |names| ==> GenerateSlug(names[j]) in tags && connections[j] == tags[GenerateSlug(names[j])]
    requires NameSlugs(names) <= tags.Keys
    ensures forall j :: 0 <= j < |connections| ==> connections[j] in set s | s in NameSlugs(names) :: tags[s]
  {
    forall j | 0 <= j < |connections|
      ensures connections[j] in set s | s in NameSlugs(names) :: tags[s]
    {
      NameSlugsMembers(names);
      assert GenerateSlug(names[j]) in NameSlugs(names);
    }
  }

  lemma NameTagsInConnections(names: seq<string>, connections: seq<Tag>, tags: map<string, Tag>)
    requires |connections| == |names|
    requires forall j :: 0 <= j < |names| ==> GenerateSlug(names[j]) in tags && connections[j] == tags[GenerateSlug(names[j])]
    requires NameSlugs(names) <= tags.Keys
    ensures forall s :: s in NameSlugs(names) ==> tags[s] in connections
  {
    forall s | s in NameSlugs(names)
      ensures tags[s] in connections
    {
      NameSlugsMembers(names);
      var j :| 0 <= j < |names| && GenerateSlug(names[j]) == s;
      assert connections[j] == tags[s];
    }
  }
}
