/** The link directory's API, `/api/links`: `GET` lists every link, newest
    first, to anyone; `POST` lets an admin add a link to a category. */
module Links {
  import opened Auth
  import opened Ordering

  /** A row of the Link table; its update time is not modelled. */
  datatype Link = Link(id: nat, url: string, categoryId: string, clicks: nat, createdAt: nat)

  /** The JSON body of a create request; a field missing from it is None. */
  datatype LinkBody = LinkBody(url: Option<string>, categoryId: Option<string>)

  function CreatedAtKey(l: Link): int {
    l.createdAt
  }

  /** `GET`: every link, by `createdAt` descending; no session is asked for. */
  function ListLinks(links: seq<Link>): (r: Reply<seq<Link>>)
    ensures r.Json? && r.status == 200
    ensures multiset(r.value) == multiset(links)
    ensures SortedDesc(r.value, CreatedAtKey)
  {
    Json(200, SortDesc(links, CreatedAtKey))
  }

  /** The Link table. */
  class LinkStore {
    var links: seq<Link>
    var nextId: nat

    /** Link.id is the primary key. */
    ghost predicate Valid()
      reads this
    {
      && (forall i :: 0 <= i < |links| ==> links[i].id < nextId)
      && (forall i, j :: 0 <= i < j < |links| ==> links[i].id != links[j].id)
    }

    constructor ()
      ensures Valid() && links == []
    {
      links := [];
      nextId := 0;
    }

    /** `POST`: the gate, then both fields required, then an insert with
        the column defaults (no clicks yet, created now). The category is
        not looked up. */
    method CreateLink(session: Option<Session>, body: LinkBody, now: nat) returns (reply: Reply<Link>)
      requires Valid()
      modifies this
      ensures Valid()
      ensures !IsAdmin(session) ==> reply == Unauthorized() && unchanged(this)
      ensures IsAdmin(session) && !(Present(body.url) && Present(body.categoryId)) ==>
                reply == Error(400, "URL and category are required") && unchanged(this)
      ensures IsAdmin(session) && Present(body.url) && Present(body.categoryId) ==>
                && reply == Json(200, Link(old(nextId), body.url.value, body.categoryId.value, 0, now))
                && links == old(links) + [reply.value]
                && (forall i :: 0 <= i < |old(links)| ==> links[i].id != reply.value.id)
    {
      if !IsAdmin(session) {
        return Unauthorized();
      }
      if !Present(body.url) || !Present(body.categoryId) {
        return Error(400, "URL and category are required");
      }
      var link := Link(nextId, body.url.value, body.categoryId.value, 0, now);
      links := links + [link];
      nextId := nextId + 1;
      reply := Json(200, link);
    }
  }
}
