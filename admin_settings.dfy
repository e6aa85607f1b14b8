/** The site settings: a key/value table of which three keys may be read
    and written through the admin settings route, `GET` folding the allowed
    rows into an object and `POST` upserting one allowed key. */
module AdminSettings {
  import opened Auth

  /** A row of the Settings table; its id and update time are not modelled. */
  datatype Setting = Setting(key: string, value: string)

  const ALLOWED_KEYS: seq<string> := ["siteTitle", "siteDescription", "faviconUrl"]

  /** Settings.key is UNIQUE. */
  ghost predicate KeysUnique(rows: seq<Setting>) {
    forall i, j :: 0 <= i < j < |rows| ==> rows[i].key != rows[j].key
  }

  /** `findMany({ where: { key: { in: allowed } } })`: the rows whose key is
      allowed, in table order. */
  function Allowed(rows: seq<Setting>, allowed: seq<string>): (r: seq<Setting>)
    ensures forall i :: 0 <= i < |r| ==> r[i].key in allowed
  {
    if rows == [] then []
    else (if rows[0].key in allowed then [rows[0]] else []) + Allowed(rows[1..], allowed)
  }

  /** `rows.reduce((acc, s) => { acc[s.key] = s.value; return acc; }, acc)`. */
  function Fold(rows: seq<Setting>, acc: map<string, string>): map<string, string> {
    if rows == [] then acc else Fold(rows[1..], acc[rows[0].key := rows[0].value])
  }

  /** The value of the last row with key `k`, if there is one. */
  function Lookup(rows: seq<Setting>, k: string): Option<string> {
    if rows == [] then None
    else
      match Lookup(rows[1..], k)
      case Some(v) => Some(v)
      case None => if rows[0].key == k then Some(rows[0].value) else None
  }

  /** The fold maps every key of the rows to the value of its last row and
      keeps every other entry of the accumulator. */
  lemma {:induction false} FoldLookup(rows: seq<Setting>, acc: map<string, string>)
    ensures forall k :: k in Fold(rows, acc) <==> Lookup(rows, k).Some? || k in acc
    ensures forall k :: k in Fold(rows, acc) ==>
              Fold(rows, acc)[k] == if Lookup(rows, k).Some? then Lookup(rows, k).value else acc[k]
  {
    if rows != [] {
      FoldLookup(rows[1..], acc[rows[0].key := rows[0].value]);
    }
  }

  /** Filtering by key hides exactly the keys that are not allowed. */
  lemma {:induction false} AllowedLookup(rows: seq<Setting>, allowed: seq<string>, k: string)
    ensures Lookup(Allowed(rows, allowed), k) == if k in allowed then Lookup(rows, k) else None
  {
    if rows != [] {
      AllowedLookup(rows[1..], allowed, k);
      if rows[0].key in allowed {
        assert Allowed(rows, allowed)[1..] == Allowed(rows[1..], allowed);
      } else {
        assert Allowed(rows, allowed) == Allowed(rows[1..], allowed);
      }
    }
  }

  /** The allowed rows folded into an empty object: the keys are the
      allowed keys that have a row, each mapped to its stored value. */
  function FoldAllowed(rows: seq<Setting>, allowed: seq<string>): (r: map<string, string>)
    ensures forall k :: k in r <==> k in allowed && Lookup(rows, k).Some?
    ensures forall k :: k in r ==> r[k] == Lookup(rows, k).value
  {
    var r := Fold(Allowed(rows, allowed), map[]);
    FoldLookup(Allowed(rows, allowed), map[]);
    forall k ensures Lookup(Allowed(rows, allowed), k) == if k in allowed then Lookup(rows, k) else None {
      AllowedLookup(rows, allowed, k);
    }
    r
  }

  /** `GET` of the admin settings route. */
  function Get(rows: seq<Setting>): (r: map<string, string>)
    ensures forall k :: k in r ==> k in ALLOWED_KEYS
    ensures forall k :: k in r <==> k in ALLOWED_KEYS && Lookup(rows, k).Some?
    ensures forall k :: k in r ==> r[k] == Lookup(rows, k).value
  {
    FoldAllowed(rows, ALLOWED_KEYS)
  }

  /** `upsert({ where: { key }, update: { value }, create: { key, value } })`:
      the row with that key gets the value, or a row is added at the end. */
  function Upsert(rows: seq<Setting>, k: string, v: string): seq<Setting> {
    if rows == [] then [Setting(k, v)]
    else if rows[0].key == k then [Setting(k, v)] + rows[1..]
    else [rows[0]] + Upsert(rows[1..], k, v)
  }

  lemma {:induction false} LookupAbsent(rows: seq<Setting>, k: string)
    requires forall i :: 0 <= i < |rows| ==> rows[i].key != k
    ensures Lookup(rows, k) == None
  {
    if rows != [] {
      LookupAbsent(rows[1..], k);
    }
  }

  /** After the upsert `k` has the value `v` and every other key keeps its
      value. */
  lemma {:induction false} UpsertLookup(rows: seq<Setting>, k: string, v: string, k2: string)
    requires KeysUnique(rows)
    ensures Lookup(Upsert(rows, k, v), k2) == if k2 == k then Some(v) else Lookup(rows, k2)
  {
    if rows != [] {
      if rows[0].key == k {
        var rest := rows[1..];
        assert Upsert(rows, k, v)[1..] == rest;
        if k2 == k {
          LookupAbsent(rest, k);
        }
      } else {
        UpsertLookup(rows[1..], k, v, k2);
        assert Upsert(rows, k, v)[1..] == Upsert(rows[1..], k, v);
      }
    }
  }

  /** The upsert adds a row only for a new key, so keys stay unique. */
  lemma {:induction false} UpsertKeepsKeysUnique(rows: seq<Setting>, k: string, v: string)
    requires KeysUnique(rows)
    ensures KeysUnique(Upsert(rows, k, v))
    ensures forall i :: 0 <= i < |Upsert(rows, k, v)| ==>
              Upsert(rows, k, v)[i].key == k || exists j :: 0 <= j < |rows| && rows[j].key == Upsert(rows, k, v)[i].key
  {
    var r := Upsert(rows, k, v);
    if rows != [] && rows[0].key == k {
      assert forall i :: 0 <= i < |r| ==> r[i].key == rows[i].key;
    } else if rows != [] {
      UpsertKeepsKeysUnique(rows[1..], k, v);
      var tail := Upsert(rows[1..], k, v);
      assert r[1..] == tail;
      forall i | 1 <= i < |r|
        ensures r[i].key != rows[0].key
        ensures r[i].key == k || exists j :: 0 <= j < |rows| && rows[j].key == r[i].key
      {
        assert r[i] == tail[i - 1];
        if r[i].key != k {
          var j :| 0 <= j < |rows[1..]| && rows[1..][j].key == tail[i - 1].key;
          assert rows[j + 1].key == r[i].key;
        }
      }
      forall i, j | 0 <= i < j < |r|
        ensures r[i].key != r[j].key
      {
        assert r[j] == tail[j - 1];
        if i > 0 {
          assert r[i] == tail[i - 1];
        }
      }
    }
  }

  /** Saving the same value twice leaves the table as saving it once. */
  lemma {:induction false} UpsertIdempotent(rows: seq<Setting>, k: string, v: string)
    ensures Upsert(Upsert(rows, k, v), k, v) == Upsert(rows, k, v)
  {
    if rows != [] && rows[0].key != k {
      UpsertIdempotent(rows[1..], k, v);
      assert Upsert(rows, k, v)[1..] == Upsert(rows[1..], k, v);
    }
  }

  /** Read your write: after saving an allowed key, `GET` maps it to the
      saved value and every other key as before. */
  lemma GetAfterUpsert(rows: seq<Setting>, k: string, v: string)
    requires KeysUnique(rows) && k in ALLOWED_KEYS
    ensures Get(Upsert(rows, k, v)) == Get(rows)[k := v]
  {
    var after := Get(Upsert(rows, k, v));
    var expected := Get(rows)[k := v];
    forall k2 ensures Lookup(Upsert(rows, k, v), k2) == if k2 == k then Some(v) else Lookup(rows, k2) {
      UpsertLookup(rows, k, v, k2);
    }
    assert after.Keys == expected.Keys;
  }

  /** The Settings table. */
  class SettingsStore {
    var rows: seq<Setting>

    ghost predicate Valid()
      reads this
    {
      KeysUnique(rows)
    }

    constructor ()
      ensures Valid() && rows == []
    {
      rows := [];
    }

    /** `POST` of the admin settings route: the gate, the allow-list, then
        the upsert. A key that is absent or empty is rejected like one that
        is not allowed. */
    method Save(session: Option<Session>, key: Option<string>, value: string) returns (reply: Reply<Setting>)
      requires Valid()
      modifies this
      ensures Valid()
      ensures !IsAdmin(session) ==> reply == Unauthorized() && unchanged(this)
      ensures IsAdmin(session) && !(Present(key) && key.value in ALLOWED_KEYS) ==>
                reply == Error(400, "Invalid setting key") && unchanged(this)
      ensures IsAdmin(session) && Present(key) && key.value in ALLOWED_KEYS ==>
                && reply == Json(200, Setting(key.value, value))
                && rows == Upsert(old(rows), key.value, value)
                && Get(rows) == Get(old(rows))[key.value := value]
    {
      if !IsAdmin(session) {
        return Unauthorized();
      }
      if !Present(key) || key.value !in ALLOWED_KEYS {
        return Error(400, "Invalid setting key");
      }
      UpsertKeepsKeysUnique(rows, key.value, value);
      GetAfterUpsert(rows, key.value, value);
      rows := Upsert(rows, key.value, value);
      reply := Json(200, Setting(key.value, value));
    }
  }
}
