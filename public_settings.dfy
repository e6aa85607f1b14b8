/** `GET /api/settings`: the same fold of the allowed settings rows as the
    admin route, without a session and with its own copy of the allow-list. */
module PublicSettings {
  import AdminSettings

  const ALLOWED_KEYS: seq<string> := ["siteTitle", "siteDescription", "faviconUrl"]

  /** The allowed rows folded into an object: an allowed key without a row
      stays absent, and every key present maps to its stored value. */
  function Get(rows: seq<AdminSettings.Setting>): (r: map<string, string>)
    ensures forall k :: k in r <==> k in ALLOWED_KEYS && AdminSettings.Lookup(rows, k).Some?
    ensures forall k :: k in r ==> r[k] == AdminSettings.Lookup(rows, k).value
  {
    AdminSettings.FoldAllowed(rows, ALLOWED_KEYS)
  }

  /** Both routes return the same object for the same table. */
  lemma SameAsAdmin(rows: seq<AdminSettings.Setting>)
    ensures Get(rows) == AdminSettings.Get(rows)
  {
    assert Get(rows).Keys == AdminSettings.Get(rows).Keys;
  }
}
