/**
 The header table a handler fills in, and the single-valued header map the writers
 commit when the status is written (responsewriter.go, WriteHeader of both writers).
 */
module Headers {

  /** Go's `http.Header`: each name maps to its values in the order they were added. Names are used as stored. */
  type HeaderTable = map<string, seq<string>>

  /** The header that decides the body encoding. */
  const ContentType: string := "Content-Type"

  /** The type committed when the handler set none, or set it to "". */
  const DefaultContentType: string := "text/plain; charset=utf-8"

  function Last(values: seq<string>): string
    requires |values| > 0
  {
    values[|values| - 1]
  }

  /** Whether a name has at least one value, and so survives the collapse. */
  predicate HasValue(t: HeaderTable, name: string) {
    name in t && |t[name]| > 0
  }

  /** Last value wins: every name with at least one value keeps its last one; names without values are dropped. */
  function Collapse(t: HeaderTable): map<string, string> {
    map name | name in t && |t[name]| > 0 :: Last(t[name])
  }

  /** The Content-Type the committed map will hold for a given table. */
  function CommittedContentType(t: HeaderTable): string {
    if HasValue(t, ContentType) && Last(t[ContentType]) != "" then Last(t[ContentType]) else DefaultContentType
  }

  /**
   The map committed by WriteHeader: the collapsed table, with a Content-Type of
   `DefaultContentType` when it has none or an empty one.
   */
  function Commit(t: HeaderTable): (m: map<string, string>)
    ensures ContentType in m && m[ContentType] != ""
    ensures m[ContentType] == CommittedContentType(t)
    ensures forall name :: name != ContentType ==> (name in m <==> HasValue(t, name))
    ensures forall name :: name != ContentType && HasValue(t, name) ==> m[name] == Last(t[name])
    ensures m.Keys <= t.Keys + {ContentType}
  {
    var collapsed := Collapse(t);
    if ContentType !in collapsed || collapsed[ContentType] == "" then
      collapsed[ContentType := DefaultContentType]
    else
      collapsed
  }

  /**
   The commit as the source computes it: a loop over the table's entries in whatever
   order map iteration yields them, then the Content-Type default. Any order gives `Commit`.
   */
  method CommitByIteration(t: HeaderTable) returns (m: map<string, string>)
    ensures m == Commit(t)
  {
    m := map[];
    var pending := t.Keys;
    while pending != {}
      invariant pending <= t.Keys
      invariant m == map name | name in t.Keys - pending && |t[name]| > 0 :: Last(t[name])
      decreases pending
    {
      var name :| name in pending;
      if |t[name]| > 0 {
        m := m[name := Last(t[name])];
      }
      pending := pending - {name};
    }
    assert t.Keys - pending == t.Keys;
    if ContentType !in m || m[ContentType] == "" {
      m := m[ContentType := DefaultContentType];
    }
  }

  /** Committing a table that already holds single non-empty values per name changes nothing but the default. */
  lemma CommitOfSingletons(m: map<string, string>)
    requires ContentType in m && m[ContentType] != ""
    ensures Commit(map name | name in m :: [m[name]]) == m
  {
  }
}
