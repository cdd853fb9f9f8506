/**
 The semantics of the key-value storage (pkg/storage/badger.go) that everything else rests on: a finite
 map whose keys are never empty, listed by prefix in an order the models do not rely on.
 */
module KeyValue {
  import opened Wrappers

  datatype StorageError = KeyIsEmpty

  /** The storage after Put; the write of an empty key is refused. */
  function AfterPut<V>(db: map<string, V>, key: string, value: V): map<string, V> {
    if key == "" then db else db[key := value]
  }

  /** The storage after Delete; deleting an absent key is not an error. */
  function AfterDelete<V>(db: map<string, V>, key: string): map<string, V> {
    if key == "" then db else db - {key}
  }

  function WriteError(key: string): Option<StorageError> {
    if key == "" then Some(KeyIsEmpty) else None
  }

  /** A value or its absence, for comparing storages key by key. */
  function Lookup<V>(db: map<string, V>, key: string): Option<V> {
    if key in db then Some(db[key]) else None
  }

  lemma SameLookups<V>(a: map<string, V>, b: map<string, V>)
    requires forall k :: Lookup(a, k) == Lookup(b, k)
    ensures a == b
  {
    forall k ensures k in a <==> k in b {
      assert Lookup(a, k) == Lookup(b, k);
    }
    forall k | k in a ensures a[k] == b[k] {
      assert Lookup(a, k) == Lookup(b, k);
    }
  }

  /** The keys that List and IterPrefix visit. */
  function KeysUnder<V>(db: map<string, V>, prefix: string): set<string> {
    set k | k in db && prefix <= k
  }

  /** List: every key under the prefix, once, in some order. */
  method List<V>(db: map<string, V>, prefix: string) returns (keys: seq<string>)
    ensures Distinct(keys) && SetOf(keys) == KeysUnder(db, prefix)
  {
    keys := [];
    var rest := KeysUnder(db, prefix);
    while rest != {}
      invariant rest <= KeysUnder(db, prefix)
      invariant Distinct(keys) && SetOf(keys) == KeysUnder(db, prefix) - rest
      decreases rest
    {
      var k :| k in rest;
      rest := rest - {k};
      assert k !in SetOf(keys);
      SetOfAppend(keys, k);
      keys := keys + [k];
    }
  }
}
