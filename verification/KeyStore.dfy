/** The AES key stores of RequestReply resources (pkg/requestreply/key_store.go). */
module KeyStore {
  import opened Wrappers
  import opened Text
  import opened CorrelationId

  datatype NamespacedName = NamespacedName(namespace: Bytes, name: Bytes)

  datatype Op =
    | Add(rr: NamespacedName, name: Bytes, key: Bytes)
    | Remove(rr: NamespacedName, name: Bytes)

  /** The keys of rr after the operations, by name. */
  function Entries(log: seq<Op>, rr: NamespacedName): map<Bytes, Bytes> {
    if log == [] then map[]
    else
      var m, op := Entries(log[..|log| - 1], rr), log[|log| - 1];
      if op.rr != rr then m else if op.Add? then m[op.name := op.key] else m - {op.name}
  }

  /** The key of rr added last, whether or not it has been removed since. */
  function Newest(log: seq<Op>, rr: NamespacedName): Option<Bytes> {
    if log == [] then None
    else
      var op := log[|log| - 1];
      if op.rr == rr && op.Add? then Some(op.key) else Newest(log[..|log| - 1], rr)
  }

  predicate Touches(op: Op, rr: NamespacedName, name: Bytes) { op.rr == rr && op.name == name }

  /** Operation i set (rr, name) to key and no later one removed or overwrote it. */
  ghost predicate LastWord(log: seq<Op>, rr: NamespacedName, name: Bytes, key: Bytes, i: nat) {
    i < |log| && log[i] == Add(rr, name, key) && forall j | i < j < |log| :: !Touches(log[j], rr, name)
  }

  /** The stored keys are exactly the latest values of the names added and not since removed. */
  lemma {:induction false} StoredIffLastWord(log: seq<Op>, rr: NamespacedName, name: Bytes, key: Bytes)
    ensures name in Entries(log, rr) && Entries(log, rr)[name] == key
       <==> exists i: nat :: LastWord(log, rr, name, key, i)
  {
    if log != [] {
      var n := |log| - 1;
      var front := log[..n];
      StoredIffLastWord(front, rr, name, key);
      if Touches(log[n], rr, name) {
        if log[n] == Add(rr, name, key) {
          assert LastWord(log, rr, name, key, n);
        }
        forall i: nat | LastWord(log, rr, name, key, i) ensures i == n { }
      } else {
        forall i: nat ensures LastWord(log, rr, name, key, i) <==> LastWord(front, rr, name, key, i) {
          assert i < n ==> log[i] == front[i];
          assert forall j | 0 <= j < n :: log[j] == front[j];
        }
      }
    }
  }

  /** i is the last addition for rr. */
  ghost predicate LastAdd(log: seq<Op>, rr: NamespacedName, i: nat) {
    i < |log| && log[i].rr == rr && log[i].Add? && forall j | i < j < |log| :: !(log[j].rr == rr && log[j].Add?)
  }

  lemma {:induction false} NewestIsLastAdd(log: seq<Op>, rr: NamespacedName, i: nat)
    requires LastAdd(log, rr, i)
    ensures Newest(log, rr) == Some(log[i].key)
  {
    if i < |log| - 1 {
      var front := log[..|log| - 1];
      assert forall j | 0 <= j < |front| :: front[j] == log[j];
      NewestIsLastAdd(front, rr, i);
    }
  }

  /** The latest key is stored under its name exactly if that name has not been removed since. */
  lemma LatestStoredIffNotRemoved(log: seq<Op>, rr: NamespacedName, i: nat)
    requires LastAdd(log, rr, i)
    ensures Newest(log, rr) == Some(log[i].key)
    ensures log[i].name in Entries(log, rr) && Entries(log, rr)[log[i].name] == log[i].key
       <==> forall j | i < j < |log| :: log[j] != Remove(rr, log[i].name)
  {
    NewestIsLastAdd(log, rr, i);
    var name, key := log[i].name, log[i].key;
    StoredIffLastWord(log, rr, name, key);
    if forall j | i < j < |log| :: log[j] != Remove(rr, name) {
      assert LastWord(log, rr, name, key, i);
    }
    assert forall k: nat | LastWord(log, rr, name, key, k) :: k <= i;
    assert forall k: nat | LastWord(log, rr, name, key, k) :: k < i ==> !Touches(log[i], rr, name);
  }

  /** A key added and removed again is stored no more, but new ids are still signed with it. */
  lemma RemovedKeyStillSigns(rr: NamespacedName, name: Bytes, key: Bytes)
    ensures
      var log := [Add(rr, name, key), Remove(rr, name)];
      Newest(log, rr) == Some(key) && Entries(log, rr) == map[]
  {
    var log := [Add(rr, name, key), Remove(rr, name)];
    assert log[..1] == [Add(rr, name, key)] && log[..1][..0] == [];
    assert Entries(log[..1], rr) == map[name := key] && Newest(log[..1], rr) == Some(key);
  }

  /** An id minted under a key is accepted as long as that key's name is not removed or overwritten. */
  lemma MintedVerifiesWhileStored(aead: Aead, log: seq<Op>, rr: NamespacedName, name: Bytes, key: Bytes, i: nat,
                                  id: Bytes, nonce: Bytes, idx: int)
    requires LastWord(log, rr, name, key, i)
    requires Lawful(aead) && UsableKey(key) && |nonce| == NONCE_SIZE && COLON !in id
    ensures key in Entries(log, rr).Values && Verifies(aead, SetCorrelationId(aead, id, key, nonce, idx).value, key)
  {
    StoredIffLastWord(log, rr, name, key);
    assert name in Entries(log, rr) && Entries(log, rr)[name] == key;
    MintedVerifiesIff(aead, id, key, nonce, idx);
  }

  // ---------- the stores ----------

  class RequestReplyKeyStore {
    var newestKey: Bytes
    var entries: map<Bytes, Bytes>

    constructor ()
      ensures newestKey == [] && entries == map[]
    {
      newestKey, entries := [], map[];
    }

    method AddAesKey(keyName: Bytes, keyValue: Bytes)
      modifies this
      ensures newestKey == keyValue && entries == old(entries)[keyName := keyValue]
    {
      newestKey := keyValue;
      entries := entries[keyName := keyValue];
    }

    method RemoveAesKey(keyName: Bytes)
      modifies this`entries
      ensures entries == old(entries) - {keyName}
    {
      entries := entries - {keyName};
    }

    /** The stored keys, one for each name, in whatever order the map is walked. */
    method GetAllKeys() returns (keys: seq<Bytes>)
      ensures |keys| == |entries| && forall k :: k in keys <==> k in entries.Values
    {
      keys := [];
      var todo := entries.Keys;
      while todo != {}
        invariant todo <= entries.Keys && |keys| + |todo| == |entries|
        invariant forall k :: k in keys <==> exists n :: n in entries.Keys - todo && entries[n] == k
      {
        var n :| n in todo;
        todo := todo - {n};
        keys := keys + [entries[n]];
      }
    }
  }

  class AESKeyStore {
    var keyStores: map<NamespacedName, RequestReplyKeyStore>
    /** Every addition and removal so far. */
    ghost var log: seq<Op>

    ghost predicate Valid()
      reads this, keyStores.Values
    {
      && (forall a, b | a in keyStores && b in keyStores && a != b :: keyStores[a] != keyStores[b])
      && (forall rr :: rr in keyStores <==> Newest(log, rr).Some?)
      && (forall rr <- keyStores ::
            keyStores[rr].entries == Entries(log, rr) && Newest(log, rr) == Some(keyStores[rr].newestKey))
    }

    constructor ()
      ensures Valid() && log == []
    {
      keyStores, log := map[], [];
    }

    method AddAesKey(rr: NamespacedName, keyName: Bytes, keyValue: Bytes)
      requires Valid()
      modifies this, keyStores.Values
      ensures Valid() && log == old(log) + [Add(rr, keyName, keyValue)]
      ensures fresh(keyStores.Values - old(keyStores.Values))
    {
      if rr !in keyStores {
        NoEntries(log, rr);
        var store := new RequestReplyKeyStore();
        keyStores := keyStores[rr := store];
      }
      keyStores[rr].AddAesKey(keyName, keyValue);
      log := log + [Add(rr, keyName, keyValue)];
      assert log[..|log| - 1] == old(log);
    }

    method RemoveAesKey(rr: NamespacedName, keyName: Bytes)
      requires Valid()
      modifies this, keyStores.Values
      ensures Valid() && log == old(log) + [Remove(rr, keyName)] && keyStores == old(keyStores)
    {
      log := log + [Remove(rr, keyName)];
      assert log[..|log| - 1] == old(log);
      if rr in keyStores {
        keyStores[rr].RemoveAesKey(keyName);
      }
    }

    method GetLatestKey(rr: NamespacedName) returns (key: Option<Bytes>)
      requires Valid()
      ensures key == Newest(log, rr)
    {
      key := if rr in keyStores then Some(keyStores[rr].newestKey) else None;
    }

    method GetAllKeys(rr: NamespacedName) returns (keys: Option<seq<Bytes>>)
      requires Valid()
      ensures keys.None? <==> Newest(log, rr).None?
      ensures keys.Some? ==> forall k :: k in keys.value <==> k in Entries(log, rr).Values
    {
      if rr !in keyStores {
        return None;
      }
      var ks := keyStores[rr].GetAllKeys();
      keys := Some(ks);
    }

    /** processKeyFile: a file whose name does not have three parts is ignored. */
    method ProcessKeyFile(fileName: Bytes, contents: Bytes)
      requires Valid()
      modifies this, keyStores.Values
      ensures Valid() && fresh(keyStores.Values - old(keyStores.Values))
      ensures log == match ParseFileName(fileName)
                     case None => old(log)
                     case Some((rr, name)) => old(log) + [Add(rr, name, contents)]
    {
      var parsed := ParseFileName(fileName);
      if parsed.Some? {
        AddAesKey(parsed.value.0, parsed.value.1, contents);
      }
    }

    method RemoveKeyFile(fileName: Bytes)
      requires Valid()
      modifies this, keyStores.Values
      ensures Valid() && keyStores == old(keyStores)
      ensures log == match ParseFileName(fileName)
                     case None => old(log)
                     case Some((rr, name)) => old(log) + [Remove(rr, name)]
    {
      var parsed := ParseFileName(fileName);
      if parsed.Some? {
        RemoveAesKey(parsed.value.0, parsed.value.1);
      }
    }
  }

  lemma {:induction false} NoEntries(log: seq<Op>, rr: NamespacedName)
    requires Newest(log, rr).None?
    ensures Entries(log, rr) == map[]
  {
    if log != [] {
      NoEntries(log[..|log| - 1], rr);
    }
  }

  const DOT: Byte := 46

  function ParseFileName(fileName: Bytes): Option<(NamespacedName, Bytes)> {
    var parts := Split(fileName, DOT);
    if |parts| != 3 then None else Some((NamespacedName(parts[0], parts[1]), parts[2]))
  }

  /** A file name is read as a resource and a key iff it is namespace.name.key and none of the three has a '.'. */
  lemma FileNameIff(file: Bytes, rr: NamespacedName, key: Bytes)
    ensures ParseFileName(file) == Some((rr, key))
       <==> && '.' as int !in rr.namespace && '.' as int !in rr.name && '.' as int !in key
            && file == rr.namespace + ['.' as int] + rr.name + ['.' as int] + key
  {
    var parts := Split(file, DOT);
    JoinSplit(file, DOT);
    if |parts| == 3 {
      JoinThree(parts, DOT);
      assert DOT !in parts[0] && DOT !in parts[1] && DOT !in parts[2];
      assert file == parts[0] + [DOT] + parts[1] + [DOT] + parts[2];
    }
    assert DOT == '.' as int;
    if DOT !in rr.namespace && DOT !in rr.name && DOT !in key {
      SplitThree(rr.namespace, rr.name, key, DOT);
      if file == rr.namespace + [DOT] + rr.name + [DOT] + key {
        assert parts == [rr.namespace, rr.name, key];
      }
    }
    if ParseFileName(file) == Some((rr, key)) {
      assert file == rr.namespace + [DOT] + rr.name + [DOT] + key;
    }
  }

  /** Any other number of '.' is an error. */
  lemma FileNameErrorIff(file: Bytes)
    ensures ParseFileName(file).None? <==> Count<Byte>(file, '.' as int) != 2
  {
    SplitCount(file, DOT);
  }
}
