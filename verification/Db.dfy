/** The keyspace of a cluster node: the dictionary, the expires and the sorted index of keys by hash slot. */
module Db {
  import opened Basics
  import opened KeyHash

  // ---------------------------------------------------------------- the sorted index

  /** An element of slots_to_keys: the score is the hash slot. */
  datatype Entry = Entry(slot: nat, key: Key)

  function EntryOf(key: Key): Entry {
    Entry(HashSlot(key), key)
  }

  /** memcmp() order */
  predicate Less(a: Key, b: Key) {
    b != [] && (a == [] || a[0] < b[0] || (a[0] == b[0] && Less(a[1..], b[1..])))
  }

  /** The two keys agree up to position `i`, where `a` has the smaller byte. */
  predicate LessAt(a: Key, b: Key, i: nat) {
    i < |a| && i < |b| && a[..i] == b[..i] && a[i] < b[i]
  }

  /** One key comes before another when it is less at the first position where they differ, or a proper prefix. */
  lemma {:induction false} LessIsLexicographic(a: Key, b: Key)
    ensures Less(a, b) <==> (|a| < |b| && b[..|a|] == a) || exists i :: LessAt(a, b, i)
  {
    if a == [] || b == [] {
      assert b != [] ==> b[..0] == a[..0];
    } else if a[0] == b[0] {
      LessIsLexicographic(a[1..], b[1..]);
      SameTails(a, b);
      TailsLessAt(a, b);
    } else {
      HeadsDiffer(a, b);
    }
  }

  lemma TailsLessAt(a: Key, b: Key)
    requires a != [] && b != [] && a[0] == b[0]
    ensures (exists i :: LessAt(a, b, i)) <==> exists i :: LessAt(a[1..], b[1..], i)
  {
    forall i: nat | LessAt(a, b, i) ensures i > 0 && LessAt(a[1..], b[1..], i - 1) {
      assert a[1..][..i - 1] == a[..i][1..] && b[1..][..i - 1] == b[..i][1..];
    }
    forall i: nat | LessAt(a[1..], b[1..], i) ensures LessAt(a, b, i + 1) {
      assert a[..i + 1] == [a[0]] + a[1..][..i] && b[..i + 1] == [b[0]] + b[1..][..i];
    }
  }

  lemma HeadsDiffer(a: Key, b: Key)
    requires a != [] && b != [] && a[0] != b[0]
    ensures !(|a| < |b| && b[..|a|] == a)
    ensures (exists i :: LessAt(a, b, i)) <==> a[0] < b[0]
  {
    assert |a| < |b| ==> b[..|a|][0] != a[0];
    assert a[0] < b[0] ==> LessAt(a, b, 0);
    forall i: nat | 0 < i < |a| && i < |b| ensures a[..i] != b[..i] {
      assert a[..i][0] == a[0] && b[..i][0] == b[0];
    }
  }

  lemma SameTails(a: Key, b: Key)
    requires a != [] && b != [] && a[0] == b[0]
    ensures |a| < |b| ==> (b[..|a|] == a <==> b[1..][..|a| - 1] == a[1..])
  {
    if |a| < |b| {
      assert b[..|a|] == [b[0]] + b[1..][..|a| - 1] && a == [a[0]] + a[1..];
    }
  }

  lemma {:induction false} LessIsTotal(a: Key, b: Key)
    ensures Less(a, b) || Less(b, a) || a == b
    ensures !(Less(a, b) && Less(b, a)) && (Less(a, b) ==> a != b)
  {
    if a != [] && b != [] {
      LessIsTotal(a[1..], b[1..]);
      assert a == [a[0]] + a[1..] && b == [b[0]] + b[1..];
    }
  }

  lemma {:induction false} LessIsTransitive(a: Key, b: Key, c: Key)
    requires Less(a, b) && Less(b, c)
    ensures Less(a, c)
  {
    if a != [] {
      if a[0] == b[0] == c[0] {
        LessIsTransitive(a[1..], b[1..], c[1..]);
      }
    }
  }

  predicate Before(x: Entry, y: Entry) {
    x.slot < y.slot || (x.slot == y.slot && Less(x.key, y.key))
  }

  lemma BeforeIsTotal(x: Entry, y: Entry)
    ensures Before(x, y) || Before(y, x) || x == y
    ensures !(Before(x, y) && Before(y, x)) && (Before(x, y) ==> x != y)
  {
    LessIsTotal(x.key, y.key);
  }

  lemma BeforeIsTransitive(x: Entry, y: Entry, z: Entry)
    requires Before(x, y) && Before(y, z)
    ensures Before(x, z)
  {
    if x.slot == y.slot == z.slot {
      LessIsTransitive(x.key, y.key, z.key);
    }
  }

  ghost predicate Sorted(index: seq<Entry>) {
    forall i, j :: 0 <= i < j < |index| ==> Before(index[i], index[j])
  }

  /** The index lists exactly the keys of `keys`, each once and under its own slot. */
  ghost predicate Indexes(index: seq<Entry>, keys: set<Key>) {
    && Sorted(index)
    && (forall i :: 0 <= i < |index| ==> index[i].key in keys && index[i] == EntryOf(index[i].key))
    && forall k :: k in keys ==> EntryOf(k) in index
  }

  ghost predicate SplitsAt(index: seq<Entry>, e: Entry, p: nat) {
    && p <= |index|
    && (forall i :: 0 <= i < p ==> Before(index[i], e))
    && forall i :: p <= i < |index| ==> index[i] == e || Before(e, index[i])
  }

  /** Where `e` is or would be. */
  method Locate(index: seq<Entry>, e: Entry) returns (p: nat)
    requires Sorted(index)
    ensures SplitsAt(index, e, p)
  {
    hide Before;
    p := 0;
    while p < |index| && Before(index[p], e)
      invariant p <= |index| && forall i :: 0 <= i < p ==> Before(index[i], e)
    {
      p := p + 1;
    }
    forall i | p <= i < |index| ensures index[i] == e || Before(e, index[i]) {
      BeforeIsTotal(index[p], e);
      if i > p && Before(e, index[p]) {
        BeforeIsTransitive(e, index[p], index[i]);
      }
    }
  }

  lemma InsertSorted(index: seq<Entry>, e: Entry, p: nat)
    requires Sorted(index) && SplitsAt(index, e, p) && e !in index
    ensures Sorted(index[..p] + [e] + index[p..])
  {
  }

  // ---------------------------------------------------------------- the database

  datatype Reply = SameObject | NoKey | Refused | Renamed

  /** The keys that belong to a slot. */
  function KeysIn(keys: set<Key>, slot: nat): set<Key> {
    set k | k in keys && HashSlot(k) == slot
  }

  class RedisDb<V> {
    var dict: map<Key, V>
    var expires: map<Key, int>
    var index: seq<Entry>
    const clusterEnabled: bool

    constructor (clusterEnabled: bool)
      ensures Valid() && dict == map[] && this.clusterEnabled == clusterEnabled
    {
      this.clusterEnabled := clusterEnabled;
      dict, expires, index := map[], map[], [];
    }

    ghost predicate Valid()
      reads this
    {
      expires.Keys <= dict.Keys && (clusterEnabled ==> Indexes(index, dict.Keys))
    }

    method SlotToKeyAdd(key: Key)
      requires Indexes(index, dict.Keys - {key}) && key in dict
      modifies this`index
      ensures Indexes(index, dict.Keys)
    {
      hide HashSlot, Before;
      var slot := KeyHashSlot(key);
      var e := Entry(slot, key);
      var p := Locate(index, e);
      InsertSorted(index, e, p);
      ghost var before := index;
      index := index[..p] + [e] + index[p..];
      AddedIndexes(before, dict.Keys, key, p);
    }

    method SlotToKeyDel(key: Key)
      requires Indexes(index, dict.Keys + {key}) && key !in dict
      modifies this`index
      ensures Indexes(index, dict.Keys)
      ensures exists p: nat :: p < |old(index)| && old(index)[p] == EntryOf(key)
                               && index == old(index)[..p] + old(index)[p + 1..]
    {
      hide HashSlot, Before;
      var slot := KeyHashSlot(key);
      var e := Entry(slot, key);
      var p := Locate(index, e);
      IsAt(index, e, p);
      ghost var before := index;
      index := index[..p] + index[p + 1..];
      RemovedIndexes(before, dict.Keys, key, p);
    }

    /** The assertion that the key is new is the precondition here. */
    method DbAdd(key: Key, val: V)
      requires Valid() && key !in dict
      modifies this`dict, this`index
      ensures Valid() && dict == old(dict)[key := val]
    {
      hide Indexes;
      ghost var keys := dict.Keys;
      dict := dict[key := val];
      assert dict.Keys - {key} == keys;
      if clusterEnabled {
        SlotToKeyAdd(key);
      }
    }

    method DbOverwrite(key: Key, val: V)
      requires Valid() && key in dict
      modifies this`dict
      ensures Valid() && dict == old(dict)[key := val]
    {
      hide Indexes;
      ghost var keys := dict.Keys;
      dict := dict[key := val];
      assert dict.Keys == keys;
    }

    method DbDelete(key: Key) returns (deleted: bool)
      requires Valid()
      modifies this`dict, this`expires, this`index
      ensures Valid() && (deleted <==> key in old(dict))
      ensures dict == old(dict) - {key} && expires == old(expires) - {key}
      ensures clusterEnabled && deleted ==>
                exists p: nat :: p < |old(index)| && old(index)[p] == EntryOf(key)
                                 && index == old(index)[..p] + old(index)[p + 1..]
    {
      hide Indexes;
      ghost var keys := dict.Keys;
      expires := expires - {key};
      deleted := key in dict;
      if deleted {
        dict := dict - {key};
        assert dict.Keys + {key} == keys;
        if clusterEnabled {
          SlotToKeyDel(key);
        }
      } else {
        assert dict - {key} == dict;
      }
    }

    /** The expire time of a key, -1 if it has none. */
    function GetExpire(key: Key): int
      reads this
    {
      if key in expires then expires[key] else -1
    }

    /** Whether a key counts as expired. While loading nothing expires. */
    predicate Expired(key: Key, now: int, loading: bool)
      reads this
    {
      GetExpire(key) >= 0 && !loading && now > GetExpire(key)
    }

    /** A slave only reports an expired key, a master deletes it. */
    method ExpireIfNeeded(key: Key, now: int, loading: bool, slave: bool) returns (expired: bool)
      requires Valid()
      modifies this`dict, this`expires, this`index
      ensures Valid() && (expired <==> old(Expired(key, now, loading)))
      ensures expired <==> key in old(expires) && 0 <= old(expires)[key] < now && !loading
      ensures dict == (if expired && !slave then old(dict) - {key} else old(dict))
      ensures expires == (if expired && !slave then old(expires) - {key} else old(expires))
    {
      hide Indexes;
      var when := GetExpire(key);
      if when < 0 || loading {
        return false;
      }
      if slave {
        return now > when;
      }
      if now <= when {
        return false;
      }
      expired := DbDelete(key);
    }

    method LookupKeyWrite(key: Key, now: int, loading: bool, slave: bool) returns (val: Option<V>)
      requires Valid()
      modifies this`dict, this`expires, this`index
      ensures Valid() && val == if key in dict then Some(dict[key]) else None
      ensures var gone := old(Expired(key, now, loading)) && !slave;
              && dict == (if gone then old(dict) - {key} else old(dict))
              && expires == (if gone then old(expires) - {key} else old(expires))
    {
      hide Indexes;
      var _ := ExpireIfNeeded(key, now, loading, slave);
      val := if key in dict then Some(dict[key]) else None;
    }

    method RemoveExpire(key: Key) returns (removed: bool)
      requires Valid() && key in dict
      modifies this`expires
      ensures Valid() && expires == old(expires) - {key} && (removed <==> key in old(expires))
    {
      hide Indexes;
      removed := key in expires;
      expires := expires - {key};
    }

    method SetExpire(key: Key, when: int)
      requires Valid() && key in dict
      modifies this`expires
      ensures Valid() && expires == old(expires)[key := when]
    {
      hide Indexes;
      expires := expires[key := when];
    }

    /** After SET the key has the value and no expire, whatever it had before. */
    method SetKey(key: Key, val: V, now: int, loading: bool, slave: bool)
      requires Valid()
      modifies this`dict, this`expires, this`index
      ensures Valid() && dict == old(dict)[key := val] && expires == old(expires) - {key}
    {
      hide Indexes;
      var found := LookupKeyWrite(key, now, loading, slave);
      if found.None? {
        DbAdd(key, val);
      } else {
        DbOverwrite(key, val);
      }
      var _ := RemoveExpire(key);
    }

    /** RENAME and RENAMENX: on success the value and the expire move together and nothing else changes;
        otherwise at most the expired `from` goes. */
    method Rename(from: Key, to: Key, nx: bool, now: int, loading: bool, slave: bool) returns (reply: Reply)
      requires Valid()
      modifies this`dict, this`expires, this`index
      ensures Valid()
      ensures reply == SameObject <==> from == to
      ensures reply == NoKey <==> from != to && (from !in old(dict) || (old(Expired(from, now, loading)) && !slave))
      ensures reply == Refused ==> nx && to in dict && from in dict
      ensures reply == Renamed ==>
                && from in old(dict) && dict == (old(dict) - {from})[to := old(dict)[from]]
                && expires == (old(expires) - {from, to})
                              + (if old(GetExpire(from)) != -1 then map[to := old(GetExpire(from))] else map[])
      ensures reply == NoKey ==> dict == old(dict) - {from} && expires == old(expires) - {from}
      ensures reply in {SameObject, Refused} ==> dict == old(dict) && expires == old(expires)
      ensures reply == Renamed && nx ==> to !in old(dict) || (old(Expired(to, now, loading)) && !slave)
    {
      hide Indexes;
      if from == to {
        return SameObject;
      }
      var o := LookupKeyWrite(from, now, loading, slave);
      if o.None? {
        return NoKey;
      }
      var expire := GetExpire(from);
      var other := LookupKeyWrite(to, now, loading, slave);
      if other.Some? && nx {
        return Refused;
      }
      MoveKey(from, to, o.value, expire);
      reply := Renamed;
    }

    /** The second half of RENAME: whatever `to` was goes, and `from` becomes `to`. */
    method MoveKey(from: Key, to: Key, val: V, expire: int)
      requires Valid() && from in dict && from != to
      modifies this`dict, this`expires, this`index
      ensures Valid() && dict == (old(dict) - {from})[to := val]
      ensures expires == (old(expires) - {from, to}) + (if expire != -1 then map[to := expire] else map[])
    {
      hide Indexes;
      MovedMaps(dict, from, to, val);
      MovedMaps(expires, from, to, expire);
      if to in dict {
        var _ := DbDelete(to);
      }
      DbAdd(to, val);
      if expire != -1 {
        SetExpire(to, expire);
      }
      var _ := DbDelete(from);
    }

    method EmptyDb() returns (removed: nat)
      modifies this
      ensures Valid() && dict == map[] && expires == map[] && removed == |old(dict)|
    {
      removed := |dict|;
      dict, expires := map[], map[];
      if clusterEnabled {
        index := [];
      }
    }

    // ---------------------------------------------------------------- one slot

    /** The first element of the index in a slot. */
    method FirstInRange(slot: nat) returns (n: Option<nat>)
      requires Indexes(index, dict.Keys)
      ensures n.None? ==> forall i :: 0 <= i < |index| ==> index[i].slot != slot
      ensures n.Some? ==> n.value < |index| && index[n.value].slot == slot
      ensures n.Some? ==> forall i :: 0 <= i < n.value ==> index[i].slot < slot
    {
      hide Indexes;
      var p := 0;
      while p < |index| && index[p].slot < slot
        invariant p <= |index| && forall i :: 0 <= i < p ==> index[i].slot < slot
      {
        p := p + 1;
      }
      if p < |index| {
        SlotsAscend(index, dict.Keys, p);
      }
      n := if p < |index| && index[p].slot == slot then Some(p) else None;
    }

    /** The last one. */
    method LastInRange(slot: nat) returns (n: Option<nat>)
      requires Indexes(index, dict.Keys)
      ensures n.None? ==> forall i :: 0 <= i < |index| ==> index[i].slot != slot
      ensures n.Some? ==> n.value < |index| && index[n.value].slot == slot
      ensures n.Some? ==> forall i :: n.value < i < |index| ==> index[i].slot > slot
    {
      hide Indexes;
      var p: nat := |index|;
      while p > 0 && index[p - 1].slot > slot
        invariant p <= |index| && forall i :: p <= i < |index| ==> index[i].slot > slot
      {
        p := p - 1;
      }
      if p > 0 {
        SlotsAscend(index, dict.Keys, p - 1);
      }
      n := if p > 0 && index[p - 1].slot == slot then Some(p - 1) else None;
    }

    /** Up to `count` keys of a slot, in the order of the index. */
    method GetKeysInSlot(slot: nat, count: nat) returns (keys: seq<Key>)
      requires Valid() && clusterEnabled
      ensures forall i :: 0 <= i < |keys| ==> keys[i] in KeysIn(dict.Keys, slot)
      ensures forall i, j :: 0 <= i < j < |keys| ==> Less(keys[i], keys[j])
      ensures |keys| == if count < |KeysIn(dict.Keys, slot)| then count else |KeysIn(dict.Keys, slot)|
      ensures forall i, k :: 0 <= i < |keys| && k in KeysIn(dict.Keys, slot) && k !in keys ==> Less(keys[i], k)
    {
      hide HashSlot, Less;
      keys := [];
      var first := FirstInRange(slot);
      if first.None? {
        NoKeysInSlot(index, dict.Keys, slot);
        return;
      }
      var n, left: nat := first.value, count;
      while n < |index| && index[n].slot == slot && left > 0
        invariant first.value <= n <= |index| && |keys| + left == count && |keys| == n - first.value
        invariant forall i :: 0 <= i < |keys| ==> index[first.value + i] == Entry(slot, keys[i])
        invariant forall i :: 0 <= i < |keys| ==> keys[i] in KeysIn(dict.Keys, slot)
        invariant forall i :: first.value <= i < n ==> index[i].slot == slot
      {
        assert index[n] == EntryOf(index[n].key);
        keys, n, left := keys + [index[n].key], n + 1, left - 1;
      }
      TakenFromWindow(index, dict.Keys, slot, first.value, n, left);
      TakenInOrder(index, dict.Keys, slot, first.value, n, keys);
    }

    /** The count comes from the ranks of the first and the last element. */
    method CountKeysInSlot(slot: nat) returns (count: int)
      requires Valid() && clusterEnabled
      ensures count == |KeysIn(dict.Keys, slot)|
    {
      hide HashSlot, Before;
      count := 0;
      var zn := FirstInRange(slot);
      if zn.Some? {
        var rank := zn.value + 1;
        count := |index| - (rank - 1);
        var last := LastInRange(slot);
        if last.Some? {
          rank := last.value + 1;
          count := count - (|index| - rank);
          WindowCount(index, dict.Keys, slot, zn.value, last.value + 1);
        }
      } else {
        NoKeysInSlot(index, dict.Keys, slot);
      }
    }

    /** Deletes the keys of a slot, all of them and nothing else. Each round deletes the node at position
        `n`; the node that followed it is then at the same position. */
    method DelKeysInSlot(slot: nat) returns (j: nat)
      requires Valid() && clusterEnabled
      modifies this`dict, this`expires, this`index
      ensures Valid() && j == |KeysIn(old(dict).Keys, slot)|
      ensures dict == old(dict) - KeysIn(old(dict).Keys, slot) && expires == old(expires) - KeysIn(old(dict).Keys, slot)
    {
      hide HashSlot, Before, Indexes;
      j := 0;
      ghost var keys := dict.Keys;
      var first := FirstInRange(slot);
      if first.None? {
        NoKeysInSlot(index, dict.Keys, slot);
        assert KeysIn(dict.Keys, slot) == {};
        return;
      }
      var n := first.value;
      NoneBelow(index, dict.Keys, slot, n);
      ghost var gone: set<Key> := {};
      while n < |index| && index[n].slot == slot
        invariant Valid() && n <= |index| && forall i :: 0 <= i < n ==> index[i].slot < slot
        invariant forall i :: n <= i < |index| ==> index[i].slot >= slot
        invariant gone <= KeysIn(keys, slot) && j == |gone| && dict.Keys == keys - gone
        invariant dict == old(dict) - gone && expires == old(expires) - gone
        decreases |index|
      {
        ghost var key := DelKeyAt(slot, n);
        gone, j := gone + {key}, j + 1;
      }
      NothingLeft(index, dict.Keys, slot, n);
      AllGone(keys, gone, slot);
    }

    /** One round of that loop. */
    method DelKeyAt(slot: nat, n: nat) returns (ghost key: Key)
      requires Valid() && clusterEnabled && n < |index| && index[n].slot == slot
      modifies this`dict, this`expires, this`index
      ensures Valid() && key in old(dict) && HashSlot(key) == slot
      ensures index == old(index)[..n] + old(index)[n + 1..]
      ensures dict == old(dict) - {key} && expires == old(expires) - {key}
    {
      hide HashSlot, Before;
      var k := index[n].key;
      assert index[n] == EntryOf(k);
      ghost var before := index;
      var _ := DbDelete(k);
      DeletedHere(before, index, k, n);
      key := k;
    }
  }

  lemma AllGone(keys: set<Key>, gone: set<Key>, slot: nat)
    requires gone <= KeysIn(keys, slot) && KeysIn(keys - gone, slot) == {}
    ensures gone == KeysIn(keys, slot)
  {
    hide HashSlot;
    forall k | k in KeysIn(keys, slot) ensures k in gone {
      assert k !in KeysIn(keys - gone, slot);
    }
  }

  lemma MovedMaps<T>(m: map<Key, T>, from: Key, to: Key, val: T)
    requires from != to
    ensures (m - {to})[to := val] - {from} == m[to := val] - {from} == (m - {from})[to := val]
    ensures m[to := val] - {from} == (m - {from, to}) + map[to := val]
    ensures (m - {to}) - {from} == m - {from, to} == (m - {from, to}) + map[]
    ensures to !in m ==> m - {from} == m - {from, to}
  {
  }

  lemma AddedIndexes(before: seq<Entry>, keys: set<Key>, key: Key, p: nat)
    requires Indexes(before, keys - {key}) && key in keys && p <= |before|
    requires Sorted(before[..p] + [EntryOf(key)] + before[p..])
    ensures Indexes(before[..p] + [EntryOf(key)] + before[p..], keys)
  {
    hide HashSlot, Sorted;
    var r := before[..p] + [EntryOf(key)] + before[p..];
    forall k | k in keys ensures EntryOf(k) in r {
      if k == key {
        assert r[p] == EntryOf(key);
      } else {
        var i :| 0 <= i < |before| && before[i] == EntryOf(k);
        assert r[if i < p then i else i + 1] == before[i];
      }
    }
  }

  lemma IsAt(index: seq<Entry>, e: Entry, p: nat)
    requires SplitsAt(index, e, p) && e in index && Sorted(index)
    ensures p < |index| && index[p] == e
  {
    hide Before;
    var i :| 0 <= i < |index| && index[i] == e;
    BeforeIsTotal(e, e);
    assert i >= p;
    if index[p] != e {
      BeforeIsTotal(index[p], e);
    }
  }

  lemma RemovedIndexes(before: seq<Entry>, keys: set<Key>, key: Key, p: nat)
    requires Indexes(before, keys + {key}) && key !in keys && p < |before| && before[p] == EntryOf(key)
    ensures Indexes(before[..p] + before[p + 1..], keys)
  {
    hide HashSlot, Before;
    var r := before[..p] + before[p + 1..];
    forall i | 0 <= i < |r| ensures r[i].key in keys {
      var k := if i < p then i else i + 1;
      assert r[i] == before[k];
      if before[k].key == key {
        BeforeIsTotal(before[p], before[k]);
      }
    }
    forall k | k in keys ensures EntryOf(k) in r {
      var i :| 0 <= i < |before| && before[i] == EntryOf(k);
      assert i != p;
      assert r[if i < p then i else i - 1] == before[i];
    }
  }

  // ---------------------------------------------------------------- windows of the index

  lemma NoKeysInSlot(index: seq<Entry>, keys: set<Key>, slot: nat)
    requires Indexes(index, keys) && forall i :: 0 <= i < |index| ==> index[i].slot != slot
    ensures KeysIn(keys, slot) == {}
  {
  }

  lemma {:induction false} DistinctKeys(index: seq<Entry>, p: nat, q: nat)
    requires Sorted(index) && p <= q <= |index|
    ensures |set i | p <= i < q :: index[i]| == q - p
    decreases q - p
  {
    hide Before;
    if p < q {
      DistinctKeys(index, p, q - 1);
      var init := set i | p <= i < q - 1 :: index[i];
      assert (set i | p <= i < q :: index[i]) == init + {index[q - 1]};
      if i :| p <= i < q - 1 && index[i] == index[q - 1] {
        BeforeIsTotal(index[i], index[q - 1]);
      }
    }
  }

  /** The entries of a slot stand for its keys. */
  lemma WindowCount(index: seq<Entry>, keys: set<Key>, slot: nat, p: nat, q: nat)
    requires Indexes(index, keys) && p <= q <= |index|
    requires forall i :: 0 <= i < p ==> index[i].slot < slot
    requires forall i :: q <= i < |index| ==> index[i].slot > slot
    requires p < q ==> index[p].slot == slot && index[q - 1].slot == slot
    ensures |KeysIn(keys, slot)| == q - p
  {
    hide HashSlot, Less;
    forall i | p <= i < q ensures index[i].slot == slot {
      assert p < i ==> Before(index[p], index[i]);
      assert i < q - 1 ==> Before(index[i], index[q - 1]);
    }
    DistinctKeys(index, p, q);
    var entries := set i | p <= i < q :: index[i];
    forall k ensures k in KeysIn(keys, slot) <==> Entry(slot, k) in entries {
      if k in KeysIn(keys, slot) {
        var i :| 0 <= i < |index| && index[i] == EntryOf(k);
        assert index[i] in entries;
      }
    }
    SameSize(entries, KeysIn(keys, slot), slot);
  }

  lemma {:induction false} SameSize(entries: set<Entry>, keys: set<Key>, slot: nat)
    requires forall k :: k in keys <==> Entry(slot, k) in entries
    requires forall e :: e in entries ==> e.slot == slot
    ensures |entries| == |keys|
    decreases |keys|
  {
    assert forall e :: e in entries ==> e == Entry(slot, e.key);
    if keys == {} {
      assert entries == {};
    } else {
      var k :| k in keys;
      SameSize(entries - {Entry(slot, k)}, keys - {k}, slot);
    }
  }

  /** What GetKeysInSlot took is all of the slot or as much as was asked for. */
  lemma TakenFromWindow(index: seq<Entry>, keys: set<Key>, slot: nat, p: nat, n: nat, left: nat)
    requires Indexes(index, keys) && p <= n <= |index| && p < |index| && index[p].slot == slot
    requires forall i :: 0 <= i < p ==> index[i].slot < slot
    requires forall i :: p <= i < n ==> index[i].slot == slot
    requires n == |index| || index[n].slot != slot || left == 0
    ensures n - p <= |KeysIn(keys, slot)| && (left > 0 ==> n - p == |KeysIn(keys, slot)|)
  {
    hide HashSlot, Less;
    var q := n;
    while q < |index| && index[q].slot == slot
      invariant n <= q <= |index| && forall i :: p <= i < q ==> index[i].slot == slot
      invariant left > 0 ==> q == n
    {
      q := q + 1;
    }
    forall i | q <= i < |index| ensures index[i].slot > slot {
      assert p < i ==> Before(index[p], index[i]);
      assert q < i ==> Before(index[q], index[i]);
      assert p < q ==> Before(index[p], index[q]);
    }
    WindowCount(index, keys, slot, p, q);
  }

  /** A key of the slot that was not taken comes behind every one that was. */
  lemma TakenFirst(index: seq<Entry>, all: set<Key>, slot: nat, p: nat, n: nat, keys: seq<Key>, i: nat, k: Key)
    requires Indexes(index, all) && p <= n <= |index| && |keys| == n - p && i < |keys|
    requires forall j :: 0 <= j < p ==> index[j].slot < slot
    requires forall j :: 0 <= j < |keys| ==> index[p + j] == Entry(slot, keys[j])
    requires k in KeysIn(all, slot) && k !in keys
    ensures Less(keys[i], k)
  {
    hide HashSlot, Less;
    var j :| 0 <= j < |index| && index[j] == EntryOf(k);
    forall m | p <= m < n ensures index[m].key in keys {
      assert index[p + (m - p)] == Entry(slot, keys[m - p]);
    }
    assert Before(index[p + i], index[j]);
  }

  lemma TakenInOrder(index: seq<Entry>, all: set<Key>, slot: nat, p: nat, n: nat, keys: seq<Key>)
    requires Indexes(index, all) && p <= n <= |index| && |keys| == n - p
    requires forall j :: 0 <= j < p ==> index[j].slot < slot
    requires forall j :: 0 <= j < |keys| ==> index[p + j] == Entry(slot, keys[j])
    ensures forall i, j :: 0 <= i < j < |keys| ==> Less(keys[i], keys[j])
    ensures forall i, k :: 0 <= i < |keys| && k in KeysIn(all, slot) && k !in keys ==> Less(keys[i], k)
  {
    hide HashSlot, Less;
    forall i, j | 0 <= i < j < |keys| ensures Less(keys[i], keys[j]) {
      assert Before(index[p + i], index[p + j]);
    }
    hide Indexes, KeysIn;
    forall i, k | 0 <= i < |keys| && k in KeysIn(all, slot) && k !in keys ensures Less(keys[i], k) {
      TakenFirst(index, all, slot, p, n, keys, i, k);
    }
  }

  /** The element that a deletion removed is the one at position `n`. */
  lemma DeletedHere(before: seq<Entry>, after: seq<Entry>, key: Key, n: nat)
    requires Sorted(before) && n < |before| && before[n] == EntryOf(key)
    requires exists p: nat :: p < |before| && before[p] == EntryOf(key) && after == before[..p] + before[p + 1..]
    ensures after == before[..n] + before[n + 1..]
  {
    hide HashSlot, Before;
    var p: nat :| p < |before| && before[p] == EntryOf(key) && after == before[..p] + before[p + 1..];
    BeforeIsTotal(before[p], before[n]);
  }

  lemma SlotsAscend(index: seq<Entry>, keys: set<Key>, p: nat)
    requires Indexes(index, keys) && p < |index|
    ensures forall i :: 0 <= i < p ==> index[i].slot <= index[p].slot
    ensures forall i :: p <= i < |index| ==> index[p].slot <= index[i].slot
  {
  }

  lemma NoneBelow(index: seq<Entry>, keys: set<Key>, slot: nat, n: nat)
    requires Indexes(index, keys) && n < |index| && index[n].slot == slot
    ensures forall i :: n <= i < |index| ==> index[i].slot >= slot
  {
  }

  lemma NothingLeft(index: seq<Entry>, keys: set<Key>, slot: nat, n: nat)
    requires Indexes(index, keys) && n <= |index| && forall i :: 0 <= i < n ==> index[i].slot < slot
    requires n < |index| ==> index[n].slot > slot
    ensures KeysIn(keys, slot) == {}
  {
  }
}
