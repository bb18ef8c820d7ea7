/** Which hash slot a key belongs to. */
module KeyHash {
  import opened Crc

  type Key = seq<bv8>

  const OPEN: bv8 := 123
  const CLOSE: bv8 := 125

  lemma Braces()
    ensures OPEN as int == '{' as int && CLOSE as int == '}' as int
  {
  }

  /** The first position of `b` from `i` on, |key| if there is none. */
  function Find(key: Key, b: bv8, i: nat): (p: nat)
    requires i <= |key|
    ensures i <= p <= |key| && (p < |key| ==> key[p] == b) && forall k :: i <= k < p ==> key[k] != b
    decreases |key| - i
  {
    if i == |key| || key[i] == b then i else Find(key, b, i + 1)
  }

  /** The part of a key that is hashed: what the first pair of braces encloses, unless it is empty. */
  function HashTag(key: Key): Key {
    var s := Find(key, OPEN, 0);
    if s == |key| then key
    else
      var e := Find(key, CLOSE, s + 1);
      if e == |key| || e == s + 1 then key else key[s + 1..e]
  }

  /** crc16() modulo the number of slots. */
  function SlotOf(crc: bv16): (slot: nat)
    ensures slot < 16384
  {
    LowBitsAreSmall(crc);
    (crc & 0x3FFF) as nat
  }

  function HashSlot(key: Key): (slot: nat)
    ensures slot < 16384
  {
    SlotOf(Checksum16(HashTag(key)))
  }

  lemma LowBitsAreSmall(x: bv16)
    ensures (x & 0x3FFF) as nat < 16384
  {
  }

  lemma HighAndLow(x: bv16)
    ensures x as nat == (x & 0xC000) as nat + (x & 0x3FFF) as nat
  {
  }

  lemma HighBits(x: bv16)
    ensures (x & 0xC000) as nat % 16384 == 0
  {
    var high := x & 0xC000;
    assert high == 0 || high == 0x4000 || high == 0x8000 || high == 0xC000;
  }

  lemma Remainder(high: nat, low: nat)
    requires high % 16384 == 0 && low < 16384
    ensures (high + low) % 16384 == low
  {
  }

  lemma SlotIsRemainder(crc: bv16)
    ensures SlotOf(crc) == crc as nat % 16384
  {
    HighAndLow(crc);
    HighBits(crc);
    LowBitsAreSmall(crc);
    Remainder((crc & 0xC000) as nat, (crc & 0x3FFF) as nat);
  }

  lemma FindUnique(key: Key, b: bv8, i: nat, p: nat)
    requires i <= p <= |key| && (p < |key| ==> key[p] == b) && forall k :: i <= k < p ==> key[k] != b
    ensures Find(key, b, i) == p
  {
  }

  method KeyHashSlot(key: Key) returns (slot: nat)
    ensures slot == HashSlot(key)
  {
    hide Checksum16, SlotOf;
    var s := 0;
    while s < |key|
      invariant s <= |key| && forall k :: 0 <= k < s ==> key[k] != OPEN
    {
      if key[s] == OPEN {
        break;
      }
      s := s + 1;
    }
    FindUnique(key, OPEN, 0, s);
    var crc;
    if s == |key| {
      crc := Crc16(key);
      return SlotOf(crc);
    }
    var e := s + 1;
    while e < |key|
      invariant s + 1 <= e <= |key| && forall k :: s + 1 <= k < e ==> key[k] != CLOSE
    {
      if key[e] == CLOSE {
        break;
      }
      e := e + 1;
    }
    FindUnique(key, CLOSE, s + 1, e);
    if e == |key| || e == s + 1 {
      crc := Crc16(key);
      return SlotOf(crc);
    }
    crc := Crc16(key[s + 1..e]);
    slot := SlotOf(crc);
  }

  /** A key without a pair of braces, or whose first pair encloses nothing, is hashed as a whole. */
  lemma WholeKeySlot(key: Key, before: Key, rest: Key)
    requires OPEN !in before
    requires key == before || (key == before + [OPEN] + rest && (CLOSE !in rest || CLOSE == rest[0]))
    ensures HashSlot(key) == Checksum16(key) as nat % 16384
  {
    hide Checksum16, SlotOf;
    SlotIsRemainder(Checksum16(key));
    if key == before {
      FindUnique(key, OPEN, 0, |key|);
    } else {
      var s := |before|;
      forall k | 0 <= k < s ensures key[k] != OPEN {
        assert key[k] == before[k];
      }
      FindUnique(key, OPEN, 0, s);
      assert key[s + 1..] == rest;
      if CLOSE !in rest {
        forall k | s + 1 <= k < |key| ensures key[k] != CLOSE {
          assert key[k] == rest[k - s - 1];
        }
        FindUnique(key, CLOSE, s + 1, |key|);
      } else {
        assert key[s + 1] == rest[0];
        FindUnique(key, CLOSE, s + 1, s + 1);
      }
    }
  }

  /** Otherwise only what the first pair of braces encloses is hashed, so that all keys with the same tag
      are in one slot. */
  lemma TaggedKeysShareSlot(before: Key, tag: Key, after: Key)
    requires OPEN !in before && tag != [] && CLOSE !in tag
    ensures HashSlot(before + [OPEN] + tag + [CLOSE] + after) == Checksum16(tag) as nat % 16384
    ensures HashSlot(before + [OPEN] + tag + [CLOSE] + after) == HashSlot([OPEN] + tag + [CLOSE])
  {
    hide Checksum16, SlotOf;
    TagFound(before, tag, after);
    TagFound([], tag, []);
    SlotIsRemainder(Checksum16(tag));
    assert [] + [OPEN] + tag + [CLOSE] + [] == [OPEN] + tag + [CLOSE];
  }

  lemma TagFound(before: Key, tag: Key, after: Key)
    requires OPEN !in before && tag != [] && CLOSE !in tag
    ensures HashTag(before + [OPEN] + tag + [CLOSE] + after) == tag
  {
    var key := before + [OPEN] + tag + [CLOSE] + after;
    var s, e := |before|, |before| + 1 + |tag|;
    forall k | 0 <= k < s ensures key[k] != OPEN {
      assert key[k] == before[k];
    }
    forall k | s + 1 <= k < e ensures key[k] != CLOSE {
      assert key[k] == tag[k - s - 1];
    }
    FindUnique(key, OPEN, 0, s);
    FindUnique(key, CLOSE, s + 1, e);
    assert key[s + 1..e] == tag;
  }
}
