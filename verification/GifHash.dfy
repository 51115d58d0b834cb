/** The open-addressed code table of the giflib encoder (gif_hash.c). */
module GifHash {
  import opened Bits

  const HT_SIZE: nat := 8192
  const HT_EMPTY: nat := 0xFFFFF

  function HtGetKey(l: nat): nat { l / 0x1000 }
  function HtGetCode(l: nat): nat { l % 0x1000 }
  function HtPut(key: nat, code: nat): nat { key * 0x1000 % 0x1_0000_0000 + code % 0x1000 }

  /** Lower 8 bits of a key are the new pixel, the upper 12 the prefix code. */
  function KeyItem(item: nat): (h: nat)
    ensures h < HT_SIZE
  {
    SmallPowers();
    Xor(item / 0x1000, item, 13)
  }

  /** A bit of the slot where probing begins: the exclusive or of two bits of the key. */
  lemma KeyItemBits(item: nat, k: nat)
    requires k < 13
    ensures Shr(KeyItem(item), k) % 2 == 1 <==> Shr(item, k + 12) % 2 != Shr(item, k) % 2
  {
    hide Xor, Shr;
    OrXorBits(item / 0x1000, item, 13, k);
    ShrFour(item);
    ShrFour(item / 0x10);
    ShrFour(item / 0x100);
    ShrAfter(item, 4, 4);
    ShrAfter(item, 8, 4);
    ShrAfter(item, 12, k);
    assert item / 0x100 / 0x10 == item / 0x1000;
  }

  lemma ShrFour(x: nat)
    ensures Shr(x, 4) == x / 0x10
  {
    hide Shr;
    ShrTwo(x);
    ShrTwo(x / 4);
    ShrAfter(x, 2, 2);
  }

  lemma ShrTwo(x: nat)
    ensures Shr(x, 2) == x / 4
  {
    assert Shr(x / 2, 1) == Shr(x / 2 / 2, 0);
  }

  /** The slot reached after d probes that start at slot h. */
  function Probe(h: nat, d: nat): (s: nat)
    ensures s < HT_SIZE
  {
    (h + d) % HT_SIZE
  }

  ghost predicate Empty(l: nat) { HtGetKey(l) == HT_EMPTY }

  /** Every probe for `key` before the d-th meets an occupied slot. */
  ghost predicate Run(table: seq<nat>, key: nat, d: nat)
    requires |table| == HT_SIZE
  {
    forall e :: 0 <= e < d ==> !Empty(table[Probe(KeyItem(key), e)])
  }

  ghost predicate Holds(table: seq<nat>, key: nat, code: nat, d: nat)
    requires |table| == HT_SIZE
  {
    d < HT_SIZE && table[Probe(KeyItem(key), d)] == HtPut(key, code) && Run(table, key, d)
  }

  /** Keys and codes whose packing in 32 bits loses nothing and is not the empty marker. */
  ghost predicate InRange(key: nat, code: nat) {
    key < HT_EMPTY && code < 0x1000
  }

  lemma PackUnpack(key: nat, code: nat)
    requires InRange(key, code)
    ensures HtGetKey(HtPut(key, code)) == key && HtGetCode(HtPut(key, code)) == code
    ensures !Empty(HtPut(key, code))
  {
    hide HtGetKey, HtGetCode, HtPut;
    PutSum(key, code);
    GetParts(key, code);
  }

  lemma PutSum(key: nat, code: nat)
    requires InRange(key, code)
    ensures HtPut(key, code) == key * 0x1000 + code
  {
    assert key * 0x1000 < 0x1_0000_0000;
  }

  lemma GetParts(key: nat, code: nat)
    requires code < 0x1000
    ensures HtGetKey(key * 0x1000 + code) == key && HtGetCode(key * 0x1000 + code) == code
  {
  }

  /** Always true; naming a key here makes the solver look at that key. */
  ghost predicate Sought(key: nat) { true }

  /** `table` stores exactly the map m, and every stored key is found by probing. */
  ghost predicate Stores(table: seq<nat>, m: map<nat, nat>) {
    && |table| == HT_SIZE
    && (forall k {:trigger Sought(k)} :: Sought(k) && k in m ==>
          InRange(k, m[k]) && exists d: nat :: Holds(table, k, m[k], d))
    && (forall s :: 0 <= s < HT_SIZE && !Empty(table[s]) ==>
          HtGetKey(table[s]) in m && table[s] == HtPut(HtGetKey(table[s]), m[HtGetKey(table[s])]))
    && Occupied(table) == |m|
  }

  ghost function Occupied(table: seq<nat>): nat {
    if table == [] then 0
    else Occupied(table[..|table| - 1]) + (if Empty(table[|table| - 1]) then 0 else 1)
  }

  lemma {:induction false} OccupiedUpdate(table: seq<nat>, s: nat, l: nat)
    requires s < |table| && Empty(table[s]) && !Empty(l)
    ensures Occupied(table[s := l]) == Occupied(table) + 1
  {
    var n := |table| - 1;
    if s == n {
      assert table[s := l][..n] == table[..n];
    } else {
      OccupiedUpdate(table[..n], s, l);
      assert table[s := l][..n] == table[..n][s := l];
    }
  }

  lemma {:induction false} NoneOccupied(table: seq<nat>)
    requires forall s :: 0 <= s < |table| ==> Empty(table[s])
    ensures Occupied(table) == 0
  {
    if table != [] {
      NoneOccupied(table[..|table| - 1]);
    }
  }

  lemma {:induction false} SomeEmpty(table: seq<nat>) returns (s: nat)
    requires Occupied(table) < |table|
    ensures s < |table| && Empty(table[s])
  {
    var n := |table| - 1;
    if Empty(table[n]) {
      s := n;
    } else {
      s := SomeEmpty(table[..n]);
    }
  }

  /** The number of probes from slot h to slot s. */
  ghost function Distance(h: nat, s: nat): (d: nat)
    requires h < HT_SIZE && s < HT_SIZE
    ensures d < HT_SIZE && Probe(h, d) == s
  {
    if s >= h then s - h else s + HT_SIZE - h
  }

  class GifHashTable {
    const table: array<nat>
    ghost var codes: map<nat, nat>

    ghost predicate Valid()
      reads this, table
    {
      table.Length == HT_SIZE && Stores(table[..], codes)
    }

    constructor ()
      ensures Valid() && fresh(table) && codes == map[]
    {
      table := new nat[HT_SIZE](_ => 0xFFFF_FFFF);
      codes := map[];
      new;
      NoneOccupied(table[..]);
    }

    method Clear()
      requires Valid()
      modifies this`codes, table
      ensures Valid() && codes == map[]
    {
      forall i | 0 <= i < table.Length {
        table[i] := 0xFFFF_FFFF;
      }
      codes := map[];
      NoneOccupied(table[..]);
    }

    method Insert(key: nat, code: nat)
      requires Valid() && InRange(key, code)
      requires key !in codes && |codes| < HT_SIZE
      modifies this`codes, table
      ensures Valid() && codes == old(codes)[key := code]
    {
      ghost var was := table[..];
      ghost var d: nat := 0;
      var hkey := KeyItem(key);
      while HtGetKey(table[hkey]) != HT_EMPTY
        invariant d < HT_SIZE && hkey == Probe(KeyItem(key), d)
        invariant Run(was, key, d) && table[..] == was && codes == old(codes)
        decreases HT_SIZE - d
      {
        assert table[hkey] == was[hkey];
        NextProbe(was, key, d);
        hkey := (hkey + 1) % HT_SIZE;
        d := d + 1;
      }
      StoreStays(was, codes, key, code, d);
      table[hkey] := HtPut(key, code);
      codes := codes[key := code];
      assert table[..] == was[hkey := HtPut(key, code)];
    }

    /** The code stored for the key, or -1. */
    method Exists(key: nat) returns (code: int)
      requires Valid() && |codes| < HT_SIZE
      ensures code == if key in codes then codes[key] else -1
    {
      ghost var was := table[..];
      ghost var d: nat := 0;
      var hkey := KeyItem(key);
      var entry := table[hkey];
      while HtGetKey(entry) != HT_EMPTY
        invariant d < HT_SIZE && hkey == Probe(KeyItem(key), d) && entry == was[hkey]
        invariant Run(was, key, d) && Misses(was, key, d)
        decreases HT_SIZE - d
      {
        if key == HtGetKey(entry) {
          Found(was, codes, key, hkey);
          return HtGetCode(entry);
        }
        NextProbe(was, key, d);
        hkey := (hkey + 1) % HT_SIZE;
        entry := table[hkey];
        d := d + 1;
      }
      assert Sought(key);
      if key in codes {
        Met(was, key, codes[key], d);
      }
      return -1;
    }
  }

  ghost predicate Misses(table: seq<nat>, key: nat, d: nat)
    requires |table| == HT_SIZE
  {
    forall e :: 0 <= e < d ==> HtGetKey(table[Probe(KeyItem(key), e)]) != key
  }

  /** In a table with a free slot, a run of occupied slots leaves room for one more probe. */
  lemma NextProbe(table: seq<nat>, key: nat, d: nat)
    requires |table| == HT_SIZE && Occupied(table) < HT_SIZE
    requires d < HT_SIZE && Run(table, key, d) && !Empty(table[Probe(KeyItem(key), d)])
    ensures d + 1 < HT_SIZE && Run(table, key, d + 1)
    ensures (Probe(KeyItem(key), d) + 1) % HT_SIZE == Probe(KeyItem(key), d + 1)
  {
    var free := SomeEmpty(table);
    var f := Distance(KeyItem(key), free);
    assert Empty(table[Probe(KeyItem(key), f)]);
    assert Run(table, key, d + 1);
  }

  /** An occupied slot carries the code that the map gives its key. */
  lemma Found(table: seq<nat>, m: map<nat, nat>, key: nat, s: nat)
    requires Stores(table, m) && s < HT_SIZE && !Empty(table[s]) && HtGetKey(table[s]) == key
    ensures key in m && HtGetCode(table[s]) == m[key]
  {
    assert Sought(key);
    PackUnpack(key, m[key]);
  }

  /** A key that the table holds sits before the first empty slot of its probe path. */
  lemma Met(table: seq<nat>, key: nat, code: nat, d: nat)
    requires |table| == HT_SIZE && InRange(key, code) && exists d': nat :: Holds(table, key, code, d')
    requires Empty(table[Probe(KeyItem(key), d)])
    ensures exists e :: 0 <= e < d && HtGetKey(table[Probe(KeyItem(key), e)]) == key
  {
    var d': nat :| Holds(table, key, code, d');
    PackUnpack(key, code);
    assert HtGetKey(table[Probe(KeyItem(key), d')]) == key;
    assert d' != d;
    assert d' < d;
  }

  /** Writing a new entry into the first empty slot of its probe path stores the extended map. */
  lemma StoreStays(table: seq<nat>, m: map<nat, nat>, key: nat, code: nat, d: nat)
    requires Stores(table, m) && InRange(key, code) && key !in m
    requires d < HT_SIZE && Run(table, key, d) && Empty(table[Probe(KeyItem(key), d)])
    ensures Stores(table[Probe(KeyItem(key), d) := HtPut(key, code)], m[key := code])
  {
    var s, l := Probe(KeyItem(key), d), HtPut(key, code);
    var table', m' := table[s := l], m[key := code];
    PackUnpack(key, code);
    OccupiedUpdate(table, s, l);
    forall k | Sought(k) && k in m'
      ensures InRange(k, m'[k]) && exists e: nat :: Holds(table', k, m'[k], e)
    {
      if k == key {
        assert Holds(table', key, code, d);
      } else {
        var e: nat :| Holds(table, k, m[k], e);
        PackUnpack(k, m[k]);
        assert HtGetKey(table[Probe(KeyItem(k), e)]) == k;
        assert Probe(KeyItem(k), e) != s;
        assert Holds(table', k, m[k], e);
      }
    }
  }
}
