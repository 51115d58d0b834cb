/** The code table of the second LZW encoder (Gifflen.cpp): double hashing modulo a prime. */
module HashTree {
  import opened Bits

  /** The macro `hash`. */
  const HASH: nat := 11003

  // ----- 11003 is prime

  predicate NoDivisorUpTo(k: int) {
    if k < 2 then true else HASH % k != 0 && NoDivisorUpTo(k - 1)
  }

  lemma {:induction false} NoSmallDivisor(n: nat, k: nat)
    requires NoDivisorUpTo(n) && 2 <= k <= n
    ensures HASH % k != 0
  {
    if k < n {
      NoSmallDivisor(n - 1, k);
    }
  }

  lemma NoneUpTo104()
    ensures NoDivisorUpTo(104)
  {
    assert NoDivisorUpTo(10) && NoDivisorUpTo(20);
    assert NoDivisorUpTo(30) && NoDivisorUpTo(40);
    assert NoDivisorUpTo(50) && NoDivisorUpTo(60);
    assert NoDivisorUpTo(70) && NoDivisorUpTo(80);
    assert NoDivisorUpTo(90) && NoDivisorUpTo(97);
  }

  lemma HashIsPrime(k: nat)
    requires 2 <= k < 11003
    ensures 11003 % k != 0
  {
    hide NoDivisorUpTo;
    NoneUpTo104();
    if k <= 104 {
      NoSmallDivisor(104, k);
    } else if HASH % k == 0 {
      var j := HASH / k;
      SmallFactor(j, k, HASH);
      Products(j, k, 1);
      NoSmallDivisor(104, j);
      DividesBack(j, k);
    }
  }

  /** Of two factors of a number below 105 * 105, one is below 105. */
  lemma SmallFactor(j: nat, k: nat, n: nat)
    requires j * k == n < 105 * 105 && k >= 105
    ensures j <= 104
  {
    Products(j, k, 105);
  }

  lemma Products(j: nat, k: nat, n: nat)
    ensures j >= n && k >= n ==> j * k >= n * n
    ensures j >= 1 ==> j * k >= k
  {
    if j >= n && k >= n {
      assert j * k >= n * k >= n * n;
    }
  }

  lemma DividesBack(j: nat, k: nat)
    requires j > 0
    ensures j * k % j == 0
  {
    var m := k - j * k / j;
    assert j * k % j == j * k - j * (j * k / j) == j * m;
    Multiple(j, m);
    Multiple(j, -m);
  }

  lemma Multiple(j: nat, m: int)
    ensures m >= 1 ==> j * m >= j
    ensures j * -m == -(j * m)
  {
  }

  /** So every h but 0 has an inverse modulo 11003: Euclid's algorithm. */
  lemma {:induction false} Inverse(h: nat) returns (u: int, t: int)
    requires 0 < h < HASH
    ensures u * h == 1 + HASH * t
    decreases h
  {
    if h == 1 {
      u, t := 1, 0;
    } else {
      var q, r := HASH / h, HASH % h;
      HashIsPrime(h);
      var v, s := Inverse(r);
      u, t := -(q * v), s - v;
      assert q * h == HASH - r;
      calc {
        u * h;
        -(q * v) * h;
        { Regroup(q, v, h); }
        -(q * h) * v;
        -(HASH - r) * v;
        { Distribute(r, v); }
        v * r - HASH * v;
        1 + HASH * s - HASH * v;
      }
    }
  }

  lemma Regroup(q: int, v: int, h: int)
    ensures -(q * v) * h == -(q * h) * v
  {
  }

  lemma Distribute(r: int, v: int)
    ensures -(HASH - r) * v == v * r - HASH * v
  {
  }

  // ----- probing

  function Home(key: nat): (h: nat)
    ensures h < HASH
  {
    key % HASH
  }

  function StepBack(i: nat, o: nat): (s: nat)
    requires i < HASH && 0 < o <= HASH
    ensures s < HASH
  {
    if i < o then i + HASH - o else i - o
  }

  /** How far find_hash goes back from one probe to the next. */
  function Stride(h: nat): (o: nat)
    requires h < HASH
    ensures 0 < o <= HASH
  {
    if h == 0 then 1 else HASH - h
  }

  /** The slot of the d-th probe for a key whose first slot is h. */
  function Probe(h: nat, d: nat): (s: nat)
    requires h < HASH
    ensures s < HASH
  {
    if d == 0 then h else StepBack(Probe(h, d - 1), Stride(h))
  }

  lemma ProbeStep(h: nat, d: nat)
    requires h < HASH
    ensures Probe(h, 0) == h && Probe(h, d + 1) == StepBack(Probe(h, d), Stride(h))
  {
  }

  lemma {:induction false} ProbeOfZero(d: nat)
    requires 0 < d <= HASH
    ensures Probe(0, d) == HASH - d
  {
    if d > 1 {
      ProbeOfZero(d - 1);
    }
  }

  lemma {:induction false} ProbeIsMultiple(h: nat, d: nat) returns (t: int)
    requires 0 < h < HASH
    ensures (d + 1) * h == Probe(h, d) + HASH * t
  {
    if d == 0 {
      t := 0;
    } else {
      var s := ProbeIsMultiple(h, d - 1);
      t := if Probe(h, d - 1) < Stride(h) then s else s + 1;
      assert (d + 1) * h == d * h + h;
    }
  }

  /** Probing visits every slot. */
  lemma EverySlot(h: nat, f: nat) returns (e: nat)
    requires h < HASH && f < HASH
    ensures e < HASH && Probe(h, e) == f
  {
    if h == 0 {
      e := if f == 0 then 0 else HASH - f;
      if f > 0 {
        ProbeOfZero(e);
      }
    } else {
      var u, t := Inverse(h);
      e := (u * f - 1) % HASH;
      var s := ProbeIsMultiple(h, e);
      SameSlot(h, f, u, t, e, s, (u * f - 1) / HASH);
    }
  }

  /** With u the inverse of h, e + 1 = u f (mod 11003) gives (e + 1) h = f. */
  lemma SameSlot(h: nat, f: nat, u: int, t: int, e: nat, s: int, q: int)
    requires 0 < h < HASH && f < HASH && u * h == 1 + HASH * t
    requires u * f - 1 == HASH * q + e && (e + 1) * h == Probe(h, e) + HASH * s
    ensures Probe(h, e) == f
  {
    hide Probe;
    Spread(u * f, q, e + 1, h);
    Swapped(u, f, h);
    Spread(1, -t, u * h, f);
    SameResidue(Probe(h, e), f, t * f - q * h - s);
  }

  lemma Spread(a: int, q: int, n: int, h: int)
    requires n == a - HASH * q
    ensures n * h == a * h - HASH * (q * h)
  {
    Distributed(a, HASH * q, h);
    Associated(HASH, q, h);
  }

  lemma Distributed(a: int, b: int, h: int)
    ensures (a - b) * h == a * h - b * h
  {
  }

  lemma Associated(a: int, b: int, h: int)
    ensures a * b * h == a * (b * h)
  {
  }

  lemma Swapped(u: int, f: int, h: int)
    ensures u * f * h == u * h * f
  {
  }

  lemma SameResidue(p: int, f: int, k: int)
    requires 0 <= p < HASH && 0 <= f < HASH && p - f == HASH * k
    ensures p == f
  {
  }

  // ----- the table

  /** A row of the C array hashtree; code -1 marks an empty one. */
  datatype Entry = Entry(code: int, pre: int, suf: int)

  function KeyOf(e: Entry): int { e.pre * 256 + e.suf }

  ghost predicate Free(e: Entry) { e.code == -1 }

  ghost predicate Carries(e: Entry, key: nat, code: nat) {
    e == Entry(code, key / 256, key % 256)
  }

  /** Every probe for `key` before the d-th meets an entry of another key. */
  ghost predicate Passes(table: seq<Entry>, key: nat, d: nat)
    requires |table| == HASH
  {
    forall e :: 0 <= e < d ==> !Free(table[Probe(Home(key), e)]) && KeyOf(table[Probe(Home(key), e)]) != key
  }

  ghost predicate Holds(table: seq<Entry>, key: nat, code: nat, d: nat)
    requires |table| == HASH
  {
    Carries(table[Probe(Home(key), d)], key, code) && Passes(table, key, d)
  }

  /** Always true; naming a key here makes the solver look at that key. */
  ghost predicate Sought(key: nat) { true }

  ghost predicate Slot(e: Entry, m: map<nat, nat>) {
    !Free(e) ==> KeyOf(e) in m && Carries(e, KeyOf(e), m[KeyOf(e)])
  }

  /** `table` stores exactly the map m, and every stored key is found by probing. */
  ghost predicate Stores(table: seq<Entry>, m: map<nat, nat>) {
    && |table| == HASH
    && (forall k {:trigger Sought(k)} :: Sought(k) && k in m ==> exists d: nat :: Holds(table, k, m[k], d))
    && (forall s :: 0 <= s < HASH ==> Slot(table[s], m))
    && Occupied(table) == |m|
  }

  ghost function Occupied(table: seq<Entry>): nat {
    if table == [] then 0
    else Occupied(table[..|table| - 1]) + (if Free(table[|table| - 1]) then 0 else 1)
  }

  lemma {:induction false} OccupiedUpdate(table: seq<Entry>, s: nat, l: Entry)
    requires s < |table| && Free(table[s]) && !Free(l)
    ensures Occupied(table[s := l]) == Occupied(table) + 1
  {
    var n := |table| - 1;
    if s == n {
      assert table[s := l][..n] == table[..n];
    } else {
      OccupiedUpdate(table[..n], s, l);
      assert table[s := l][..n] == table[..n][s := l];
    }
  }

  lemma {:induction false} NoneOccupied(table: seq<Entry>)
    requires forall s :: 0 <= s < |table| ==> Free(table[s])
    ensures Occupied(table) == 0
  {
    if table != [] {
      NoneOccupied(table[..|table| - 1]);
    }
  }

  lemma {:induction false} SomeFree(table: seq<Entry>) returns (s: nat)
    requires Occupied(table) < |table|
    ensures s < |table| && Free(table[s])
  {
    var n := |table| - 1;
    if Free(table[n]) {
      s := n;
    } else {
      s := SomeFree(table[..n]);
    }
  }

  /** In a table with a free slot, there is always one more slot to probe. */
  lemma NextProbe(table: seq<Entry>, key: nat, d: nat)
    requires |table| == HASH && Occupied(table) < HASH && d < HASH && Passes(table, key, d)
    requires !Free(table[Probe(Home(key), d)]) && KeyOf(table[Probe(Home(key), d)]) != key
    ensures d + 1 < HASH && Passes(table, key, d + 1)
  {
    var free := SomeFree(table);
    var f := EverySlot(Home(key), free);
    assert Free(table[Probe(Home(key), f)]);
    assert Passes(table, key, d + 1);
  }

  lemma NotBeforeNorAfter(table: seq<Entry>, key: nat, code: nat, d': nat, d: nat)
    requires |table| == HASH && Holds(table, key, code, d')
    ensures !Passes(table, key, d) || !Free(table[Probe(Home(key), d)])
  {
    var e := table[Probe(Home(key), d')];
    assert KeyOf(e) == key && !Free(e);
  }

  /** A key that the table holds sits before the first free slot of its probe path. */
  lemma NotThere(table: seq<Entry>, m: map<nat, nat>, key: nat, d: nat)
    requires Stores(table, m) && Passes(table, key, d) && Free(table[Probe(Home(key), d)])
    ensures key !in m
  {
    if key in m {
      assert Sought(key);
      var d': nat :| Holds(table, key, m[key], d');
      NotBeforeNorAfter(table, key, m[key], d', d);
    }
  }

  lemma NothingPassed(table: seq<Entry>, key: nat)
    requires |table| == HASH
    ensures Passes(table, key, 0)
  {
  }

  lemma Found(table: seq<Entry>, m: map<nat, nat>, key: nat, s: nat)
    requires Stores(table, m) && s < HASH && !Free(table[s]) && KeyOf(table[s]) == key
    ensures key in m && table[s].code == m[key]
  {
    assert Slot(table[s], m);
  }

  lemma OtherKey(table: seq<Entry>, m: map<nat, nat>, pre: nat, suf: byte, s: nat)
    requires Stores(table, m) && s < HASH && !Free(table[s]) && (table[s].pre != pre || table[s].suf != suf)
    ensures KeyOf(table[s]) != pre * 256 + suf
  {
    assert Slot(table[s], m);
  }

  lemma OccupiedCounts(table: seq<Entry>, m: map<nat, nat>)
    requires Stores(table, m)
    ensures |table| == HASH && Occupied(table) == |m|
  {
  }

  lemma HoldsStill(table: seq<Entry>, key: nat, code: nat, d: nat, s: nat, l: Entry)
    requires |table| == HASH && Holds(table, key, code, d) && s < HASH && Free(table[s])
    ensures Holds(table[s := l], key, code, d)
  {
    assert Probe(Home(key), d) != s;
  }

  lemma SlotsStay(table: seq<Entry>, m: map<nat, nat>, s: nat, l: Entry, key: nat, code: nat, table': seq<Entry>)
    requires |table| == HASH && s < HASH && key !in m && Carries(l, key, code) && table' == table[s := l]
    requires forall i :: 0 <= i < HASH ==> Slot(table[i], m)
    ensures forall i :: 0 <= i < HASH ==> Slot(table'[i], m[key := code])
  {
    var m' := m[key := code];
    forall i | 0 <= i < HASH
      ensures Slot(table'[i], m')
    {
      assert Slot(table[i], m);
    }
  }

  /** Writing a new entry into the first free slot of its probe path stores the extended map. */
  lemma StoreStays(table: seq<Entry>, m: map<nat, nat>, key: nat, l: Entry, code: nat, d: nat)
    requires Stores(table, m) && Passes(table, key, d) && Free(table[Probe(Home(key), d)]) && Carries(l, key, code)
    ensures key !in m && Stores(table[Probe(Home(key), d) := l], m[key := code])
  {
    var s := Probe(Home(key), d);
    var table', m' := table[s := l], m[key := code];
    hide Probe, Home, Occupied, Passes, Slot, Free;
    NotThere(table, m, key, d);
    OccupiedUpdate(table, s, l);
    SlotsStay(table, m, s, l, key, code, table');
    forall k | Sought(k) && k in m'
      ensures exists e: nat :: Holds(table', k, m'[k], e)
    {
      if k == key {
        assert Holds(table', key, code, d);
      } else {
        var e: nat :| Holds(table, k, m[k], e);
        HoldsStill(table, k, m[k], e, s, l);
      }
    }
  }

  // ----- find_hash

  lemma {:induction false} XorZero(a: nat, w: nat)
    requires a < Pow2(w)
    ensures Xor(a, 0, w) == a
  {
    if w > 0 {
      XorZero(a / 2, w - 1);
    }
  }

  lemma XorStep(x: nat, b: nat, w: nat)
    requires w > 0
    ensures Xor(2 * x, b, w) == b % 2 + 2 * Xor(x, b / 2, w - 1)
  {
    hide Pow2;
    assert 2 * x / 2 == x && 2 * x % 2 == 0;
  }

  lemma {:induction false} XorStack(a: nat, n: nat, b: nat, w: nat)
    requires b < Pow2(n) && a < Pow2(w)
    ensures Xor(Shl(a, n), b, n + w) == Shl(a, n) + b
  {
    hide Xor;
    if n == 0 {
      XorZero(a, w);
    } else {
      XorStack(a, n - 1, b / 2, w);
      XorStep(Shl(a, n - 1), b, n + w);
    }
  }

  /** pre * 256 ^ suf */
  lemma KeyIsXor(pre: nat, suf: byte)
    requires pre < 0x1000
    ensures Xor(pre * 256, suf, 20) == pre * 256 + suf
  {
    SmallPowers();
    assert Shl(pre, 8) == 256 * pre by {
      assert Shl(pre, 1) == 2 * Shl(pre, 0);
      assert Shl(pre, 2) == 4 * pre;
      assert Shl(pre, 4) == 4 * Shl(pre, 2);
      assert Shl(pre, 6) == 4 * Shl(pre, 4);
      assert Shl(pre, 8) == 4 * Shl(pre, 6);
    }
    XorStack(pre, 8, suf, 12);
  }

  class HashTree {
    const hashtree: array<Entry>
    ghost var codes: map<nat, nat>

    ghost predicate Valid()
      reads this, hashtree
    {
      hashtree.Length == HASH && Stores(hashtree[..], codes)
    }

    constructor ()
      ensures fresh(hashtree) && hashtree.Length == HASH
    {
      hashtree := new Entry[HASH](_ => Entry(-1, -1, -1));
    }

    method Clear()
      requires hashtree.Length == HASH
      modifies this`codes, hashtree
      ensures Valid() && codes == map[]
    {
      for i := 0 to HASH
        invariant forall k :: 0 <= k < i ==> Free(hashtree[k])
      {
        hashtree[i] := Entry(-1, -1, -1);
      }
      codes := map[];
      NoneOccupied(hashtree[..]);
    }

    /** Slot i is the place for a key that is not in the table. */
    ghost predicate PlaceFor(key: nat, i: nat)
      requires hashtree.Length == HASH
      reads hashtree
    {
      exists d: nat :: Probe(Home(key), d) == i && Passes(hashtree[..], key, d) && Free(hashtree[i])
    }

    /** find_hash: the slot of (pre, suf), or else the place for it. */
    method FindHash(pre: nat, suf: byte) returns (i: nat)
      requires Valid() && |codes| < HASH && pre < 0x1000
      ensures i < HASH
      ensures pre * 256 + suf in codes ==> hashtree[i].code == codes[pre * 256 + suf]
      ensures pre * 256 + suf !in codes ==> hashtree[i].code == -1 && PlaceFor(pre * 256 + suf, i)
    {
      KeyIsXor(pre, suf);
      ghost var key, was := pre * 256 + suf, hashtree[..];
      ghost var d: nat := 0;
      hide Xor, Probe, Stores, Passes;
      ProbeStep(Home(key), 0);
      NothingPassed(was, key);
      OccupiedCounts(was, codes);
      var j: int := Xor(pre * 256, suf, 20) % HASH;
      var o := if j == 0 then 1 else HASH - j;
      while true
        invariant d < HASH && j == Probe(Home(key), d) && Passes(was, key, d)
        decreases HASH - d
      {
        assert was[j] == hashtree[j];
        if hashtree[j].code == -1 {
          NotThere(was, codes, key, d);
          return j;
        } else if hashtree[j].pre == pre && hashtree[j].suf == suf {
          Found(was, codes, key, j);
          return j;
        } else {
          OtherKey(was, codes, pre, suf, j);
          NextProbe(was, key, d);
          ProbeStep(Home(key), d);
          d := d + 1;
          j := j - o;
          if j < 0 {
            j := j + HASH;
          }
        }
      }
    }

    /** The assignments to hashtree[i] after a failed search. */
    method Put(i: nat, pre: nat, suf: byte, code: nat)
      requires Valid() && i < HASH && PlaceFor(pre * 256 + suf, i)
      modifies this`codes, hashtree
      ensures Valid() && codes == old(codes)[pre * 256 + suf := code] && pre * 256 + suf !in old(codes)
    {
      ghost var key, was, l := pre * 256 + suf, hashtree[..], Entry(code, pre, suf);
      ghost var d: nat :| Probe(Home(key), d) == i && Passes(was, key, d) && Free(was[i]);
      StoreStays(was, codes, key, l, code, d);
      hashtree[i] := Entry(code, pre, suf);
      codes := codes[key := code];
      assert hashtree[..] == was[i := l];
    }
  }
}
