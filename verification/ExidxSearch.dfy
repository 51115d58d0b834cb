/** The binary search of the unwinder's index (exidxstep.cpp). */
module ExidxSearch {
  ghost predicate Increasing(keys: seq<nat>) {
    forall i, j :: 0 <= i < j < |keys| ==> keys[i] < keys[j]
  }

  /** What is read as the key of an entry; `before` is read in front of the first one. */
  function KeyAt(keys: seq<nat>, before: nat, i: int): nat
    requires -1 <= i < |keys|
  {
    if i < 0 then before else keys[i]
  }

  /** search_exidx_value between the entries `start` and `end`; None stands for address 0. */
  function Search(keys: seq<nat>, before: nat, start: int, end: int, key: nat): (r: int)
    requires 0 <= start && end < |keys|
    decreases end - start
  {
    if end <= start then NOT_FOUND
    else
      var mid := start + (end - start) / 2;
      var keyPre, keyMid := KeyAt(keys, before, mid - 1), KeyAt(keys, before, mid);
      var keyFlo := KeyAt(keys, before, mid + 1);
      if key >= keyMid && key <= keyFlo then mid
      else if key <= keyMid && key >= keyPre then mid - 1
      else if key >= keyMid then Search(keys, before, mid + 1, end, key)
      else if key < keyMid then Search(keys, before, start, mid - 1, key)
      else NOT_FOUND
  }

  const NOT_FOUND: int := -2

  /** One step of the search, in a table with increasing keys. */
  lemma SearchStep(keys: seq<nat>, before: nat, start: nat, end: nat, key: nat)
    requires Increasing(keys) && start < end < |keys|
    ensures var mid := start + (end - start) / 2;
      && start <= mid < end && keys[mid] < keys[mid + 1]
      && (keys[mid] <= key <= keys[mid + 1] ==> Search(keys, before, start, end, key) == mid)
      && (key > keys[mid + 1] ==> Search(keys, before, start, end, key) == Search(keys, before, mid + 1, end, key))
      && (mid > 0 && keys[mid - 1] <= key < keys[mid] ==> Search(keys, before, start, end, key) == mid - 1)
      && (mid > 0 && key < keys[mid - 1] && key < keys[mid] ==>
           Search(keys, before, start, end, key) == Search(keys, before, start, mid - 1, key))
  {
  }

  /** The search ends at an entry such that the key lies between it and the next one. */
  lemma {:induction false} SearchBrackets(keys: seq<nat>, before: nat, start: nat, end: nat, key: nat)
    requires Increasing(keys) && start < end < |keys| && keys[start] <= key <= keys[end]
    ensures var r := Search(keys, before, start, end, key); start <= r < end && keys[r] <= key <= keys[r + 1]
    decreases end - start
  {
    hide Increasing, Search;
    var mid := start + (end - start) / 2;
    SearchStep(keys, before, start, end, key);
    if key > keys[mid] && key > keys[mid + 1] {
      SearchBrackets(keys, before, mid + 1, end, key);
    } else if key < keys[mid] && key < keys[mid - 1] {
      SearchBrackets(keys, before, start, mid - 1, key);
    }
  }

  /** For a key strictly inside an entry's range the search finds that entry, whatever is read before the
      first one. */
  lemma SearchExact(keys: seq<nat>, before: nat, j: nat, key: nat)
    requires Increasing(keys) && j + 1 < |keys| && keys[j] < key < keys[j + 1]
    ensures Search(keys, before, 0, |keys| - 1, key) == j
  {
    hide Increasing, Search;
    Between(keys, 0, j);
    Between(keys, j + 1, |keys| - 1);
    SearchBrackets(keys, before, 0, |keys| - 1, key);
    Apart(keys, Search(keys, before, 0, |keys| - 1, key), j);
    Apart(keys, j, Search(keys, before, 0, |keys| - 1, key));
  }

  lemma Apart(keys: seq<nat>, i: int, j: int)
    requires Increasing(keys)
    ensures 0 <= i < j < |keys| ==> keys[i + 1] <= keys[j]
  {
  }

  lemma Between(keys: seq<nat>, i: nat, j: nat)
    requires Increasing(keys) && i <= j < |keys|
    ensures keys[i] <= keys[j]
  {
  }

  /** The first of the entries j - 1, j and j + 1 that the search looks at on its way to entry j. */
  function FirstNear(start: nat, end: nat, j: nat): nat
    requires start <= j < end
    decreases end - start
  {
    var mid := start + (end - start) / 2;
    if j > mid + 1 then FirstNear(mid + 1, end, j)
    else if j + 1 < mid then FirstNear(start, mid - 1, j)
    else mid
  }

  /** The key an entry starts with is found at the entry before, if the search looks there first. */
  lemma {:induction false} SearchStart(keys: seq<nat>, before: nat, start: nat, end: nat, j: nat)
    requires Increasing(keys) && start <= j < end < |keys|
    ensures Search(keys, before, start, end, keys[j]) == if FirstNear(start, end, j) + 1 == j then j - 1 else j
    decreases end - start
  {
    hide Increasing, Search;
    var mid := start + (end - start) / 2;
    SearchStep(keys, before, start, end, keys[j]);
    if j > mid + 1 {
      Less(keys, mid + 1, j);
      SearchStart(keys, before, mid + 1, end, j);
    } else if j + 1 < mid {
      Less(keys, j, mid - 1);
      Less(keys, mid - 1, mid);
      SearchStart(keys, before, start, mid - 1, j);
    } else if j < mid {
      Less(keys, j, mid);
    }
  }

  lemma Less(keys: seq<nat>, i: nat, j: nat)
    requires Increasing(keys) && i < j < |keys|
    ensures keys[i] < keys[j]
  {
  }

  /** Behind the last key nothing is found. */
  lemma {:induction false} SearchBehind(keys: seq<nat>, before: nat, start: nat, end: nat, key: nat)
    requires Increasing(keys) && start <= end < |keys| && key > keys[end]
    ensures Search(keys, before, start, end, key) == NOT_FOUND
    decreases end - start
  {
    hide Increasing, Search;
    if start < end {
      SearchStep(keys, before, start, end, key);
      var mid := start + (end - start) / 2;
      Between(keys, mid + 1, end);
      SearchBehind(keys, before, mid + 1, end, key);
    } else {
      NothingLeft(keys, before, start, key);
    }
  }

  lemma NothingLeft(keys: seq<nat>, before: nat, start: nat, key: nat)
    requires start < |keys|
    ensures Search(keys, before, start, start, key) == NOT_FOUND
  {
  }

  /** Whether the search looks at the first entry when it goes left all the time. */
  predicate LooksAtFirst(end: nat) {
    end == 1 || (end > 1 && LooksAtFirst(end / 2 - 1))
  }

  /** In front of the first key, the search finds the address before the table if it gets as far as the first entry,
      and what is read there is no more than the key; or else nothing. */
  lemma {:induction false} SearchBelow(keys: seq<nat>, before: nat, end: nat, key: nat)
    requires Increasing(keys) && end < |keys| && key < keys[0]
    ensures Search(keys, before, 0, end, key) == if LooksAtFirst(end) && before <= key then -1 else -2
  {
    hide Increasing;
    if end > 1 {
      var mid := end / 2;
      Between(keys, 0, mid - 1);
      Between(keys, 0, mid);
      SearchStep(keys, before, 0, end, key);
      SearchBelow(keys, before, mid - 1, key);
    }
  }

  /** The entry in whose range a key lies; the last one has no end. */
  ghost predicate InRange(keys: seq<nat>, j: nat, key: nat) {
    j < |keys| && keys[j] <= key && (j + 1 < |keys| ==> key < keys[j + 1])
  }

  /** So the search finds the entry in whose range a key lies exactly if that is not the last one, and the key is not
      the first of its range or the entry before is not looked at first. */
  lemma SearchRight(keys: seq<nat>, before: nat, j: nat, key: nat)
    requires Increasing(keys) && InRange(keys, j, key)
    ensures Search(keys, before, 0, |keys| - 1, key) == j <==>
      j + 1 < |keys| && (key > keys[j] || FirstNear(0, |keys| - 1, j) + 1 != j)
  {
    hide Increasing, Search, FirstNear;
    if j + 1 == |keys| {
      if key > keys[j] {
        SearchBehind(keys, before, 0, j, key);
      } else if j == 0 {
        NothingLeft(keys, before, 0, key);
      } else {
        Between(keys, 0, j);
        SearchBrackets(keys, before, 0, j, key);
      }
    } else if key > keys[j] {
      SearchExact(keys, before, j, key);
    } else {
      SearchStart(keys, before, 0, |keys| - 1, j);
    }
  }

  /** For instance, the third of four entries is missed at its first address. */
  lemma SearchOffByOne()
    ensures Increasing([0x100, 0x200, 0x300, 0x400]) && Search([0x100, 0x200, 0x300, 0x400], 0, 0, 3, 0x300) == 1
  {
    var keys := [0x100, 0x200, 0x300, 0x400];
    assert Search(keys, 0, 0, 3, 0x300) == 1;
  }
}
