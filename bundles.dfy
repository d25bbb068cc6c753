/**
 * One translation bundle: the string-to-string array that a bundle file
 * returns, mapping an attribute key to its current text and each history
 * slot `"{key}_old{N}"` to a superseded text.
 */
module Bundles {
  import opened SlotKeys

  type Bundle = map<string, string>

  /** History slots lo .. hi-1 of `key` are all taken in `b`. */
  predicate SlotsFilled(b: Bundle, key: string, lo: nat, hi: nat)
  {
    forall j :: lo <= j < hi ==> OldKey(key, j) in b
  }

  /** n is the smallest positive slot number of `key` that `b` leaves free. */
  predicate IsFirstFree(b: Bundle, key: string, n: nat)
  {
    1 <= n && OldKey(key, n) !in b && SlotsFilled(b, key, 1, n)
  }

  /** A bundle with slots 1 .. n of one key filled has at least n entries. */
  lemma {:induction false} FilledSlotsBound(b: Bundle, key: string, n: nat)
    requires SlotsFilled(b, key, 1, n + 1)
    ensures n <= |b|
    decreases n
  {
    if n > 0 {
      var last := OldKey(key, n);
      var rest := b - {last};
      assert |rest| == |b| - 1 by {
        assert rest.Keys == b.Keys - {last};
      }
      forall j | 1 <= j < n
        ensures OldKey(key, j) in rest
      {
        if OldKey(key, j) == last {
          OldKeyInjective(key, j, n);
        }
      }
      FilledSlotsBound(rest, key, n - 1);
    }
  }

  /**
   * The search of the `while` loop in the versioned write, from slot i on:
   * the first slot at or after i that is free.
   */
  function FreeSlotFrom(b: Bundle, key: string, i: nat): (n: nat)
    requires 1 <= i && SlotsFilled(b, key, 1, i)
    ensures i <= n && IsFirstFree(b, key, n)
    decreases |b| + 1 - i
  {
    if OldKey(key, i) !in b then i
    else
      FilledSlotsBound(b, key, i);
      FreeSlotFrom(b, key, i + 1)
  }

  /** The slot a superseded value of `key` moves to. */
  function FirstFreeSlot(b: Bundle, key: string): (n: nat)
    ensures IsFirstFree(b, key, n)
  {
    FreeSlotFrom(b, key, 1)
  }

  /** Only one slot number is the first free one. */
  lemma FirstFreeUnique(b: Bundle, key: string, n: nat, m: nat)
    requires IsFirstFree(b, key, n) && IsFirstFree(b, key, m)
    ensures n == m
  {
  }

  /** The first free slot is never past |b| + 1. */
  lemma FirstFreeSlotBound(b: Bundle, key: string)
    ensures FirstFreeSlot(b, key) <= |b| + 1
  {
    var n := FirstFreeSlot(b, key);
    FilledSlotsBound(b, key, n - 1);
  }

  /** A key whose history is still empty moves its first superseded value to `{key}_old1`. */
  lemma FirstSlotOfUnversionedKey(b: Bundle, key: string)
    requires key + "_old1" !in b
    ensures OldKey(key, 1) == key + "_old1"
    ensures FirstFreeSlot(b, key) == 1
  {
    assert DecimalString(1) == "1";
    assert OldKey(key, 1) == key + "_old1";
    assert SlotsFilled(b, key, 1, 1);
    FirstFreeUnique(b, key, 1, FirstFreeSlot(b, key));
  }

  /** Whether writing `value` under `key` moves a previous value into history. */
  predicate Supersedes(b: Bundle, key: string, value: string)
  {
    key in b && b[key] != value
  }

  /**
   * The versioned write: a previous, different value of `key` moves to the
   * first free slot `"{key}_old{N}"`, then `key` is set to `value`.
   */
  function Versioned(b: Bundle, key: string, value: string): (r: Bundle)
    ensures key in r && r[key] == value
    ensures forall k :: k in b && k != key ==> k in r && r[k] == b[k]
    ensures Supersedes(b, key, value) ==>
              var slot := OldKey(key, FirstFreeSlot(b, key));
              slot !in b && slot in r && r[slot] == b[key]
  {
    if Supersedes(b, key, value) then
      var slot := OldKey(key, FirstFreeSlot(b, key));
      OldKeyNotKey(key, FirstFreeSlot(b, key));
      b[slot := b[key]][key := value]
    else
      b[key := value]
  }

  /** A write touches `key` and, when it supersedes a value, one new slot; no other key appears. */
  lemma VersionedKeys(b: Bundle, key: string, value: string)
    ensures Versioned(b, key, value).Keys
         == if Supersedes(b, key, value)
            then b.Keys + {key, OldKey(key, FirstFreeSlot(b, key))}
            else b.Keys + {key}
  {
  }

  /** Writing the current value, or a key not yet present, adds no history slot. */
  lemma VersionedWithoutHistory(b: Bundle, key: string, value: string)
    requires !Supersedes(b, key, value)
    ensures Versioned(b, key, value) == b[key := value]
    ensures |Versioned(b, key, value)| == if key in b then |b| else |b| + 1
  {
  }

  /** A superseding write grows the bundle by exactly one history slot. */
  lemma VersionedGrowsByOne(b: Bundle, key: string, value: string)
    requires Supersedes(b, key, value)
    ensures |Versioned(b, key, value)| == |b| + 1
  {
    var slot := OldKey(key, FirstFreeSlot(b, key));
    OldKeyNotKey(key, FirstFreeSlot(b, key));
    assert Versioned(b, key, value) == b[slot := b[key]][key := value];
  }

  /** Writing the same value twice leaves the bundle as writing it once. */
  lemma VersionedIdempotent(b: Bundle, key: string, value: string)
    ensures Versioned(Versioned(b, key, value), key, value) == Versioned(b, key, value)
  {
    var once := Versioned(b, key, value);
    assert !Supersedes(once, key, value);
    assert once[key := value] == once;
  }

  /** The bundle after writing the values of `vs` to `key`, one after another. */
  function WriteAll(b: Bundle, key: string, vs: seq<string>): (r: Bundle)
    ensures vs != [] ==> key in r && r[key] == vs[|vs| - 1]
    decreases |vs|
  {
    if vs == [] then b
    else Versioned(WriteAll(b, key, vs[..|vs| - 1]), key, vs[|vs| - 1])
  }

  /** No two successive values of `vs` are equal. */
  predicate AdjacentDistinct(vs: seq<string>)
  {
    forall i :: 0 < i < |vs| ==> vs[i - 1] != vs[i]
  }

  /** The history slots 1 .. n-1 of `key`. */
  function SlotRange(key: string, n: nat): set<string>
  {
    set j | 1 <= j < n :: OldKey(key, j)
  }

  /** The slot range grows by the next slot. */
  lemma SlotRangeSnoc(key: string, k: nat)
    requires k >= 1
    ensures SlotRange(key, k + 1) == SlotRange(key, k) + {OldKey(key, k)}
  {
    forall s | s in SlotRange(key, k + 1)
      ensures s in SlotRange(key, k) + {OldKey(key, k)}
    {
      var j :| 1 <= j < k + 1 && s == OldKey(key, j);
      if j < k {
        assert OldKey(key, j) in SlotRange(key, k);
      }
    }
    forall s | s in SlotRange(key, k) + {OldKey(key, k)}
      ensures s in SlotRange(key, k + 1)
    {
      if s != OldKey(key, k) {
        var j :| 1 <= j < k && s == OldKey(key, j);
        assert OldKey(key, j) in SlotRange(key, k + 1);
      } else {
        assert OldKey(key, k) in SlotRange(key, k + 1);
      }
    }
  }

  /** In a bundle holding `key` and slots 1 .. k-1 only, slot k is the first free one. */
  lemma ChainNextSlot(b: Bundle, key: string, k: nat)
    requires k >= 1 && b.Keys == {key} + SlotRange(key, k)
    ensures FirstFreeSlot(b, key) == k
  {
    OldKeyNotKey(key, k);
    if OldKey(key, k) in SlotRange(key, k) {
      var j :| 1 <= j < k && OldKey(key, j) == OldKey(key, k);
      OldKeyInjective(key, j, k);
    }
    forall j | 1 <= j < k
      ensures OldKey(key, j) in b
    {
      assert OldKey(key, j) in SlotRange(key, k);
    }
    assert IsFirstFree(b, key, k);
    FirstFreeUnique(b, key, k, FirstFreeSlot(b, key));
  }

  /**
   * `r` is the bundle that the writes of `vs` to `key` should leave: `key`
   * holds the last value, slot j holds the j-th earlier one, nothing else.
   */
  predicate IsHistory(r: Bundle, key: string, vs: seq<string>)
    requires |vs| >= 1
  {
    && key in r && r[key] == vs[|vs| - 1]
    && (forall j :: 1 <= j < |vs| ==> OldKey(key, j) in r && r[OldKey(key, j)] == vs[j - 1])
    && r.Keys == {key} + SlotRange(key, |vs|)
    && |r| == |vs|
  }

  /** One more write of a new value adds slot k, holding the value it supersedes. */
  lemma HistoryStepSlots(prev: Bundle, key: string, front: seq<string>, v: string)
    requires |front| >= 1 && IsHistory(prev, key, front)
    requires front[|front| - 1] != v
    ensures var r := Versioned(prev, key, v);
            && r.Keys == {key} + SlotRange(key, |front| + 1)
            && |r| == |front| + 1
            && OldKey(key, |front|) in r && r[OldKey(key, |front|)] == front[|front| - 1]
  {
    var k := |front|;
    assert Supersedes(prev, key, v);
    ChainNextSlot(prev, key, k);
    VersionedGrowsByOne(prev, key, v);
    VersionedKeys(prev, key, v);
    SlotRangeSnoc(key, k);
  }

  /** One more write leaves the slots of a history as they were. */
  lemma HistoryKeepsSlots(prev: Bundle, key: string, front: seq<string>, v: string)
    requires |front| >= 1 && IsHistory(prev, key, front)
    ensures var r := Versioned(prev, key, v);
            forall j :: 1 <= j < |front| ==> OldKey(key, j) in r && r[OldKey(key, j)] == front[j - 1]
  {
    forall j | 1 <= j < |front|
      ensures OldKey(key, j) in Versioned(prev, key, v)
    {
      OldKeyNotKey(key, j);
    }
  }

  /** One more write of a new value extends a history by one slot. */
  lemma HistoryStep(prev: Bundle, key: string, front: seq<string>, v: string)
    requires |front| >= 1 && IsHistory(prev, key, front)
    requires front[|front| - 1] != v
    ensures IsHistory(Versioned(prev, key, v), key, front + [v])
  {
    var vs := front + [v];
    HistoryStepSlots(prev, key, front, v);
    HistoryKeepsSlots(prev, key, front, v);
    assert forall i :: 0 <= i < |front| ==> vs[i] == front[i];
  }

  /** The first write to an empty bundle creates `key` alone. */
  lemma HistoryStart(key: string, v: string)
    ensures IsHistory(WriteAll(map[], key, [v]), key, [v])
  {
    assert [v][..0] == [];
    assert WriteAll(map[], key, [v]) == map[key := v];
    assert SlotRange(key, 1) == {};
  }

  /**
   * Starting from an empty bundle, successive writes of different values to
   * `key` keep the earlier values, in order, in `key_old1 .. key_old{k-1}`,
   * `key` holds the last one, and the bundle holds nothing else.
   */
  lemma {:induction false} HistoryChain(key: string, vs: seq<string>)
    requires |vs| >= 1 && AdjacentDistinct(vs)
    ensures IsHistory(WriteAll(map[], key, vs), key, vs)
    decreases |vs|
  {
    var k := |vs| - 1;
    var front := vs[..k];
    if k == 0 {
      assert vs == [vs[0]];
      HistoryStart(key, vs[0]);
    } else {
      assert AdjacentDistinct(front);
      HistoryChain(key, front);
      assert vs == front + [vs[k]];
      HistoryStep(WriteAll(map[], key, front), key, front, vs[k]);
    }
  }
}
