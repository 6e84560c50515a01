/** The currency registry of src/supportedCurrencies.ts: a module-level,
    ordered list of currency-pair symbols, changed in place by
    `addCurrencyPair` (push behind an `includes` guard) and
    `removeCurrencyPair` (splice at `indexOf`). */
module Currencies {
  import opened Sequences

  /** The compiled-in pairs the list starts with. */
  const DefaultPairs: seq<string> :=
    ["GBP/USD", "EUR/GBP", "USD/JPY", "AUD/USD", "USD/CAD", "EUR/USD", "NZD/USD", "ZAR/USD"]

  /** The list after `addCurrencyPair(p)`: unchanged when `p` is already in
      it, otherwise `p` appended at the end. */
  function Added(s: seq<string>, p: string): seq<string>
  {
    if p in s then s else s + [p]
  }

  /** The default list has eight distinct pairs. */
  lemma DefaultPairsDistinct()
    ensures |DefaultPairs| == 8
    ensures NoDuplicates(DefaultPairs)
  {
    forall i, j | 0 <= i < j < |DefaultPairs|
      ensures DefaultPairs[i] != DefaultPairs[j]
    {
      // the pairs differ at position 0, 1 or 4
      var a, b := DefaultPairs[i], DefaultPairs[j];
      assert a[0] != b[0] || a[1] != b[1] || a[4] != b[4];
    }
  }

  /** Adding keeps the old pairs in place, in order, and ends with `p` in the
      list exactly once when the list had no duplicates. */
  lemma {:induction false} AddedKeepsOrderAndDistinctness(s: seq<string>, p: string)
    requires NoDuplicates(s)
    ensures Added(s, p)[..|s|] == s
    ensures p in Added(s, p)
    ensures NoDuplicates(Added(s, p))
    ensures |Added(s, p)| == if p in s then |s| else |s| + 1
  {
    var r := Added(s, p);
    assert r[..|s|] == s;
    if p !in s {
      assert r[|s|] == p;
      forall i, j | 0 <= i < j < |r| ensures r[i] != r[j] {
        if j == |s| {
          assert r[i] == s[i];
        } else {
          assert r[i] == s[i] && r[j] == s[j];
        }
      }
    }
  }

  /** `addCurrencyPair` is idempotent: adding twice is adding once. */
  lemma AddedIdempotent(s: seq<string>, p: string)
    ensures Added(Added(s, p), p) == Added(s, p)
  {
    if p !in s {
      assert (s + [p])[|s|] == p;
    }
  }

  /** Adding a pair and then removing it from a duplicate-free list gives
      the list back when the pair was new. */
  lemma {:induction false} RemoveUndoesAdd(s: seq<string>, p: string)
    requires p !in s
    ensures RemoveFirst(Added(s, p), p) == s
  {
    if s == [] {
    } else {
      assert (s + [p])[1..] == s[1..] + [p];
      assert p !in s[1..];
      RemoveUndoesAdd(s[1..], p);
    }
  }

  /** The JavaScript array object that `supportedCurrencies` names; whoever
      holds a reference to it sees its current contents. */
  class PairList {
    var elems: seq<string>

    constructor (initial: seq<string>)
      ensures elems == initial
    {
      elems := initial;
    }
  }

  /** The module's state: the one array that every function of the module
      reads and changes. */
  class Registry {
    const supported: PairList

    /** The module's invariant: no pair is listed twice. */
    ghost predicate Valid()
      reads this, supported
    {
      NoDuplicates(supported.elems)
    }

    /** Module initialisation: the array holds the default pairs. */
    constructor ()
      ensures Valid()
      ensures fresh(supported)
      ensures supported.elems == DefaultPairs
    {
      supported := new PairList(DefaultPairs);
      new;
      DefaultPairsDistinct();
    }

    /** `getSupportedCurrencies`: the shared array itself, not a copy. */
    method GetSupportedCurrencies() returns (list: PairList)
      ensures list == supported
    {
      list := supported;
    }

    /** `addCurrencyPair`: append `p` when absent, otherwise do nothing. */
    method AddCurrencyPair(p: string)
      requires Valid()
      modifies supported
      ensures Valid()
      ensures p in old(supported.elems) ==> supported.elems == old(supported.elems)
      ensures p !in old(supported.elems) ==> supported.elems == old(supported.elems) + [p]
      ensures p in supported.elems
    {
      AddedKeepsOrderAndDistinctness(supported.elems, p);
      if p !in supported.elems {
        supported.elems := supported.elems + [p];
      }
    }

    /** `removeCurrencyPair`: delete the first occurrence of `p`, if any,
        keeping every other pair in its relative order. */
    method RemoveCurrencyPair(p: string)
      requires Valid()
      modifies supported
      ensures Valid()
      ensures supported.elems == RemoveFirst(old(supported.elems), p)
      ensures p !in supported.elems
      ensures |supported.elems| == if p in old(supported.elems) then |old(supported.elems)| - 1 else |old(supported.elems)|
    {
      RemoveFirstNoDuplicates(supported.elems, p);
      RemoveFirstLength(supported.elems, p);
      var index := IndexOf(supported.elems, p);
      if index > -1 {
        DeleteAtIndexOf(supported.elems, p);
        supported.elems := DeleteAt(supported.elems, index);
      } else {
        RemoveFirstAbsent(supported.elems, p);
      }
    }
  }

  /** A reader that took the array before an `addCurrencyPair` call sees the
      pair afterwards, because it holds the same array. */
  method AddIsVisibleToEarlierReaders(registry: Registry, p: string) returns (view: PairList, before: seq<string>)
    requires registry.Valid()
    modifies registry.supported
    ensures registry.Valid()
    ensures before == old(registry.supported.elems)
    ensures view.elems == Added(before, p)
  {
    view := registry.GetSupportedCurrencies();
    before := view.elems;
    registry.AddCurrencyPair(p);
  }

  /** Likewise for `removeCurrencyPair`. */
  method RemoveIsVisibleToEarlierReaders(registry: Registry, p: string) returns (view: PairList, before: seq<string>)
    requires registry.Valid()
    modifies registry.supported
    ensures registry.Valid()
    ensures before == old(registry.supported.elems)
    ensures view.elems == RemoveFirst(before, p)
  {
    view := registry.GetSupportedCurrencies();
    before := view.elems;
    registry.RemoveCurrencyPair(p);
  }

  /** Two adds of the same pair leave it in the list once, and two removes
      raise no error and leave it out. */
  method AddTwiceRemoveTwice(registry: Registry, p: string)
    requires registry.Valid()
    modifies registry.supported
    ensures registry.Valid()
    ensures registry.supported.elems == RemoveFirst(Added(old(registry.supported.elems), p), p)
  {
    registry.AddCurrencyPair(p);
    ghost var once := registry.supported.elems;
    registry.AddCurrencyPair(p);
    assert registry.supported.elems == once;
    registry.RemoveCurrencyPair(p);
    ghost var removed := registry.supported.elems;
    registry.RemoveCurrencyPair(p);
    RemoveFirstAbsent(removed, p);
  }
}
