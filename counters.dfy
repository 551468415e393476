/** A Python dictionary of counters, `d[k] = d.get(k, 0) + 1`, with its keys
    in insertion order as Python keeps them. */
module Counters {

  datatype Counter = Counter(keys: seq<string>, counts: map<string, nat>)

  ghost predicate Valid(c: Counter) {
    && (forall i, j :: 0 <= i < j < |c.keys| ==> c.keys[i] != c.keys[j])
    && (forall k :: k in c.counts <==> k in c.keys)
  }

  function Empty(): (c: Counter)
    ensures Valid(c) && c.keys == []
  {
    Counter([], map[])
  }

  /** One more occurrence of `k`: a new key goes last, with count 1. */
  function Increment(c: Counter, k: string): (r: Counter)
    requires Valid(c)
    ensures Valid(r)
    ensures k in r.counts && r.counts[k] == (if k in c.counts then c.counts[k] else 0) + 1
    ensures forall k' :: k' != k ==> (k' in r.counts <==> k' in c.counts)
    ensures forall k' :: k' != k && k' in c.counts ==> r.counts[k'] == c.counts[k']
  {
    if k in c.counts then Counter(c.keys, c.counts[k := c.counts[k] + 1])
    else Counter(c.keys + [k], c.counts[k := 1])
  }

  function SumOver(keys: seq<string>, m: map<string, nat>): nat
    requires forall i :: 0 <= i < |keys| ==> keys[i] in m
  {
    if keys == [] then 0 else SumOver(keys[..|keys| - 1], m) + m[keys[|keys| - 1]]
  }

  /** The sum of all counts. */
  function Total(c: Counter): nat
    requires Valid(c)
  {
    SumOver(c.keys, c.counts)
  }

  lemma {:induction false} SumOverUnchanged(keys: seq<string>, m: map<string, nat>, k: string, v: nat)
    requires forall i :: 0 <= i < |keys| ==> keys[i] in m
    requires k !in keys
    ensures SumOver(keys, m[k := v]) == SumOver(keys, m)
  {
    if keys != [] {
      SumOverUnchanged(keys[..|keys| - 1], m, k, v);
    }
  }

  lemma {:induction false} SumOverBump(keys: seq<string>, m: map<string, nat>, k: string)
    requires forall i :: 0 <= i < |keys| ==> keys[i] in m
    requires forall i, j :: 0 <= i < j < |keys| ==> keys[i] != keys[j]
    requires k in keys
    ensures SumOver(keys, m[k := m[k] + 1]) == SumOver(keys, m) + 1
  {
    var n := |keys| - 1;
    if keys[n] == k {
      assert k !in keys[..n];
      SumOverUnchanged(keys[..n], m, k, m[k] + 1);
    } else {
      assert k in keys[..n];
      SumOverBump(keys[..n], m, k);
    }
  }

  /** Each increment adds exactly one to the total. */
  lemma TotalIncrement(c: Counter, k: string)
    requires Valid(c)
    ensures Total(Increment(c, k)) == Total(c) + 1
  {
    if k in c.counts {
      SumOverBump(c.keys, c.counts, k);
    } else {
      var r := Increment(c, k);
      assert r.keys[..|r.keys| - 1] == c.keys;
      SumOverUnchanged(c.keys, c.counts, k, 1);
    }
  }

  /** The counter a loop builds by counting `key(x)` for each `x` that
      passes `counted`, in order. */
  function Tally(xs: seq<string>, counted: string -> bool, key: string -> string): (r: Counter)
    ensures Valid(r)
  {
    if xs == [] then Empty()
    else
      var c := Tally(xs[..|xs| - 1], counted, key);
      if counted(xs[|xs| - 1]) then Increment(c, key(xs[|xs| - 1])) else c
  }

  /** The number of elements that pass `counted`. */
  function CountWhere(xs: seq<string>, counted: string -> bool): nat {
    if xs == [] then 0
    else CountWhere(xs[..|xs| - 1], counted) + (if counted(xs[|xs| - 1]) then 1 else 0)
  }

  /** The counts add up to the number of elements counted. */
  lemma {:induction false} TallyTotal(xs: seq<string>, counted: string -> bool, key: string -> string)
    ensures Total(Tally(xs, counted, key)) == CountWhere(xs, counted)
  {
    if xs != [] {
      var init := xs[..|xs| - 1];
      TallyTotal(init, counted, key);
      if counted(xs[|xs| - 1]) {
        TotalIncrement(Tally(init, counted, key), key(xs[|xs| - 1]));
      }
    }
  }

  /** The number of counted elements whose key is `k`. */
  function CountOf(xs: seq<string>, counted: string -> bool, key: string -> string, k: string): nat {
    if xs == [] then 0
    else CountOf(xs[..|xs| - 1], counted, key, k) + (if counted(xs[|xs| - 1]) && key(xs[|xs| - 1]) == k then 1 else 0)
  }

  /** Each key's count is the number of counted elements with that key; a
      key that no counted element has is absent. */
  lemma {:induction false} TallyCount(xs: seq<string>, counted: string -> bool, key: string -> string, k: string)
    ensures k in Tally(xs, counted, key).counts ==> Tally(xs, counted, key).counts[k] == CountOf(xs, counted, key, k)
    ensures k !in Tally(xs, counted, key).counts ==> CountOf(xs, counted, key, k) == 0
  {
    if xs != [] {
      TallyCount(xs[..|xs| - 1], counted, key, k);
    }
  }

  /** A key is counted exactly when a counted element has it. */
  lemma TallyExactly(xs: seq<string>, counted: string -> bool, key: string -> string, k: string)
    ensures k in Tally(xs, counted, key).counts <==> exists i :: 0 <= i < |xs| && counted(xs[i]) && key(xs[i]) == k
    ensures k in Tally(xs, counted, key).counts ==> Tally(xs, counted, key).counts[k] == CountOf(xs, counted, key, k)
  {
    TallyCount(xs, counted, key, k);
    if k in Tally(xs, counted, key).counts {
      CountedFromElement(xs, counted, key, k);
    }
    if exists i :: 0 <= i < |xs| && counted(xs[i]) && key(xs[i]) == k {
      var i :| 0 <= i < |xs| && counted(xs[i]) && key(xs[i]) == k;
      ElementCounted(xs, counted, key, i);
    }
  }

  lemma {:induction false} CountedFromElement(xs: seq<string>, counted: string -> bool, key: string -> string, k: string)
    requires k in Tally(xs, counted, key).counts
    ensures exists i :: 0 <= i < |xs| && counted(xs[i]) && key(xs[i]) == k
  {
    var init := xs[..|xs| - 1];
    if k in Tally(init, counted, key).counts {
      CountedFromElement(init, counted, key, k);
      var i :| 0 <= i < |init| && counted(init[i]) && key(init[i]) == k;
      assert xs[i] == init[i];
    }
  }

  lemma {:induction false} ElementCounted(xs: seq<string>, counted: string -> bool, key: string -> string, i: nat)
    requires i < |xs| && counted(xs[i])
    ensures key(xs[i]) in Tally(xs, counted, key).counts
  {
    var init := xs[..|xs| - 1];
    if i < |init| {
      assert xs[i] == init[i];
      ElementCounted(init, counted, key, i);
    }
  }
}
