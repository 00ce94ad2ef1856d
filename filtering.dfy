/** Filtering a list in one pass, as the converter's `forEach` loops do: the
    entries kept (each turned into a record that may depend on its index),
    their indices, and a tally of the entries by key. */
module Filtering {
  import opened JsStrings

  /** The indices `i` with `mask[i]`, in increasing order. */
  function Positions(mask: seq<bool>): (p: seq<nat>)
    ensures |p| <= |mask|
    ensures forall k :: 0 <= k < |p| ==> p[k] < |mask| && mask[p[k]]
    ensures forall k, l :: 0 <= k < l < |p| ==> p[k] < p[l]
    ensures forall i :: 0 <= i < |mask| && mask[i] ==> i in p
  {
    if mask == [] then []
    else
      var n := |mask| - 1;
      assert forall i :: 0 <= i < n ==> mask[..n][i] == mask[i];
      Positions(mask[..n]) + (if mask[n] then [n] else [])
  }

  /** Number of `true` entries. */
  function CountTrue(mask: seq<bool>): nat
  {
    if mask == [] then 0 else CountTrue(mask[..|mask| - 1]) + (if mask[|mask| - 1] then 1 else 0)
  }

  function Mask<T>(xs: seq<T>, keep: T -> bool): seq<bool> {
    seq(|xs|, i requires 0 <= i < |xs| => keep(xs[i]))
  }

  /** The records `make(x, i)` of the entries `x` (at index `i`) with
      `keep(x)`, built left to right. */
  function FilterMap<T, U>(xs: seq<T>, keep: T -> bool, make: (T, nat) -> U): seq<U>
  {
    if xs == [] then []
    else
      var n := |xs| - 1;
      FilterMap(xs[..n], keep, make) + (if keep(xs[n]) then [make(xs[n], n)] else [])
  }

  /** One more entry appends its record, if it is kept. */
  lemma FilterMapStep<T, U>(xs: seq<T>, i: nat, keep: T -> bool, make: (T, nat) -> U)
    requires i < |xs|
    ensures FilterMap(xs[..i + 1], keep, make)
         == FilterMap(xs[..i], keep, make) + (if keep(xs[i]) then [make(xs[i], i)] else [])
  {
    assert xs[..i + 1][..i] == xs[..i];
  }

  /** One more entry adds one to the count, if it passes. */
  lemma CountStep<T>(xs: seq<T>, i: nat, keep: T -> bool)
    requires i < |xs|
    ensures CountTrue(Mask(xs[..i + 1], keep)) == CountTrue(Mask(xs[..i], keep)) + (if keep(xs[i]) then 1 else 0)
  {
    assert Mask(xs[..i + 1], keep)[..i] == Mask(xs[..i], keep);
  }

  /** A filter keeps exactly the entries passing the test, in their order,
      each once, and as many as pass. */
  lemma {:induction false} FilterMapInOrder<T, U>(xs: seq<T>, keep: T -> bool, make: (T, nat) -> U)
    ensures var p, ys := Positions(Mask(xs, keep)), FilterMap(xs, keep, make);
            && |ys| == |p| == CountTrue(Mask(xs, keep))
            && forall k :: 0 <= k < |p| ==> ys[k] == make(xs[p[k]], p[k])
  {
    if xs != [] {
      var n := |xs| - 1;
      FilterMapInOrder(xs[..n], keep, make);
      assert Mask(xs, keep)[..n] == Mask(xs[..n], keep);
    }
  }

  function Not<T>(keep: T -> bool): T -> bool {
    x => !keep(x)
  }

  /** Every entry passes the test or fails it, never both. */
  lemma {:induction false} CountComplement<T>(xs: seq<T>, keep: T -> bool)
    ensures CountTrue(Mask(xs, keep)) + CountTrue(Mask(xs, Not(keep))) == |xs|
  {
    if xs != [] {
      var n := |xs| - 1;
      CountComplement(xs[..n], keep);
      assert Mask(xs, keep)[..n] == Mask(xs[..n], keep);
      assert Mask(xs, Not(keep))[..n] == Mask(xs[..n], Not(keep));
    }
  }

  /** `(m[key] || 0) + 1` stored back under `key`. */
  function Bump(m: map<string, nat>, key: string): map<string, nat> {
    m[key := (if key in m then m[key] else 0) + 1]
  }

  /** The counts of the keys `tally(x)` of the entries that have one. */
  function Tally<T>(xs: seq<T>, tally: T -> Option<string>): map<string, nat>
  {
    if xs == [] then map[]
    else
      var n := |xs| - 1;
      var m := Tally(xs[..n], tally);
      match tally(xs[n])
      case None => m
      case Some(key) => Bump(m, key)
  }

  /** One more entry bumps its own key, if it has one. */
  lemma TallyStep<T>(xs: seq<T>, i: nat, tally: T -> Option<string>)
    requires i < |xs|
    ensures Tally(xs[..i + 1], tally)
         == if tally(xs[i]).Some? then Bump(Tally(xs[..i], tally), tally(xs[i]).value) else Tally(xs[..i], tally)
  {
    assert xs[..i + 1][..i] == xs[..i];
  }

  function HasKey<T>(tally: T -> Option<string>, key: string): T -> bool {
    x => tally(x) == Some(key)
  }

  /** Each entry is counted once, under its own key: a key's count is the
      number of entries with that key, and keys no entry has are absent. */
  lemma {:induction false} TallyCounts<T>(xs: seq<T>, tally: T -> Option<string>, key: string)
    ensures var t, c := Tally(xs, tally), CountTrue(Mask(xs, HasKey(tally, key)));
            (key in t ==> t[key] == c) && (key !in t <==> c == 0)
  {
    if xs != [] {
      var n := |xs| - 1;
      TallyCounts(xs[..n], tally, key);
      assert Mask(xs, HasKey(tally, key))[..n] == Mask(xs[..n], HasKey(tally, key));
    }
  }
}
