/** Cumulative counters that may restart: the law every delta computation of the service obeys. */
module ResetLaw {

  /** restarts[i] says that value i was read as a fresh start. A value may only fall at a restart. */
  ghost predicate Readable(vs: seq<nat>, restarts: seq<bool>) {
    |restarts| == |vs| && forall i | 1 <= i < |vs| :: FallsOnlyAt(vs, restarts, i)
  }

  ghost predicate FallsOnlyAt(vs: seq<nat>, restarts: seq<bool>, i: nat)
    requires 1 <= i < |vs| == |restarts|
  {
    restarts[i] || vs[i - 1] <= vs[i]
  }

  /** The delta taken at the i-th value. */
  function DeltaAt(vs: seq<nat>, restarts: seq<bool>, i: nat): int
    requires 1 <= i < |vs| == |restarts|
  {
    var before: int := if restarts[i] then 0 else vs[i - 1];
    vs[i] - before
  }

  ghost function Total(vs: seq<nat>, restarts: seq<bool>): int
    requires |vs| == |restarts|
  {
    if |vs| < 2 then 0
    else var n := |vs| - 1; Total(vs[..n], restarts[..n]) + DeltaAt(vs, restarts, n)
  }

  /** What was on the counter just before each restart. */
  ghost function Lost(vs: seq<nat>, restarts: seq<bool>): nat
    requires |vs| == |restarts|
  {
    if |vs| < 2 then 0
    else var n := |vs| - 1; Lost(vs[..n], restarts[..n]) + if restarts[n] then vs[n - 1] else 0
  }

  /** Deltas add up to last minus first plus everything lost to restarts, and none is negative. */
  lemma {:induction false} DeltasAddUp(vs: seq<nat>, restarts: seq<bool>)
    requires vs != [] && Readable(vs, restarts)
    ensures Total(vs, restarts) == vs[|vs| - 1] - vs[0] + Lost(vs, restarts)
    ensures forall i | 1 <= i < |vs| :: DeltaAt(vs, restarts, i) >= 0
  {
    forall i | 1 <= i < |vs| ensures DeltaAt(vs, restarts, i) >= 0 { assert FallsOnlyAt(vs, restarts, i); }
    if |vs| > 1 {
      var n := |vs| - 1;
      forall i | 1 <= i < n ensures FallsOnlyAt(vs[..n], restarts[..n], i) { assert FallsOnlyAt(vs, restarts, i); }
      DeltasAddUp(vs[..n], restarts[..n]);
    }
  }
}

/** src/StatFunc.h. */
module StatFunc {
  import opened ResetLaw

  class RelativeCounter {
    var value: nat
    var inited: bool
    var lastValue: nat

    constructor ()
      ensures !inited && value == 0
    {
      value, inited, lastValue := 0, false, 0;
    }

    constructor From(iv: nat)
      ensures inited && lastValue == iv && value == 0
    {
      value, inited, lastValue := 0, true, iv;
    }

    /** The first value of an unseeded counter is handed back but not kept as the current delta. */
    method Set(v: nat) returns (r: nat)
      modifies this
      ensures inited && lastValue == v
      ensures !old(inited) ==> r == v && value == old(value)
      ensures old(inited) ==> r == value == DeltaAt([old(lastValue), v], [false, v < old(lastValue)], 1)
    {
      if !inited {
        inited, lastValue := true, v;
        return v;
      }
      if v >= lastValue {
        value := v - lastValue;
      } else {
        value := v;
      }
      lastValue := v;
      return value;
    }
  }

  /** A counter read as falling exactly when its value falls. */
  ghost function Falls(vs: seq<nat>): (f: seq<bool>)
    ensures |f| == |vs|
  {
    seq(|vs|, i requires 0 <= i < |vs| => i > 0 && vs[i] < vs[i - 1])
  }

  /** Feeding a counter a whole series, and adding up what it makes of every value after its first, which is the
      seed if it has one: last minus first plus the value lost at each fall. */
  method Feed(c: RelativeCounter, values: seq<nat>) returns (sum: nat)
    requires values != []
    modifies c
    ensures c.inited && c.lastValue == values[|values| - 1]
    ensures var vs := if old(c.inited) then [old(c.lastValue)] + values else values;
            sum == vs[|vs| - 1] - vs[0] + Lost(vs, Falls(vs))
  {
    var vs := if c.inited then [c.lastValue] + values else values;
    if !c.inited { var first := c.Set(vs[0]); }
    sum := 0;
    for i := 1 to |vs|
      invariant c.inited && c.lastValue == vs[i - 1]
      invariant sum == Total(vs[..i], Falls(vs)[..i])
    {
      var d := c.Set(vs[i]);
      sum := sum + d;
      assert vs[..i + 1][..i] == vs[..i] && Falls(vs)[..i + 1][..i] == Falls(vs)[..i];
    }
    assert vs[..|vs|] == vs && Falls(vs)[..|vs|] == Falls(vs);
    forall i | 1 <= i < |vs| ensures FallsOnlyAt(vs, Falls(vs), i) {}
    DeltasAddUp(vs, Falls(vs));
  }
}
