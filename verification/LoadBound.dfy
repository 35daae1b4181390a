/** How full the table of uthash.h can get: the arithmetic behind expand_mult. */
module LoadBound {
  import opened Bits

  const THRESH: nat := 10

  function Sum(s: seq<nat>): nat {
    if s == [] then 0 else Sum(s[..|s| - 1]) + s[|s| - 1]
  }

  /** What an expansion leaves in a bucket: its multiplier brackets its count. */
  ghost predicate InBand(count: nat, mult: nat, ideal: nat) {
    && count <= (mult + 1) * ideal
    && (0 < mult ==> (mult - 1) * ideal < count && ideal < count)
  }

  /** The multiplier after one more item has been put into a new bucket. */
  function NextMult(count: nat, mult: nat, ideal: nat): nat {
    if count + 1 > ideal && count + 1 > mult * ideal then mult + 1 else mult
  }

  /** The multiplier that an expansion leaves, by the count alone. Above the ideal it is the
      rounded-up quotient, but one less for the first surplus item and for an ideal of 1,
      where the counting starts from 0. */
  ghost predicate IsMult(count: nat, mult: nat, ideal: nat) {
    if count <= ideal then mult == 0
    else if ideal == 1 then mult == count - 1
    else if count == ideal + 1 then mult == 1
    else IsCeil(mult, count, ideal)
  }

  /** Redistributing one item keeps the bracket, and the multiplier exact. */
  lemma NextInBand(count: nat, mult: nat, ideal: nat)
    requires InBand(count, mult, ideal) && IsMult(count, mult, ideal) && 0 < ideal
    ensures InBand(count + 1, NextMult(count, mult, ideal), ideal)
    ensures var now, next := count + 1, NextMult(count, mult, ideal);
            if now <= ideal then next == 0
            else if ideal == 1 then next == now - 1
            else if now == ideal + 1 then next == 1
            else (next - 1) * ideal < now <= next * ideal
    ensures IsMult(count + 1, NextMult(count, mult, ideal), ideal)
  {
    assert (mult + 1) * ideal == mult * ideal + ideal;
    assert (mult + 2) * ideal == mult * ideal + ideal + ideal;
    assert mult == 0 ==> mult * ideal == 0;
  }

  /** A bucket whose count was start after the last expansion never exceeds this
      without triggering the next one. */
  function Cap(start: nat, mult: nat): nat {
    if start <= THRESH * (mult + 1) - 1 then THRESH * (mult + 1) - 1 else start
  }

  function Caps(starts: seq<nat>, mults: seq<nat>): (caps: seq<nat>)
    requires |starts| == |mults|
    ensures |caps| == |starts|
    ensures forall b :: 0 <= b < |caps| ==> caps[b] == Cap(starts[b], mults[b])
  {
    seq(|starts|, b requires 0 <= b < |starts| => Cap(starts[b], mults[b]))
  }

  /** The buckets just after an expansion of a table with n0 items. */
  ghost predicate JustExpanded(starts: seq<nat>, mults: seq<nat>, ideal: nat, n0: nat) {
    && |starts| == |mults|
    && Sum(starts) == n0
    && IsCeil(ideal, n0, |starts|)
    && forall b :: 0 <= b < |starts| ==> InBand(starts[b], mults[b], ideal)
  }

  lemma {:induction false} SumMono(s: seq<nat>, t: seq<nat>)
    requires |s| == |t| && forall b :: 0 <= b < |s| ==> s[b] <= t[b]
    ensures Sum(s) <= Sum(t)
  {
    if s != [] {
      SumMono(s[..|s| - 1], t[..|s| - 1]);
    }
  }

  /** With a short ideal chain, every cap is at most ten times its multiplier plus ten. */
  lemma {:induction false} CapsByMult(starts: seq<nat>, mults: seq<nat>, ideal: nat)
    requires |starts| == |mults| && ideal <= THRESH
    requires forall b :: 0 <= b < |starts| ==> InBand(starts[b], mults[b], ideal)
    ensures Sum(Caps(starts, mults)) <= THRESH * Sum(mults) + THRESH * |mults|
  {
    if starts != [] {
      var k := |starts| - 1;
      var caps := Caps(starts, mults);
      CapsByMult(starts[..k], mults[..k], ideal);
      assert caps[..k] == Caps(starts[..k], mults[..k]);
      MulMono(ideal, THRESH, mults[k] + 1);
      assert (mults[k] + 1) * ideal == ideal * (mults[k] + 1);
    }
  }

  /** With a long ideal chain, a cap exceeds its start by less than nineteen. */
  lemma {:induction false} CapsByStart(starts: seq<nat>, mults: seq<nat>, ideal: nat)
    requires |starts| == |mults| && THRESH <= ideal
    requires forall b :: 0 <= b < |starts| ==> InBand(starts[b], mults[b], ideal)
    ensures Sum(Caps(starts, mults)) <= Sum(starts) + 18 * |starts|
  {
    if starts != [] {
      var k := |starts| - 1;
      var caps := Caps(starts, mults);
      CapsByStart(starts[..k], mults[..k], ideal);
      assert caps[..k] == Caps(starts[..k], mults[..k]);
      if 0 < mults[k] {
        MulMono(THRESH, ideal, mults[k] - 1);
        assert (mults[k] - 1) * ideal == ideal * (mults[k] - 1);
      }
    }
  }

  /** The multipliers together use up the items: Sum (mult - 1) * ideal <= n0. */
  lemma {:induction false} MultsUseItems(starts: seq<nat>, mults: seq<nat>, ideal: nat)
    requires |starts| == |mults|
    requires forall b :: 0 <= b < |starts| ==> InBand(starts[b], mults[b], ideal)
    ensures Sum(mults) * ideal <= Sum(starts) + |starts| * ideal
  {
    if starts != [] {
      var k := |starts| - 1;
      MultsUseItems(starts[..k], mults[..k], ideal);
      BandUsesItems(starts[k], mults[k], ideal);
      hide *;
      SumStep(starts);
      SumStep(mults);
      Distribute(Sum(mults[..k]), mults[k], ideal);
      Distribute(k, 1, ideal);
    }
  }

  lemma BandUsesItems(count: nat, mult: nat, ideal: nat)
    requires InBand(count, mult, ideal)
    ensures mult * ideal <= count + ideal
  {
    Distribute(mult - 1, 1, ideal);
  }

  lemma SumStep(s: seq<nat>)
    requires s != []
    ensures Sum(s) == Sum(s[..|s| - 1]) + s[|s| - 1]
  {
  }

  /** The caps of all buckets together hold at most forty items a bucket. */
  lemma CapsBounded(starts: seq<nat>, mults: seq<nat>, ideal: nat, n0: nat)
    requires JustExpanded(starts, mults, ideal, n0) && 0 < |starts| && n0 <= 20 * |starts| + 1
    ensures Sum(Caps(starts, mults)) <= 40 * |starts|
  {
    hide InBand, Sum, Caps, Cap;
    var nb := |starts|;
    if THRESH < ideal {
      CapsByStart(starts, mults, ideal);
    } else {
      CapsByMult(starts, mults, ideal);
      MultsUseItems(starts, mults, ideal);
      if ideal == 0 {
        NoItemsNoMults(starts, mults);
      } else {
        Distribute(nb, nb, ideal);
        MulCancel(Sum(mults), nb + nb, ideal);
      }
    }
  }

  lemma {:induction false} NoItemsNoMults(starts: seq<nat>, mults: seq<nat>)
    requires |starts| == |mults|
    requires forall b :: 0 <= b < |starts| ==> InBand(starts[b], mults[b], 0)
    ensures Sum(mults) == 0
  {
    if starts != [] {
      var k := |starts| - 1;
      NoItemsNoMults(starts[..k], mults[..k]);
      assert mults[k] == 0;
    }
  }

  /** Between two expansions the counts stay below the caps, so the load stays below forty. */
  lemma LoadBounded(counts: seq<nat>, starts: seq<nat>, mults: seq<nat>, ideal: nat, n0: nat)
    requires JustExpanded(starts, mults, ideal, n0) && 0 < |starts| && n0 <= 20 * |starts| + 1
    requires |counts| == |starts| && forall b :: 0 <= b < |counts| ==> counts[b] <= Cap(starts[b], mults[b])
    ensures Sum(counts) <= 40 * |counts|
  {
    SumMono(counts, Caps(starts, mults));
    CapsBounded(starts, mults, ideal, n0);
  }
}
