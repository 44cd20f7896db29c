/** Belady's theorem for the victim rule of `opt_evict` on an exact next-use table. */
module Belady {
  import opened Options
  import opened Demand

  /** The first index from `t` on at which `p` is referenced, or `|trace|` when there is none. */
  function NextUse(trace: seq<Page>, p: Page, t: nat): (j: nat)
    requires t <= |trace|
    ensures t <= j <= |trace|
    ensures j < |trace| ==> trace[j] == p
    ensures forall i | t <= i < j :: trace[i] != p
    decreases |trace| - t
  {
    if t == |trace| || trace[t] == p then t else NextUse(trace, p, t + 1)
  }

  /** The next use of the page in a frame; a free frame counts as never used. */
  function FrameUse(trace: seq<Page>, o: Option<Page>, t: nat): (j: nat)
    requires t <= |trace|
    ensures t <= j <= |trace|
  {
    match o case None => |trace| case Some(p) => NextUse(trace, p, t)
  }

  /** No resident page is used later than the one in frame `v`. */
  ghost predicate Farthest(trace: seq<Page>, core: Core, t: nat, v: nat)
    requires t <= |trace|
  {
    v < |core| && forall k | 0 <= k < |core| :: FrameUse(trace, core[k], t) <= FrameUse(trace, core[v], t)
  }

  /** Every eviction of the run takes a page whose next use is farthest away. */
  ghost predicate FollowsRule(m: nat, trace: seq<Page>, vs: seq<nat>)
    requires |vs| <= |trace| && InRange(vs, m)
  {
    forall t | 0 <= t < |vs| ::
      Evicts(m, trace, vs, t) ==> Farthest(trace, CoreAt(m, trace, vs, t), t, vs[t])
  }

  /** The frames whose page is used again before index `x`. */
  ghost function Near(trace: seq<Page>, core: Core, t: nat, x: nat): set<nat>
    requires t <= |trace|
  {
    set f: nat | f < |core| && FrameUse(trace, core[f], t) < x
  }

  ghost function NearAt(m: nat, trace: seq<Page>, vs: seq<nat>, t: nat, x: nat): nat
    requires t <= |trace| && t <= |vs| && InRange(vs, m)
  {
    |Near(trace, CoreAt(m, trace, vs, t), t, x)|
  }

  ghost function Bit(b: bool): nat {
    if b then 1 else 0
  }

  lemma NextUseSkips(trace: seq<Page>, o: Option<Page>, t: nat)
    requires t < |trace| && o != Some(trace[t])
    ensures FrameUse(trace, o, t + 1) == FrameUse(trace, o, t)
  {
  }

  /** How one reference changes the number of near frames: frame `g` leaves, `g` with the new page enters. */
  lemma NearStep(trace: seq<Page>, core: Core, t: nat, x: nat, g: nat)
    requires t < |trace| && g < |core|
    requires forall i | 0 <= i < |core| && i != g :: core[i] != Some(trace[t])
    ensures |Near(trace, core[g := Some(trace[t])], t + 1, x)|
         == |Near(trace, core, t, x)| - Bit(FrameUse(trace, core[g], t) < x) + Bit(NextUse(trace, trace[t], t + 1) < x)
  {
    var before, after := Near(trace, core, t, x), Near(trace, core[g := Some(trace[t])], t + 1, x);
    forall i | 0 <= i < |core| && i != g ensures i in before <==> i in after {
      NextUseSkips(trace, core[i], t);
    }
    assert before - {g} == after - {g};
    assert |before - {g}| == |before| - Bit(g in before);
    assert |after - {g}| == |after| - Bit(g in after);
  }

  /** `va`'s run is ahead of `vb`'s by at least what `vb`'s frames hold more of, for every horizon `x`. */
  ghost predicate Ahead(m: nat, trace: seq<Page>, va: seq<nat>, vb: seq<nat>, t: nat)
    requires t <= |va| && t <= |vb| && t <= |trace|
    requires InRange(va, m) && InRange(vb, m)
  {
    var lead := MissesAt(m, trace, vb, t) - MissesAt(m, trace, va, t);
    0 <= lead
    && forall x: nat | t <= x <= |trace| ::
         NearAt(m, trace, vb, t, x) - NearAt(m, trace, va, t, x) <= lead
  }

  /** What one reference does to one run, in the terms `Ahead` speaks about. */
  lemma RunStep(m: nat, trace: seq<Page>, vs: seq<nat>, t: nat, x: nat) returns (left: nat)
    requires t < |trace| && t < |vs| && InRange(vs, m)
    requires t < x <= |trace|
    ensures left <= 1
    ensures NearAt(m, trace, vs, t + 1, x)
         == NearAt(m, trace, vs, t, x) - left + Bit(NextUse(trace, trace[t], t + 1) < x)
    ensures NearAt(m, trace, vs, t + 1, x) <= m - 1 + Bit(NextUse(trace, trace[t], t + 1) < x)
    ensures var core := CoreAt(m, trace, vs, t);
            left == if Some(trace[t]) in core then 1
                    else if Full(core) then Bit(FrameUse(trace, core[vs[t]], t) < x) else 0
  {
    var core, p := CoreAt(m, trace, vs, t), trace[t];
    CoreAtDistinct(m, trace, vs, t);
    var g := TouchOneFrame(core, p, vs[t]);
    NearStep(trace, core, t, x, g);
    left := Bit(FrameUse(trace, core[g], t) < x);
    FramesBound(Near(trace, core, t, x), m);
    if left == 0 {
      assert g !in Near(trace, core, t, x);
    }
  }

  /** A hit means some frame is used at `t`, so the near count at horizon `t + 1` tells who hits. */
  lemma NearAtNow(trace: seq<Page>, core: Core, t: nat)
    requires t < |trace|
    ensures Some(trace[t]) in core ==> |Near(trace, core, t, t + 1)| >= 1
    ensures Some(trace[t]) !in core ==> |Near(trace, core, t, t + 1)| == 0
  {
    if Some(trace[t]) in core {
      var f :| 0 <= f < |core| && core[f] == Some(trace[t]);
      assert f in Near(trace, core, t, t + 1);
    } else {
      assert Near(trace, core, t, t + 1) == {};
    }
  }

  /** The counting argument for one reference and one horizon: `a` and `b` are the near counts of the two runs before,
      `a'` and `b'` after, `enters` says whether the referenced page is near again, `full` whether all of `a`'s
      frames were. */
  lemma LeadKept(m: nat, a: nat, a': nat, b: nat, b': nat, leftA: nat, leftB: nat, enters: nat,
                 hitA: bool, hitB: bool, lead: int)
    requires leftA <= 1 && leftB <= 1 && a' == a - leftA + enters && b' == b - leftB + enters
    requires b' <= m - 1 + enters && b - a <= lead && 0 <= lead
    requires (hitA ==> leftA == 1) && (hitB ==> leftB == 1)
    requires !hitA && leftA == 1 ==> a == m
    requires hitB && !hitA ==> lead >= 1
    ensures var lead' := lead + (if hitB then 0 else 1) - (if hitA then 0 else 1);
            0 <= lead' && b' - a' <= lead'
  {
  }

  lemma AheadStepAt(m: nat, trace: seq<Page>, va: seq<nat>, vb: seq<nat>, t: nat, x: nat)
    requires t < x <= |trace| && t < |va| <= |trace| && t < |vb| && InRange(va, m) && InRange(vb, m)
    requires FollowsRule(m, trace, va) && Ahead(m, trace, va, vb, t)
    ensures var lead := MissesAt(m, trace, vb, t + 1) - MissesAt(m, trace, va, t + 1);
            0 <= lead && NearAt(m, trace, vb, t + 1, x) - NearAt(m, trace, va, t + 1, x) <= lead
  {
    var ca, cb := CoreAt(m, trace, va, t), CoreAt(m, trace, vb, t);
    var lead := MissesAt(m, trace, vb, t) - MissesAt(m, trace, va, t);
    NearAtNow(trace, ca, t);
    NearAtNow(trace, cb, t);
    assert NearAt(m, trace, vb, t, t + 1) - NearAt(m, trace, va, t, t + 1) <= lead;
    assert NearAt(m, trace, vb, t, x) - NearAt(m, trace, va, t, x) <= lead;
    var leftA := RunStep(m, trace, va, t, x);
    var leftB := RunStep(m, trace, vb, t, x);
    var hitA, hitB := Some(trace[t]) in ca, Some(trace[t]) in cb;
    if !hitA && leftA == 1 {
      // The farthest page is near, so every page of the full memory is.
      FarthestNear(m, trace, va, t, x);
    }
    Unfold(m, trace, va, t, ca);
    Unfold(m, trace, vb, t, cb);
    LeadKept(m, NearAt(m, trace, va, t, x), NearAt(m, trace, va, t + 1, x), NearAt(m, trace, vb, t, x),
             NearAt(m, trace, vb, t + 1, x), leftA, leftB, Bit(NextUse(trace, trace[t], t + 1) < x), hitA, hitB, lead);
  }

  lemma FarthestNear(m: nat, trace: seq<Page>, vs: seq<nat>, t: nat, x: nat)
    requires t < x <= |trace| && t < |vs| <= |trace| && InRange(vs, m) && FollowsRule(m, trace, vs)
          && Evicts(m, trace, vs, t)
    requires FrameUse(trace, CoreAt(m, trace, vs, t)[vs[t]], t) < x
    ensures NearAt(m, trace, vs, t, x) == m
  {
    var core := CoreAt(m, trace, vs, t);
    assert Farthest(trace, core, t, vs[t]);
    FramesBound(Near(trace, core, t, x), m);
  }

  lemma {:induction false} AheadAlways(m: nat, trace: seq<Page>, va: seq<nat>, vb: seq<nat>, t: nat)
    requires t <= |va| <= |trace| && t <= |vb| && InRange(va, m) && InRange(vb, m)
    requires FollowsRule(m, trace, va)
    ensures Ahead(m, trace, va, vb, t)
  {
    if t == 0 {
      assert CoreAt(m, trace, va, 0) == CoreAt(m, trace, vb, 0);
    } else {
      var last := t - 1;
      AheadAlways(m, trace, va, vb, last);
      AheadStepAt(m, trace, va, vb, last, t);
      forall x: nat | t <= x <= |trace|
        ensures NearAt(m, trace, vb, t, x) - NearAt(m, trace, va, t, x)
             <= MissesAt(m, trace, vb, t) - MissesAt(m, trace, va, t)
      {
        AheadStepAt(m, trace, va, vb, last, x);
      }
    }
  }

  /** Belady: a run that follows the rule never has missed more often than any other run. */
  lemma RuleIsOptimal(m: nat, trace: seq<Page>, va: seq<nat>, vb: seq<nat>, t: nat)
    requires t <= |va| <= |trace| && t <= |vb| && InRange(va, m) && InRange(vb, m)
    requires FollowsRule(m, trace, va)
    ensures MissesAt(m, trace, va, t) <= MissesAt(m, trace, vb, t)
  {
    AheadAlways(m, trace, va, vb, t);
  }
}
