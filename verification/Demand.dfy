/** Demand paging seen through the coremap alone: which page sits in which frame. */
module Demand {
  import opened Options

  type Page = nat
  type Core = seq<Option<Page>>

  function FreeFrom(core: Core, i: nat): (f: nat)
    requires i <= |core|
    ensures i <= f <= |core|
    ensures forall k | i <= k < f :: core[k].Some?
    ensures f < |core| ==> core[f].None?
    decreases |core| - i
  {
    if i == |core| || core[i].None? then i else FreeFrom(core, i + 1)
  }

  /** The frame the search loop of `allocate_frame` stops at: the lowest free one, or `|core|`. */
  function FirstFree(core: Core): (f: nat)
    ensures f <= |core|
    ensures forall k | 0 <= k < f :: core[k].Some?
    ensures f < |core| ==> core[f].None?
  {
    FreeFrom(core, 0)
  }

  lemma {:induction false} FreeFromIs(core: Core, i: nat, g: nat)
    requires i <= g <= |core| && (forall k | i <= k < g :: core[k].Some?) && (g < |core| ==> core[g].None?)
    ensures FreeFrom(core, i) == g
    decreases g - i
  {
    if i < g {
      FreeFromIs(core, i + 1, g);
    }
  }

  lemma FirstFreeIs(core: Core, g: nat)
    requires g <= |core| && (forall i | 0 <= i < g :: core[i].Some?) && (g < |core| ==> core[g].None?)
    ensures FirstFree(core) == g
  {
    FreeFromIs(core, 0, g);
  }

  ghost predicate Resident(core: Core, p: Page) {
    Some(p) in core
  }

  predicate Full(core: Core) {
    FirstFree(core) == |core|
  }

  /** No page sits in two frames. */
  ghost predicate Distinct(core: Core) {
    forall i, j | 0 <= i < j < |core| :: core[i].Some? ==> core[i] != core[j]
  }

  /** The frame a missing page is loaded into; `victim` is what `evict_fcn` would answer. */
  function Slot(core: Core, victim: nat): nat {
    if Full(core) then victim else FirstFree(core)
  }

  /** The coremap after one reference to `p`. */
  function Touch(core: Core, p: Page, victim: nat): (core': Core)
    requires victim < |core|
    ensures |core'| == |core| && Some(p) in core'
  {
    if Some(p) in core then core
    else
      var core' := core[Slot(core, victim) := Some(p)];
      assert core'[Slot(core, victim)] == Some(p);
      core'
  }

  function Empty(m: nat): Core {
    seq(m, _ => None)
  }

  /** Every answer of `evict_fcn` is a frame number. */
  ghost predicate InRange(vs: seq<nat>, m: nat) {
    forall i | 0 <= i < |vs| :: vs[i] < m
  }

  /** The coremap just before reference `t`, when access `i` would evict frame `vs[i]`. */
  ghost function CoreAt(m: nat, trace: seq<Page>, vs: seq<nat>, t: nat): (core: Core)
    requires t <= |trace| && t <= |vs| && InRange(vs, m)
    ensures |core| == m
  {
    if t == 0 then Empty(m) else Touch(CoreAt(m, trace, vs, t - 1), trace[t - 1], vs[t - 1])
  }

  /** Reference `t` finds its page absent and no frame free. */
  ghost predicate Evicts(m: nat, trace: seq<Page>, vs: seq<nat>, t: nat)
    requires t < |trace| && t < |vs| && InRange(vs, m)
  {
    Full(CoreAt(m, trace, vs, t)) && Some(trace[t]) !in CoreAt(m, trace, vs, t)
  }

  /** The misses counted before reference `t`. */
  ghost function MissesAt(m: nat, trace: seq<Page>, vs: seq<nat>, t: nat): nat
    requires t <= |trace| && t <= |vs| && InRange(vs, m)
  {
    if t == 0 then 0
    else MissesAt(m, trace, vs, t - 1)
         + if Some(trace[t - 1]) in CoreAt(m, trace, vs, t - 1) then 0 else 1
  }

  /** A reference changes one frame, which then holds the page, and no other frame held it. */
  lemma TouchOneFrame(core: Core, p: Page, victim: nat) returns (g: nat)
    requires victim < |core| && Distinct(core)
    ensures g < |core| && Touch(core, p, victim) == core[g := Some(p)]
    ensures forall i | 0 <= i < |core| && i != g :: core[i] != Some(p)
    ensures if Some(p) in core then core[g] == Some(p) else g == Slot(core, victim)
    ensures Distinct(Touch(core, p, victim))
  {
    if Some(p) in core {
      g :| 0 <= g < |core| && core[g] == Some(p);
    } else {
      g := Slot(core, victim);
    }
  }

  lemma {:induction false} CoreAtDistinct(m: nat, trace: seq<Page>, vs: seq<nat>, t: nat)
    requires t <= |trace| && t <= |vs| && InRange(vs, m)
    ensures Distinct(CoreAt(m, trace, vs, t))
  {
    if t > 0 {
      CoreAtDistinct(m, trace, vs, t - 1);
      var _ := TouchOneFrame(CoreAt(m, trace, vs, t - 1), trace[t - 1], vs[t - 1]);
    }
  }

  /** A reference seen by its effect alone: from a known coremap to the next one and its miss. */
  lemma Unfold(m: nat, trace: seq<Page>, vs: seq<nat>, t: nat, core: Core)
    requires t < |trace| && t < |vs| && InRange(vs, m) && CoreAt(m, trace, vs, t) == core
    ensures CoreAt(m, trace, vs, t + 1) == Touch(core, trace[t], vs[t])
    ensures MissesAt(m, trace, vs, t + 1) == MissesAt(m, trace, vs, t) + if Some(trace[t]) in core then 0 else 1
  {
  }

  lemma {:induction false} CoreAtPrefix(m: nat, trace: seq<Page>, vs: seq<nat>, ws: seq<nat>, t: nat)
    requires t <= |trace| && t <= |vs| && t <= |ws| && InRange(vs, m) && InRange(ws, m)
    requires vs[..t] == ws[..t]
    ensures CoreAt(m, trace, vs, t) == CoreAt(m, trace, ws, t)
  {
    if t > 0 {
      assert vs[..t - 1] == vs[..t][..t - 1] == ws[..t - 1];
      assert vs[t - 1] == vs[..t][t - 1] == ws[t - 1];
      CoreAtPrefix(m, trace, vs, ws, t - 1);
    }
  }

  /** The frame, from `i` on, that holds `p`. */
  function FrameFrom(core: Core, p: Page, i: nat): (k: nat)
    requires i <= |core| && Some(p) in core[i..]
    ensures i <= k < |core| && core[k] == Some(p)
    decreases |core| - i
  {
    if core[i] == Some(p) then i
    else
      assert core[i..] == [core[i]] + core[i + 1..];
      FrameFrom(core, p, i + 1)
  }

  function FrameOf(core: Core, p: Page): (k: nat)
    requires Some(p) in core
    ensures k < |core| && core[k] == Some(p)
  {
    assert core[0..] == core;
    FrameFrom(core, p, 0)
  }

  /** The frame reference `t` ends up in. */
  ghost function FrameAt(m: nat, trace: seq<Page>, vs: seq<nat>, t: nat): (k: nat)
    requires t < |trace| && t < |vs| && InRange(vs, m)
    ensures k < m && CoreAt(m, trace, vs, t + 1)[k] == Some(trace[t])
  {
    FrameOf(CoreAt(m, trace, vs, t + 1), trace[t])
  }

  /** A reference leaves every frame but its own as it was, and no other frame holds its page. */
  lemma OtherFramesKept(m: nat, trace: seq<Page>, vs: seq<nat>, t: nat)
    requires t < |trace| && t < |vs| && InRange(vs, m)
    ensures forall k | 0 <= k < m && k != FrameAt(m, trace, vs, t) ::
              CoreAt(m, trace, vs, t + 1)[k] == CoreAt(m, trace, vs, t)[k] != Some(trace[t])
  {
    CoreAtDistinct(m, trace, vs, t);
    var g := TouchOneFrame(CoreAt(m, trace, vs, t), trace[t], vs[t]);
  }

  lemma FramesBound(s: set<nat>, m: nat)
    requires forall f | f in s :: f < m
    ensures |s| <= m
    ensures |s| == m ==> forall f: nat | f < m :: f in s
    ensures (forall f: nat | f < m :: f in s) ==> |s| == m
  {
    if m == 0 {
      assert s == {};
    } else {
      FramesBound(s - {m - 1}, m - 1);
      if m - 1 in s { assert |s - {m - 1}| == |s| - 1; } else { assert s - {m - 1} == s; }
    }
  }
}
