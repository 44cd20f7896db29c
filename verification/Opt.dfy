/** The OPT policy: `opt_evict` and `opt_ref` with their next-use table. */
module Opt {
  import opened Options
  import opened Demand
  import opened Belady

  /** How the table writes a next use: -1 stands for "never again". */
  function Entry(trace: seq<Page>, j: nat): int {
    if j < |trace| then j else -1
  }

  function NeverFrom(core: Core, table: seq<int>, i: nat): (k: nat)
    requires i <= |table| == |core|
    ensures i <= k <= |core|
    ensures k < |core| ==> table[k] == -1 && core[k].Some?
    ensures forall j | i <= j < k :: table[j] != -1 || core[j].None?
    decreases |core| - i
  {
    if i == |core| || (table[i] == -1 && core[i].Some?) then i else NeverFrom(core, table, i + 1)
  }

  /** The first frame holding a page that the table calls never used again, or `|core|`. */
  function FirstNever(core: Core, table: seq<int>): (k: nat)
    requires |table| == |core|
    ensures k <= |core|
    ensures k < |core| ==> table[k] == -1 && core[k].Some?
    ensures forall i | 0 <= i < k :: table[i] != -1 || core[i].None?
  {
    NeverFrom(core, table, 0)
  }

  /** The lowest index of the largest entry above -1 among the first `n`, or 0 when there is none. */
  function FirstLargest(table: seq<int>, n: nat): (k: nat)
    requires n <= |table|
    ensures n == 0 || k < n
    ensures (forall i | 0 <= i < n :: table[i] <= -1) ==> k == 0
    ensures forall i | 0 <= i < n :: table[i] <= -1 || table[i] <= table[k]
    ensures k > 0 ==> table[k] > -1 && forall i | 0 <= i < k :: table[i] < table[k]
  {
    if n == 0 then 0
    else
      var k := FirstLargest(table, n - 1);
      if table[n - 1] > (if n - 1 == 0 || table[k] <= -1 then -1 else table[k]) then n - 1 else k
  }

  /** The frame `opt_evict` answers. */
  function Choice(core: Core, table: seq<int>): (k: nat)
    requires |table| == |core| > 0
    ensures k < |core|
  {
    if FirstNever(core, table) < |core| then FirstNever(core, table) else FirstLargest(table, |table|)
  }

  /** The entries a table without lag would hold just before reference `t`. */
  function ExactTable(trace: seq<Page>, core: Core, t: nat): seq<int>
    requires t <= |trace|
  {
    seq(|core|, k requires 0 <= k < |core| => Entry(trace, FrameUse(trace, core[k], t)))
  }

  /** On an exact table of a full memory the choice is a page used farthest away. */
  lemma ChoiceIsFarthest(trace: seq<Page>, core: Core, t: nat)
    requires t <= |trace| && Full(core) && |core| > 0
    ensures Farthest(trace, core, t, Choice(core, ExactTable(trace, core, t)))
  {
    var table := ExactTable(trace, core, t);
    var k := Choice(core, table);
    forall i | 0 <= i < |core| ensures FrameUse(trace, core[i], t) <= FrameUse(trace, core[k], t) {
      assert FirstNever(core, table) == |core| ==> table[i] <= table[k];
    }
  }

  /** `v` is what `opt_evict` answers on an exact table, if it is asked at all. */
  ghost predicate AsksExact(trace: seq<Page>, core: Core, t: nat, v: nat)
    requires t <= |trace| && |core| > 0
  {
    Full(core) ==> v == Choice(core, ExactTable(trace, core, t))
  }

  /** Demand paging that asks `opt_evict` with exact tables. */
  ghost predicate FollowsExact(m: nat, trace: seq<Page>, vs: seq<nat>)
    requires m > 0 && |vs| <= |trace| && InRange(vs, m)
  {
    forall t | 0 <= t < |vs| :: AsksExact(trace, CoreAt(m, trace, vs, t), t, vs[t])
  }

  /** There is such a run, for every trace and every number of frames. */
  lemma {:induction false} ExactRunExists(m: nat, trace: seq<Page>, n: nat) returns (vs: seq<nat>)
    requires m > 0 && n <= |trace|
    ensures |vs| == n && InRange(vs, m) && FollowsExact(m, trace, vs)
  {
    if n == 0 {
      vs := [];
    } else {
      var ws := ExactRunExists(m, trace, n - 1);
      var core := CoreAt(m, trace, ws, n - 1);
      var last := Choice(core, ExactTable(trace, core, n - 1));
      vs := ws + [last];
      assert AsksExact(trace, core, n - 1, last);
      forall t | 0 <= t < n ensures AsksExact(trace, CoreAt(m, trace, vs, t), t, vs[t]) {
        CoreAtPrefix(m, trace, vs, ws, t);
      }
    }
  }

  /** Belady optimality of `opt_evict` on exact tables, against every other sequence of victims. */
  lemma OptimalOnExactTables(m: nat, trace: seq<Page>, vs: seq<nat>, ws: seq<nat>, t: nat)
    requires m > 0 && t <= |vs| <= |trace| && t <= |ws| && InRange(vs, m) && InRange(ws, m)
          && FollowsExact(m, trace, vs)
    ensures MissesAt(m, trace, vs, t) <= MissesAt(m, trace, ws, t)
  {
    forall i | 0 <= i < |vs| && Full(CoreAt(m, trace, vs, i))
      ensures Farthest(trace, CoreAt(m, trace, vs, i), i, vs[i])
    {
      assert AsksExact(trace, CoreAt(m, trace, vs, i), i, vs[i]);
      ChoiceIsFarthest(trace, CoreAt(m, trace, vs, i), i);
    }
    RuleIsOptimal(m, trace, vs, ws, t);
  }

  // ----- The table as `opt_ref` keeps it, one reference late ------------------------------------

  /** What `opt_ref` writes at time `t > 0`: the next use, from `t` on, of the page referenced at `t - 1`. */
  function Refreshed(table: seq<int>, trace: seq<Page>, t: nat, pre: nat): (table': seq<int>)
    requires 0 < t <= |trace| && pre < |table|
    ensures |table'| == |table|
  {
    table[pre := Entry(trace, NextUse(trace, trace[t - 1], t))]
  }

  /** The table just before reference `t`, that is after `opt_ref` of reference `t - 1`. */
  ghost function TableAt(m: nat, trace: seq<Page>, vs: seq<nat>, t: nat): (table: seq<int>)
    requires t <= |trace| && t <= |vs| && InRange(vs, m)
    ensures |table| == m
  {
    if t <= 1 then seq(m, _ => -1)
    else Refreshed(TableAt(m, trace, vs, t - 1), trace, t - 1, FrameAt(m, trace, vs, t - 2))
  }

  /** One-step lag: after `opt_ref` of reference `t - 1`, every entry but that of its own frame is exact. */
  lemma {:induction false} TableLagsOneStep(m: nat, trace: seq<Page>, vs: seq<nat>, t: nat)
    requires 0 < t <= |trace| && t <= |vs| && InRange(vs, m)
    ensures forall k | 0 <= k < m && k != FrameAt(m, trace, vs, t - 1) ::
              TableAt(m, trace, vs, t)[k] == ExactTable(trace, CoreAt(m, trace, vs, t), t)[k]
  {
    OtherFramesKept(m, trace, vs, t - 1);
    if t > 1 {
      TableLagsOneStep(m, trace, vs, t - 1);
      forall k | 0 <= k < m && k != FrameAt(m, trace, vs, t - 1)
        ensures TableAt(m, trace, vs, t)[k] == ExactTable(trace, CoreAt(m, trace, vs, t), t)[k]
      {
        NextUseSkips(trace, CoreAt(m, trace, vs, t - 1)[k], t - 1);
      }
    }
  }

  /** What the entry of the frame used at `t - 1` stands for. It was written before that reference, so it is the next
      use, from `t - 1` on, of whatever the frame held then. */
  ghost function StaleUse(m: nat, trace: seq<Page>, vs: seq<nat>, t: nat): nat
    requires 0 < t <= |trace| && t <= |vs| && InRange(vs, m)
  {
    FrameUse(trace, CoreAt(m, trace, vs, t - 1)[FrameAt(m, trace, vs, t - 1)], t - 1)
  }

  /** With `TableLagsOneStep` this says what the whole table holds. */
  lemma StaleEntry(m: nat, trace: seq<Page>, vs: seq<nat>, t: nat)
    requires 0 < t <= |trace| && t <= |vs| && InRange(vs, m)
    ensures TableAt(m, trace, vs, t)[FrameAt(m, trace, vs, t - 1)] == Entry(trace, StaleUse(m, trace, vs, t))
  {
    if t > 1 { TableLagsOneStep(m, trace, vs, t - 1); }
  }

  /** The stale use by kind of reference: after a hit it is the hit itself, after a load into a free frame there is
      none, and after an eviction it is the next use of the page that is gone. */
  lemma StaleUseIs(m: nat, trace: seq<Page>, vs: seq<nat>, t: nat)
    requires 0 < t <= |trace| && t <= |vs| && InRange(vs, m)
    ensures var core := CoreAt(m, trace, vs, t - 1);
            StaleUse(m, trace, vs, t)
            == if Some(trace[t - 1]) in core then t - 1
               else if Full(core) then FrameUse(trace, core[vs[t - 1]], t)
               else |trace|
  {
    var core := CoreAt(m, trace, vs, t - 1);
    CoreAtDistinct(m, trace, vs, t - 1);
    OtherFramesKept(m, trace, vs, t - 1);
    var g := TouchOneFrame(core, trace[t - 1], vs[t - 1]);
    if Some(trace[t - 1]) !in core { NextUseSkips(trace, core[g], t - 1); }
  }

  /** The next use of the page in frame `k`, just before reference `t`. */
  ghost function UseAt(m: nat, trace: seq<Page>, vs: seq<nat>, t: nat, k: nat): nat
    requires t <= |trace| && t <= |vs| && InRange(vs, m) && k < m
  {
    FrameUse(trace, CoreAt(m, trace, vs, t)[k], t)
  }

  /** The stale use is later than the next use of every other page, or there is none and no page before is
      without one. */
  ghost predicate StaleIsLatest(m: nat, trace: seq<Page>, vs: seq<nat>, t: nat)
    requires 0 < t <= |trace| && t <= |vs| && InRange(vs, m)
  {
    var last, stale := FrameAt(m, trace, vs, t - 1), StaleUse(m, trace, vs, t);
    forall k: nat | k < m && k != last ::
      UseAt(m, trace, vs, t, k) < stale || (UseAt(m, trace, vs, t, k) == stale && last < k)
  }

  /** Two pages are never next used at the same time. */
  lemma UsesDiffer(m: nat, trace: seq<Page>, vs: seq<nat>, t: nat, k: nat)
    requires 0 < t <= |trace| && t <= |vs| && InRange(vs, m) && k < m && k != FrameAt(m, trace, vs, t - 1)
    requires UseAt(m, trace, vs, t, k) == StaleUse(m, trace, vs, t)
    ensures StaleUse(m, trace, vs, t) == |trace|
  {
    CoreAtDistinct(m, trace, vs, t - 1);
    OtherFramesKept(m, trace, vs, t - 1);
  }

  /** How `opt_evict` chooses between one frame and the others, on any table of a full memory. */
  lemma ChoiceIs(core: Core, table: seq<int>, f: nat)
    requires |table| == |core| && f < |core| && Full(core) && forall k | 0 <= k < |table| :: table[k] >= -1
    ensures Choice(core, table) == f
       <==> if table[f] == -1 then forall k | 0 <= k < f :: table[k] != -1
            else forall k | 0 <= k < |core| && k != f ::
                   table[k] != -1 && (table[k] < table[f] || (table[k] == table[f] && f < k))
  {
    var c := Choice(core, table);
    assert FirstNever(core, table) == |core| ==> table[f] <= table[c] && table[c] != -1;
  }

  /** The frame used just before is the one given up exactly when its stale entry is the latest. */
  lemma LastIsChosenIff(m: nat, trace: seq<Page>, vs: seq<nat>, t: nat)
    requires m > 0 && 0 < t <= |trace| && t <= |vs| && InRange(vs, m) && Full(CoreAt(m, trace, vs, t))
    ensures Choice(CoreAt(m, trace, vs, t), TableAt(m, trace, vs, t)) == FrameAt(m, trace, vs, t - 1)
       <==> StaleIsLatest(m, trace, vs, t)
  {
    var core, table, last := CoreAt(m, trace, vs, t), TableAt(m, trace, vs, t), FrameAt(m, trace, vs, t - 1);
    StaleEntry(m, trace, vs, t);
    forall k: nat | k < m && k != last
      ensures table[k] == Entry(trace, UseAt(m, trace, vs, t, k))
      ensures UseAt(m, trace, vs, t, k) == StaleUse(m, trace, vs, t) ==> StaleUse(m, trace, vs, t) == |trace|
    {
      TableLagsOneStep(m, trace, vs, t);
      if UseAt(m, trace, vs, t, k) == StaleUse(m, trace, vs, t) { UsesDiffer(m, trace, vs, t, k); }
    }
    ChoiceIs(core, table, last);
  }

  /** When `opt_evict` is right, in next uses alone. If the stale use is the latest it gives up the page referenced just
      before, and no other page may be used later than that one; if not, some other page must be used as late. */
  ghost predicate RightAt(m: nat, trace: seq<Page>, vs: seq<nat>, t: nat)
    requires 0 < t <= |trace| && t <= |vs| && InRange(vs, m)
  {
    var last, lastUse := FrameAt(m, trace, vs, t - 1), NextUse(trace, trace[t - 1], t);
    if StaleIsLatest(m, trace, vs, t) then forall k: nat | k < m && k != last :: UseAt(m, trace, vs, t, k) <= lastUse
    else exists k: nat :: k < m && k != last && UseAt(m, trace, vs, t, k) >= lastUse
  }

  /** Among the other frames the choice is always farthest: their entries are exact. */
  lemma ChoiceBeatsOthers(m: nat, trace: seq<Page>, vs: seq<nat>, t: nat, k: nat)
    requires m > 0 && 0 < t <= |trace| && t <= |vs| && InRange(vs, m) && Full(CoreAt(m, trace, vs, t))
    requires k < m && k != FrameAt(m, trace, vs, t - 1)
    ensures var c := Choice(CoreAt(m, trace, vs, t), TableAt(m, trace, vs, t));
            c != FrameAt(m, trace, vs, t - 1) ==> UseAt(m, trace, vs, t, k) <= UseAt(m, trace, vs, t, c)
  {
    TableLagsOneStep(m, trace, vs, t);
    var core, table := CoreAt(m, trace, vs, t), TableAt(m, trace, vs, t);
    var c := Choice(core, table);
    assert table[k] == ExactTable(trace, core, t)[k];
    assert c != FrameAt(m, trace, vs, t - 1) ==> table[c] == ExactTable(trace, core, t)[c];
    assert table[k] <= -1 || table[k] <= table[c] || table[c] == -1;
  }

  /** On the lagging table the choice is a farthest page exactly when that holds. */
  lemma LaggingChoiceIsFarthestIff(m: nat, trace: seq<Page>, vs: seq<nat>, t: nat)
    requires m > 0 && 0 < t <= |trace| && t <= |vs| && InRange(vs, m) && Full(CoreAt(m, trace, vs, t))
    ensures Farthest(trace, CoreAt(m, trace, vs, t), t, Choice(CoreAt(m, trace, vs, t), TableAt(m, trace, vs, t)))
       <==> RightAt(m, trace, vs, t)
  {
    var core, last := CoreAt(m, trace, vs, t), FrameAt(m, trace, vs, t - 1);
    var c := Choice(core, TableAt(m, trace, vs, t));
    LastIsChosenIff(m, trace, vs, t);
    assert forall k: nat | k < m :: UseAt(m, trace, vs, t, k) == FrameUse(trace, core[k], t);
    forall k: nat | k < m && k != last ensures c != last ==> UseAt(m, trace, vs, t, k) <= UseAt(m, trace, vs, t, c) {
      ChoiceBeatsOthers(m, trace, vs, t, k);
    }
    assert UseAt(m, trace, vs, t, last) == NextUse(trace, trace[t - 1], t);
  }

  /** After a hit, with two frames or more, the page just hit is never given up, and the choice is right exactly when
      another page is next used no earlier. */
  lemma RightAfterHitIff(m: nat, trace: seq<Page>, vs: seq<nat>, t: nat)
    requires m > 1 && 0 < t <= |trace| && t <= |vs| && InRange(vs, m) && Full(CoreAt(m, trace, vs, t))
    requires Some(trace[t - 1]) in CoreAt(m, trace, vs, t - 1)
    ensures Choice(CoreAt(m, trace, vs, t), TableAt(m, trace, vs, t)) != FrameAt(m, trace, vs, t - 1)
    ensures RightAt(m, trace, vs, t)
       <==> exists k: nat :: k < m && k != FrameAt(m, trace, vs, t - 1)
                             && UseAt(m, trace, vs, t, k) >= NextUse(trace, trace[t - 1], t)
  {
    StaleUseIs(m, trace, vs, t);
    LastIsChosenIff(m, trace, vs, t);
    var other := if FrameAt(m, trace, vs, t - 1) == 0 then 1 else 0;
    assert UseAt(m, trace, vs, t, other) >= t;
  }

  /** The run of the program as it is: every eviction asks `opt_evict` with the lagging table. */
  ghost predicate FollowsCode(m: nat, trace: seq<Page>, vs: seq<nat>)
    requires m > 0 && |vs| <= |trace| && InRange(vs, m)
  {
    forall t | 0 < t < |vs| ::
      Evicts(m, trace, vs, t) ==> vs[t] == Choice(CoreAt(m, trace, vs, t), TableAt(m, trace, vs, t))
  }

  /** The run follows Belady's rule exactly when the condition holds at each of its evictions; then it is optimal. */
  lemma CodeFollowsRuleIff(m: nat, trace: seq<Page>, vs: seq<nat>, ws: seq<nat>, t: nat)
    requires m > 0 && t <= |vs| <= |trace| && t <= |ws| && InRange(vs, m) && InRange(ws, m) && FollowsCode(m, trace, vs)
    ensures FollowsRule(m, trace, vs)
       <==> forall i | 0 < i < |vs| :: Evicts(m, trace, vs, i) ==> RightAt(m, trace, vs, i)
    ensures FollowsRule(m, trace, vs) ==> MissesAt(m, trace, vs, t) <= MissesAt(m, trace, ws, t)
  {
    forall i | 0 < i < |vs| && Evicts(m, trace, vs, i)
      ensures Farthest(trace, CoreAt(m, trace, vs, i), i, vs[i]) <==> RightAt(m, trace, vs, i)
    {
      LaggingChoiceIsFarthestIff(m, trace, vs, i);
    }
    assert |vs| > 0 ==> !Evicts(m, trace, vs, 0) by { FirstFreeIs(Empty(m), 0); }
    if FollowsRule(m, trace, vs) {
      RuleIsOptimal(m, trace, vs, ws, t);
    }
  }

  lemma LagDropsOne(trace: seq<Page>, vs: seq<nat>)
    requires trace == [0, 1, 2, 1, 0] && |vs| == 5 && InRange(vs, 2) && FollowsCode(2, trace, vs)
    requires CoreAt(2, trace, vs, 1) == [Some(0), None] && CoreAt(2, trace, vs, 2) == [Some(0), Some(1)]
    ensures TableAt(2, trace, vs, 2) == [4, -1] && vs[2] == 1
  {
    assert trace[4] == 0 && NextUse(trace, 0, 1) == 4;
  }

  lemma LagDropsZero(trace: seq<Page>, vs: seq<nat>)
    requires trace == [0, 1, 2, 1, 0] && |vs| == 5 && InRange(vs, 2) && FollowsCode(2, trace, vs)
    requires CoreAt(2, trace, vs, 2) == [Some(0), Some(1)] && CoreAt(2, trace, vs, 3) == [Some(0), Some(2)]
    requires TableAt(2, trace, vs, 2) == [4, -1]
    ensures TableAt(2, trace, vs, 3) == [4, 3] && vs[3] == 0
  {
    assert NextUse(trace, 1, 2) == 3;
  }

  lemma DroppingZeroRun(trace: seq<Page>, ws: seq<nat>)
    requires trace == [0, 1, 2, 1, 0] && ws == [0, 0, 0, 0, 0]
    ensures MissesAt(2, trace, ws, 5) == 4
  {
    Unfold(2, trace, ws, 0, [None, None]);
    Unfold(2, trace, ws, 1, [Some(0), None]);
    Unfold(2, trace, ws, 2, [Some(0), Some(1)]);
    Unfold(2, trace, ws, 3, [Some(2), Some(1)]);
    Unfold(2, trace, ws, 4, [Some(2), Some(1)]);
  }

  /** `opt_evict` can lose: two frames, pages 0 1 2 1 0. It drops page 1, whose entry lags, and misses five times
      where dropping page 0 misses four times. */
  lemma LagCanLose(trace: seq<Page>, vs: seq<nat>, ws: seq<nat>)
    requires trace == [0, 1, 2, 1, 0] && |vs| == 5 && InRange(vs, 2) && FollowsCode(2, trace, vs)
    requires ws == [0, 0, 0, 0, 0]
    ensures MissesAt(2, trace, vs, 5) == 5 && MissesAt(2, trace, ws, 5) == 4
  {
    DroppingZeroRun(trace, ws);
    Unfold(2, trace, vs, 0, [None, None]);
    Unfold(2, trace, vs, 1, [Some(0), None]);
    LagDropsOne(trace, vs);
    Unfold(2, trace, vs, 2, [Some(0), Some(1)]);
    LagDropsZero(trace, vs);
    Unfold(2, trace, vs, 3, [Some(0), Some(2)]);
    Unfold(2, trace, vs, 4, [Some(1), Some(2)]);
  }

  /** One more entry of the scan, when it is no page never used again. */
  lemma ScanStep(core: Core, table: seq<int>, k: nat)
    requires |table| == |core| && k < |table| && k <= FirstNever(core, table) && (table[k] != -1 || core[k].None?)
    ensures k + 1 <= FirstNever(core, table)
    ensures FirstLargest(table, k + 1)
         == if table[k] > (if k == 0 || table[FirstLargest(table, k)] <= -1 then -1 else table[FirstLargest(table, k)])
            then k else FirstLargest(table, k)
  {
  }

  /** The OPT fields of `coremap[0]`: the table, the addresses, and the cursor into the list of trace items. */
  class OptTable {
    const addrs: seq<Page>       // addrs[i] is the page referenced at time i
    const index: array<nat>      // the index field of each trace item
    const memory: array<int>     // the next-use table
    var time: nat                // the time of the current trace item

    ghost predicate Valid()
      reads this, index
    {
      index.Length == |addrs| && forall i | 0 <= i < time && i < index.Length :: index[i] < memory.Length
    }

    /** `opt_init`, given the parsed trace. */
    constructor (memsize: nat, trace: seq<Page>)
      ensures Valid() && addrs == trace && time == 0 && memory[..] == seq(memsize, _ => -1)
      ensures fresh(index) && fresh(memory)
    {
      addrs := trace;
      index := new nat[|trace|];
      memory := new int[memsize];
      time := 0;
      new;
      var m := 0;
      while m < memsize
        invariant 0 <= m <= memsize && time == 0
        invariant forall i | 0 <= i < m :: memory[i] == -1
      {
        memory[m] := -1;
        m := m + 1;
      }
    }

    method Evict(core: Core) returns (evict: nat)
      requires |core| == memory.Length > 0
      ensures evict == Choice(core, memory[..])
    {
      evict := 0;
      ghost var table := memory[..];
      var max, found, k := -1, false, 0;
      while k < memory.Length && !found
        invariant 0 <= k <= memory.Length
        invariant !found ==> evict == FirstLargest(table, k) && k <= FirstNever(core, table)
        invariant !found ==> max == if k == 0 || memory[evict] <= -1 then -1 else memory[evict]
        invariant found ==> evict == FirstNever(core, table) < |core|
      {
        if memory[k] == -1 && core[k].Some? {
          found := true;
          evict := k;
        } else if memory[k] > max {
          max := memory[k];
          evict := k;
        }
        if !found { ScanStep(core, table, k); }
        k := k + 1;
      }
    }

    method Ref(core: Core, frame: nat)
      requires Valid() && |core| == memory.Length && frame < |core| && time < |addrs|
      modifies this`time, index, memory
      ensures Valid() && time == old(time) + 1
      ensures index[..] == old(index[..])[old(time) := frame]
      ensures memory[..] == if core[frame].Some? && old(time) > 0
                            then Refreshed(old(memory[..]), addrs, old(time), old(index[time - 1]))
                            else old(memory[..])
    {
      index[time] := frame;
      if core[frame].Some? {
        if time > 0 {
          var j, done, pre := time, false, index[time - 1];
          while j < |addrs| && !done
            invariant time <= j <= |addrs|
            invariant time == old(time) < |addrs| && index[..] == old(index[..])[time := frame]
            invariant done ==> memory[..] == old(memory[..])[pre := NextUse(addrs, addrs[time - 1], time)]
            invariant done ==> NextUse(addrs, addrs[time - 1], time) < |addrs|
            invariant !done ==> memory[..] == if j == time then old(memory[..]) else old(memory[..])[pre := -1]
            invariant !done ==> forall i | time <= i < j :: addrs[i] != addrs[time - 1]
          {
            memory[pre] := -1;
            if addrs[time - 1] == addrs[j] {
              memory[pre] := j;
              done := true;
            }
            j := j + 1;
          }
        }
      }
      time := time + 1;
    }
  }
}
