/** The LRU policy: its recency order, the stack property, and what `lru.c` makes of it. */
module Lru {
  import opened Options
  import opened Demand
  import opened Lists

  /** Every page referenced before `t`, the latest first. */
  function Stack(trace: seq<Page>, t: nat): List
    requires t <= |trace|
  {
    if t == 0 then Nil else MoveToFront(Stack(trace, t - 1), trace[t - 1])
  }

  /** The last time before `t` at which `p` was referenced, or -1. */
  function LastUse(trace: seq<Page>, p: Page, t: nat): (j: int)
    requires t <= |trace|
    ensures -1 <= j < t
  {
    if t == 0 then -1 else if trace[t - 1] == p then t - 1 else LastUse(trace, p, t - 1)
  }

  lemma {:induction false} StackNoDuplicates(trace: seq<Page>, t: nat)
    requires t <= |trace|
    ensures NoDuplicates(Stack(trace, t))
  {
    if t > 0 {
      StackNoDuplicates(trace, t - 1);
      WithoutKeeps(Stack(trace, t - 1), trace[t - 1], trace[t - 1]);
    }
  }

  /** The stack holds exactly the pages referenced so far. */
  lemma {:induction false} StackMembers(trace: seq<Page>, t: nat, p: Page)
    requires t <= |trace|
    ensures Has(Stack(trace, t), p) <==> LastUse(trace, p, t) >= 0
  {
    if t > 0 {
      StackMembers(trace, t - 1, p);
      StackNoDuplicates(trace, t - 1);
      WithoutKeeps(Stack(trace, t - 1), trace[t - 1], p);
    }
  }

  /** The stack is ordered by strictly decreasing last use. */
  lemma {:induction false} StackByRecency(trace: seq<Page>, t: nat, p: Page, q: Page)
    requires t <= |trace| && Ahead(Stack(trace, t), p, q)
    ensures LastUse(trace, p, t) > LastUse(trace, q, t)
  {
    var s, x := Stack(trace, t - 1), trace[t - 1];
    StackNoDuplicates(trace, t - 1);
    WithoutKeeps(s, x, q);
    if p != x {
      WithoutAhead(s, x, p, q);
      StackByRecency(trace, t - 1, p, q);
    }
  }

  /** The frames in use, the most recently referenced first: what the list of `lru.c` is meant to hold. */
  ghost function OrderAt(m: nat, trace: seq<Page>, vs: seq<nat>, t: nat): List
    requires t <= |trace| && t <= |vs| && InRange(vs, m)
  {
    if t == 0 then Nil else MoveToFront(OrderAt(m, trace, vs, t - 1), FrameAt(m, trace, vs, t - 1))
  }

  /** Every eviction takes the last frame of the order. */
  ghost predicate FollowsLru(m: nat, trace: seq<Page>, vs: seq<nat>)
    requires |vs| <= |trace| && InRange(vs, m)
  {
    forall t | 0 <= t < |vs| :: Evicts(m, trace, vs, t) ==>
      OrderAt(m, trace, vs, t).Cons? && vs[t] == Last(OrderAt(m, trace, vs, t))
  }

  function Min(a: nat, b: nat): nat { if a < b then a else b }

  /** The frames of the order hold the pages of the stack, position by position. */
  predicate Holds(core: Core, order: List, stack: List) {
    order.Cons? ==> stack.Cons? && order.head < |core| && core[order.head] == Some(stack.head)
                    && Holds(core, order.tail, stack.tail)
  }

  /** The order is the frames in use, and holds the top of the stack. */
  ghost predicate Shows(core: Core, order: List, stack: List) {
    Holds(core, order, stack)
    && Length(order) == FirstFree(core) == Min(Length(stack), |core|)
    && (forall f | FirstFree(core) <= f < |core| :: core[f].None?)
    && (forall f: nat | f < FirstFree(core) :: Has(order, f))
  }

  lemma {:induction false} HoldsPage(core: Core, order: List, stack: List, f: nat)
    requires Holds(core, order, stack) && Has(order, f)
    ensures f < |core| && core[f].Some? && Has(Take(stack, Length(order)), core[f].value)
  {
    if order.head != f { HoldsPage(core, order.tail, stack.tail, f); }
  }

  lemma {:induction false} HoldsFrame(core: Core, order: List, stack: List, p: Page)
    requires Holds(core, order, stack) && Has(Take(stack, Length(order)), p)
    ensures Resident(core, p)
  {
    if stack.head != p { HoldsFrame(core, order.tail, stack.tail, p); }
  }

  lemma {:induction false} HoldsNoDuplicates(core: Core, order: List, stack: List)
    requires Holds(core, order, stack) && NoDuplicates(stack)
    ensures NoDuplicates(order)
  {
    if order.Cons? {
      HoldsNoDuplicates(core, order.tail, stack.tail);
      if Has(order.tail, order.head) {
        HoldsPage(core, order.tail, stack.tail, order.head);
        TakeWithin(stack.tail, Length(order.tail), Length(stack.tail) + Length(order.tail), stack.head);
      }
    }
  }

  lemma {:induction false} HoldsHit(core: Core, order: List, stack: List, f: nat, p: Page)
    requires Holds(core, order, stack) && Distinct(core) && Has(order, f) && f < |core| && core[f] == Some(p)
    ensures Holds(core, Without(order, f), Without(stack, p))
  {
    if order.head != f { HoldsHit(core, order.tail, stack.tail, f, p); }
  }

  lemma {:induction false} HoldsUpdate(core: Core, order: List, stack: List, f: nat, o: Option<Page>)
    requires Holds(core, order, stack) && !Has(order, f) && f < |core|
    ensures Holds(core[f := o], order, stack)
  {
    if order.Cons? { HoldsUpdate(core, order.tail, stack.tail, f, o); }
  }

  /** Taking a page out of the stack below the frames of the order does not disturb them. */
  lemma {:induction false} HoldsAbove(core: Core, order: List, stack: List, p: Page)
    requires Holds(core, order, stack) && !Has(Take(stack, Length(order)), p)
    ensures Holds(core, order, Without(stack, p))
  {
    if order.Cons? { HoldsAbove(core, order.tail, stack.tail, p); }
  }

  lemma {:induction false} HoldsDropLast(core: Core, order: List, stack: List)
    requires Holds(core, order, stack) && order.Cons? && NoDuplicates(order)
    ensures Holds(core, Without(order, Last(order)), stack)
  {
    if order.tail.Cons? { HoldsDropLast(core, order.tail, stack.tail); }
  }

  lemma ShowsPages(core: Core, order: List, stack: List, p: Page)
    requires Shows(core, order, stack)
    ensures Resident(core, p) <==> Has(Take(stack, |core|), p)
  {
    if Length(stack) < |core| {
      TakeAll(stack, |core|);
      TakeAll(stack, Length(order));
    }
    if Resident(core, p) {
      var f: nat :| f < |core| && core[f] == Some(p);
      assert Has(order, f);
      HoldsPage(core, order, stack, f);
    }
    if Has(Take(stack, |core|), p) {
      HoldsFrame(core, order, stack, p);
    }
  }

  lemma ShowsHit(core: Core, order: List, stack: List, p: Page, g: nat)
    requires Shows(core, order, stack) && NoDuplicates(stack) && Distinct(core) && g < |core| && core[g] == Some(p)
    ensures Shows(core, MoveToFront(order, g), MoveToFront(stack, p))
  {
    assert Has(order, g);
    HoldsNoDuplicates(core, order, stack);
    WithoutKeeps(order, g, g);
    HoldsHit(core, order, stack, g, p);
    HoldsPage(core, order, stack, g);
    TakeWithin(stack, Length(order), Length(order), p);
    WithoutKeeps(stack, p, p);
    forall f: nat | f < FirstFree(core) ensures Has(MoveToFront(order, g), f) {
      WithoutKeeps(order, g, f);
    }
  }

  lemma ShowsFill(core: Core, order: List, stack: List, p: Page, g: nat)
    requires Shows(core, order, stack) && NoDuplicates(stack) && !Resident(core, p)
    requires g == FirstFree(core) < |core|
    ensures Shows(core[g := Some(p)], MoveToFront(order, g), MoveToFront(stack, p))
  {
    var core' := core[g := Some(p)];
    ShowsPages(core, order, stack, p);
    TakeAll(stack, |core|);
    TakeAll(stack, Length(order));
    HoldsNoDuplicates(core, order, stack);
    WithoutKeeps(stack, p, p);
    if Has(order, g) { HoldsPage(core, order, stack, g); }
    HoldsUpdate(core, order, stack, g, Some(p));
    HoldsAbove(core', order, stack, p);
    FirstFreeIs(core', g + 1);
    forall f: nat | f <= g ensures Has(MoveToFront(order, g), f) {
      WithoutKeeps(order, g, f);
    }
    WithoutKeeps(order, g, g);
    WithoutAbsent(order, g);
  }

  lemma {:induction false} WithoutAbsent(l: List, x: nat)
    requires !Has(l, x)
    ensures Without(l, x) == l
  {
    if l.Cons? { WithoutAbsent(l.tail, x); }
  }

  lemma ShowsEvict(core: Core, order: List, stack: List, p: Page)
    requires Shows(core, order, stack) && NoDuplicates(stack) && !Resident(core, p)
    requires FirstFree(core) == |core| > 0
    ensures order.Cons? && Last(order) < |core|
    ensures Shows(core[Last(order) := Some(p)], MoveToFront(order, Last(order)), MoveToFront(stack, p))
  {
    assert order.Cons?;
    var v := Last(order);
    HoldsPage(core, order, stack, v);
    var core', rest := core[v := Some(p)], Without(order, v);
    HoldsNoDuplicates(core, order, stack);
    WithoutKeeps(order, v, v);
    WithoutKeeps(stack, p, p);
    HoldsDropLast(core, order, stack);
    HoldsUpdate(core, rest, stack, v, Some(p));
    ShowsPages(core, order, stack, p);
    if Has(Take(stack, Length(rest)), p) { TakeWithin(stack, Length(rest), |core|, p); }
    HoldsAbove(core', rest, stack, p);
    FirstFreeIs(core', |core|);
    forall f: nat | f < |core| ensures Has(Cons(v, rest), f) {
      WithoutKeeps(order, v, f);
    }
    if Length(stack) == |core| { TakeAll(stack, |core|); }
  }

  /** One reference keeps the order in step with the stack. */
  lemma ShowsStep(core: Core, order: List, stack: List, p: Page, v: nat, g: nat)
    requires Shows(core, order, stack) && NoDuplicates(stack) && Distinct(core) && v < |core|
    requires Full(core) && !Resident(core, p) ==> order.Cons? && v == Last(order)
    requires g < |core| && Touch(core, p, v)[g] == Some(p) && Distinct(Touch(core, p, v))
    ensures Shows(Touch(core, p, v), MoveToFront(order, g), MoveToFront(stack, p))
  {
    if Resident(core, p) {
      ShowsHit(core, order, stack, p, g);
    } else {
      assert Touch(core, p, v)[Slot(core, v)] == Some(p);
      assert g == Slot(core, v);
      if Full(core) {
        ShowsEvict(core, order, stack, p);
      } else {
        ShowsFill(core, order, stack, p, g);
      }
    }
  }

  lemma LruVictimAt(m: nat, trace: seq<Page>, vs: seq<nat>, t: nat)
    requires t < |vs| <= |trace| && InRange(vs, m) && FollowsLru(m, trace, vs)
    ensures Full(CoreAt(m, trace, vs, t)) && !Resident(CoreAt(m, trace, vs, t), trace[t])
        ==> OrderAt(m, trace, vs, t).Cons? && vs[t] == Last(OrderAt(m, trace, vs, t))
  {
    assert Full(CoreAt(m, trace, vs, t)) && !Resident(CoreAt(m, trace, vs, t), trace[t]) ==> Evicts(m, trace, vs, t);
  }

  lemma LruShowsNext(m: nat, trace: seq<Page>, vs: seq<nat>, t: nat, core: Core, order: List, stack: List)
    returns (core': Core, order': List, stack': List)
    requires t < |vs| <= |trace| && InRange(vs, m) && FollowsLru(m, trace, vs)
    requires core == CoreAt(m, trace, vs, t) && order == OrderAt(m, trace, vs, t) && stack == Stack(trace, t)
    requires Shows(core, order, stack) && NoDuplicates(stack) && Distinct(core)
    ensures core' == CoreAt(m, trace, vs, t + 1) && order' == OrderAt(m, trace, vs, t + 1)
         && stack' == Stack(trace, t + 1)
    ensures Shows(core', order', stack')
  {
    LruVictimAt(m, trace, vs, t);
    CoreAtDistinct(m, trace, vs, t + 1);
    var p, v, g := trace[t], vs[t], FrameAt(m, trace, vs, t);
    ShowsStep(core, order, stack, p, v, g);
    core', order', stack' := Touch(core, p, v), MoveToFront(order, g), MoveToFront(stack, p);
  }

  /** Under LRU the order lists the in-use frames so that they hold the top of the stack, position by position. */
  lemma {:induction false} LruShowsStack(m: nat, trace: seq<Page>, vs: seq<nat>, t: nat)
    returns (core: Core, order: List, stack: List)
    requires t <= |vs| <= |trace| && InRange(vs, m) && FollowsLru(m, trace, vs)
    ensures core == CoreAt(m, trace, vs, t) && order == OrderAt(m, trace, vs, t) && stack == Stack(trace, t)
    ensures Shows(core, order, stack) && NoDuplicates(stack) && Distinct(core)
  {
    if t == 0 {
      core, order, stack := Empty(m), Nil, Nil;
      FirstFreeIs(core, 0);
    } else {
      core, order, stack := LruShowsStack(m, trace, vs, t - 1);
      core, order, stack := LruShowsNext(m, trace, vs, t - 1, core, order, stack);
      CoreAtDistinct(m, trace, vs, t);
      StackNoDuplicates(trace, t);
    }
  }

  /** LRU with `m` frames keeps exactly the `m` most recently used pages. */
  lemma LruKeepsTopOfStack(m: nat, trace: seq<Page>, vs: seq<nat>, t: nat, p: Page)
    requires t <= |vs| <= |trace| && InRange(vs, m) && FollowsLru(m, trace, vs)
    ensures Resident(CoreAt(m, trace, vs, t), p) <==> Has(Take(Stack(trace, t), m), p)
  {
    var core, order, stack := LruShowsStack(m, trace, vs, t);
    ShowsPages(core, order, stack, p);
  }

  /** Stack inclusion: more frames never lose a page that fewer frames keep. */
  lemma LruInclusion(m: nat, k: nat, trace: seq<Page>, vm: seq<nat>, vk: seq<nat>, t: nat, p: Page)
    requires m <= k && t <= |vm| <= |trace| && t <= |vk| <= |trace| && InRange(vm, m) && InRange(vk, k)
    requires FollowsLru(m, trace, vm) && FollowsLru(k, trace, vk)
    ensures Resident(CoreAt(m, trace, vm, t), p) ==> Resident(CoreAt(k, trace, vk, t), p)
  {
    LruKeepsTopOfStack(m, trace, vm, t, p);
    LruKeepsTopOfStack(k, trace, vk, t, p);
    if Has(Take(Stack(trace, t), m), p) {
      TakeWithin(Stack(trace, t), m, k, p);
    }
  }

  /** So LRU never misses more often with more frames. */
  lemma {:induction false} LruMissesMonotone(m: nat, k: nat, trace: seq<Page>, vm: seq<nat>, vk: seq<nat>, t: nat)
    requires m <= k && t <= |vm| <= |trace| && t <= |vk| <= |trace| && InRange(vm, m) && InRange(vk, k)
    requires FollowsLru(m, trace, vm) && FollowsLru(k, trace, vk)
    ensures MissesAt(k, trace, vk, t) <= MissesAt(m, trace, vm, t)
  {
    if t > 0 {
      var n := t - 1;
      LruMissesMonotone(m, k, trace, vm, vk, n);
      LruInclusion(m, k, trace, vm, vk, n, trace[n]);
      Unfold(m, trace, vm, n, CoreAt(m, trace, vm, n));
      Unfold(k, trace, vk, n, CoreAt(k, trace, vk, n));
    }
  }

  lemma {:induction false} LastIsBehind(core: Core, order: List, stack: List, f: nat)
    requires Holds(core, order, stack) && NoDuplicates(order) && Has(order, f) && f != Last(order)
    ensures f < |core| && core[f].Some? && Last(order) < |core| && core[Last(order)].Some?
    ensures NoDuplicates(stack) ==> Ahead(stack, core[f].value, core[Last(order)].value)
  {
    HoldsPage(core, order, stack, f);
    HoldsPage(core, order, stack, Last(order));
    if order.head == f {
      HoldsPage(core, order.tail, stack.tail, Last(order));
      TakeWithin(stack.tail, Length(order.tail), Length(order.tail), core[Last(order)].value);
    } else {
      LastIsBehind(core, order.tail, stack.tail, f);
      HoldsPage(core, order.tail, stack.tail, f);
      TakeWithin(stack.tail, Length(order.tail), Length(order.tail), core[f].value);
    }
  }

  /** The frame LRU evicts holds the page whose last use is the oldest of all. */
  lemma LruVictimIsOldest(m: nat, trace: seq<Page>, vs: seq<nat>, t: nat, f: nat)
    requires t < |vs| <= |trace| && InRange(vs, m) && FollowsLru(m, trace, vs) && Evicts(m, trace, vs, t)
    requires f < m && f != vs[t]
    ensures var core := CoreAt(m, trace, vs, t);
            core[f].Some? && core[vs[t]].Some?
            && LastUse(trace, core[vs[t]].value, t) < LastUse(trace, core[f].value, t)
  {
    var core, order, stack := LruShowsStack(m, trace, vs, t);
    HoldsNoDuplicates(core, order, stack);
    LastIsBehind(core, order, stack, f);
    StackByRecency(trace, t, core[f].value, core[vs[t]].value);
  }

  lemma {:induction false} OrderAtPrefix(m: nat, trace: seq<Page>, vs: seq<nat>, ws: seq<nat>, t: nat)
    requires t <= |trace| && t <= |vs| && t <= |ws| && InRange(vs, m) && InRange(ws, m)
    requires vs[..t] == ws[..t]
    ensures OrderAt(m, trace, vs, t) == OrderAt(m, trace, ws, t)
  {
    if t > 0 {
      assert vs[..t - 1] == vs[..t][..t - 1] == ws[..t - 1];
      OrderAtPrefix(m, trace, vs, ws, t - 1);
      CoreAtPrefix(m, trace, vs, ws, t);
    }
  }

  // ----- The list as `lru.c` keeps it -----------------------------------------------------------

  /** `Sound`: the list from `head` is this order. `Dangling`: `head` points to a freed node.
      `Crashed`: a freed node has been read or written. */
  datatype CodeList = Sound(order: List) | Dangling | Crashed

  /** `lru_ref` frees the node of `f` but leaves `head` alone, then writes through `head`. */
  function RefCode(l: CodeList, f: nat): CodeList {
    match l
    case Sound(order) => if order.Cons? && order.head == f then Crashed else Sound(MoveToFront(order, f))
    case _ => Crashed
  }

  /** `lru_evict` frees the last node; when that is also the first, `head` is left pointing at it. */
  function EvictCode(l: CodeList): CodeList {
    match l
    case Sound(Cons(f, rest)) => if rest.Nil? then Dangling else Sound(Without(l.order, Last(l.order)))
    case _ => Crashed
  }

  ghost function CodeListAt(m: nat, trace: seq<Page>, vs: seq<nat>, t: nat): CodeList
    requires t <= |trace| && t <= |vs| && InRange(vs, m)
  {
    if t == 0 then Sound(Nil)
    else
      var l := CodeListAt(m, trace, vs, t - 1);
      RefCode(if Evicts(m, trace, vs, t - 1) then EvictCode(l) else l, FrameAt(m, trace, vs, t - 1))
  }

  /** No page is referenced twice in a row among the first `t` references. */
  ghost predicate NoRepeat(trace: seq<Page>, t: nat)
    requires t <= |trace|
  {
    forall i, j | 0 <= i && j == i + 1 < t :: trace[i] != trace[j]
  }

  /** What one reference makes of a sound list. */
  lemma CodeListNext(m: nat, trace: seq<Page>, vs: seq<nat>, t: nat)
    requires m > 0 && 0 < t < |vs| <= |trace| && InRange(vs, m) && FollowsLru(m, trace, vs)
    requires CodeListAt(m, trace, vs, t) == Sound(OrderAt(m, trace, vs, t))
    ensures CodeListAt(m, trace, vs, t + 1)
         == if m > 1 && trace[t] != trace[t - 1] then Sound(OrderAt(m, trace, vs, t + 1)) else Crashed
  {
    var core, order, stack := LruShowsStack(m, trace, vs, t);
    var f := FrameAt(m, trace, vs, t);
    assert order.head == FrameAt(m, trace, vs, t - 1);
    HoldsNoDuplicates(core, order, stack);
    CoreAtDistinct(m, trace, vs, t + 1);
    OtherFramesKept(m, trace, vs, t);
    if Evicts(m, trace, vs, t) {
      var v := Last(order);
      assert CoreAt(m, trace, vs, t + 1)[v] == Some(trace[t]);
      assert f == v && trace[t] != trace[t - 1];
      assert m == 1 <==> order.tail.Nil?;
      if m > 1 {
        WithoutKeeps(order, v, v);
        WithoutAbsent(Without(order, v), v);
      }
    } else {
      assert f == order.head <==> trace[t] == trace[t - 1];
    }
  }

  /** Exactly which runs `lru.c` survives: no page twice in a row and at least two frames, or at most one reference.
      On those its list is the recency order of the in-use frames. */
  lemma {:induction false} CodeListSoundIff(m: nat, trace: seq<Page>, vs: seq<nat>, t: nat)
    requires m > 0 && t <= |vs| <= |trace| && InRange(vs, m) && FollowsLru(m, trace, vs)
    ensures CodeListAt(m, trace, vs, t)
         == if t <= 1 || (m > 1 && NoRepeat(trace, t)) then Sound(OrderAt(m, trace, vs, t)) else Crashed
  {
    if t == 1 {
      FirstFreeIs(Empty(m), 0);
    } else if t > 1 {
      CodeListSoundIff(m, trace, vs, t - 1);
      if t <= 2 || (m > 1 && NoRepeat(trace, t - 1)) {
        CodeListNext(m, trace, vs, t - 1);
      }
    }
  }
}
