/** When a trace reduced by `fastslim.py` has the LRU misses of the full one. */
module SlimMisses {
  import opened Demand
  import opened Lists
  import opened Lru
  import opened FastSlim

  /** The misses of the first `t` references under LRU with `m` frames, by the recency stack alone. */
  function StackMisses(trace: seq<Page>, m: nat, t: nat): nat
    requires t <= |trace|
  {
    if t == 0 then 0
    else StackMisses(trace, m, t - 1) + if Has(Take(Stack(trace, t - 1), m), trace[t - 1]) then 0 else 1
  }

  /** They are the misses of every LRU run. */
  lemma {:induction false} StackMissesAre(m: nat, trace: seq<Page>, vs: seq<nat>, t: nat)
    requires t <= |vs| <= |trace| && InRange(vs, m) && FollowsLru(m, trace, vs)
    ensures MissesAt(m, trace, vs, t) == StackMisses(trace, m, t)
  {
    if t > 0 {
      StackMissesAre(m, trace, vs, t - 1);
      LruMissAt(m, trace, vs, t - 1);
    }
  }

  lemma {:induction false} StackPrefix(s: seq<Page>, p: Page, m: nat, t: nat)
    requires t <= |s|
    ensures Stack(s + [p], t) == Stack(s, t) && StackMisses(s + [p], m, t) == StackMisses(s, m, t)
  {
    if t > 0 { StackPrefix(s, p, m, t - 1); }
  }

  /** The pages of the references kept among the first `t`. */
  function KeptPages(trace: seq<Page>, b: int, t: nat): seq<Page>
    requires t <= |trace|
  {
    if t == 0 then []
    else if Dropped(trace, b, t - 1) then KeptPages(trace, b, t - 1)
    else KeptPages(trace, b, t - 1) + [trace[t - 1]]
  }

  lemma PagesAppend(trace: seq<Page>, ts: seq<nat>, pages: seq<Page>, t: nat)
    requires PagesAre(trace, ts, pages) && t < |trace|
    ensures PagesAre(trace, ts + [t], pages + [trace[t]])
  {
  }

  lemma {:induction false} KeptPagesUp(trace: seq<Page>, b: int, t: nat) returns (ks: seq<nat>, kept: seq<Page>)
    requires t <= |trace|
    ensures ks == KeptUp(trace, b, t) && kept == KeptPages(trace, b, t) && PagesAre(trace, ks, kept)
  {
    ks, kept := [], [];
    if t > 0 {
      ks, kept := KeptPagesUp(trace, b, t - 1);
      KeptAreNotDropped(trace, b, t - 1);
      if !Dropped(trace, b, t - 1) {
        PagesAppend(trace, ks, kept, t - 1);
        ks, kept := ks + [t - 1], kept + [trace[t - 1]];
      }
    }
  }

  lemma KeptPagesAre(trace: seq<Page>, b: int, t: nat) returns (ks: seq<nat>, kept: seq<Page>)
    requires t <= |trace|
    ensures ks == Kept(SlimAt(trace, b, t)) && kept == KeptPages(trace, b, t) && PagesAre(trace, ks, kept)
  {
    ks, kept := KeptPagesUp(trace, b, t);
    KeptAreNotDropped(trace, b, t);
  }

  /** Every reference dropped so far is to the page referenced just before it. */
  ghost predicate OnlyRepeatsDropped(trace: seq<Page>, b: int, t: nat)
    requires t <= |trace|
  {
    forall i | 0 <= i < t && Dropped(trace, b, i) :: i > 0 && trace[i] == trace[i - 1]
  }

  // ----- If only those are dropped --------------------------------------------------------------

  /** One more reference of the full trace, and of the kept one unless it is dropped. */
  lemma RepeatStep(trace: seq<Page>, b: int, m: nat, t: nat, kept: seq<Page>)
    requires m > 0 && t < |trace| && (Dropped(trace, b, t) ==> t > 0 && trace[t] == trace[t - 1])
    requires kept == KeptPages(trace, b, t) && Stack(kept, |kept|) == Stack(trace, t)
    requires StackMisses(kept, m, |kept|) == StackMisses(trace, m, t)
    ensures var kept' := KeptPages(trace, b, t + 1);
            Stack(kept', |kept'|) == Stack(trace, t + 1)
            && StackMisses(kept', m, |kept'|) == StackMisses(trace, m, t + 1)
  {
    if Dropped(trace, b, t) {
      assert Stack(trace, t).head == trace[t - 1];
    } else {
      StackPrefix(kept, trace[t], m, |kept|);
    }
  }

  /** The recency stack of what is kept is that of the full trace, and so are the misses, with any frames at all. */
  lemma {:induction false} RepeatsDoNotCount(trace: seq<Page>, b: int, m: nat, t: nat)
    requires m > 0 && t <= |trace| && OnlyRepeatsDropped(trace, b, t)
    ensures var kept := KeptPages(trace, b, t);
            Stack(kept, |kept|) == Stack(trace, t) && StackMisses(kept, m, |kept|) == StackMisses(trace, m, t)
  {
    if t > 0 {
      RepeatsDoNotCount(trace, b, m, t - 1);
      RepeatStep(trace, b, m, t - 1, KeptPages(trace, b, t - 1));
    }
  }

  // ----- And only then --------------------------------------------------------------------------

  lemma TakeOne(l: List, x: nat)
    ensures Has(Take(l, 1), x) <==> l.Cons? && l.head == x
  {
    if l.Cons? { assert Take(l, 1) == Cons(l.head, Take(l.tail, 0)); }
  }

  /** With one frame every reference misses but an immediate repetition. */
  lemma OneFrameMisses(trace: seq<Page>, t: nat)
    requires t < |trace|
    ensures StackMisses(trace, 1, t + 1)
         == StackMisses(trace, 1, t) + if t > 0 && trace[t] == trace[t - 1] then 0 else 1
  {
    TakeOne(Stack(trace, t), trace[t]);
  }

  lemma {:induction false} NoRepeatMisses(trace: seq<Page>, t: nat)
    requires t <= |trace| && NoRepeat(trace, t)
    ensures StackMisses(trace, 1, t) == t
  {
    if t > 0 {
      NoRepeatMisses(trace, t - 1);
      OneFrameMisses(trace, t - 1);
    }
  }

  lemma ChainNoRepeat(trace: seq<Page>, ts: seq<nat>, pages: seq<Page>)
    requires Chain(trace, ts, |trace|) && PagesAre(trace, ts, pages)
    ensures NoRepeat(pages, |pages|)
  {
  }

  /** All that is kept misses with one frame. */
  lemma KeptMiss(trace: seq<Page>, b: int)
    ensures var kept := KeptPages(trace, b, |trace|); StackMisses(kept, 1, |kept|) == |kept|
  {
    var s, _ := OutputChain(trace, b, |trace|);
    var ks, kept := KeptPagesAre(trace, b, |trace|);
    ChainNoRepeat(trace, ks, kept);
    NoRepeatMisses(kept, |kept|);
  }

  /** The full trace misses as often with one frame exactly when no other references are dropped. */
  lemma {:induction false} KeptCount(trace: seq<Page>, b: int, t: nat)
    requires t <= |trace|
    ensures |KeptPages(trace, b, t)| <= StackMisses(trace, 1, t)
    ensures |KeptPages(trace, b, t)| == StackMisses(trace, 1, t) <==> OnlyRepeatsDropped(trace, b, t)
  {
    if t > 0 {
      var n := t - 1;
      KeptCount(trace, b, n);
      OneFrameMisses(trace, n);
      assert n > 0 ==> Has(SlimAt(trace, b, n).buffer, trace[n - 1]);
      assert OnlyRepeatsDropped(trace, b, t)
        <==> OnlyRepeatsDropped(trace, b, n) && (Dropped(trace, b, n) ==> n > 0 && trace[n] == trace[n - 1]);
    }
  }

  // ----- Exactly --------------------------------------------------------------------------------

  /** After every prefix and with any number of frames what is kept has the misses of the full trace. */
  ghost predicate KeepsMisses(trace: seq<Page>, b: int) {
    forall m: nat, t: nat | m > 0 && t <= |trace| ::
      StackMisses(KeptPages(trace, b, t), m, |KeptPages(trace, b, t)|) == StackMisses(trace, m, t)
  }

  /** With one frame, over the whole trace. */
  ghost predicate KeepsOneFrameMisses(trace: seq<Page>, b: int) {
    StackMisses(KeptPages(trace, b, |trace|), 1, |KeptPages(trace, b, |trace|)|) == StackMisses(trace, 1, |trace|)
  }

  /** The reduction, with the last buffer counted in, keeps the LRU misses if and only if every reference it drops is to
      the page referenced just before; and it does so with any number of frames if it does with one. */
  lemma ReductionKeepsMissesIff(trace: seq<Page>, b: int)
    ensures KeepsMisses(trace, b) <==> OnlyRepeatsDropped(trace, b, |trace|)
    ensures KeepsMisses(trace, b) <==> KeepsOneFrameMisses(trace, b)
  {
    KeptMiss(trace, b);
    KeptCount(trace, b, |trace|);
    if OnlyRepeatsDropped(trace, b, |trace|) {
      forall m: nat, t: nat | m > 0 && t <= |trace|
        ensures StackMisses(KeptPages(trace, b, t), m, |KeptPages(trace, b, t)|) == StackMisses(trace, m, t)
      {
        RepeatsDoNotCount(trace, b, m, t);
      }
    }
  }

  /** A buffer of one drops nothing else, and so always keeps them. */
  lemma OneEntryKeepsMisses(trace: seq<Page>, b: int)
    requires b == 1
    ensures KeepsMisses(trace, b)
  {
    forall i | 0 <= i < |trace| && Dropped(trace, b, i) ensures i > 0 && trace[i] == trace[i - 1] {
      OneEntry(trace, b, i);
      if i > 0 { HasOne(trace[i - 1], trace[i]); }
    }
    ReductionKeepsMissesIff(trace, b);
  }

  lemma HasOne(x: nat, y: nat)
    ensures Length(Cons(x, Nil)) == 1 && (Has(Cons(x, Nil), y) <==> x == y)
  {
    assert !Has(Nil, y);
  }

  lemma {:induction false} OneEntry(trace: seq<Page>, b: int, t: nat)
    requires b == 1 && t <= |trace|
    ensures SlimAt(trace, b, t).buffer == if t == 0 then Nil else Cons(trace[t - 1], Nil)
  {
    if t > 0 {
      OneEntry(trace, b, t - 1);
      if t > 1 { HasOne(trace[t - 2], trace[t - 1]); }
    }
  }

  /** So it is for LRU runs over both. */
  lemma RunsMissAlike(trace: seq<Page>, b: int, m: nat, kept: seq<Page>, vs: seq<nat>, ws: seq<nat>)
    requires m > 0 && OnlyRepeatsDropped(trace, b, |trace|) && kept == KeptPages(trace, b, |trace|)
    requires |vs| == |trace| && InRange(vs, m) && FollowsLru(m, trace, vs)
    requires |ws| == |kept| && InRange(ws, m) && FollowsLru(m, kept, ws)
    ensures MissesAt(m, kept, ws, |kept|) == MissesAt(m, trace, vs, |trace|)
  {
    RepeatsDoNotCount(trace, b, m, |trace|);
    StackMissesAre(m, trace, vs, |trace|);
    StackMissesAre(m, kept, ws, |kept|);
  }

  /** What is printed, without the last buffer, never has the misses of the full trace with one frame, unless that is
      empty. */
  lemma PrintedMissesIff(trace: seq<Page>, b: int, out: seq<nat>, printed: seq<Page>)
    requires out == Flatten(SlimAt(trace, b, |trace|).phases) && PagesAre(trace, out, printed)
    ensures StackMisses(printed, 1, |printed|) == StackMisses(trace, 1, |trace|) <==> trace == []
  {
    var s, ks := OutputChain(trace, b, |trace|);
    assert forall i | 0 <= i < |out| :: out[i] == ks[i];
    ChainNoRepeat(trace, out, printed);
    NoRepeatMisses(printed, |printed|);
    SomethingWaits(trace, b, |trace|);
    var _, kept := KeptPagesAre(trace, b, |trace|);
    KeptCount(trace, b, |trace|);
  }
}
