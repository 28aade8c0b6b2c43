/**
 * What the orchestrator's loops do to the storages, as functions of the
 * registry's kinds: the ascending sweeps over live kinds, the listener-only
 * passes of the entity notifications, and the single-thread fallback that
 * stops the whole walk at the first kind answering its multithread query.
 */
module Dispatch {
  import opened Wrappers
  import opened Extensions

  /** Cutting a concatenation inside its middle part. */
  lemma CutInMiddle<T>(a: seq<T>, b: seq<T>, c: seq<T>, k: nat)
    requires k < |b|
    ensures (a + b + c)[..|a| + k] == a + b[..k]
    ensures (a + b + c)[|a| + k] == b[k]
  {
    assert (a + b + c)[..|a| + k] == (a + b)[..|a| + k];
  }

  /** Concatenation is associative (the verifier proves it element by element). */
  lemma Reassociate<T>(a: seq<T>, b: seq<T>, c: seq<T>)
    ensures a + b + c == a + (b + c)
  {
  }

  /**
   * `op` on the storages of kinds 1 .. hi-1, as the loop
   * `for (int i = 1; i < hi; i++)` makes the calls: each live kind exactly
   * once, in ascending order, and slot 0 never.
   */
  function Sweep(op: StorageOp, hi: nat): (r: seq<Call>)
    ensures |r| == if hi <= 1 then 0 else hi - 1
    ensures forall k :: 0 <= k < |r| ==> r[k] == StorageCall(k + 1, op)
    decreases hi
  {
    if hi <= 1 then [] else Sweep(op, hi - 1) + [StorageCall(hi - 1, op)]
  }

  /** A sweep calls `op` on every live kind below `hi`, and on nothing else. */
  lemma SweepCalls(op: StorageOp, hi: nat)
    ensures forall c :: c in Sweep(op, hi) <==> c.StorageCall? && c.op == op && 1 <= c.kind < hi
  {
    var r := Sweep(op, hi);
    forall c: Call | c.StorageCall? && c.op == op && 1 <= c.kind < hi
      ensures c in r
    {
      assert r[c.kind - 1] == c;
    }
  }

  /** A shorter sweep is the beginning of a longer one. */
  lemma SweepPrefix(op: StorageOp, lo: nat, hi: nat)
    requires 1 <= lo <= hi
    ensures Sweep(op, hi)[..lo - 1] == Sweep(op, lo)
  {
    assert forall k :: 0 <= k < lo - 1 ==> Sweep(op, hi)[..lo - 1][k] == Sweep(op, lo)[k];
  }

  /**
   * `op` on the kinds 1 .. hi-1 whose extension is an
   * `IComponentStateListener`, in ascending order.
   */
  function ListenerSweep(op: StorageOp, kinds: seq<Kind>, hi: nat): seq<Call>
    requires hi <= 1 || hi <= |kinds|
    decreases hi
  {
    if hi <= 1 then []
    else
      ListenerSweep(op, kinds, hi - 1)
      + (if kinds[hi - 1].isListener then [StorageCall(hi - 1, op)] else [])
  }

  /** A listener pass reaches exactly the listener kinds below `hi`, each once, in ascending order. */
  lemma {:induction false} ListenerSweepShape(op: StorageOp, kinds: seq<Kind>, hi: nat)
    requires hi <= 1 || hi <= |kinds|
    ensures var r := ListenerSweep(op, kinds, hi);
      forall c :: c in r <==> c.StorageCall? && c.op == op && 1 <= c.kind < hi && kinds[c.kind].isListener
    ensures var r := ListenerSweep(op, kinds, hi);
      forall a, b :: 0 <= a < b < |r| ==> r[a].StorageCall? && r[b].StorageCall? && r[a].kind < r[b].kind
    decreases hi
  {
    if hi > 1 {
      var front := ListenerSweep(op, kinds, hi - 1);
      var tail := if kinds[hi - 1].isListener then [StorageCall(hi - 1, op)] else [];
      var r := front + tail;
      ListenerSweepShape(op, kinds, hi - 1);
      assert forall c :: c in r <==> c in front || c in tail;
      forall a, b | 0 <= a < b < |r|
        ensures r[a].StorageCall? && r[b].StorageCall? && r[a].kind < r[b].kind
      {
        if b < |front| {
          assert r[a] == front[a] && r[b] == front[b];
        } else {
          assert r[a] == front[a] && front[a] in front;
          assert r[b] == tail[0];
        }
      }
    }
  }

  predicate IsHook(c: Call, h: Hook) {
    c.StorageCall? && c.op.Notify? && c.op.hook == h
  }

  /** The two passes of `CreateEntityComponents` over all live kinds. */
  function AddNotifications(kinds: seq<Kind>, factory: Factory, added: Notice): seq<Call> {
    ListenerSweep(Notify(LogicComponentsAdd, factory, added), kinds, |kinds|)
    + ListenerSweep(Notify(PostlogicComponentsAdd, factory, added), kinds, |kinds|)
  }

  /**
   * Every listener hears `OnLogicComponentsAdd` before any listener hears
   * `OnPostlogicComponentsAdd`, both hooks reach exactly the listener kinds,
   * and no notification is delivered twice.
   */
  lemma AddNotificationsTwoPass(kinds: seq<Kind>, factory: Factory, added: Notice)
    ensures var r := AddNotifications(kinds, factory, added);
      forall a, b ::
        (0 <= a < |r| && 0 <= b < |r| && IsHook(r[a], LogicComponentsAdd) && IsHook(r[b], PostlogicComponentsAdd))
        ==> a < b
    ensures forall h, j: nat :: h != LogicComponentsRemove ==>
      (StorageCall(j, Notify(h, factory, added)) in AddNotifications(kinds, factory, added)
       <==> (1 <= j < |kinds| && kinds[j].isListener))
    ensures var r := AddNotifications(kinds, factory, added);
      forall a, b :: 0 <= a < b < |r| ==> r[a] != r[b]
  {
    var first := ListenerSweep(Notify(LogicComponentsAdd, factory, added), kinds, |kinds|);
    var second := ListenerSweep(Notify(PostlogicComponentsAdd, factory, added), kinds, |kinds|);
    var r := first + second;
    ListenerSweepShape(Notify(LogicComponentsAdd, factory, added), kinds, |kinds|);
    ListenerSweepShape(Notify(PostlogicComponentsAdd, factory, added), kinds, |kinds|);
    forall a, b | 0 <= a < |r| && 0 <= b < |r|
      && IsHook(r[a], LogicComponentsAdd) && IsHook(r[b], PostlogicComponentsAdd)
      ensures a < b
    {
    }
    forall a, b | 0 <= a < b < |r|
      ensures r[a] != r[b]
    {
      if b < |first| {
        assert r[a] == first[a] && r[b] == first[b];
      } else if a >= |first| {
        assert r[a] == second[a - |first|] && r[b] == second[b - |first|];
      } else {
        assert r[a] == first[a] && first[a] in first;
        assert r[b] == second[b - |first|] && second[b - |first|] in second;
      }
    }
  }

  /** One factory's share of the single-thread fallback: every live kind, or nothing for a null factory. */
  function Row(p: Phase, factory: Factory, n: nat): seq<Call> {
    if factory.None? then [] else Sweep(Step(p, factory, SingleThread), n)
  }

  /**
   * The complete iteration order of the single-thread fallback's nested loops:
   * non-null factories in array order, and for each the live kinds ascending.
   */
  function Schedule(p: Phase, factories: seq<Factory>, n: nat): seq<Call>
    decreases |factories|
  {
    if factories == [] then []
    else Schedule(p, factories[..|factories| - 1], n) + Row(p, factories[|factories| - 1], n)
  }

  /** The walk makes only `p` calls, single-threaded, on live kinds and non-null factories it was given. */
  lemma {:induction false} ScheduleShape(p: Phase, factories: seq<Factory>, n: nat)
    ensures forall c :: c in Schedule(p, factories, n) ==>
      && c.StorageCall? && 1 <= c.kind < n
      && c.op.Step? && c.op.phase == p && c.op.mode == SingleThread
      && c.op.factory.Some? && c.op.factory in factories
    decreases |factories|
  {
    if factories != [] {
      var init := factories[..|factories| - 1];
      ScheduleShape(p, init, n);
      assert forall x :: x in init ==> x in factories;
    }
  }

  lemma {:induction false} ScheduleAppend(p: Phase, xs: seq<Factory>, ys: seq<Factory>, n: nat)
    ensures Schedule(p, xs + ys, n) == Schedule(p, xs, n) + Schedule(p, ys, n)
    decreases |ys|
  {
    if ys == [] {
      assert xs + ys == xs;
    } else {
      var init, last := ys[..|ys| - 1], ys[|ys| - 1];
      assert (xs + ys)[..|xs + ys| - 1] == xs + init;
      assert (xs + ys)[|xs + ys| - 1] == last;
      ScheduleAppend(p, xs, init, n);
      Reassociate(Schedule(p, xs, n), Schedule(p, init, n), Row(p, last, n));
    }
  }

  /** The walk reaches every pair of a non-null factory and a live kind. */
  lemma {:induction false} ScheduleCovers(p: Phase, factories: seq<Factory>, n: nat, f: FactoryId, j: nat)
    requires Some(f) in factories && 1 <= j < n
    ensures StorageCall(j, Step(p, Some(f), SingleThread)) in Schedule(p, factories, n)
    decreases |factories|
  {
    var init := factories[..|factories| - 1];
    var last := factories[|factories| - 1];
    if last == Some(f) {
      assert Row(p, last, n)[j - 1] == StorageCall(j, Step(p, Some(f), SingleThread));
    } else {
      assert factories == init + [last];
      ScheduleCovers(p, init, n, f, j);
    }
  }

  /** Whether a call is a phase call on a kind that answers true to that phase's multithread query. */
  predicate Threaded(p: Phase, kinds: seq<Kind>, c: Call) {
    c.StorageCall? && c.kind < |kinds| && p in kinds[c.kind].multithread
  }

  predicate NoneThreaded(p: Phase, kinds: seq<Kind>, calls: seq<Call>) {
    forall k :: 0 <= k < |calls| ==> !Threaded(p, kinds, calls[k])
  }

  lemma NoneThreadedConcat(p: Phase, kinds: seq<Kind>, xs: seq<Call>, ys: seq<Call>)
    requires NoneThreaded(p, kinds, xs) && NoneThreaded(p, kinds, ys)
    ensures NoneThreaded(p, kinds, xs + ys)
  {
  }

  lemma NoneThreadedAppend(p: Phase, kinds: seq<Kind>, calls: seq<Call>, c: Call)
    requires NoneThreaded(p, kinds, calls) && !Threaded(p, kinds, c)
    ensures NoneThreaded(p, kinds, calls + [c])
  {
  }

  /** The position of the first threaded call, or the length if there is none. */
  function FirstThreaded(p: Phase, kinds: seq<Kind>, calls: seq<Call>): (r: nat)
    ensures r <= |calls|
    ensures NoneThreaded(p, kinds, calls[..r])
    ensures r < |calls| ==> Threaded(p, kinds, calls[r])
    decreases |calls|
  {
    if calls == [] || Threaded(p, kinds, calls[0]) then 0
    else
      var r := 1 + FirstThreaded(p, kinds, calls[1..]);
      assert calls[..r] == [calls[0]] + calls[1..][..r - 1];
      r
  }

  /**
   * What a `...OnlySinglethread` call does: the prefix of the walk that stops
   * just before the first call whose kind answers true to the multithread
   * query. That kind is not run, and nothing after it in the walk is.
   */
  function SinglethreadRun(p: Phase, kinds: seq<Kind>, factories: seq<Factory>): (r: seq<Call>)
    ensures var all := Schedule(p, factories, |kinds|);
      && |r| <= |all| && r == all[..|r|]
      && NoneThreaded(p, kinds, r)
      && (|r| < |all| ==> Threaded(p, kinds, all[|r|]))
  {
    var all := Schedule(p, factories, |kinds|);
    all[..FirstThreaded(p, kinds, all)]
  }

  /** When the first threaded call sits at position k, the search finds k. */
  lemma {:induction false} FirstThreadedAt(p: Phase, kinds: seq<Kind>, calls: seq<Call>, k: nat)
    requires k <= |calls| && NoneThreaded(p, kinds, calls[..k])
    requires k < |calls| ==> Threaded(p, kinds, calls[k])
    ensures FirstThreaded(p, kinds, calls) == k
    decreases k
  {
    if k > 0 {
      assert calls[..k][0] == calls[0];
      assert calls[1..][..k - 1] == calls[..k][1..];
      FirstThreadedAt(p, kinds, calls[1..], k - 1);
    }
  }

  /** The walk around factory `i`: the factories before it, its own row, and those after it. */
  lemma ScheduleAround(p: Phase, factories: seq<Factory>, i: nat, n: nat)
    requires i < |factories|
    ensures Schedule(p, factories, n)
         == Schedule(p, factories[..i], n) + Row(p, factories[i], n) + Schedule(p, factories[i + 1..], n)
  {
    var before, here, after := factories[..i], factories[i], factories[i + 1..];
    assert factories == before + ([here] + after);
    ScheduleAppend(p, before, [here] + after, n);
    ScheduleAppend(p, [here], after, n);
    ScheduleSingle(p, here, n);
    Reassociate(Schedule(p, before, n), Row(p, here, n), Schedule(p, after, n));
  }

  lemma ScheduleSingle(p: Phase, factory: Factory, n: nat)
    ensures Schedule(p, [factory], n) == Row(p, factory, n)
  {
    assert [factory][..0] == [];
  }

  /** One more factory extends the walk by that factory's row. */
  lemma ScheduleStep(p: Phase, factories: seq<Factory>, i: nat, n: nat)
    requires i < |factories|
    ensures Schedule(p, factories[..i + 1], n) == Schedule(p, factories[..i], n) + Row(p, factories[i], n)
    ensures factories[i].None? ==> Schedule(p, factories[..i + 1], n) == Schedule(p, factories[..i], n)
  {
    assert factories[..i + 1][..i] == factories[..i];
    assert Schedule(p, factories[..i], n) + [] == Schedule(p, factories[..i], n);
  }

  /** Null factories contribute nothing to the walk. */
  lemma {:induction false} ScheduleOfNulls(p: Phase, factories: seq<Factory>, n: nat)
    requires forall k :: 0 <= k < |factories| ==> factories[k].None?
    ensures Schedule(p, factories, n) == []
    decreases |factories|
  {
    if factories != [] {
      ScheduleOfNulls(p, factories[..|factories| - 1], n);
    }
  }

  /**
   * The loop's exit through `return`: having run the factories before `i`
   * and kinds 1 .. j-1 of factory `i` without meeting a threaded kind, the
   * fallback stops at kind `j` of factory `i` when that kind is threaded.
   */
  lemma SinglethreadAbort(p: Phase, kinds: seq<Kind>, factories: seq<Factory>, i: nat, j: nat)
    requires i < |factories| && factories[i].Some?
    requires 1 <= j < |kinds| && p in kinds[j].multithread
    requires NoneThreaded(p, kinds, Schedule(p, factories[..i], |kinds|) + Sweep(Step(p, factories[i], SingleThread), j))
    ensures SinglethreadRun(p, kinds, factories)
         == Schedule(p, factories[..i], |kinds|) + Sweep(Step(p, factories[i], SingleThread), j)
  {
    var n := |kinds|;
    var op := Step(p, factories[i], SingleThread);
    var done := Schedule(p, factories[..i], n);
    var all := Schedule(p, factories, n);
    ScheduleAround(p, factories, i, n);
    SweepPrefix(op, j, n);
    var row, rest := Sweep(op, n), Schedule(p, factories[i + 1..], n);
    assert all == done + row + rest;
    var k := |done| + j - 1;
    CutInMiddle(done, row, rest, j - 1);
    FirstThreadedAt(p, kinds, all, k);
  }

  /** The loop's normal exit: no threaded kind was met, so the whole walk ran. */
  lemma SinglethreadComplete(p: Phase, kinds: seq<Kind>, factories: seq<Factory>)
    requires NoneThreaded(p, kinds, Schedule(p, factories, |kinds|))
    ensures SinglethreadRun(p, kinds, factories) == Schedule(p, factories, |kinds|)
  {
    var all := Schedule(p, factories, |kinds|);
    assert all[..|all|] == all;
    FirstThreadedAt(p, kinds, all, |all|);
  }

  /** The index of the first non-null factory, or the length if all are null. */
  function FirstNonNull(factories: seq<Factory>): (i: nat)
    ensures i <= |factories|
    ensures forall k :: 0 <= k < i ==> factories[k].None?
    ensures i < |factories| ==> factories[i].Some?
    decreases |factories|
  {
    if factories == [] || factories[0].Some? then 0
    else 1 + FirstNonNull(factories[1..])
  }

  /** The smallest live kind index from `j` on whose `p` query answers true, or `|kinds|` if none. */
  function FirstThreadedKind(p: Phase, kinds: seq<Kind>, j: nat): (m: nat)
    requires j <= |kinds|
    ensures j <= m <= |kinds|
    ensures forall k :: j <= k < m ==> p !in kinds[k].multithread
    ensures m < |kinds| ==> p in kinds[m].multithread
    decreases |kinds| - j
  {
    if j == |kinds| || p in kinds[j].multithread then j
    else FirstThreadedKind(p, kinds, j + 1)
  }

  /**
   * A closed form of the single-thread fallback. Since the multithread query
   * depends only on the kind, the walk either never meets a threaded kind and
   * runs completely, or meets one inside the first non-null factory and runs
   * only that factory's kinds below the first threaded one.
   */
  lemma SinglethreadClosedForm(p: Phase, kinds: seq<Kind>, factories: seq<Factory>)
    requires |kinds| >= 1
    ensures var i := FirstNonNull(factories);
      var m := FirstThreadedKind(p, kinds, 1);
      SinglethreadRun(p, kinds, factories)
        == if i == |factories| then []
           else if m < |kinds| then Sweep(Step(p, factories[i], SingleThread), m)
           else Schedule(p, factories, |kinds|)
  {
    var n := |kinds|;
    var i := FirstNonNull(factories);
    var m := FirstThreadedKind(p, kinds, 1);
    if i == |factories| {
      ScheduleOfNulls(p, factories, n);
    } else if m < n {
      ScheduleOfNulls(p, factories[..i], n);
      SinglethreadAbort(p, kinds, factories, i, m);
    } else {
      var all := Schedule(p, factories, n);
      ScheduleShape(p, factories, n);
      forall k | 0 <= k < |all| ensures !Threaded(p, kinds, all[k]) {
        assert all[k] in all;
      }
      SinglethreadComplete(p, kinds, factories);
    }
  }

  /** If kind 1 answers true to the query, the fallback runs nothing at all. */
  lemma SinglethreadKindOneThreaded(p: Phase, kinds: seq<Kind>, factories: seq<Factory>)
    requires |kinds| >= 2 && p in kinds[1].multithread
    ensures SinglethreadRun(p, kinds, factories) == []
  {
    SinglethreadClosedForm(p, kinds, factories);
  }
}
