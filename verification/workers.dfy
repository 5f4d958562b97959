/** The fan-out/join discipline used for both files and chunks: every task
    writes its result into its own pre-assigned slot, and the slots are read
    only after all tasks have finished. Tasks may finish in any order — the
    bounded ("confined") variants only restrict which orders occur. */
module Workers {

  import opened Results

  /** `order` lists slot indices in the order their tasks finish: each index is
      a real slot, and every slot's task finishes. */
  predicate CompletionOrder(order: seq<nat>, n: nat)
  {
    && (forall j :: 0 <= j < |order| ==> order[j] < n)
    && (forall k :: 0 <= k < n ==> k in order)
  }

  /** Runs `work` on every task, finishing them in the given order, and returns
      the slots after the barrier: slot `i` holds the result of task `i`,
      whatever the order. */
  method RunPool<T, U>(work: T -> U, tasks: seq<T>, order: seq<nat>) returns (slots: seq<U>)
    requires CompletionOrder(order, |tasks|)
    ensures |slots| == |tasks|
    ensures forall i :: 0 <= i < |tasks| ==> slots[i] == work(tasks[i])
  {
    var filled: seq<Option<U>> := seq(|tasks|, _ => None);
    var t := 0;
    while t < |order|
      invariant 0 <= t <= |order|
      invariant |filled| == |tasks|
      invariant forall k :: 0 <= k < |tasks| && filled[k].Some? ==> filled[k].value == work(tasks[k])
      invariant forall j :: 0 <= j < t ==> filled[order[j]].Some?
    {
      var i := order[t];
      filled := filled[i := Some(work(tasks[i]))];
      t := t + 1;
    }
    assert forall k :: 0 <= k < |tasks| ==> filled[k].Some? by {
      forall k | 0 <= k < |tasks|
        ensures filled[k].Some?
      {
        assert k in order;
        var j :| 0 <= j < |order| && order[j] == k;
      }
    }
    slots := seq(|tasks|, i requires 0 <= i < |tasks| => filled[i].value);
  }

  /** One step of a confined run: a task takes a token and starts, or a
      running task finishes and gives its token back. */
  datatype Event = Admit(task: nat) | Finish(task: nat)

  /** How many tasks hold a token after the events of `trace`: one more for
      every admission, one fewer for every finish. */
  function InFlight(trace: seq<Event>): int
  {
    if |trace| == 0 then 0
    else InFlight(trace[..|trace| - 1]) + (if trace[|trace| - 1].Admit? then 1 else -1)
  }

  /** A legal schedule of tasks `0..n-1`: every event names a task, no event
      happens twice (so a task starts at most once and finishes at most once),
      a task finishes only after it started, and every task finishes. */
  predicate Schedule(trace: seq<Event>, n: nat)
  {
    StepsLegal(trace, n) && forall i :: 0 <= i < n ==> Finish(i) in trace
  }

  predicate StepsLegal(trace: seq<Event>, n: nat)
  {
    if |trace| == 0 then true
    else
      var before := trace[..|trace| - 1];
      var e := trace[|trace| - 1];
      && StepsLegal(before, n)
      && e.task < n
      && e !in before
      && (e.Finish? ==> Admit(e.task) in before)
  }

  /** Tasks take their tokens in index order, as the loop that feeds the
      channel does. */
  predicate AdmitsInOrder(trace: seq<Event>)
  {
    forall j, k :: 0 <= j < k < |trace| && trace[j].Admit? && trace[k].Admit? ==> trace[j].task < trace[k].task
  }

  /** At no point of the run do more than `width` tasks hold a token. */
  predicate Bounded(trace: seq<Event>, width: nat)
  {
    forall k :: 0 <= k <= |trace| ==> InFlight(trace[..k]) <= width
  }

  /** Admitting two tasks through one token breaks the bound. */
  lemma OverAdmissionUnbounded()
    ensures !Bounded([Admit(0), Admit(1)], 1)
  {
    var t := [Admit(0), Admit(1)];
    assert t[..2] == t && t[..1] == [Admit(0)] && t[..0] == [];
    assert InFlight(t[..2]) == 2;
  }

  lemma BoundedAppend(trace: seq<Event>, e: Event, width: nat)
    requires Bounded(trace, width)
    requires InFlight(trace + [e]) <= width
    ensures Bounded(trace + [e], width)
  {
    forall k | 0 <= k <= |trace + [e]|
      ensures InFlight((trace + [e])[..k]) <= width
    {
      if k <= |trace| {
        assert (trace + [e])[..k] == trace[..k];
      } else {
        assert (trace + [e])[..k] == trace + [e];
      }
    }
  }

  /** Tokens held between steps: `running` are the admitted tasks that have
      not finished, all among the first `next`, at most `width` of them. */
  predicate Tokens(running: set<nat>, next: nat, width: nat)
  {
    |running| <= width && forall k :: k in running ==> k < next
  }

  /** The trace records the run so far: only the first `next` tasks appear,
      all of them were admitted, and exactly those not running have finished. */
  predicate Recorded(trace: seq<Event>, running: set<nat>, next: nat)
  {
    && (forall t :: 0 <= t < |trace| ==> trace[t].task < next)
    && (forall k :: 0 <= k < next ==> Admit(k) in trace)
    && (forall k :: 0 <= k < next ==> (Finish(k) in trace <==> k !in running))
  }

  predicate TraceOk(trace: seq<Event>, n: nat, width: nat)
  {
    StepsLegal(trace, n) && AdmitsInOrder(trace) && Bounded(trace, width)
  }

  lemma AdmitTrace(trace: seq<Event>, next: nat, n: nat, width: nat)
    requires TraceOk(trace, n, width)
    requires forall t :: 0 <= t < |trace| ==> trace[t].task < next
    requires next < n && InFlight(trace) < width
    ensures TraceOk(trace + [Admit(next)], n, width)
    ensures InFlight(trace + [Admit(next)]) == InFlight(trace) + 1
  {
    var t := trace + [Admit(next)];
    assert t[..|trace|] == trace;
    assert Admit(next) !in trace;
    BoundedAppend(trace, Admit(next), width);
    forall j, k | 0 <= j < k < |t| && t[j].Admit? && t[k].Admit?
      ensures t[j].task < t[k].task
    {
      assert t[j] == trace[j];
      if k < |trace| {
        assert t[k] == trace[k];
      }
    }
  }

  lemma FinishTrace(trace: seq<Event>, i: nat, n: nat, width: nat)
    requires TraceOk(trace, n, width)
    requires i < n && Admit(i) in trace && Finish(i) !in trace
    requires InFlight(trace) > 0
    ensures TraceOk(trace + [Finish(i)], n, width)
    ensures InFlight(trace + [Finish(i)]) == InFlight(trace) - 1
  {
    var t := trace + [Finish(i)];
    assert t[..|trace|] == trace;
    BoundedAppend(trace, Finish(i), width);
    forall p, q | 0 <= p < q < |t| && t[p].Admit? && t[q].Admit?
      ensures t[p].task < t[q].task
    {
      assert t[p] == trace[p] && t[q] == trace[q];
    }
  }

  lemma AdmitRecorded(trace: seq<Event>, running: set<nat>, next: nat)
    requires Recorded(trace, running, next)
    requires forall k :: k in running ==> k < next
    ensures Recorded(trace + [Admit(next)], running + {next}, next + 1)
  {
    var t := trace + [Admit(next)];
    assert Finish(next) !in trace;
    forall u | 0 <= u < |t|
      ensures t[u].task < next + 1
    {
      if u < |trace| {
        assert t[u] == trace[u];
      }
    }
  }

  lemma FinishRecorded(trace: seq<Event>, running: set<nat>, next: nat, i: nat)
    requires Recorded(trace, running, next)
    requires i in running && i < next
    ensures Recorded(trace + [Finish(i)], running - {i}, next)
  {
    var t := trace + [Finish(i)];
    forall u | 0 <= u < |t|
      ensures t[u].task < next
    {
      if u < |trace| {
        assert t[u] == trace[u];
      }
    }
  }

  /** The tasks in the order the trace finishes them. */
  function FinishOrder(trace: seq<Event>): (order: seq<nat>)
    ensures forall e :: e in trace && e.Finish? ==> e.task in order
    ensures forall j :: 0 <= j < |order| ==> Finish(order[j]) in trace
  {
    if |trace| == 0 then []
    else
      var before := trace[..|trace| - 1];
      var e := trace[|trace| - 1];
      assert trace == before + [e];
      if e.Finish? then FinishOrder(before) + [e.task] else FinishOrder(before)
  }

  /** Every event of a legal schedule names one of its tasks. */
  lemma {:induction false} StepsLegalTasks(trace: seq<Event>, n: nat)
    requires StepsLegal(trace, n)
    ensures forall e :: e in trace ==> e.task < n
  {
    if |trace| > 0 {
      var before := trace[..|trace| - 1];
      assert trace == before + [trace[|trace| - 1]];
      StepsLegalTasks(before, n);
    }
  }

  /** A schedule's finish order finishes every task: the pool it drives fills
      every slot. */
  lemma ScheduleCompletes(trace: seq<Event>, n: nat)
    requires Schedule(trace, n)
    ensures CompletionOrder(FinishOrder(trace), n)
  {
    var order := FinishOrder(trace);
    StepsLegalTasks(trace, n);
    forall j | 0 <= j < |order|
      ensures order[j] < n
    {
      assert Finish(order[j]) in trace;
    }
    forall k | 0 <= k < n
      ensures k in order
    {
      assert Finish(k) in trace;
    }
  }

  /** The schedule of a confined pool, as the token channel of capacity
      `width` makes it: tasks are admitted strictly in index order, each only
      once a token is free, and any admitted task may finish next. `choices`
      resolves the races: at each step a 0 admits the next task when a token
      is free, and any other value lets some running task finish, which one
      being left open (once the choices run out, running tasks finish first).
      The result is a legal schedule of every task, admitted in order, never
      with more than `width` tasks in flight. */
  method ConfinedSchedule(n: nat, width: nat, choices: seq<nat>) returns (trace: seq<Event>)
    requires width > 0
    ensures Schedule(trace, n)
    ensures AdmitsInOrder(trace)
    ensures Bounded(trace, width)
  {
    var running: set<nat> := {};
    var next := 0;
    var step := 0;
    trace := [];
    assert Bounded(trace, width) by {
      assert forall k :: 0 <= k <= 0 ==> trace[..k] == [];
    }
    while next < n || |running| > 0
      invariant next <= n
      invariant Tokens(running, next, width)
      invariant Recorded(trace, running, next)
      invariant TraceOk(trace, n, width)
      invariant InFlight(trace) == |running|
      decreases 2 * (n - next) + |running|
    {
      var c := if step < |choices| then choices[step] else 1;
      if next < n && |running| < width && (c == 0 || |running| == 0) {
        AdmitTrace(trace, next, n, width);
        AdmitRecorded(trace, running, next);
        trace := trace + [Admit(next)];
        running := running + {next};
        next := next + 1;
      } else {
        var i :| i in running;
        FinishTrace(trace, i, n, width);
        FinishRecorded(trace, running, next, i);
        trace := trace + [Finish(i)];
        running := running - {i};
      }
      step := step + 1;
    }
  }

  /** A confined pool: the workers run on a schedule `ConfinedSchedule`
      allows, and finish in that schedule's order. Every task runs, never
      more than `width` at once, and the slots are those of an unconfined
      run. */
  method RunConfined<T, U>(work: T -> U, tasks: seq<T>, width: nat, choices: seq<nat>)
    returns (slots: seq<U>, trace: seq<Event>)
    requires width > 0
    ensures |slots| == |tasks|
    ensures forall i :: 0 <= i < |tasks| ==> slots[i] == work(tasks[i])
    ensures Schedule(trace, |tasks|)
    ensures AdmitsInOrder(trace)
    ensures Bounded(trace, width)
  {
    trace := ConfinedSchedule(|tasks|, width, choices);
    ScheduleCompletes(trace, |tasks|);
    slots := RunPool(work, tasks, FinishOrder(trace));
  }
}
