/**
 The supervisor of app/app.go. `App.Run` starts a goroutine per runner, in name order, and waits for
 all of them; any return cancels the context they share. Goroutines interleave freely, so Run is a
 step relation; a runner is its position in name order.

 Cancelling a context cancels those derived from it at once, so what a runner sees is one flag.
 */
module App {
  import opened Wrappers

  /**
   A runner's goroutine: not yet started; inside its own Run, which it can still spend `rank` steps
   in once its context is cancelled; returned; its error stored; the shared context cancelled; and
   gone from the WaitGroup. None is the nil error.
   */
  datatype Stage<+E> =
    | Unstarted(rank: nat)
    | Running(rank: nat)
    | Returned(err: Option<E>)
    | Stored(err: Option<E>)
    | Cancelled(err: Option<E>)
    | Gone(err: Option<E>)

  /** `result` is None while Run is in progress, and then the errors it joined, none for nil. */
  datatype State<+E> = State(
    parent: bool, cancelled: bool, started: nat, stages: seq<Stage<E>>, errs: seq<Option<E>>, result: Option<seq<E>>)

  datatype Step<+E> =
    | ParentCancel
    | Start
    | Work(i: nat, rank: nat)
    | Return(i: nat, err: Option<E>)
    | Store(i: nat)
    | Cancel(i: nat)
    | Leave(i: nat)
    | Join

  /** What every runner sees of its context. */
  predicate Stopping<E>(s: State<E>) {
    s.parent || s.cancelled
  }

  /** errors.Join: the errors that are not nil, in order. */
  function NonNil<E>(errs: seq<Option<E>>): seq<E> {
    if errs == [] then []
    else (if errs[0].Some? then [errs[0].value] else []) + NonNil(errs[1..])
  }

  predicate HasReturned<E>(g: Stage<E>) {
    !g.Unstarted? && !g.Running?
  }

  predicate Enabled<E>(s: State<E>, step: Step<E>) {
    match step
    case ParentCancel => !s.parent
    case Start => s.started < |s.stages| && s.stages[s.started].Unstarted?
    case Work(i, rank) => i < |s.stages| && s.stages[i].Running? && (Stopping(s) ==> rank < s.stages[i].rank)
    case Return(i, _) => i < |s.stages| && s.stages[i].Running?
    case Store(i) => i < |s.stages| && s.stages[i].Returned? && i < |s.errs|
    case Cancel(i) => i < |s.stages| && s.stages[i].Stored?
    case Leave(i) => i < |s.stages| && s.stages[i].Cancelled?
    case Join => s.result.None? && s.started == |s.stages| && forall i :: 0 <= i < |s.stages| ==> s.stages[i].Gone?
  }

  function Next<E>(s: State<E>, step: Step<E>): State<E>
    requires Enabled(s, step)
  {
    match step
    case ParentCancel => s.(parent := true)
    case Start => s.(stages := s.stages[s.started := Running(s.stages[s.started].rank)], started := s.started + 1)
    case Work(i, rank) => s.(stages := s.stages[i := Running(rank)])
    case Return(i, err) => s.(stages := s.stages[i := Returned(err)])
    case Store(i) => s.(stages := s.stages[i := Stored(s.stages[i].err)], errs := s.errs[i := s.stages[i].err])
    case Cancel(i) => s.(stages := s.stages[i := Cancelled(s.stages[i].err)], cancelled := true)
    case Leave(i) => s.(stages := s.stages[i := Gone(s.stages[i].err)])
    case Join => s.(result := Some(NonNil(s.errs)), cancelled := true)
  }

  /** Run as it begins, over runners of these ranks. */
  function Begin<E>(parent: bool, ranks: seq<nat>): State<E> {
    State(parent, false, 0, seq(|ranks|, i requires 0 <= i < |ranks| => Unstarted(ranks[i])),
          seq(|ranks|, i => None), None)
  }

  ghost predicate Run<E>(trace: seq<State<E>>, steps: seq<Step<E>>, parent: bool, ranks: seq<nat>) {
    && |trace| == |steps| + 1 && trace[0] == Begin(parent, ranks)
    && forall i :: 0 <= i < |steps| ==> Enabled(trace[i], steps[i]) && trace[i + 1] == Next(trace[i], steps[i])
  }

  // ---------------------------------------------------------------- what every step keeps

  function Slot<E>(g: Stage<E>): Option<E> {
    if g.Stored? || g.Cancelled? || g.Gone? then g.err else None
  }

  /** Before Run returns, its own context is cancelled exactly when some goroutine has cancelled it. */
  ghost predicate CancelledByOne<E>(s: State<E>) {
    && (forall i :: 0 <= i < |s.stages| && (s.stages[i].Cancelled? || s.stages[i].Gone?) ==> s.cancelled)
    && (s.cancelled && s.result.None? ==>
          exists i :: 0 <= i < |s.stages| && (s.stages[i].Cancelled? || s.stages[i].Gone?))
  }

  ghost predicate Inv<E>(s: State<E>) {
    && |s.errs| == |s.stages| && s.started <= |s.stages|
    && (forall i :: 0 <= i < |s.stages| ==> (s.stages[i].Unstarted? <==> i >= s.started))
    && (forall i :: 0 <= i < |s.stages| ==> s.errs[i] == Slot(s.stages[i]))
    && CancelledByOne(s)
    && (s.result.Some? ==>
          s.cancelled && (forall i :: 0 <= i < |s.stages| ==> s.stages[i].Gone?) && s.result.value == NonNil(s.errs))
  }

  lemma StepKeepsSlots<E>(s: State<E>, step: Step<E>)
    requires Inv(s) && Enabled(s, step)
    ensures var t := Next(s, step);
            && |t.errs| == |t.stages| == |s.stages| && t.started <= |t.stages|
            && (forall i :: 0 <= i < |t.stages| ==> (t.stages[i].Unstarted? <==> i >= t.started))
            && (forall i :: 0 <= i < |t.stages| ==> t.errs[i] == Slot(t.stages[i]))
  {
  }

  lemma StepKeepsCancelled<E>(s: State<E>, step: Step<E>)
    requires CancelledByOne(s) && Enabled(s, step)
    ensures CancelledByOne(Next(s, step))
  {
    var t := Next(s, step);
    if s.cancelled && s.result.None? {
      var i :| 0 <= i < |s.stages| && (s.stages[i].Cancelled? || s.stages[i].Gone?);
      assert t.stages[i].Cancelled? || t.stages[i].Gone?;
    } else if step.Cancel? {
      assert t.stages[step.i].Cancelled?;
    }
  }

  lemma StepKeepsInv<E>(s: State<E>, step: Step<E>)
    requires Inv(s) && Enabled(s, step)
    ensures Inv(Next(s, step)) && |Next(s, step).stages| == |s.stages|
  {
    StepKeepsSlots(s, step);
    StepKeepsCancelled(s, step);
  }

  lemma {:induction false} RunKeepsInv<E>(trace: seq<State<E>>, steps: seq<Step<E>>, parent: bool, ranks: seq<nat>,
                                          k: nat)
    requires Run(trace, steps, parent, ranks) && k < |trace|
    ensures Inv(trace[k]) && |trace[k].stages| == |ranks|
  {
    if k > 0 {
      RunKeepsInv(trace, steps, parent, ranks, k - 1);
      StepKeepsInv(trace[k - 1], steps[k - 1]);
    }
  }

  /** While Run is in progress the runners see a cancelled context only when the parent's was or some
      runner has returned. */
  lemma CancelledByAReturn<E>(trace: seq<State<E>>, steps: seq<Step<E>>, parent: bool, ranks: seq<nat>, k: nat)
    requires Run(trace, steps, parent, ranks) && k < |trace| && trace[k].result.None?
    ensures Stopping(trace[k]) ==>
              trace[k].parent || exists i :: 0 <= i < |trace[k].stages| && HasReturned(trace[k].stages[i])
  {
    RunKeepsInv(trace, steps, parent, ranks, k);
  }

  /** A stage once reached stays behind. */
  function Progress<E>(g: Stage<E>): nat {
    match g
    case Unstarted(_) => 0
    case Running(_) => 1
    case Returned(_) => 2
    case Stored(_) => 3
    case Cancelled(_) => 4
    case Gone(_) => 5
  }

  lemma StepMovesOn<E>(s: State<E>, step: Step<E>, i: nat)
    requires Enabled(s, step) && i < |s.stages|
    ensures var t := Next(s, step);
            && |t.stages| == |s.stages|
            && Progress(s.stages[i]) <= Progress(t.stages[i])
            && (HasReturned(s.stages[i]) ==> t.stages[i].err == s.stages[i].err)
            && (HasReturned(t.stages[i]) && !HasReturned(s.stages[i]) ==> step == Return(i, t.stages[i].err))
  {
  }

  lemma {:induction false} ReturnIsFinal<E>(trace: seq<State<E>>, steps: seq<Step<E>>, parent: bool, ranks: seq<nat>,
                                            j: nat, k: nat, i: nat)
    requires Run(trace, steps, parent, ranks) && j <= k < |trace| && i < |ranks|
    ensures |trace[j].stages| == |trace[k].stages| == |ranks|
    ensures Progress(trace[j].stages[i]) <= Progress(trace[k].stages[i])
    ensures HasReturned(trace[j].stages[i]) ==> trace[k].stages[i].err == trace[j].stages[i].err
  {
    hide Enabled, Next, Inv;
    RunKeepsInv(trace, steps, parent, ranks, j);
    if j < k {
      ReturnIsFinal(trace, steps, parent, ranks, j, k - 1, i);
      StepMovesOn(trace[k - 1], steps[k - 1], i);
    }
  }

  /** The error a runner is recorded with is the one its own Run returned. */
  lemma {:induction false} ReturnedBy<E>(trace: seq<State<E>>, steps: seq<Step<E>>, parent: bool, ranks: seq<nat>,
                                         k: nat, i: nat) returns (j: nat)
    requires Run(trace, steps, parent, ranks) && k < |trace| && i < |trace[k].stages|
    requires HasReturned(trace[k].stages[i])
    ensures j < k && steps[j] == Return(i, trace[k].stages[i].err)
  {
    hide Enabled, Next, Inv;
    RunKeepsInv(trace, steps, parent, ranks, k);
    RunKeepsInv(trace, steps, parent, ranks, k - 1);
    StepMovesOn(trace[k - 1], steps[k - 1], i);
    if HasReturned(trace[k - 1].stages[i]) {
      j := ReturnedBy(trace, steps, parent, ranks, k - 1, i);
    } else {
      j := k - 1;
    }
  }

  /** What each runner returned, in name order. */
  function Returns<E>(s: State<E>): seq<Option<E>>
    requires forall i :: 0 <= i < |s.stages| ==> s.stages[i].Gone?
  {
    seq(|s.stages|, i requires 0 <= i < |s.stages| => s.stages[i].err)
  }

  /** Run returns only after every runner has, and with exactly the errors they returned, in name
      order: nil when there are none. */
  lemma RunReturnsEveryError<E>(trace: seq<State<E>>, steps: seq<Step<E>>, parent: bool, ranks: seq<nat>, k: nat)
    requires Run(trace, steps, parent, ranks) && k < |trace| && trace[k].result.Some?
    ensures |trace[k].stages| == |ranks| && forall i :: 0 <= i < |ranks| ==> trace[k].stages[i].Gone?
    ensures trace[k].result.value == NonNil(Returns(trace[k]))
    ensures exists at :: Joins(trace[k].result.value, Returns(trace[k]), at)
    ensures trace[k].cancelled
    ensures trace[k].result.value == [] <==> forall i :: 0 <= i < |ranks| ==> Returns(trace[k])[i] == None
    ensures forall i :: 0 <= i < |ranks| ==>
              exists j :: 0 <= j < k && steps[j] == Return(i, Returns(trace[k])[i])
  {
    RunKeepsInv(trace, steps, parent, ranks, k);
    var s := trace[k];
    assert Returns(s) == s.errs;
    NilIff(s.errs);
    var at := NonNilJoins(s.errs);
    forall i | 0 <= i < |ranks|
      ensures exists j :: 0 <= j < k && steps[j] == Return(i, Returns(s)[i])
    {
      var j := ReturnedBy(trace, steps, parent, ranks, k, i);
    }
  }

  /** `at` holds the positions of exactly the errors that are not nil, in order, and `joined` those errors. */
  ghost predicate Joins<E>(joined: seq<E>, errs: seq<Option<E>>, at: seq<nat>) {
    && |at| == |joined|
    && (forall j :: 0 <= j < |at| ==> at[j] < |errs| && errs[at[j]] == Some(joined[j]))
    && (forall j, k :: 0 <= j < k < |at| ==> at[j] < at[k])
    && forall i :: 0 <= i < |errs| && errs[i].Some? ==> i in at
  }

  lemma {:induction false} NonNilOfConcat<E>(a: seq<Option<E>>, b: seq<Option<E>>)
    ensures NonNil(a + b) == NonNil(a) + NonNil(b)
  {
    if a == [] {
      assert a + b == b;
    } else {
      assert (a + b)[0] == a[0] && (a + b)[1..] == a[1..] + b;
      NonNilOfConcat(a[1..], b);
      var first := if a[0].Some? then [a[0].value] else [];
      assert NonNil(a) == first + NonNil(a[1..]) && NonNil(a + b) == first + NonNil(a[1..] + b);
    }
  }

  lemma {:induction false} NonNilJoins<E>(errs: seq<Option<E>>) returns (at: seq<nat>)
    ensures Joins(NonNil(errs), errs, at)
  {
    at := [];
    if errs != [] {
      var n := |errs| - 1;
      var front, last := errs[..n], [errs[n]];
      at := NonNilJoins(front);
      assert errs == front + last;
      NonNilOfConcat(front, last);
      assert NonNil(last) == if errs[n].Some? then [errs[n].value] else [];
      if errs[n].Some? {
        at := at + [n];
      }
    }
  }

  lemma {:induction false} NilIff<E>(errs: seq<Option<E>>)
    ensures NonNil(errs) == [] <==> forall i :: 0 <= i < |errs| ==> errs[i] == None
  {
    if errs != [] {
      NilIff(errs[1..]);
      if NonNil(errs) == [] {
        forall i | 0 <= i < |errs|
          ensures errs[i] == None
        {
          assert i > 0 ==> errs[i] == errs[1..][i - 1];
        }
      } else if errs[0].None? {
        var i :| 0 <= i < |errs[1..]| && errs[1..][i] != None;
        assert errs[i + 1] != None;
      }
    }
  }

  // ---------------------------------------------------------------- stopping

  /** A runner that has returned is two steps of its own goroutine away from cancelling the rest, and
      nothing else can hold those up. */
  lemma ReturnCancelsTheRest<E>(trace: seq<State<E>>, steps: seq<Step<E>>, parent: bool, ranks: seq<nat>,
                                k: nat, i: nat)
    requires Run(trace, steps, parent, ranks) && k < |trace| && i < |ranks|
    ensures |trace[k].stages| == |ranks|
    ensures trace[k].stages[i].Returned? ==>
              Enabled(trace[k], Store(i)) && Enabled(Next(trace[k], Store(i)), Cancel(i))
              && Next(Next(trace[k], Store(i)), Cancel(i)).cancelled
    ensures trace[k].stages[i].Stored? ==> Enabled(trace[k], Cancel(i))
    ensures Progress(trace[k].stages[i]) >= 4 ==> forall m :: k <= m < |trace| ==> trace[m].cancelled
  {
    RunKeepsInv(trace, steps, parent, ranks, k);
    if Progress(trace[k].stages[i]) >= 4 {
      forall m | k <= m < |trace|
        ensures trace[m].cancelled
      {
        ReturnIsFinal(trace, steps, parent, ranks, k, m, i);
        RunKeepsInv(trace, steps, parent, ranks, m);
      }
    }
  }

  function Left<E>(g: Stage<E>): nat {
    match g
    case Unstarted(rank) => rank + 5
    case Running(rank) => rank + 4
    case Returned(_) => 3
    case Stored(_) => 2
    case Cancelled(_) => 1
    case Gone(_) => 0
  }

  function LeftAll<E>(gs: seq<Stage<E>>): nat {
    if gs == [] then 0 else Left(gs[0]) + LeftAll(gs[1..])
  }

  /** How many steps Run can still take once its context is cancelled. */
  function Rank<E>(s: State<E>): nat {
    LeftAll(s.stages) + (if s.parent then 0 else 1) + (if s.result.Some? then 0 else 1)
  }

  lemma {:induction false} LeftOfUpdate<E>(gs: seq<Stage<E>>, i: nat, g: Stage<E>)
    requires i < |gs|
    ensures LeftAll(gs[i := g]) == LeftAll(gs) - Left(gs[i]) + Left(g)
  {
    if i == 0 {
      assert gs[i := g][1..] == gs[1..];
    } else {
      LeftOfUpdate(gs[1..], i - 1, g);
      assert gs[i := g][1..] == gs[1..][i - 1 := g];
    }
  }

  /** Once its context is cancelled, every step of Run brings it nearer its end. */
  lemma StepLowersRank<E>(s: State<E>, step: Step<E>)
    requires Enabled(s, step) && Stopping(s)
    ensures Rank(Next(s, step)) < Rank(s) && Stopping(Next(s, step))
  {
    if step.Start? {
      LeftOfUpdate(s.stages, s.started, Next(s, step).stages[s.started]);
    } else if !step.ParentCancel? && !step.Join? {
      LeftOfUpdate(s.stages, step.i, Next(s, step).stages[step.i]);
    }
  }

  /** After the first cancellation no run takes more steps than its rank then. */
  lemma {:induction false} StopsAfterCancel<E>(trace: seq<State<E>>, steps: seq<Step<E>>, parent: bool, ranks: seq<nat>,
                                               j: nat, k: nat)
    requires Run(trace, steps, parent, ranks) && j <= k < |trace| && Stopping(trace[j])
    ensures Stopping(trace[k]) && Rank(trace[k]) + (k - j) <= Rank(trace[j])
  {
    if j < k {
      StopsAfterCancel(trace, steps, parent, ranks, j, k - 1);
      StepLowersRank(trace[k - 1], steps[k - 1]);
    }
  }

  /** What a run does not hold back: the parent may be cancelled while it is not, a runner inside its Run
      may return anything at any moment, and may go on working, if for fewer steps once cancelled. */
  lemma RunnersAreFree<E>(s: State<E>, i: nat, err: Option<E>, rank: nat)
    ensures Enabled(s, ParentCancel) <==> !s.parent
    ensures i < |s.stages| && s.stages[i].Running? ==>
              && Enabled(s, Return(i, err)) && Next(s, Return(i, err)).stages[i] == Returned(err)
              && (Enabled(s, Work(i, rank)) <==> !Stopping(s) || rank < s.stages[i].rank)
  {
  }

  ghost predicate GoneUpTo<E>(s: State<E>, errs: seq<Option<E>>, n: nat)
    requires n <= |errs|
  {
    && |s.stages| == |errs| && s.started == |errs| && s.result.None?
    && forall i :: 0 <= i < |errs| ==>
                     if i < n then s.stages[i] == Gone(errs[i]) else s.stages[i].Running?
  }

  lemma {:induction false} StartsAll<E>(parent: bool, ranks: seq<nat>, n: nat)
      returns (trace: seq<State<E>>, steps: seq<Step<E>>)
    requires n <= |ranks|
    ensures Run(trace, steps, parent, ranks)
    ensures var s := trace[|steps|];
            && |s.stages| == |ranks| && s.started == n && s.result.None?
            && forall i :: 0 <= i < |ranks| ==> if i < n then s.stages[i].Running? else s.stages[i].Unstarted?
  {
    if n == 0 {
      trace, steps := BeginRun(parent, ranks);
    } else {
      trace, steps := StartsAll(parent, ranks, n - 1);
      trace, steps := MoreOfRun(trace, steps, parent, ranks, Start);
    }
  }

  lemma EndKeepsInv<E>(trace: seq<State<E>>, steps: seq<Step<E>>, parent: bool, ranks: seq<nat>)
    requires Run(trace, steps, parent, ranks)
    ensures |trace| == |steps| + 1 && Inv(trace[|steps|])
  {
    RunKeepsInv(trace, steps, parent, ranks, |steps|);
  }

  lemma {:induction false} ReturnsInTurn<E>(parent: bool, ranks: seq<nat>, errs: seq<Option<E>>, n: nat)
      returns (trace: seq<State<E>>, steps: seq<Step<E>>)
    requires |errs| == |ranks| && n <= |errs|
    ensures Run(trace, steps, parent, ranks) && GoneUpTo(trace[|steps|], errs, n)
  {
    hide Run;
    if n == 0 {
      trace, steps := StartsAll(parent, ranks, |ranks|);
    } else {
      trace, steps := ReturnsInTurn(parent, ranks, errs, n - 1);
      trace, steps := MoreOfRun(trace, steps, parent, ranks, Return(n - 1, errs[n - 1]));
      EndKeepsInv(trace, steps, parent, ranks);
      trace, steps := MoreOfRun(trace, steps, parent, ranks, Store(n - 1));
      trace, steps := MoreOfRun(trace, steps, parent, ranks, Cancel(n - 1));
      trace, steps := MoreOfRun(trace, steps, parent, ranks, Leave(n - 1));
    }
  }

  /** Whatever each runner is to return there is a run in which it does and Run returns. */
  lemma RunExists<E>(parent: bool, ranks: seq<nat>, errs: seq<Option<E>>)
      returns (trace: seq<State<E>>, steps: seq<Step<E>>)
    requires |errs| == |ranks|
    ensures Run(trace, steps, parent, ranks) && trace[|steps|].result.Some?
    ensures forall i :: 0 <= i < |trace[|steps|].stages| ==> trace[|steps|].stages[i].Gone?
    ensures Returns(trace[|steps|]) == errs
  {
    hide Run;
    trace, steps := ReturnsInTurn(parent, ranks, errs, |errs|);
    trace, steps := MoreOfRun(trace, steps, parent, ranks, Join);
  }

  /** The steps of Run's own goroutines outside its runners' code. */
  predicate Own<E>(step: Step<E>) {
    step.Start? || step.Store? || step.Cancel? || step.Leave? || step.Join?
  }

  /** Every runner is started and either inside its own Run or gone, and not all are gone. */
  ghost predicate WaitsForRunners<E>(s: State<E>) {
    && s.started == |s.stages|
    && (forall i :: 0 <= i < |s.stages| ==> s.stages[i].Running? || s.stages[i].Gone?)
    && exists i :: 0 <= i < |s.stages| && s.stages[i].Running?
  }

  /** Until it has returned, Run has a step of its own to take exactly when it is not waiting for some
      runner to return: it never waits for anything else. */
  lemma NeverStuck<E>(s: State<E>)
    requires Inv(s) && s.result.None?
    ensures WaitsForRunners(s) <==> !exists step :: Own(step) && Enabled(s, step)
  {
    if !WaitsForRunners(s) {
      var step := Join;
      if s.started < |s.stages| {
        step := Start;
      } else if i :| 0 <= i < |s.stages| && !s.stages[i].Running? && !s.stages[i].Gone? {
        step := if s.stages[i].Returned? then Store(i) else if s.stages[i].Stored? then Cancel(i) else Leave(i);
      }
      assert Own(step) && Enabled(s, step);
    }
  }

  function ProgressOfAll<E>(gs: seq<Stage<E>>): nat {
    if gs == [] then 0 else Progress(gs[0]) + ProgressOfAll(gs[1..])
  }

  /** How far a run has come, the work inside its runners aside. */
  function Distance<E>(s: State<E>): nat {
    ProgressOfAll(s.stages) + (if s.parent then 1 else 0) + (if s.result.Some? then 1 else 0)
  }

  lemma {:induction false} ProgressOfUpdate<E>(gs: seq<Stage<E>>, i: nat, g: Stage<E>)
    requires i < |gs|
    ensures ProgressOfAll(gs[i := g]) == ProgressOfAll(gs) - Progress(gs[i]) + Progress(g)
  {
    if i == 0 {
      assert gs[i := g][1..] == gs[1..];
    } else {
      ProgressOfUpdate(gs[1..], i - 1, g);
      assert gs[i := g][1..] == gs[1..][i - 1 := g];
    }
  }

  lemma {:induction false} ProgressIsBounded<E>(gs: seq<Stage<E>>)
    ensures ProgressOfAll(gs) <= 5 * |gs|
    ensures (forall i :: 0 <= i < |gs| ==> gs[i].Unstarted?) ==> ProgressOfAll(gs) == 0
  {
    if gs != [] {
      ProgressIsBounded(gs[1..]);
    }
  }

  lemma StepGoesOn<E>(s: State<E>, step: Step<E>)
    requires Enabled(s, step)
    ensures Distance(Next(s, step)) == Distance(s) + if step.Work? then 0 else 1
  {
    if step.Start? {
      ProgressOfUpdate(s.stages, s.started, Next(s, step).stages[s.started]);
    } else if !step.ParentCancel? && !step.Join? {
      ProgressOfUpdate(s.stages, step.i, Next(s, step).stages[step.i]);
    }
  }

  /** How many of these steps are not work inside a runner. */
  function OtherSteps<E>(steps: seq<Step<E>>): nat {
    if steps == [] then 0
    else OtherSteps(steps[..|steps| - 1]) + if steps[|steps| - 1].Work? then 0 else 1
  }

  lemma {:induction false} DistanceIsOtherSteps<E>(trace: seq<State<E>>, steps: seq<Step<E>>, parent: bool,
                                                   ranks: seq<nat>, k: nat)
    requires Run(trace, steps, parent, ranks) && k < |trace|
    ensures Distance(trace[k]) == OtherSteps(steps[..k]) + (if parent then 1 else 0)
  {
    hide Enabled, Next, Inv;
    if k == 0 {
      ProgressIsBounded(trace[0].stages);
    } else {
      DistanceIsOtherSteps(trace, steps, parent, ranks, k - 1);
      StepGoesOn(trace[k - 1], steps[k - 1]);
      assert steps[..k][..k - 1] == steps[..k - 1];
    }
  }

  /** However its goroutines are scheduled, a run takes at most five steps a runner and two more outside
      its runners' own work: one that never ends is their work alone from some point on. */
  lemma OtherStepsAreBounded<E>(trace: seq<State<E>>, steps: seq<Step<E>>, parent: bool, ranks: seq<nat>)
    requires Run(trace, steps, parent, ranks)
    ensures OtherSteps(steps) <= 5 * |ranks| + 2
  {
    var k := |steps|;
    assert steps[..k] == steps;
    DistanceIsOtherSteps(trace, steps, parent, ranks, k);
    RunKeepsInv(trace, steps, parent, ranks, k);
    ProgressIsBounded(trace[k].stages);
  }

  // ---------------------------------------------------------------- an App inside an App

  /** An App whose runner at one position is an App itself, handed the outer one's context: the inner
      Run's parent is cancelled when the outer's own context is. */
  datatype Nested<+E> = Nested(outer: State<E>, inner: State<E>)

  datatype NestedStep<+E> = Outside(step: Step<E>) | Inside(step: Step<E>) | InnerReturns

  /** What errors.Join makes of the errors that are not nil: one error, or the nil one. */
  function Joined<E>(join: seq<E> -> E, errs: seq<E>): Option<E> {
    if errs == [] then None else Some(join(errs))
  }

  /** The runner at `at` takes no step but those of the inner Run, and the inner parent is not cancelled
      but by the outer context. */
  predicate NestedEnabled<E>(n: Nested<E>, at: nat, step: NestedStep<E>) {
    at < |n.outer.stages| &&
    match step
    case Outside(o) => Enabled(n.outer, o) && ((o.Work? || o.Return?) ==> o.i != at)
    case Inside(o) => n.outer.stages[at].Running? && Enabled(n.inner, o) && !o.ParentCancel?
    case InnerReturns => n.outer.stages[at].Running? && n.inner.result.Some?
  }

  /** What the outer App sees of a step. */
  function Seen<E>(n: Nested<E>, at: nat, join: seq<E> -> E, step: NestedStep<E>): Step<E>
    requires NestedEnabled(n, at, step)
  {
    match step
    case Outside(o) => o
    case Inside(o) => Work(at, Rank(Next(n.inner, o)))
    case InnerReturns => Return(at, Joined(join, n.inner.result.value))
  }

  function NestedNext<E>(n: Nested<E>, at: nat, join: seq<E> -> E, step: NestedStep<E>): Nested<E>
    requires NestedEnabled(n, at, step)
  {
    match step
    case Outside(o) =>
      var outer := Next(n.outer, o);
      Nested(outer, n.inner.(parent := Stopping(outer)))
    case Inside(o) =>
      var inner := Next(n.inner, o);
      Nested(n.outer.(stages := n.outer.stages[at := Running(Rank(inner))]), inner)
    case InnerReturns =>
      Nested(n.outer.(stages := n.outer.stages[at := Returned(Joined(join, n.inner.result.value))]), n.inner)
  }

  /** The runners of the outer App, whatever they are but for the one at `at`, and the inner App's. */
  datatype Shape = Shape(parent: bool, ranks: seq<nat>, at: nat, innerRanks: seq<nat>)

  /** A run of both, in which the runner that is an App was given no less than the App's own rank. */
  ghost predicate NestedRun<E>(trace: seq<Nested<E>>, steps: seq<NestedStep<E>>, join: seq<E> -> E, shape: Shape) {
    && |trace| == |steps| + 1
    && trace[0] == Nested(Begin(shape.parent, shape.ranks), Begin(shape.parent, shape.innerRanks))
    && shape.at < |shape.ranks| && shape.ranks[shape.at] >= Rank(trace[0].inner)
    && forall i :: 0 <= i < |steps| ==>
                     NestedEnabled(trace[i], shape.at, steps[i])
                     && trace[i + 1] == NestedNext(trace[i], shape.at, join, steps[i])
  }

  /** The inner Run moves only while its runner does, has no more left than that runner's rank, and its
      result is the error the runner returned. */
  ghost predicate NestedInv<E>(n: Nested<E>, at: nat, join: seq<E> -> E) {
    && at < |n.outer.stages| && n.inner.parent == Stopping(n.outer)
    && Inv(n.outer) && Inv(n.inner)
    && var g := n.outer.stages[at];
    && (g.Unstarted? || g.Running? ==> g.rank >= Rank(n.inner))
    && (HasReturned(g) ==> n.inner.result.Some? && g.err == Joined(join, n.inner.result.value))
  }

  /** What the outer App sees of any step is a step its own rules allow, leading where the step leads. */
  lemma NestedStepIsSeen<E>(n: Nested<E>, at: nat, join: seq<E> -> E, step: NestedStep<E>)
    requires NestedInv(n, at, join) && NestedEnabled(n, at, step)
    ensures var m, o := NestedNext(n, at, join, step), Seen(n, at, join, step);
            NestedInv(m, at, join) && Enabled(n.outer, o) && m.outer == Next(n.outer, o)
  {
    hide Inv, Rank;
    var m, o := NestedNext(n, at, join, step), Seen(n, at, join, step);
    match step {
      case Outside(_) =>
        SetParent(n.inner, m.inner.parent);
        if !step.step.ParentCancel? && !step.step.Join? && !step.step.Start? {
          assert step.step.i != at ==> m.outer.stages[at] == n.outer.stages[at];
        }
      case Inside(i) =>
        StepKeepsInv(n.inner, i);
        if Stopping(n.outer) {
          StepLowersRank(n.inner, i);
        }
      case InnerReturns =>
    }
    StepKeepsInv(n.outer, o);
  }

  lemma SetParent<E>(s: State<E>, parent: bool)
    requires Inv(s) && (s.parent ==> parent)
    ensures Inv(s.(parent := parent)) && Rank(s.(parent := parent)) <= Rank(s)
  {
  }

  lemma {:induction false} NestedRunKeepsInv<E>(trace: seq<Nested<E>>, steps: seq<NestedStep<E>>, join: seq<E> -> E,
                                                shape: Shape, k: nat)
    requires NestedRun(trace, steps, join, shape) && k < |trace|
    ensures NestedInv(trace[k], shape.at, join)
  {
    hide NestedInv, NestedEnabled, NestedNext;
    if k == 0 {
      NestedBegins(trace, steps, join, shape);
    } else {
      NestedRunKeepsInv(trace, steps, join, shape, k - 1);
      NestedStepIsSeen(trace[k - 1], shape.at, join, steps[k - 1]);
    }
  }

  lemma NestedBegins<E>(trace: seq<Nested<E>>, steps: seq<NestedStep<E>>, join: seq<E> -> E, shape: Shape)
    requires NestedRun(trace, steps, join, shape)
    ensures NestedInv(trace[0], shape.at, join)
  {
  }

  ghost function OuterTrace<E>(trace: seq<Nested<E>>): seq<State<E>> {
    seq(|trace|, k requires 0 <= k < |trace| => trace[k].outer)
  }

  ghost function OuterSteps<E>(trace: seq<Nested<E>>, steps: seq<NestedStep<E>>, join: seq<E> -> E, shape: Shape)
      : seq<Step<E>>
    requires NestedRun(trace, steps, join, shape)
  {
    seq(|steps|, k requires 0 <= k < |steps| => Seen(trace[k], shape.at, join, steps[k]))
  }

  /** An App is itself such a runner: any interleaving of an App with one that is a runner of it is, seen
      from the outer one, a run over a runner of the inner App's rank, which returns the inner Run's
      error. So what holds of every run of runners of any rank holds of an App among them. */
  lemma AppIsARunner<E>(trace: seq<Nested<E>>, steps: seq<NestedStep<E>>, join: seq<E> -> E, shape: Shape)
    requires NestedRun(trace, steps, join, shape)
    ensures Run(OuterTrace(trace), OuterSteps(trace, steps, join, shape), shape.parent, shape.ranks)
  {
    hide NestedInv, NestedEnabled, NestedNext, Seen;
    var outer, seen := OuterTrace(trace), OuterSteps(trace, steps, join, shape);
    forall k | 0 <= k < |seen|
      ensures Enabled(outer[k], seen[k]) && outer[k + 1] == Next(outer[k], seen[k])
    {
      NestedRunKeepsInv(trace, steps, join, shape, k);
      NestedStepIsSeen(trace[k], shape.at, join, steps[k]);
    }
  }

  lemma InnerStep<E>(n: Nested<E>, at: nat, join: seq<E> -> E, step: NestedStep<E>) returns (own: Step<E>)
    requires NestedInv(n, at, join) && NestedEnabled(n, at, step)
    requires NestedNext(n, at, join, step).inner != n.inner
    ensures Enabled(n.inner, own) && NestedNext(n, at, join, step).inner == Next(n.inner, own)
  {
    hide Inv, Rank;
    own := if step.Inside? then step.step else ParentCancel;
  }

  lemma BeginRun<E>(parent: bool, ranks: seq<nat>) returns (trace: seq<State<E>>, steps: seq<Step<E>>)
    ensures Run(trace, steps, parent, ranks) && trace[|steps|] == Begin(parent, ranks)
  {
    trace, steps := [Begin(parent, ranks)], [];
  }

  lemma MoreOfRun<E>(trace: seq<State<E>>, steps: seq<Step<E>>, parent: bool, ranks: seq<nat>, step: Step<E>)
      returns (more: seq<State<E>>, moreSteps: seq<Step<E>>)
    requires Run(trace, steps, parent, ranks) && Enabled(trace[|steps|], step)
    ensures Run(more, moreSteps, parent, ranks) && more[|moreSteps|] == Next(trace[|steps|], step)
  {
    hide Enabled, Next;
    more, moreSteps := trace + [Next(trace[|steps|], step)], steps + [step];
  }

  /** And seen from the inner one it is a run of that App: no step of the outer App is one of its own but
      the cancellation of its parent. */
  lemma {:induction false} InnerIsARun<E>(trace: seq<Nested<E>>, steps: seq<NestedStep<E>>, join: seq<E> -> E,
                                          shape: Shape, k: nat) returns (inner: seq<State<E>>, own: seq<Step<E>>)
    requires NestedRun(trace, steps, join, shape) && k < |trace|
    ensures Run(inner, own, shape.parent, shape.innerRanks) && inner[|own|] == trace[k].inner
  {
    hide NestedInv, NestedEnabled, NestedNext, Run, Enabled, Next;
    if k == 0 {
      inner, own := BeginRun(shape.parent, shape.innerRanks);
    } else {
      inner, own := InnerIsARun(trace, steps, join, shape, k - 1);
      NestedRunKeepsInv(trace, steps, join, shape, k - 1);
      var before, after := trace[k - 1].inner, trace[k].inner;
      if after != before {
        var step := InnerStep(trace[k - 1], shape.at, join, steps[k - 1]);
        inner, own := MoreOfRun(inner, own, shape.parent, shape.innerRanks, step);
      }
    }
  }

  /** Once the outer context is cancelled the steps of both Apps together are no more than the outer's
      rank, which counts the inner App for the rank its runner had then. */
  lemma NestedStopsAfterCancel<E>(trace: seq<Nested<E>>, steps: seq<NestedStep<E>>, join: seq<E> -> E, shape: Shape,
                                  j: nat, k: nat)
    requires NestedRun(trace, steps, join, shape) && j <= k < |trace| && Stopping(trace[j].outer)
    ensures Rank(trace[k].outer) + (k - j) <= Rank(trace[j].outer)
    ensures trace[j].inner.parent && trace[k].inner.parent
  {
    AppIsARunner(trace, steps, join, shape);
    StopsAfterCancel(OuterTrace(trace), OuterSteps(trace, steps, join, shape), shape.parent, shape.ranks, j, k);
    NestedRunKeepsInv(trace, steps, join, shape, j);
    NestedRunKeepsInv(trace, steps, join, shape, k);
  }

  /** The outer Run returns only after the inner one has and all the runners of both; its error is nil
      exactly when every one of them but the inner App itself returned nil. */
  lemma NestedReturnsEveryError<E>(trace: seq<Nested<E>>, steps: seq<NestedStep<E>>, join: seq<E> -> E, shape: Shape,
                                   k: nat)
    requires NestedRun(trace, steps, join, shape) && k < |trace| && trace[k].outer.result.Some?
    ensures var n, at := trace[k], shape.at;
            && n.inner.result.Some? && |n.outer.stages| == |shape.ranks| && |n.inner.stages| == |shape.innerRanks|
            && (forall i :: 0 <= i < |n.outer.stages| ==> n.outer.stages[i].Gone?)
            && (forall i :: 0 <= i < |n.inner.stages| ==> n.inner.stages[i].Gone?)
            && n.outer.result.value == NonNil(Returns(n.outer)) && n.inner.result.value == NonNil(Returns(n.inner))
            && (exists js :: Joins(n.outer.result.value, Returns(n.outer), js))
            && (exists js :: Joins(n.inner.result.value, Returns(n.inner), js))
            && Returns(n.outer)[at] ==
               (if n.inner.result.value == [] then None else Some(join(n.inner.result.value)))
            && (n.outer.result.value == [] <==>
                  (forall i :: 0 <= i < |shape.ranks| && i != at ==> Returns(n.outer)[i] == None)
                  && (forall i :: 0 <= i < |shape.innerRanks| ==> Returns(n.inner)[i] == None))
  {
    hide Inv, Enabled, Next, NestedEnabled, NestedNext, NonNil;
    AppIsARunner(trace, steps, join, shape);
    RunReturnsEveryError(OuterTrace(trace), OuterSteps(trace, steps, join, shape), shape.parent, shape.ranks, k);
    NestedRunKeepsInv(trace, steps, join, shape, k);
    var inner, own := InnerIsARun(trace, steps, join, shape, k);
    RunReturnsEveryError(inner, own, shape.parent, shape.innerRanks, |own|);
  }

  /** Neither App holds back the runners of the other, or its own. */
  lemma NestedRunnersAreFree<E>(n: Nested<E>, at: nat, i: nat, err: Option<E>)
    requires at < |n.outer.stages|
    ensures i < |n.outer.stages| && i != at && n.outer.stages[i].Running? ==>
              NestedEnabled(n, at, Outside(Return(i, err)))
    ensures n.outer.stages[at].Running? && i < |n.inner.stages| && n.inner.stages[i].Running? ==>
              NestedEnabled(n, at, Inside(Return(i, err)))
    ensures !n.outer.parent ==> NestedEnabled(n, at, Outside(ParentCancel))
  {
  }

  /** Until the outer Run has returned, a step of one App's own or the inner one's return is to be taken,
      unless both wait for runners that are no App. */
  lemma NestedNeverStuck<E>(n: Nested<E>, at: nat, join: seq<E> -> E)
    requires NestedInv(n, at, join) && n.outer.result.None?
    ensures (exists step :: NestedEnabled(n, at, step) && (step.InnerReturns? || Own(step.step)))
            || (WaitsForRunners(n.outer) && (n.outer.stages[at].Running? ==> WaitsForRunners(n.inner)))
  {
    hide Inv;
    NeverStuck(n.outer);
    if o :| Own(o) && Enabled(n.outer, o) {
      assert NestedEnabled(n, at, Outside(o));
    } else if n.outer.stages[at].Running? {
      if n.inner.result.Some? {
        assert NestedEnabled(n, at, InnerReturns);
      } else {
        NeverStuck(n.inner);
        if o :| Own(o) && Enabled(n.inner, o) {
          assert NestedEnabled(n, at, Inside(o));
        }
      }
    }
  }

  // ---------------------------------------------------------------- a runner from start and stop

  /** start's goroutine: inside start, its error sent into the buffered channel, and received. */
  datatype Starting<+E> = Blocked(rank: nat) | Sent(err: Option<E>) | Received(err: Option<E>)

  /** The runner's own: in the select, inside stop, at the last receive, and returned. */
  datatype Selecting<+E> = AtSelect | InStop | AtReceive | Done(err: Option<E>)

  datatype FromState<+E> = FromState(cancelled: bool, start: Starting<E>, main: Selecting<E>, stops: nat)

  datatype FromStep<+E> =
    | Cancelling
    | StartWorks(rank: nat)
    | StartReturns(err: Option<E>)
    | SelectDone
    | SelectCancelled
    | StopReturns
    | Receive

  /** stop makes start return: once it was called start has only `rank` steps left. */
  predicate FromEnabled<E>(s: FromState<E>, step: FromStep<E>) {
    match step
    case Cancelling => !s.cancelled
    case StartWorks(rank) => s.start.Blocked? && (s.stops > 0 ==> rank < s.start.rank)
    case StartReturns(_) => s.start.Blocked?
    case SelectDone => s.main.AtSelect? && s.start.Sent?
    case SelectCancelled => s.main.AtSelect? && s.cancelled
    case StopReturns => s.main.InStop?
    case Receive => s.main.AtReceive? && s.start.Sent?
  }

  function FromNext<E>(s: FromState<E>, step: FromStep<E>): FromState<E>
    requires FromEnabled(s, step)
  {
    match step
    case Cancelling => s.(cancelled := true)
    case StartWorks(rank) => s.(start := Blocked(rank))
    case StartReturns(err) => s.(start := Sent(err))
    case SelectDone => s.(start := Received(s.start.err), main := Done(s.start.err))
    case SelectCancelled => s.(main := InStop, stops := s.stops + 1)
    case StopReturns => s.(main := AtReceive)
    case Receive => s.(start := Received(s.start.err), main := Done(s.start.err))
  }

  ghost predicate FromRun<E>(trace: seq<FromState<E>>, steps: seq<FromStep<E>>, cancelled: bool, rank: nat) {
    && |trace| == |steps| + 1 && trace[0] == FromState(cancelled, Blocked(rank), AtSelect, 0)
    && forall i :: 0 <= i < |steps| ==> FromEnabled(trace[i], steps[i]) && trace[i + 1] == FromNext(trace[i], steps[i])
  }

  /** The runner returns start's own error and only once start has returned, and stop if it was called;
      stop is called at most once, and never under a context that was not cancelled. */
  lemma {:induction false} FromRunKeeps<E>(trace: seq<FromState<E>>, steps: seq<FromStep<E>>, cancelled: bool,
                                           rank: nat, k: nat)
    requires FromRun(trace, steps, cancelled, rank) && k < |trace|
    ensures var s := trace[k];
            && (s.main.Done? <==> s.start.Received?)
            && (s.main.Done? ==> s.main.err == s.start.err
                                 && exists j :: 0 <= j < k && steps[j] == StartReturns(s.main.err))
            && (s.start.Sent? ==> exists j :: 0 <= j < k && steps[j] == StartReturns(s.start.err))
            && s.stops <= 1 && (s.stops > 0 ==> s.cancelled)
            && (s.main.AtReceive? || (s.main.Done? && s.stops > 0) ==> exists j :: 0 <= j < k && steps[j].StopReturns?)
            && (s.main.AtSelect? ==> s.stops == 0) && (s.main.InStop? || s.main.AtReceive? ==> s.stops == 1)
  {
    if k > 0 {
      FromRunKeeps(trace, steps, cancelled, rank, k - 1);
      assert FromEnabled(trace[k - 1], steps[k - 1]);
    }
  }

  function FromLeft<E>(s: FromState<E>): nat {
    (match s.start
     case Blocked(rank) => rank + 2
     case Sent(_) => 1
     case Received(_) => 0)
    + (match s.main
       case AtSelect => 3
       case InStop => 2
       case AtReceive => 1
       case Done(_) => 0)
    + if s.cancelled then 0 else 1
  }

  /** The runner's own steps and stop's, and none of start's. */
  predicate FromOwn<E>(step: FromStep<E>) {
    step.SelectDone? || step.SelectCancelled? || step.StopReturns? || step.Receive?
  }

  /** start has not returned, and the runner is past stop or has had no reason to call it. */
  predicate WaitsForStart<E>(s: FromState<E>) {
    s.start.Blocked? && (s.main.AtReceive? || (s.main.AtSelect? && !s.cancelled))
  }

  /** After stop was called every step brings the runner nearer its return; and until it has returned it
      has a step of its own or stop's exactly when it is not waiting for start to return. */
  lemma FromStops<E>(trace: seq<FromState<E>>, steps: seq<FromStep<E>>, cancelled: bool, rank: nat, k: nat)
    requires FromRun(trace, steps, cancelled, rank) && k < |trace|
    ensures k < |steps| && trace[k].stops > 0 ==> FromLeft(trace[k + 1]) < FromLeft(trace[k])
    ensures !trace[k].main.Done? ==>
              (WaitsForStart(trace[k]) <==> !exists step :: FromOwn(step) && FromEnabled(trace[k], step))
    ensures trace[k].start.Blocked? ==> forall err :: FromEnabled(trace[k], StartReturns(err))
  {
    FromRunKeeps(trace, steps, cancelled, rank, k);
    var s := trace[k];
    if !s.main.Done? && !WaitsForStart(s) {
      var step := match s.main
        case AtSelect => if s.cancelled then SelectCancelled else SelectDone
        case InStop => StopReturns
        case _ => Receive;
      assert FromOwn(step) && FromEnabled(s, step);
    }
    if k < |steps| {
      assert FromEnabled(trace[k], steps[k]);
    }
  }
}
