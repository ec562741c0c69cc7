/**
 The bounded hasher of crypto/password/bound.go: a place is a slot of a buffered channel, taken by
 a send that does not wait and given back by a deferred receive, however the call ended.

 Calls run concurrently, so the protocol is a step relation over all of them; `Places` is the
 channel itself.
 */
module Bounded {
  import opened Wrappers
  import Sets

  /** How the wrapped hasher's call ended: with its answer or with a panic. */
  datatype Outcome<+A> = Answered(answer: A) | Panicked

  /** One Hash or Verify call: before its take, refused there, inside the wrapped hasher, unwinding
      out of it with its place still held, and over. */
  datatype Stage<+A> = Arriving | Refused | Inside | Unwinding(outcome: Outcome<A>) | Over(outcome: Outcome<A>)

  /** The channel's buffered count and every call's stage. */
  datatype State<A> = State(places: nat, buffered: nat, calls: map<nat, Stage<A>>)

  datatype Step<+A> =
    | Arrive(call: nat)
    | Take(call: nat)
    | Finish(call: nat, outcome: Outcome<A>)
    | GiveBack(call: nat)

  predicate Holds<A>(stage: Stage<A>) {
    stage.Inside? || stage.Unwinding?
  }

  /** The calls between their take and their give-back. */
  function Holders<A>(s: State<A>): set<nat> {
    set c | c in s.calls && Holds(s.calls[c])
  }

  /** The calls the wrapped hasher is running. */
  function Running<A>(s: State<A>): set<nat> {
    set c | c in s.calls && s.calls[c].Inside?
  }

  function Moved<A>(s: State<A>, call: nat, stage: Stage<A>): State<A> {
    s.(calls := s.calls[call := stage])
  }

  /** When a step can be taken: a receive on an empty channel would block. */
  predicate Enabled<A>(s: State<A>, step: Step<A>) {
    match step
    case Arrive(c) => c !in s.calls
    case Take(c) => c in s.calls && s.calls[c].Arriving?
    case Finish(c, _) => c in s.calls && s.calls[c].Inside?
    case GiveBack(c) => c in s.calls && s.calls[c].Unwinding? && s.buffered > 0
  }

  function Next<A>(s: State<A>, step: Step<A>): State<A>
    requires Enabled(s, step)
  {
    match step
    case Arrive(c) => Moved(s, c, Arriving)
    case Take(c) =>
      if s.buffered < s.places then Moved(s, c, Inside).(buffered := s.buffered + 1) else Moved(s, c, Refused)
    case Finish(c, outcome) => Moved(s, c, Unwinding(outcome))
    case GiveBack(c) => Moved(s, c, Over(s.calls[c].outcome)).(buffered := s.buffered - 1)
  }

  /** `Bound`: a number of places below one is refused, and every place begins free. */
  function Bound<A>(places: int): (r: Option<State<A>>)
    ensures r.Some? <==> places >= 1
    ensures r.Some? ==> r.value.places == places && r.value.buffered == 0 && r.value.calls == map[]
  {
    if places < 1 then None else Some(State(places, 0, map[]))
  }

  /** A run: every interleaving of every call's steps. */
  ghost predicate Run<A>(trace: seq<State<A>>, steps: seq<Step<A>>) {
    && |trace| == |steps| + 1
    && Bound(trace[0].places) == Some(trace[0])
    && forall i :: 0 <= i < |steps| ==> Enabled(trace[i], steps[i]) && trace[i + 1] == Next(trace[i], steps[i])
  }

  /** The buffer is exactly the calls holding a place, and never more than there are places. */
  ghost predicate Inv<A>(s: State<A>) {
    s.buffered == |Holders(s)| <= s.places
  }

  lemma HoldersOfMoved<A>(s: State<A>, t: State<A>, c: nat, stage: Stage<A>)
    requires t.calls == s.calls[c := stage]
    ensures Holders(t) == if Holds(stage) then Holders(s) + {c} else Holders(s) - {c}
    ensures c in Holders(s) <==> c in s.calls && Holds(s.calls[c])
  {
  }

  lemma StepKeepsInv<A>(s: State<A>, step: Step<A>)
    requires Inv(s) && Enabled(s, step)
    ensures Inv(Next(s, step)) && Next(s, step).places == s.places
  {
    hide Holders;
    var t := Next(s, step);
    var c := step.call;
    HoldersOfMoved(s, t, c, t.calls[c]);
    match step
    case Arrive(_) => assert Holders(t) == Holders(s);
    case Take(_) => assert Holders(t) == if s.buffered < s.places then Holders(s) + {c} else Holders(s);
    case Finish(_, _) => assert Holders(t) == Holders(s);
    case GiveBack(_) => assert Holders(t) == Holders(s) - {c};
  }

  lemma {:induction false} RunKeepsInv<A>(trace: seq<State<A>>, steps: seq<Step<A>>, i: nat)
    requires Run(trace, steps) && i < |trace|
    ensures Inv(trace[i]) && trace[i].places == trace[0].places
  {
    if i == 0 {
      assert Holders(trace[0]) == {};
    } else {
      RunKeepsInv(trace, steps, i - 1);
      StepKeepsInv(trace[i - 1], steps[i - 1]);
    }
  }

  /** At most `places` calls are inside the wrapped hasher at once, in any interleaving. */
  lemma InsideIsBounded<A>(trace: seq<State<A>>, steps: seq<Step<A>>, i: nat)
    requires Run(trace, steps) && i < |trace|
    ensures |Running(trace[i])| <= trace[i].buffered <= trace[0].places
  {
    RunKeepsInv(trace, steps, i);
    Sets.SubsetIsNoLarger(Running(trace[i]), Holders(trace[i]));
  }

  /** A call is refused at its take exactly when as many others as there are places hold one. */
  lemma RefusedIffEveryPlaceHeld<A>(trace: seq<State<A>>, steps: seq<Step<A>>, i: nat)
    requires Run(trace, steps) && i < |steps| && steps[i].Take?
    ensures trace[i + 1].calls[steps[i].call] == Refused <==> |Holders(trace[i]) - {steps[i].call}| == trace[0].places
    ensures trace[i + 1].calls[steps[i].call] == Inside <==> |Holders(trace[i])| < trace[0].places
  {
    RunKeepsInv(trace, steps, i);
    assert Holders(trace[i]) - {steps[i].call} == Holders(trace[i]);
  }

  /** A give-back never blocks: an unwinding call always finds its place in the buffer. */
  lemma GiveBackNeverBlocks<A>(trace: seq<State<A>>, steps: seq<Step<A>>, i: nat, call: nat)
    requires Run(trace, steps) && i < |trace|
    requires call in trace[i].calls && trace[i].calls[call].Unwinding?
    ensures Enabled(trace[i], GiveBack(call))
  {
    RunKeepsInv(trace, steps, i);
    assert call in Holders(trace[i]);
  }

  /** No call ever waits for another: each has its own next step whatever the others do, a new call can
      always come, and the wrapped hasher may end in any way. */
  lemma CallsNeverWait<A>(trace: seq<State<A>>, steps: seq<Step<A>>, i: nat, call: nat, outcome: Outcome<A>)
    requires Run(trace, steps) && i < |trace|
    ensures var s := trace[i];
            if call !in s.calls then Enabled(s, Arrive(call))
            else match s.calls[call]
                 case Arriving => Enabled(s, Take(call))
                 case Inside => Enabled(s, Finish(call, outcome))
                 case Unwinding(_) => Enabled(s, GiveBack(call))
                 case _ => true
  {
    if call in trace[i].calls && trace[i].calls[call].Unwinding? {
      GiveBackNeverBlocks(trace, steps, i, call);
    }
  }

  /** Once no call is inside or unwinding, every place is free, whatever each ended with. */
  lemma QuiescentIsFree<A>(trace: seq<State<A>>, steps: seq<Step<A>>, i: nat)
    requires Run(trace, steps) && i < |trace|
    ensures trace[i].buffered == 0 <==> forall c :: c in trace[i].calls ==> !Holds(trace[i].calls[c])
  {
    RunKeepsInv(trace, steps, i);
    if trace[i].buffered == 0 {
      forall c | c in trace[i].calls
        ensures !Holds(trace[i].calls[c])
      {
        assert c !in Holders(trace[i]);
      }
    } else {
      var c :| c in Holders(trace[i]);
    }
  }

  /** A refused call never reaches the wrapped hasher, and one that was over keeps its outcome. */
  lemma {:induction false} EndsAreFinal<A>(trace: seq<State<A>>, steps: seq<Step<A>>, i: nat, j: nat, call: nat)
    requires Run(trace, steps) && i <= j < |trace| && call in trace[i].calls
    requires trace[i].calls[call].Refused? || trace[i].calls[call].Over?
    ensures call in trace[j].calls && trace[j].calls[call] == trace[i].calls[call]
  {
    if i < j {
      EndsAreFinal(trace, steps, i, j - 1, call);
    }
  }

  /** Every call over was inside, and ended with the outcome the wrapped hasher gave it. */
  lemma {:induction false} OverWasInside<A>(trace: seq<State<A>>, steps: seq<Step<A>>, j: nat, call: nat)
      returns (i: nat)
    requires Run(trace, steps) && j < |trace| && call in trace[j].calls
    requires trace[j].calls[call].Unwinding? || trace[j].calls[call].Over?
    ensures i < j && steps[i] == Finish(call, trace[j].calls[call].outcome) && trace[i].calls[call] == Inside
  {
    var before := trace[j - 1];
    if call in before.calls && (before.calls[call].Unwinding? || before.calls[call].Over?) {
      i := OverWasInside(trace, steps, j - 1, call);
    } else {
      i := j - 1;
    }
  }

  // ---------------------------------------------------------------- the channel

  /** `places chan struct{}`, as its two operations use it. */
  class Places {
    const cap: nat
    var buffered: nat

    ghost predicate Valid()
      reads this
    {
      buffered <= cap
    }

    constructor (cap: nat)
      requires cap >= 1
      ensures Valid() && buffered == 0 && this.cap == cap
    {
      this.cap := cap;
      buffered := 0;
    }

    /** `take`: a send that does not wait. */
    method Take() returns (ok: bool)
      requires Valid()
      modifies this
      ensures Valid()
      ensures ok <==> old(buffered) < cap
      ensures buffered == old(buffered) + if ok then 1 else 0
    {
      ok := buffered < cap;
      if ok {
        buffered := buffered + 1;
      }
    }

    /** `giveBack`: a receive, which would block on an empty buffer. */
    method GiveBack()
      requires Valid() && buffered > 0
      modifies this
      ensures Valid() && buffered == old(buffered) - 1
    {
      buffered := buffered - 1;
    }

    /** One call with no other beside it: ErrBusy leaves the wrapped hasher unasked, any other end
        is the hasher's own, and the place is back either way. None is ErrBusy. */
    method Call<P, A>(wrapped: P -> Outcome<A>, asked: P) returns (r: Option<Outcome<A>>)
      requires Valid()
      modifies this
      ensures Valid() && buffered == old(buffered)
      ensures r == if old(buffered) == cap then None else Some(wrapped(asked))
    {
      var ok := Take();
      if !ok {
        return None;
      }
      r := Some(wrapped(asked));
      GiveBack();
    }
  }
}
