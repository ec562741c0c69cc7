/**
 The per-caller rate counter of transport/http/rate.go: fixed windows opened by each key's
 own first call, and a lazy sweep that forgets the keys whose window has passed.

 Instants are nanoseconds after Go's zero time.Time and durations are nanoseconds. The clock
 is read before the lock is taken, so the instants a counter sees, in lock order, are an
 arbitrary sequence of integers; the lemmas that need it say `NonDecreasing`.
 */
module Rate {
  import opened Wrappers
  import Sets

  const SECOND: int := 1_000_000_000
  const MIN_DURATION: int := -0x8000_0000_0000_0000
  const MAX_DURATION: int := 0x7fff_ffff_ffff_ffff
  const MAX_INT: int := 0x7fff_ffff_ffff_ffff

  /** What one key has taken of the window it began. */
  datatype Spent = Spent(began: int, calls: nat)

  /** What the counter holds: one entry a key, and the instant it last swept. */
  datatype Memory<K(==)> = Memory(seen: map<K, Spent>, swept: int)

  datatype Answer = Answer(served: bool, delay: int)

  datatype Call<K> = Call(key: K, at: int)

  datatype AnyLimits = Limits(ceiling: int, window: int)

  /** The limits CountWithin lets through. */
  type Limits = l: AnyLimits | 1 <= l.ceiling <= MAX_INT && 0 < l.window <= MAX_DURATION
    witness Limits(1, 1)

  /** time.Time.Sub, which saturates at the ends of time.Duration. */
  function Sub(t: int, u: int): int {
    var d := t - u;
    if d < MIN_DURATION then MIN_DURATION else if d > MAX_DURATION then MAX_DURATION else d
  }

  predicate Over(w: Spent, window: int, at: int) {
    at >= w.began + window
  }

  function Lookup<K>(seen: map<K, Spent>, key: K): Option<Spent> {
    if key in seen then Some(seen[key]) else None
  }

  /** The sweep: at most one pass per window, dropping every entry whose window has passed. */
  function Forget<K>(window: int, m: Memory<K>, at: int): Memory<K> {
    if at < m.swept + window then m
    else Memory(map k | k in m.seen && !Over(m.seen[k], window, at) :: m.seen[k], at)
  }

  /** One key's own window: what a call at `at` leaves of its entry, and the answer it gets. */
  function Take(l: Limits, entry: Option<Spent>, at: int): (Option<Spent>, Answer) {
    var w := if entry.None? || Over(entry.value, l.window, at) then Spent(at, 0) else entry.value;
    if w.calls >= l.ceiling then (entry, Answer(false, Sub(w.began + l.window, at)))
    else (Some(w.(calls := w.calls + 1)), Answer(true, 0))
  }

  function Stored<K>(seen: map<K, Spent>, key: K, entry: Option<Spent>): map<K, Spent> {
    if entry.Some? then seen[key := entry.value] else seen
  }

  function Count<K>(l: Limits, m: Memory<K>, c: Call<K>): (Memory<K>, Answer) {
    var swept := Forget(l.window, m, c.at);
    var (entry, answer) := Take(l, Lookup(swept.seen, c.key), c.at);
    (swept.(seen := Stored(swept.seen, c.key, entry)), answer)
  }

  function Earlier<K>(calls: seq<Call<K>>): seq<Call<K>>
    requires calls != []
  {
    calls[..|calls| - 1]
  }

  function Last<K>(calls: seq<Call<K>>): Call<K>
    requires calls != []
  {
    calls[|calls| - 1]
  }

  /** What the counter holds after a run of calls, in lock order. */
  function After<K>(l: Limits, calls: seq<Call<K>>): Memory<K> {
    if calls == [] then Memory(map[], 0) else Count(l, After(l, Earlier(calls)), Last(calls)).0
  }

  /** What the counter answers to the last call of a run. */
  function LastAnswer<K(==)>(l: Limits, calls: seq<Call<K>>): Answer
    requires calls != []
  {
    Count(l, After(l, Earlier(calls)), Last(calls)).1
  }

  ghost predicate NonDecreasing<K>(calls: seq<Call<K>>) {
    forall i, j :: 0 <= i < j < |calls| ==> calls[i].at <= calls[j].at
  }

  // ---------------------------------------------------------------- the counter itself

  /** `cadence`: the map and the instant of its last sweep, reached under one mutex. */
  class Cadence<K(==)> {
    const limits: Limits
    var seen: map<K, Spent>
    var swept: int
    /** Every call counted so far, in lock order. */
    ghost var history: seq<Call<K>>

    ghost predicate Valid()
      reads this
    {
      Memory(seen, swept) == After(limits, history)
    }

    constructor (limits: Limits)
      ensures Valid() && history == [] && this.limits == limits
    {
      this.limits := limits;
      seen, swept := map[], 0;
      history := [];
    }

    /** `forget`: one deleting pass over the map, once per window. */
    method Sweep(at: int)
      modifies this`seen, this`swept
      ensures Memory(seen, swept) == Forget(limits.window, old(Memory(seen, swept)), at)
    {
      if at < swept + limits.window {
        return;
      }
      var todo := seen.Keys;
      while todo != {}
        invariant todo <= seen.Keys <= old(seen).Keys && swept == old(swept)
        invariant forall k :: k in seen ==> seen[k] == old(seen)[k]
        invariant forall k :: k in old(seen) && k !in todo ==>
                    (k in seen <==> !Over(old(seen)[k], limits.window, at))
        decreases |todo|
      {
        var key :| key in todo;
        if at >= seen[key].began + limits.window {
          seen := seen - {key};
        }
        todo := todo - {key};
      }
      swept := at;
    }

    /**
     `count`, from the moment it holds the lock: `at` is the clock reading taken before.
     The answer is the one the greedy windows of the key's own calls give whenever the
     readings came in order, and its delay is bounded whatever order they came in.
     */
    method Count(key: K, at: int) returns (served: bool, delay: int)
      requires Valid()
      modifies this
      ensures Valid() && history == old(history) + [Call(key, at)]
      ensures Answer(served, delay) == LastAnswer(limits, history)
      ensures NonDecreasing(history) ==> Answer(served, delay) == GreedyAnswer(limits, history)
      ensures !served ==> 0 < delay <= limits.window + (LatestAt(history) - at)
    {
      hide After, LastAnswer, NonDecreasing, GreedyAnswer, LatestAt;
      OneMoreCall(limits, history, Call(key, at));
      history := history + [Call(key, at)];
      Sweep(at);
      var w := Spent(at, 0);
      if key in seen && at < seen[key].began + limits.window {
        w := seen[key];
      }
      if w.calls >= limits.ceiling {
        served, delay := false, Sub(w.began + limits.window, at);
      } else {
        w := w.(calls := w.calls + 1);
        seen := seen[key := w];
        served, delay := true, 0;
      }
    }
  }

  /** What one more call leaves, and what is promised of its answer. */
  lemma OneMoreCall<K>(l: Limits, calls: seq<Call<K>>, c: Call<K>)
    ensures var more := calls + [c];
            && Count(l, After(l, calls), c) == (After(l, more), LastAnswer(l, more))
            && (NonDecreasing(more) ==> LastAnswer(l, more) == GreedyAnswer(l, more))
            && (!LastAnswer(l, more).served ==>
                  0 < LastAnswer(l, more).delay <= l.window + (LatestAt(more) - c.at))
  {
    var more := calls + [c];
    assert Earlier(more) == calls && Last(more) == c;
    if NonDecreasing(more) {
      SweepIsInvisible(l, more);
      ReferenceIsGreedy(l, more);
    }
    if !LastAnswer(l, more).served {
      DelayUnderAnyClock(l, more);
    }
  }

  datatype WiringError = CeilingBelowOne | WindowNotPositive

  /** `CountWithin`: both refusals are at wiring, the ceiling's first. */
  method CountWithin<K(==)>(ceiling: int, window: int) returns (r: Result<Cadence<K>, WiringError>)
    requires ceiling <= MAX_INT && window <= MAX_DURATION
    ensures r.Ok? <==> ceiling >= 1 && window > 0
    ensures r.Ok? ==> fresh(r.value) && r.value.Valid() && r.value.history == []
                      && r.value.limits == Limits(ceiling, window)
    ensures r.Err? ==> (r.error == CeilingBelowOne <==> ceiling < 1)
  {
    if ceiling < 1 {
      return Err(CeilingBelowOne);
    }
    if window <= 0 {
      return Err(WindowNotPositive);
    }
    var c := new Cadence<K>(Limits(ceiling, window));
    return Ok(c);
  }

  // ---------------------------------------------------------------- a counter that never forgets

  /** The reference counter: the same windows over a map nothing is ever deleted from. */
  function NeverForgets<K>(l: Limits, calls: seq<Call<K>>): map<K, Spent> {
    if calls == [] then map[]
    else
      var seen := NeverForgets(l, Earlier(calls));
      Stored(seen, Last(calls).key, Take(l, Lookup(seen, Last(calls).key), Last(calls).at).0)
  }

  function ReferenceAnswer<K(==)>(l: Limits, calls: seq<Call<K>>): Answer
    requires calls != []
  {
    Take(l, Lookup(NeverForgets(l, Earlier(calls)), Last(calls).key), Last(calls).at).1
  }

  /** Every entry held is the reference's, and every entry dropped was over at `now`. */
  ghost predicate Simulates<K>(l: Limits, seen: map<K, Spent>, reference: map<K, Spent>, now: int) {
    && (forall k :: k in seen ==> k in reference && seen[k] == reference[k])
    && (forall k :: k in reference && k !in seen ==> Over(reference[k], l.window, now))
  }

  lemma ForgetSimulates<K>(l: Limits, m: Memory<K>, reference: map<K, Spent>, at: int)
    requires Simulates(l, m.seen, reference, at)
    ensures Simulates(l, Forget(l.window, m, at).seen, reference, at)
  {
  }

  lemma TakeSimulates<K>(l: Limits, seen: map<K, Spent>, reference: map<K, Spent>, key: K, at: int)
    requires Simulates(l, seen, reference, at)
    ensures Simulates(l, Stored(seen, key, Take(l, Lookup(seen, key), at).0),
                      Stored(reference, key, Take(l, Lookup(reference, key), at).0), at)
  {
  }

  lemma {:induction false} Simulation<K>(l: Limits, calls: seq<Call<K>>)
    requires calls != [] && NonDecreasing(calls)
    ensures Simulates(l, After(l, calls).seen, NeverForgets(l, calls), Last(calls).at)
  {
    hide Take, Stored, Forget;
    var m, reference, at := After(l, Earlier(calls)), NeverForgets(l, Earlier(calls)), Last(calls).at;
    if |calls| > 1 {
      Simulation(l, Earlier(calls));
      assert Simulates(l, m.seen, reference, Last(Earlier(calls)).at);
    }
    assert Simulates(l, m.seen, reference, at);
    ForgetSimulates(l, m, reference, at);
    TakeSimulates(l, Forget(l.window, m, at).seen, reference, Last(calls).key, at);
  }

  /** Clocks read in order: the counter that forgets answers every call as one that never does. */
  lemma SweepIsInvisible<K>(l: Limits, calls: seq<Call<K>>)
    requires calls != [] && NonDecreasing(calls)
    ensures LastAnswer(l, calls) == ReferenceAnswer(l, calls)
  {
    if |calls| > 1 {
      Simulation(l, Earlier(calls));
    }
  }

  /** Clocks read out of order do show the sweep: a key swept out gets a call the reference refuses. */
  lemma BackwardClockShowsTheSweep()
    ensures var calls := [Call('a', 100), Call('b', 110), Call('a', 105)];
            var l: Limits := Limits(1, 10);
            LastAnswer(l, calls).served && !ReferenceAnswer(l, calls).served
  {
    var l: Limits := Limits(1, 10);
    var one, two := [Call('a', 100)], [Call('a', 100), Call('b', 110)];
    var three := two + [Call('a', 105)];
    assert Earlier(three) == two && Earlier(two) == one && Earlier(one) == [];
    assert After(l, one) == Memory(map['a' := Spent(100, 1)], 100);
    assert After(l, two) == Memory(map['b' := Spent(110, 1)], 110);
    assert NeverForgets(l, one) == map['a' := Spent(100, 1)];
    assert NeverForgets(l, two) == map['a' := Spent(100, 1), 'b' := Spent(110, 1)];
  }

  // ---------------------------------------------------------------- greedy windows

  /** The position of the call that opened the window `key` is in: its first call, or the
      first one at least a window after the previous opener. */
  function Opener<K(==)>(window: int, calls: seq<Call<K>>, key: K): (o: Option<nat>)
    ensures o.Some? ==> o.value < |calls| && calls[o.value].key == key
    ensures o.None? <==> forall i :: 0 <= i < |calls| ==> calls[i].key != key
  {
    if calls == [] then None
    else
      var o := Opener(window, Earlier(calls), key);
      if Last(calls).key == key && (o.None? || Last(calls).at >= calls[o.value].at + window)
      then Some(|calls| - 1) else o
  }

  /** How many calls `key` made from position `from` on. */
  function Made<K(==)>(calls: seq<Call<K>>, key: K, from: nat): nat {
    if |calls| <= from then 0
    else Made(Earlier(calls), key, from) + if Last(calls).key == key then 1 else 0
  }

  /** The answer read off the windows alone: the first `ceiling` calls of each are served, and
      a refusal names what is left of it. No other key's calls enter into it. */
  function GreedyAnswer<K(==)>(l: Limits, calls: seq<Call<K>>): Answer
    requires calls != []
  {
    var o := Opener(l.window, calls, Last(calls).key).value;
    if Made(calls, Last(calls).key, o) <= l.ceiling then Answer(true, 0)
    else Answer(false, Sub(calls[o].at + l.window, Last(calls).at))
  }

  lemma {:induction false} MadeFromTheEnd<K>(calls: seq<Call<K>>, key: K)
    requires calls != []
    ensures Made(calls, key, |calls| - 1) == if Last(calls).key == key then 1 else 0
  {
    assert Made(Earlier(calls), key, |calls| - 1) == 0;
  }

  /** The reference's entry for a key is that key's current window, in any clock order. */
  lemma {:induction false} ReferenceHoldsWindows<K>(l: Limits, calls: seq<Call<K>>, key: K)
    ensures var seen := NeverForgets(l, calls);
            var o := Opener(l.window, calls, key);
            (key in seen <==> o.Some?)
            && (o.Some? ==>
                  var made := Made(calls, key, o.value);
                  made >= 1 && seen[key] == Spent(calls[o.value].at, if made <= l.ceiling then made else l.ceiling))
  {
    if calls != [] {
      ReferenceHoldsWindows(l, Earlier(calls), key);
      MadeFromTheEnd(calls, key);
    }
  }

  lemma ReferenceIsGreedy<K>(l: Limits, calls: seq<Call<K>>)
    requires calls != []
    ensures ReferenceAnswer(l, calls) == GreedyAnswer(l, calls)
  {
    ReferenceHoldsWindows(l, Earlier(calls), Last(calls).key);
    MadeFromTheEnd(calls, Last(calls).key);
  }

  // ---------------------------------------------------------------- any clock order

  function LatestAt<K>(calls: seq<Call<K>>): (at: int)
    requires calls != []
    ensures forall i :: 0 <= i < |calls| ==> calls[i].at <= at
    ensures exists i :: 0 <= i < |calls| && calls[i].at == at
  {
    if |calls| == 1 then Last(calls).at
    else var m := LatestAt(Earlier(calls)); if Last(calls).at > m then Last(calls).at else m
  }

  lemma {:induction false} NoneOpenedLater<K>(l: Limits, calls: seq<Call<K>>, key: K)
    requires calls != [] && key in After(l, calls).seen
    ensures After(l, calls).seen[key].began <= LatestAt(calls)
  {
    if |calls| > 1 && key in After(l, Earlier(calls)).seen {
      NoneOpenedLater(l, Earlier(calls), key);
    }
  }

  /** Whatever the clocks read: a refusal's delay is above zero and exceeds the window by no more
      than the clock stepped back; it stays within the window exactly when the window opened no
      later than the instant the refused call read, the longest Duration aside. */
  lemma DelayUnderAnyClock<K>(l: Limits, calls: seq<Call<K>>)
    requires calls != [] && !LastAnswer(l, calls).served
    ensures 0 < LastAnswer(l, calls).delay <= l.window + (LatestAt(calls) - Last(calls).at)
    ensures var held := Forget(l.window, After(l, Earlier(calls)), Last(calls).at).seen;
            Last(calls).key in held
            && (LastAnswer(l, calls).delay <= l.window <==>
                held[Last(calls).key].began <= Last(calls).at || l.window == MAX_DURATION)
  {
    var before := After(l, Earlier(calls));
    if |calls| > 1 && Last(calls).key in before.seen {
      NoneOpenedLater(l, Earlier(calls), Last(calls).key);
    }
  }

  /** A clock that stepped back gives a delay longer than the window. */
  lemma BackwardClockOutlastsTheWindow()
    ensures var calls := [Call('a', 100), Call('a', 95)];
            LastAnswer(Limits(1, 10), calls) == Answer(false, 15)
  {
    var one, two := [Call('a', 100)], [Call('a', 100), Call('a', 95)];
    assert Earlier(two) == one && Earlier(one) == [];
    assert After(Limits(1, 10), one) == Memory(map['a' := Spent(100, 1)], 100);
  }

  // ---------------------------------------------------------------- what a run of windows serves

  lemma {:induction false} OpenerMovesOn<K>(window: int, calls: seq<Call<K>>, key: K, n: nat)
    requires n <= |calls| && Opener(window, calls[..n], key).Some?
    ensures var o := Opener(window, calls, key);
            o.Some? && (o == Opener(window, calls[..n], key) || o.value >= n)
  {
    if n == |calls| {
      assert calls[..n] == calls;
    } else {
      assert Earlier(calls)[..n] == calls[..n];
      OpenerMovesOn(window, Earlier(calls), key, n);
    }
  }

  lemma {:induction false} LaterThanOpeners<K>(window: int, calls: seq<Call<K>>, i: nat)
    requires window > 0 && i < |calls| && Opener(window, calls[..i + 1], calls[i].key) == Some(i)
    ensures var o := Opener(window, calls, calls[i].key);
            o.Some? && o.value >= i && (o.value > i ==> calls[o.value].at >= calls[i].at + window)
  {
    if i + 1 == |calls| {
      assert calls[..i + 1] == calls;
    } else {
      assert Earlier(calls)[..i + 1] == calls[..i + 1];
      LaterThanOpeners(window, Earlier(calls), i);
    }
  }

  /** Successive windows of one key open at least a window apart, whatever the clocks read. */
  lemma WindowsOpenApart<K>(window: int, calls: seq<Call<K>>, i: nat, j: nat)
    requires window > 0 && i < j < |calls| && calls[i].key == calls[j].key
    requires Opener(window, calls[..i + 1], calls[i].key) == Some(i)
    requires Opener(window, calls[..j + 1], calls[j].key) == Some(j)
    ensures calls[j].at >= calls[i].at + window
  {
    assert calls[..j + 1][..i + 1] == calls[..i + 1];
    LaterThanOpeners(window, calls[..j + 1], i);
  }

  /** How many calls of `key` the counter served in the half-open interval of one window's
      length starting at `from`. */
  function ServedWithin<K(==)>(l: Limits, calls: seq<Call<K>>, key: K, from: int): nat {
    if calls == [] then 0
    else ServedWithin(l, Earlier(calls), key, from)
         + if Last(calls).key == key && from <= Last(calls).at < from + l.window && LastAnswer(l, calls).served
           then 1 else 0
  }

  lemma {:induction false} ServedByWindow<K>(l: Limits, calls: seq<Call<K>>, key: K, from: int)
    requires NonDecreasing(calls)
    ensures var seen := NeverForgets(l, calls);
            var served := ServedWithin(l, calls, key, from);
            && (calls != [] && Last(calls).at < from ==> served == 0)
            && (key !in seen ==> served == 0)
            && (key in seen ==>
                  && seen[key].calls <= l.ceiling
                  && (seen[key].began < from ==> served <= seen[key].calls)
                  && (from <= seen[key].began < from + l.window ==> served <= l.ceiling + seen[key].calls)
                  && served <= 2 * l.ceiling)
  {
    if calls != [] {
      var earlier := Earlier(calls);
      ServedByWindow(l, earlier, key, from);
      SweepIsInvisible(l, calls);
      ReferenceHoldsWindows(l, earlier, key);
      assert earlier != [] ==> Last(earlier).at <= Last(calls).at;
    }
  }

  /** Any half-open interval of one window's length serves one key at most twice the ceiling,
      whatever other keys do. */
  lemma TwoCeilingsAtMost<K>(l: Limits, calls: seq<Call<K>>, key: K, from: int)
    requires NonDecreasing(calls)
    ensures ServedWithin(l, calls, key, from) <= 2 * l.ceiling
  {
    ServedByWindow(l, calls, key, from);
  }

  // ---------------------------------------------------------------- what the map holds

  /** Everything held opened strictly less than two windows ago. */
  ghost predicate HoldsTwoWindows<K>(l: Limits, calls: seq<Call<K>>)
    requires calls != []
  {
    forall k :: k in After(l, calls).seen ==> After(l, calls).seen[k].began > Last(calls).at - 2 * l.window
  }

  lemma {:induction false} HeldSinceSweep<K>(l: Limits, calls: seq<Call<K>>)
    requires calls != [] && NonDecreasing(calls)
    ensures var m := After(l, calls);
            && Last(calls).at < m.swept + l.window
            && (m.swept == 0 || m.swept <= Last(calls).at)
            && (Last(calls).at >= l.window ==>
                  m.swept <= Last(calls).at && forall k :: k in m.seen ==> m.seen[k].began > m.swept - l.window)
            && (Last(calls).at < l.window ==>
                  m.swept == 0 || forall k :: k in m.seen ==> m.seen[k].began > m.swept - l.window)
  {
    if |calls| > 1 {
      HeldSinceSweep(l, Earlier(calls));
    }
  }

  lemma {:induction false} HeldKeysWereCalled<K>(l: Limits, calls: seq<Call<K>>, key: K) returns (i: nat)
    requires key in After(l, calls).seen
    ensures i < |calls| && calls[i] == Call(key, After(l, calls).seen[key].began)
  {
    var m := After(l, Earlier(calls));
    if key in m.seen && After(l, calls).seen[key].began == m.seen[key].began {
      i := HeldKeysWereCalled(l, Earlier(calls), key);
    } else {
      i := |calls| - 1;
    }
  }

  function RecentKeys<K(==)>(calls: seq<Call<K>>, after: int): set<K> {
    set i | 0 <= i < |calls| && calls[i].at > after :: calls[i].key
  }

  /** A sweep has been due by the last call, or none was yet when the first came: no sweep is due before
      one window past the zero time, and until then a run that began inside two windows holds no more. */
  predicate Covered(l: Limits, first: int, at: int) {
    at >= l.window || first > at - 2 * l.window
  }

  /** The map holds only keys seen inside two windows. */
  lemma MemoryIsBounded<K>(l: Limits, calls: seq<Call<K>>)
    requires calls != [] && NonDecreasing(calls) && Covered(l, calls[0].at, Last(calls).at)
    ensures HoldsTwoWindows(l, calls)
    ensures |After(l, calls).seen| <= |RecentKeys(calls, Last(calls).at - 2 * l.window)|
  {
    HeldSinceSweep(l, calls);
    var m := After(l, calls);
    var recent := RecentKeys(calls, Last(calls).at - 2 * l.window);
    forall k | k in m.seen
      ensures m.seen[k].began > Last(calls).at - 2 * l.window && k in recent
    {
      var i := HeldKeysWereCalled(l, calls, k);
      assert calls[0].at <= calls[i].at;
    }
    Sets.SubsetIsNoLarger(m.seen.Keys, recent);
  }

  /** Exactly the first and last readings between which every ordered run keeps the bound. A clock that
      never reads before the zero time always does; one that began two windows or more before the last
      reading, with that short of a window past the zero time, need not. */
  lemma MemoryBoundIff(l: Limits, first: int, at: int)
    requires first <= at
    ensures Covered(l, first, at) <==>
            forall calls: seq<Call<nat>> ::
              calls != [] && NonDecreasing(calls) && calls[0].at == first && Last(calls).at == at ==>
                HoldsTwoWindows(l, calls)
    ensures first >= 0 ==> Covered(l, first, at)
  {
    if Covered(l, first, at) {
      forall calls: seq<Call<nat>> |
        calls != [] && NonDecreasing(calls) && calls[0].at == first && Last(calls).at == at
        ensures HoldsTwoWindows(l, calls)
      {
        MemoryIsBounded(l, calls);
      }
    } else {
      var one: seq<Call<nat>> := [Call(0, first)];
      var calls := one + [Call(1, at)];
      assert Earlier(calls) == one && Earlier(one) == [];
      assert After(l, one) == Memory(map[0 := Spent(first, 1)], 0);
      assert 0 in After(l, calls).seen && After(l, calls).seen[0] == Spent(first, 1);
      assert !HoldsTwoWindows(l, calls);
    }
  }

  /** Call i dropped another key's entry. */
  ghost predicate Drops<K>(l: Limits, calls: seq<Call<K>>, i: nat)
    requires i < |calls|
  {
    exists k :: k in After(l, calls[..i]).seen && k !in After(l, calls[..i + 1]).seen
  }

  lemma DroppingSweeps<K>(l: Limits, calls: seq<Call<K>>, i: nat)
    requires i < |calls| && Drops(l, calls, i)
    ensures After(l, calls[..i + 1]).swept == calls[i].at >= After(l, calls[..i]).swept + l.window
  {
    assert Earlier(calls[..i + 1]) == calls[..i] && Last(calls[..i + 1]) == calls[i];
  }

  lemma {:induction false} SweptGrows<K>(l: Limits, calls: seq<Call<K>>, i: nat)
    requires i <= |calls|
    ensures After(l, calls[..i]).swept <= After(l, calls).swept
  {
    if i == |calls| {
      assert calls[..i] == calls;
    } else {
      assert Earlier(calls)[..i] == calls[..i];
      SweptGrows(l, Earlier(calls), i);
    }
  }

  /** Two calls that drop entries are at least a window apart, whatever the clocks read: there is at most
      one sweep a window, and not one a request. */
  lemma SweepsAreApart<K>(l: Limits, calls: seq<Call<K>>, i: nat, j: nat)
    requires i < j < |calls| && Drops(l, calls, i) && Drops(l, calls, j)
    ensures calls[j].at >= calls[i].at + l.window
  {
    hide After;
    DroppingSweeps(l, calls, i);
    DroppingSweeps(l, calls, j);
    assert calls[..j][..i + 1] == calls[..i + 1];
    SweptGrows(l, calls[..j], i + 1);
  }

  // ---------------------------------------------------------------- Retry-After

  /** `retryAfter`: the least whole number of seconds, one or more, that covers the delay. */
  function RetryAfter(d: int): (seconds: int)
    ensures seconds >= 1 && seconds * SECOND >= d
    ensures seconds > 1 ==> (seconds - 1) * SECOND < d
  {
    if d <= SECOND then 1
    else d / SECOND + if d % SECOND != 0 then 1 else 0
  }

  datatype Response = Next | TooManyRequests(retryAfter: int) | RateUnavailable

  datatype CounterFailure = CounterFailure

  /** The counter LimitRate is handed: the one CountWithin gives, or one of the service's own, known by
      what it answered this call. */
  datatype Counter<!K(==)> = Within(cadence: Cadence<K>) | Own(counted: Result<Answer, CounterFailure>)

  /** The response to a verdict: the handler runs on a call served, and a refusal's header is the least
      whole number of seconds, one or more, that covers the delay. */
  predicate Answers(r: Response, a: Answer) {
    && (r == Next <==> a.served)
    && (!a.served ==> r.TooManyRequests? && r.retryAfter >= 1 && r.retryAfter * SECOND >= a.delay
                      && (r.retryAfter > 1 ==> (r.retryAfter - 1) * SECOND < a.delay))
  }

  /** `LimitRate`: a request naming no caller takes no call; any other is answered by the counter's
      verdict, which is read on no error alone. Over `CountWithin` that is its own windows', whenever
      readings came in order. */
  method LimitRate<K(==)>(counter: Counter<K>, caller: Option<K>, at: int) returns (r: Response)
    requires counter.Within? ==> counter.cadence.Valid()
    modifies if counter.Within? then {counter.cadence} else {}
    ensures caller.None? ==> r == Next && (counter.Within? ==> counter.cadence.history == old(counter.cadence.history))
    ensures r == RateUnavailable <==> caller.Some? && counter.Own? && counter.counted.Err?
    ensures caller.Some? && counter.Own? && counter.counted.Ok? ==> Answers(r, counter.counted.value)
    ensures counter.Within? ==> counter.cadence.Valid()
    ensures caller.Some? && counter.Within? ==>
              var c := counter.cadence;
              && c.history == old(c.history) + [Call(caller.value, at)]
              && Answers(r, LastAnswer(c.limits, c.history))
              && (NonDecreasing(c.history) ==> Answers(r, GreedyAnswer(c.limits, c.history)))
  {
    if caller.None? {
      return Next;
    }
    var counted: Result<Answer, CounterFailure>;
    match counter {
      case Own(answered) => counted := answered;
      case Within(c) =>
        var served, delay := c.Count(caller.value, at);
        counted := Ok(Answer(served, delay));
    }
    if counted.Err? {
      return RateUnavailable;
    }
    if !counted.value.served {
      return TooManyRequests(RetryAfter(counted.value.delay));
    }
    return Next;
  }

  /** A refusal in order is told what is left of its key's own window. */
  lemma RefusalIsTheRest<K>(l: Limits, calls: seq<Call<K>>)
    requires calls != [] && NonDecreasing(calls) && !LastAnswer(l, calls).served
    ensures var o := Opener(l.window, calls, Last(calls).key).value;
            0 < LastAnswer(l, calls).delay == calls[o].at + l.window - Last(calls).at <= l.window
  {
    hide After, NeverForgets, Made, LastAnswer;
    SweepIsInvisible(l, calls);
    ReferenceIsGreedy(l, calls);
    DelayUnderAnyClock(l, calls);
  }

  /** A call a window or more after the opener of an earlier one is in a newer window. */
  lemma OpenerAfterTheWindow<K>(window: int, calls: seq<Call<K>>, i: nat)
    requires i < |calls| - 1 && calls[i].key == Last(calls).key
    requires Last(calls).at >= calls[Opener(window, calls[..i + 1], calls[i].key).value].at + window
    ensures Opener(window, calls, Last(calls).key).value > i
  {
    assert Earlier(calls)[..i + 1] == calls[..i + 1];
    OpenerMovesOn(window, Earlier(calls), Last(calls).key, i + 1);
  }

  /** A caller that comes back on the second it was told is served, unless its key opened a newer
      window since and exhausted that one. */
  lemma RetryPromise<K>(l: Limits, calls: seq<Call<K>>, i: nat)
    requires NonDecreasing(calls) && i < |calls| - 1 && calls[i].key == Last(calls).key
    requires !LastAnswer(l, calls[..i + 1]).served
    requires Last(calls).at >= calls[i].at + RetryAfter(LastAnswer(l, calls[..i + 1]).delay) * SECOND
    ensures 0 < LastAnswer(l, calls[..i + 1]).delay <= l.window
    ensures var o := Opener(l.window, calls, Last(calls).key).value;
            o > i && (LastAnswer(l, calls).served <==> Made(calls, Last(calls).key, o) <= l.ceiling)
    ensures (forall j :: i < j < |calls| - 1 ==> calls[j].key != Last(calls).key) ==> LastAnswer(l, calls).served
  {
    hide After, NeverForgets, Made, LastAnswer, Opener;
    var refused := calls[..i + 1];
    assert Last(refused) == calls[i];
    RefusalIsTheRest(l, refused);
    OpenerAfterTheWindow(l.window, calls, i);
    SweepIsInvisible(l, calls);
    ReferenceIsGreedy(l, calls);
    MadeFromTheEnd(calls, Last(calls).key);
  }
}
