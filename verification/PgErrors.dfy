/**
 Error classification of storage/postgres/errors.go over error trees. errors.Is and errors.As walk
 a tree in pre-order through Unwrap, whether it yields one error or several.
 */
module PgErrors {
  import opened Wrappers

  /** The errors a service meets: the two drivers' sentinels and refusals, what Classify returns,
      other leaves, and what wraps or joins them. A wrapper's text is its own. */
  datatype Err =
    | DriverNoRows
    | ErrNoRows
    | ErrUniqueViolation
    | UniqueViolation(constraint: string)
    | Failure(err: Err)
    | PgError(code: string, constraintName: string, text: string)
    | Leaf(text: string)
    | Wrapped(text: string, err: Err)
    | Joined(errs: seq<Err>)

  const UNIQUE_VIOLATION_CODE: string := "23505"

  /** What errors.Is is asked for here. */
  datatype Sentinel = ForDriverNoRows | ForErrNoRows | ForErrUniqueViolation

  /** Whether a node is the sentinel, or answers for it through its own Is method. */
  predicate Matches(e: Err, t: Sentinel) {
    match t
    case ForDriverNoRows => e.DriverNoRows?
    case ForErrNoRows => e.ErrNoRows?
    case ForErrUniqueViolation => e.ErrUniqueViolation? || e.UniqueViolation?
  }

  /** errors.Is. */
  predicate Is(e: Err, t: Sentinel)
    decreases e, 1
  {
    Matches(e, t) ||
    match e
    case ErrNoRows => Matches(DriverNoRows, t)
    case Failure(err) => Is(err, t)
    case Wrapped(_, err) => Is(err, t)
    case Joined(errs) => IsAny(errs, t)
    case _ => false
  }

  predicate IsAny(es: seq<Err>, t: Sentinel)
    decreases es, 0
  {
    es != [] && (Is(es[0], t) || IsAny(es[1..], t))
  }

  /** The types errors.As is asked for here. */
  datatype Kind = AFailure | APgError | AUniqueViolation

  predicate OfKind(e: Err, k: Kind) {
    match k
    case AFailure => e.Failure?
    case APgError => e.PgError?
    case AUniqueViolation => e.UniqueViolation?
  }

  /** errors.As: the first node of the type. */
  function As(e: Err, k: Kind): (r: Option<Err>)
    ensures r.Some? ==> OfKind(r.value, k)
    decreases e, 1
  {
    if OfKind(e, k) then Some(e)
    else
      match e
      case Failure(err) => As(err, k)
      case Wrapped(_, err) => As(err, k)
      case Joined(errs) => AsAny(errs, k)
      case _ => None
  }

  function AsAny(es: seq<Err>, k: Kind): (r: Option<Err>)
    ensures r.Some? ==> OfKind(r.value, k)
    decreases es, 0
  {
    if es == [] then None
    else
      var first := As(es[0], k);
      if first.Some? then first else AsAny(es[1..], k)
  }

  /** Whether the tree already holds one of what Classify returns. */
  predicate HoldsClass(e: Err) {
    Is(e, ForErrNoRows) || Is(e, ForErrUniqueViolation) || As(e, AFailure).Some?
  }

  /** None is the nil error. */
  function Classify(err: Option<Err>): Option<Err> {
    if err.None? then None
    else if HoldsClass(err.value) then err
    else if Is(err.value, ForDriverNoRows) then Some(ErrNoRows)
    else
      var refusal := As(err.value, APgError);
      if refusal.Some? && refusal.value.code == UNIQUE_VIOLATION_CODE
      then Some(UniqueViolation(refusal.value.constraintName))
      else Some(Failure(err.value))
  }

  function ConstraintName(err: Option<Err>): string {
    if err.None? then ""
    else
      var v := As(err.value, AUniqueViolation);
      if v.Some? then v.value.constraint else ""
  }

  /** Error(). A server refusal's own text, and any wrapper's, are whatever they are. */
  function Text(e: Err): string
    decreases e, 1
  {
    match e
    case DriverNoRows => "no rows in result set"
    case ErrNoRows => "pg: no rows in result set"
    case ErrUniqueViolation => "pg: unique violation"
    case UniqueViolation(_) => "pg: unique violation"
    case Failure(err) =>
      var refusal := As(err, APgError);
      if refusal.Some? then "pg: server error, SQLSTATE " + refusal.value.code else "pg: " + Text(err)
    case PgError(_, _, text) => text
    case Leaf(text) => text
    case Wrapped(text, _) => text
    case Joined(errs) => Lines(errs)
  }

  function Lines(es: seq<Err>): string
    decreases es, 0
  {
    if es == [] then "" else if |es| == 1 then Text(es[0]) else Text(es[0]) + "\n" + Lines(es[1..])
  }

  // ---------------------------------------------------------------- pre-order

  /** The tree's nodes in the order both walks visit them. */
  function Nodes(e: Err): (nodes: seq<Err>)
    ensures nodes != [] && nodes[0] == e
    decreases e, 1
  {
    [e] + match e
          case ErrNoRows => [DriverNoRows]
          case Failure(err) => Nodes(err)
          case Wrapped(_, err) => Nodes(err)
          case Joined(errs) => NodesOfAll(errs)
          case _ => []
  }

  function NodesOfAll(es: seq<Err>): seq<Err>
    decreases es, 0
  {
    if es == [] then [] else Nodes(es[0]) + NodesOfAll(es[1..])
  }

  function FirstOfKind(nodes: seq<Err>, k: Kind): (r: Option<Err>)
    ensures r.Some? ==> OfKind(r.value, k)
  {
    if nodes == [] then None else if OfKind(nodes[0], k) then Some(nodes[0]) else FirstOfKind(nodes[1..], k)
  }

  lemma {:induction false} FirstOfConcat(a: seq<Err>, b: seq<Err>, k: Kind)
    ensures FirstOfKind(a + b, k) == if FirstOfKind(a, k).Some? then FirstOfKind(a, k) else FirstOfKind(b, k)
  {
    if a == [] {
      assert a + b == b;
    } else {
      assert (a + b)[1..] == a[1..] + b;
      FirstOfConcat(a[1..], b, k);
    }
  }

  /** errors.As finds the first node of its type in pre-order, or none. */
  lemma {:induction false} AsFindsTheFirst(e: Err, k: Kind)
    ensures As(e, k) == FirstOfKind(Nodes(e), k)
    decreases e, 1
  {
    var below := Nodes(e)[1..];
    match e
    case Failure(err) => AsFindsTheFirst(err, k); assert below == Nodes(err);
    case Wrapped(_, err) => AsFindsTheFirst(err, k); assert below == Nodes(err);
    case Joined(errs) => AsAnyFindsTheFirst(errs, k); assert below == NodesOfAll(errs);
    case ErrNoRows => assert below == [DriverNoRows]; assert below[1..] == []; assert FirstOfKind(below, k) == None;
    case _ => assert below == [];
  }

  lemma {:induction false} AsAnyFindsTheFirst(es: seq<Err>, k: Kind)
    ensures AsAny(es, k) == FirstOfKind(NodesOfAll(es), k)
    decreases es, 0
  {
    if es != [] {
      AsFindsTheFirst(es[0], k);
      AsAnyFindsTheFirst(es[1..], k);
      FirstOfConcat(Nodes(es[0]), NodesOfAll(es[1..]), k);
    }
  }

  ghost predicate SomeMatches(nodes: seq<Err>, t: Sentinel) {
    exists i :: 0 <= i < |nodes| && Matches(nodes[i], t)
  }

  lemma MatchesInConcat(a: seq<Err>, b: seq<Err>, t: Sentinel)
    ensures SomeMatches(a + b, t) <==> SomeMatches(a, t) || SomeMatches(b, t)
  {
    if i :| 0 <= i < |a| && Matches(a[i], t) {
      assert (a + b)[i] == a[i];
    }
    if i :| 0 <= i < |b| && Matches(b[i], t) {
      assert (a + b)[|a| + i] == b[i];
    }
  }

  /** errors.Is holds exactly when some node of the tree matches. */
  lemma {:induction false} IsSearchesEveryNode(e: Err, t: Sentinel)
    ensures Is(e, t) <==> SomeMatches(Nodes(e), t)
    decreases e, 1
  {
    var below := Nodes(e)[1..];
    assert Nodes(e) == [e] + below;
    MatchesInConcat([e], below, t);
    assert SomeMatches([e], t) <==> Matches([e][0], t);
    match e
    case Failure(err) => IsSearchesEveryNode(err, t); assert below == Nodes(err);
    case Wrapped(_, err) => IsSearchesEveryNode(err, t); assert below == Nodes(err);
    case Joined(errs) => IsAnySearchesEveryNode(errs, t); assert below == NodesOfAll(errs);
    case ErrNoRows => assert below == [DriverNoRows]; assert SomeMatches(below, t) <==> Matches(below[0], t);
    case _ => assert below == [];
  }

  lemma {:induction false} IsAnySearchesEveryNode(es: seq<Err>, t: Sentinel)
    ensures IsAny(es, t) <==> SomeMatches(NodesOfAll(es), t)
    decreases es, 0
  {
    if es != [] {
      IsSearchesEveryNode(es[0], t);
      IsAnySearchesEveryNode(es[1..], t);
      MatchesInConcat(Nodes(es[0]), NodesOfAll(es[1..]), t);
    }
  }

  // ---------------------------------------------------------------- what Classify promises

  /** Any stack of wraps, joins and *Errors around a hole. */
  datatype Context =
    | Hole
    | InWrap(text: string, inner: Context)
    | InJoin(before: seq<Err>, inner: Context, after: seq<Err>)
    | InFailure(inner: Context)

  function Fill(c: Context, e: Err): Err {
    match c
    case Hole => e
    case InWrap(text, inner) => Wrapped(text, Fill(inner, e))
    case InJoin(before, inner, after) => Joined(before + [Fill(inner, e)] + after)
    case InFailure(inner) => Failure(Fill(inner, e))
  }

  lemma {:induction false} AnyOfConcat(before: seq<Err>, e: Err, after: seq<Err>, t: Sentinel, k: Kind)
    ensures Is(e, t) ==> IsAny(before + [e] + after, t)
    ensures As(e, k).Some? ==> AsAny(before + [e] + after, k).Some?
  {
    var es := before + [e] + after;
    if before == [] {
      assert es[0] == e;
    } else {
      AnyOfConcat(before[1..], e, after, t, k);
      assert es[1..] == before[1..] + [e] + after;
    }
  }

  lemma {:induction false} SeenThroughContext(c: Context, e: Err, t: Sentinel, k: Kind)
    ensures Is(e, t) ==> Is(Fill(c, e), t)
    ensures As(e, k).Some? ==> As(Fill(c, e), k).Some?
  {
    match c
    case Hole =>
    case InWrap(_, inner) => SeenThroughContext(inner, e, t, k);
    case InFailure(inner) => SeenThroughContext(inner, e, t, k);
    case InJoin(before, inner, after) =>
      SeenThroughContext(inner, e, t, k);
      var es := before + [Fill(inner, e)] + after;
      assert Fill(c, e) == Joined(es);
      AnyOfConcat(before, Fill(inner, e), after, t, k);
  }

  /** Whatever wraps or joins what Classify returned, Classify gives it back unchanged. */
  lemma ClassifyIsStable(c: Context, e: Err)
    ensures var read := Fill(c, Classify(Some(e)).value);
            Classify(Some(read)) == Some(read)
  {
    var r := Classify(Some(e)).value;
    SeenThroughContext(c, r, ForErrNoRows, AFailure);
    SeenThroughContext(c, r, ForErrUniqueViolation, AFailure);
    assert HoldsClass(r);
  }

  lemma {:induction false} ErrNoRowsIsDriverNoRows(e: Err)
    requires Is(e, ForErrNoRows)
    ensures Is(e, ForDriverNoRows)
    decreases e, 1
  {
    match e
    case Failure(err) => ErrNoRowsIsDriverNoRows(err);
    case Wrapped(_, err) => ErrNoRowsIsDriverNoRows(err);
    case Joined(errs) => SomeErrNoRowsIsDriverNoRows(errs);
    case _ =>
  }

  lemma {:induction false} SomeErrNoRowsIsDriverNoRows(es: seq<Err>)
    requires IsAny(es, ForErrNoRows)
    ensures IsAny(es, ForDriverNoRows)
    decreases es, 0
  {
    if Is(es[0], ForErrNoRows) {
      ErrNoRowsIsDriverNoRows(es[0]);
    } else {
      SomeErrNoRowsIsDriverNoRows(es[1..]);
    }
  }

  /** Whatever wraps or joins what Classify returned, code testing the driver's own missing row keeps
      matching: ErrNoRows is never seen without it. What Classify itself returned of a tree holding none
      of its own classes matches either or neither. */
  lemma MissingRowIsTheDrivers(c: Context, e: Err)
    ensures var r := Classify(Some(e)).value;
            && (Is(Fill(c, r), ForErrNoRows) ==> Is(Fill(c, r), ForDriverNoRows))
            && (Is(e, ForDriverNoRows) ==> Is(Fill(c, r), ForDriverNoRows))
            && (!HoldsClass(e) ==> (Is(r, ForErrNoRows) <==> Is(r, ForDriverNoRows)))
  {
    var r := Classify(Some(e)).value;
    if Is(Fill(c, r), ForErrNoRows) {
      ErrNoRowsIsDriverNoRows(Fill(c, r));
    }
    SeenThroughContext(c, r, ForDriverNoRows, AFailure);
  }

  lemma UniqueViolationMatches(e: Err)
    requires As(e, AUniqueViolation).Some?
    ensures Is(e, ForErrUniqueViolation)
  {
    AsFindsTheFirst(e, AUniqueViolation);
    var i := FirstIsANode(Nodes(e), AUniqueViolation);
    IsSearchesEveryNode(e, ForErrUniqueViolation);
  }

  lemma {:induction false} FirstIsANode(nodes: seq<Err>, k: Kind) returns (i: nat)
    requires FirstOfKind(nodes, k).Some?
    ensures i < |nodes| && nodes[i] == FirstOfKind(nodes, k).value && OfKind(nodes[i], k)
  {
    if OfKind(nodes[0], k) {
      i := 0;
    } else {
      i := FirstIsANode(nodes[1..], k);
      i := i + 1;
    }
  }

  /** A tree holding none of the three is read into exactly one of them: a missing row first, then
      the first server refusal's own code, and a failure otherwise. */
  lemma ClassifyReadsIntoOne(e: Err)
    requires !HoldsClass(e)
    ensures var r := Classify(Some(e)).value;
            var row, refusal := Is(e, ForDriverNoRows), FirstOfKind(Nodes(e), APgError);
            var unique := refusal.Some? && refusal.value.code == "23505";
            && (Is(r, ForErrNoRows) <==> row)
            && (Is(r, ForErrUniqueViolation) <==> !row && unique)
            && (As(r, AFailure).Some? <==> !row && !unique)
            && (Is(r, ForDriverNoRows) <==> row)
            && (As(r, AFailure).Some? ==> As(r, APgError) == refusal)
            && ConstraintName(Some(r)) == if !row && unique then refusal.value.constraintName else ""
  {
    AsFindsTheFirst(e, APgError);
    if As(e, AUniqueViolation).Some? {
      UniqueViolationMatches(e);
    }
  }

  /** The text an *Error shows of a chain holding a server refusal tells the first refusal's code and
      nothing else: the server's own fields, and the text of whatever wraps it, do not reach it. */
  lemma TextShowsTheCodeAlone(e: Err, e': Err)
    requires FirstOfKind(Nodes(e), APgError).Some? && FirstOfKind(Nodes(e'), APgError).Some?
    ensures Text(Failure(e)) == Text(Failure(e')) <==>
            FirstOfKind(Nodes(e), APgError).value.code == FirstOfKind(Nodes(e'), APgError).value.code
  {
    AsFindsTheFirst(e, APgError);
    AsFindsTheFirst(e', APgError);
    var said := "pg: server error, SQLSTATE ";
    assert Text(Failure(e))[|said|..] == As(e, APgError).value.code;
    assert Text(Failure(e'))[|said|..] == As(e', APgError).value.code;
  }

  /** An *Error's text is fixed but for the first refusal's code when its chain holds one, and otherwise
      keeps the cause's own. */
  lemma FailureText(e: Err)
    ensures var refusal := FirstOfKind(Nodes(e), APgError);
            Text(Failure(e)) == if refusal.Some? then "pg: server error, SQLSTATE " + refusal.value.code
                                else "pg: " + Text(e)
  {
    AsFindsTheFirst(e, APgError);
  }

  /** The three texts Classify gives, told apart by their fifth character. */
  lemma ClassifiedText(e: Err)
    requires !HoldsClass(e) && As(e, APgError).Some?
    ensures var code, t := As(e, APgError).value.code, Text(Classify(Some(e)).value);
            && |t| > 4
            && (t[4] == 'n' <==> Is(e, ForDriverNoRows))
            && (t[4] == 'u' <==> !Is(e, ForDriverNoRows) && code == UNIQUE_VIOLATION_CODE)
            && (t[4] == 'n' ==> t == Text(ErrNoRows)) && (t[4] == 'u' ==> t == Text(ErrUniqueViolation))
            && (t[4] != 'n' && t[4] != 'u' ==> t == Text(Failure(e)))
  {
    RefusalText(e);
    hide As;
    assert Text(ErrNoRows)[4] == 'n' && Text(ErrUniqueViolation)[4] == 'u';
  }

  lemma RefusalText(e: Err)
    requires As(e, APgError).Some?
    ensures |Text(Failure(e))| > 4 && Text(Failure(e))[4] == 's'
  {
    var said := "pg: server error, SQLSTATE ";
    assert Text(Failure(e)) == said + As(e, APgError).value.code;
    assert (said + As(e, APgError).value.code)[4] == said[4];
  }

  /** The text of what Classify returned of such a tree tells a missing row, or else the first refusal's
      code, and nothing else. */
  lemma ClassifiedTextShowsTheCodeAlone(e: Err, e': Err)
    requires !HoldsClass(e) && !HoldsClass(e')
    requires FirstOfKind(Nodes(e), APgError).Some? && FirstOfKind(Nodes(e'), APgError).Some?
    ensures var row, row' := Is(e, ForDriverNoRows), Is(e', ForDriverNoRows);
            Text(Classify(Some(e)).value) == Text(Classify(Some(e')).value) <==>
            (row && row')
            || (!row && !row'
                && FirstOfKind(Nodes(e), APgError).value.code == FirstOfKind(Nodes(e'), APgError).value.code)
  {
    AsFindsTheFirst(e, APgError);
    AsFindsTheFirst(e', APgError);
    ClassifiedText(e);
    ClassifiedText(e');
    TextShowsTheCodeAlone(e, e');
  }

  predicate OfClass(e: Err) {
    e.ErrNoRows? || e.ErrUniqueViolation? || e.UniqueViolation? || e.Failure?
  }

  /** The trees Classify gives back as they are: exactly those with a node that is one of its own three
      classes. */
  lemma HoldsClassIff(e: Err)
    ensures HoldsClass(e) <==> exists i :: 0 <= i < |Nodes(e)| && OfClass(Nodes(e)[i])
    ensures Classify(Some(e)) == Some(e) || !HoldsClass(e)
  {
    var nodes := Nodes(e);
    IsSearchesEveryNode(e, ForErrNoRows);
    IsSearchesEveryNode(e, ForErrUniqueViolation);
    AsFindsTheFirst(e, AFailure);
    if FirstOfKind(nodes, AFailure).Some? {
      var i := FirstIsANode(nodes, AFailure);
    }
    if i :| 0 <= i < |nodes| && OfClass(nodes[i]) {
      assert nodes[i].ErrNoRows? ==> Matches(nodes[i], ForErrNoRows);
      assert nodes[i].ErrUniqueViolation? || nodes[i].UniqueViolation? ==> Matches(nodes[i], ForErrUniqueViolation);
      if nodes[i].Failure? {
        NodeIsFound(nodes, i, AFailure);
      }
    }
    if i :| 0 <= i < |nodes| && Matches(nodes[i], ForErrNoRows) {
      assert OfClass(nodes[i]);
    }
    if i :| 0 <= i < |nodes| && Matches(nodes[i], ForErrUniqueViolation) {
      assert OfClass(nodes[i]);
    }
  }

  lemma {:induction false} NodeIsFound(nodes: seq<Err>, i: nat, k: Kind)
    requires i < |nodes| && OfKind(nodes[i], k)
    ensures FirstOfKind(nodes, k).Some?
  {
    if i > 0 && !OfKind(nodes[0], k) {
      NodeIsFound(nodes[1..], i - 1, k);
    }
  }

  /** nil is nil, and no other error is read as nil. */
  lemma NilStaysNil(err: Option<Err>)
    ensures Classify(err) == None <==> err == None
    ensures ConstraintName(None) == ""
  {
  }

  /** The constraint of any error is the first violation's in pre-order, through wraps and joins, and no
      name without one. */
  lemma ConstraintNameIsTheFirst(e: Err, i: nat)
    requires i <= |Nodes(e)| && forall j :: 0 <= j < i ==> !Nodes(e)[j].UniqueViolation?
    ensures i == |Nodes(e)| ==> ConstraintName(Some(e)) == ""
    ensures i < |Nodes(e)| && Nodes(e)[i].UniqueViolation? ==>
              ConstraintName(Some(e)) == Nodes(e)[i].constraint
  {
    AsFindsTheFirst(e, AUniqueViolation);
    FirstIs(Nodes(e), i, AUniqueViolation);
  }

  lemma {:induction false} FirstIs(nodes: seq<Err>, i: nat, k: Kind)
    requires i <= |nodes| && forall j :: 0 <= j < i ==> !OfKind(nodes[j], k)
    ensures i == |nodes| ==> FirstOfKind(nodes, k) == None
    ensures i < |nodes| && OfKind(nodes[i], k) ==> FirstOfKind(nodes, k) == Some(nodes[i])
  {
    if i > 0 {
      FirstIs(nodes[1..], i - 1, k);
    }
  }

  /** A violation keeps its name under any wraps, and under joins with no other before it. */
  lemma ConstraintNameThrough(c: Context, name: string)
    requires NoneBefore(c)
    ensures ConstraintName(Some(Fill(c, UniqueViolation(name)))) == name
  {
    ViolationThrough(c, name);
  }

  lemma {:induction false} ViolationThrough(c: Context, name: string)
    requires NoneBefore(c)
    ensures As(Fill(c, UniqueViolation(name)), AUniqueViolation) == Some(UniqueViolation(name))
  {
    match c
    case Hole =>
    case InWrap(_, inner) => ViolationThrough(inner, name);
    case InFailure(inner) => ViolationThrough(inner, name);
    case InJoin(before, inner, after) =>
      ViolationThrough(inner, name);
      FirstInJoin(before, Fill(inner, UniqueViolation(name)), after);
      assert Fill(c, UniqueViolation(name)) == Joined(before + [Fill(inner, UniqueViolation(name))] + after);
  }

  /** No violation stands before the hole. */
  predicate NoneBefore(c: Context) {
    match c
    case Hole => true
    case InWrap(_, inner) => NoneBefore(inner)
    case InFailure(inner) => NoneBefore(inner)
    case InJoin(before, inner, _) => NoneBefore(inner) && AsAny(before, AUniqueViolation).None?
  }

  lemma {:induction false} FirstInJoin(before: seq<Err>, e: Err, after: seq<Err>)
    requires AsAny(before, AUniqueViolation).None? && As(e, AUniqueViolation).Some?
    ensures AsAny(before + [e] + after, AUniqueViolation) == As(e, AUniqueViolation)
  {
    var es := before + [e] + after;
    if before == [] {
      assert es[0] == e;
    } else {
      FirstInJoin(before[1..], e, after);
      assert es[0] == before[0] && es[1..] == before[1..] + [e] + after;
    }
  }
}
