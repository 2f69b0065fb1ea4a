/** The default dynamic-content evaluator (DefaultDynamicContentEvaluatorImpl.cs):
    which content items a store shows in a content place. The publishing
    groups the repository holds are an input sequence, dates are ticks, the
    clock is a parameter, and a publishing's serialized condition is
    answered by an oracle that returns `None` where deserialising or running
    it throws. */
module DynamicContentEvaluator {
  import opened Wrappers
  import opened StableSort

  /** The context handed to the evaluator: a `DynamicContentEvaluationContext`
      or any other kind of evaluation context. `toDate == 0` is
      `default(DateTime)`. */
  datatype EvaluationContext =
    | DynamicContext(storeId: string, placeName: string, toDate: int)
    | OtherContext

  /** A publishing group with its content places (by name) and the ids of its
      content items. */
  datatype Publishing = Publishing(
    isActive: bool,
    storeId: string,
    startDate: Option<int>,
    endDate: Option<int>,
    places: seq<string>,
    priority: int,
    conditionExpression: Option<string>,
    contentItemIds: seq<string>)

  /** Deserialising and running a condition against the context; `None` when
      either throws. */
  type ConditionEval = (string, EvaluationContext) -> Option<bool>

  datatype EvaluatorError = ArgumentError(message: string)

  const DefaultDate := 0

  /** The context after the defaulting of `ToDate` to the current time. */
  function WithDefaultDate(ctx: EvaluationContext, now: int): (r: EvaluationContext)
    requires ctx.DynamicContext?
    ensures r.DynamicContext? && r.storeId == ctx.storeId && r.placeName == ctx.placeName
    ensures ctx.toDate == DefaultDate ==> r.toDate == now
    ensures ctx.toDate != DefaultDate ==> r == ctx
  {
    if ctx.toDate == DefaultDate then ctx.(toDate := now) else ctx
  }

  /** The repository's `Where` clauses. */
  predicate IsCandidate(p: Publishing, ctx: EvaluationContext)
    requires ctx.DynamicContext?
  {
    && p.isActive
    && p.storeId == ctx.storeId
    && (p.startDate.None? || ctx.toDate >= p.startDate.value)
    && (p.endDate.None? || p.endDate.value >= ctx.toDate)
    && ctx.placeName in p.places
  }

  function Filter(rows: seq<Publishing>, ctx: EvaluationContext): (r: seq<Publishing>)
    requires ctx.DynamicContext?
    ensures |r| <= |rows|
    ensures forall p :: p in r <==> p in rows && IsCandidate(p, ctx)
    ensures multiset(r) <= multiset(rows)
    ensures forall p :: multiset(r)[p] == if IsCandidate(p, ctx) then multiset(rows)[p] else 0
    decreases |rows|
  {
    if |rows| == 0 then []
    else
      var rest := Filter(rows[1..], ctx);
      assert rows == [rows[0]] + rows[1..];
      assert multiset(rows) == multiset{rows[0]} + multiset(rows[1..]);
      if IsCandidate(rows[0], ctx) then [rows[0]] + rest else rest
  }

  function PriorityOf(p: Publishing): int {
    p.priority
  }

  /** The candidates in ascending priority (`OrderBy(x => x.Priority)`, taken
      as a stable sort). */
  function Candidates(rows: seq<Publishing>, ctx: EvaluationContext): (r: seq<Publishing>)
    requires ctx.DynamicContext?
    ensures SortedBy(r, PriorityOf)
    ensures multiset(r) == multiset(Filter(rows, ctx))
    ensures forall p :: p in r <==> p in rows && IsCandidate(p, ctx)
  {
    var f := Filter(rows, ctx);
    SortByPermutes(f, PriorityOf);
    var r := SortBy(f, PriorityOf);
    assert forall p :: p in r <==> p in multiset(r);
    r
  }

  /** Which publishings a collection pass takes: those without a condition,
      those whose condition evaluated to true, or both. */
  datatype Pass = Unconditioned | ConditionHolds | Contributing

  predicate Kept(p: Publishing, pass: Pass, ctx: EvaluationContext, eval: ConditionEval) {
    match pass
    case Unconditioned => p.conditionExpression.None?
    case ConditionHolds =>
      p.conditionExpression.Some? && eval(p.conditionExpression.value, ctx) == Some(true)
    case Contributing =>
      p.conditionExpression.None? || eval(p.conditionExpression.value, ctx) == Some(true)
  }

  /** Some publishing of `ps` that the pass keeps holds `id`. */
  predicate HeldIn(id: string, ps: seq<Publishing>, pass: Pass, ctx: EvaluationContext, eval: ConditionEval) {
    exists j :: 0 <= j < |ps| && Kept(ps[j], pass, ctx, eval) && id in ps[j].contentItemIds
  }

  /** Some candidate row that the pass keeps holds `id`. */
  predicate HeldByCandidate(id: string, rows: seq<Publishing>, pass: Pass, ctx: EvaluationContext, eval: ConditionEval)
    requires ctx.DynamicContext?
  {
    exists p :: p in rows && IsCandidate(p, ctx) && Kept(p, pass, ctx, eval) && id in p.contentItemIds
  }

  /** The content item ids of the kept publishings, in order, duplicates kept. */
  function CollectIds(ps: seq<Publishing>, pass: Pass, ctx: EvaluationContext, eval: ConditionEval): (r: seq<string>)
    ensures forall id :: id in r <==> HeldIn(id, ps, pass, ctx, eval)
    decreases |ps|
  {
    if |ps| == 0 then []
    else
      var rest := CollectIds(ps[1..], pass, ctx, eval);
      assert forall id :: HeldIn(id, ps, pass, ctx, eval) <==>
               (Kept(ps[0], pass, ctx, eval) && id in ps[0].contentItemIds) || HeldIn(id, ps[1..], pass, ctx, eval) by {
        forall id ensures HeldIn(id, ps, pass, ctx, eval) <==>
               (Kept(ps[0], pass, ctx, eval) && id in ps[0].contentItemIds) || HeldIn(id, ps[1..], pass, ctx, eval) {
          if HeldIn(id, ps[1..], pass, ctx, eval) {
            var j :| 0 <= j < |ps[1..]| && Kept(ps[1..][j], pass, ctx, eval) && id in ps[1..][j].contentItemIds;
            assert ps[j + 1] == ps[1..][j];
          }
          if HeldIn(id, ps, pass, ctx, eval) {
            var j :| 0 <= j < |ps| && Kept(ps[j], pass, ctx, eval) && id in ps[j].contentItemIds;
            if j > 0 {
              assert ps[1..][j - 1] == ps[j];
            }
          }
        }
      }
      if Kept(ps[0], pass, ctx, eval) then ps[0].contentItemIds + rest else rest
  }

  /** Being held is a matter of which publishings are present, not of their
      order or number. */
  lemma HeldInSameMembers(id: string, ps: seq<Publishing>, rows: seq<Publishing>, pass: Pass, ctx: EvaluationContext, eval: ConditionEval)
    requires ctx.DynamicContext?
    requires forall p :: p in ps <==> p in rows && IsCandidate(p, ctx)
    ensures HeldIn(id, ps, pass, ctx, eval) <==> HeldByCandidate(id, rows, pass, ctx, eval)
  {
    if HeldIn(id, ps, pass, ctx, eval) {
      var j :| 0 <= j < |ps| && Kept(ps[j], pass, ctx, eval) && id in ps[j].contentItemIds;
      assert ps[j] in ps;
    }
    if HeldByCandidate(id, rows, pass, ctx, eval) {
      var p :| p in rows && IsCandidate(p, ctx) && Kept(p, pass, ctx, eval) && id in p.contentItemIds;
      assert p in ps;
      var j :| 0 <= j < |ps| && ps[j] == p;
    }
  }

  /** `HeldInSameMembers` for every id, in both passes. */
  lemma HeldInSameMembersAll(ps: seq<Publishing>, rows: seq<Publishing>, ctx: EvaluationContext, eval: ConditionEval)
    requires ctx.DynamicContext?
    requires forall p :: p in ps <==> p in rows && IsCandidate(p, ctx)
    ensures forall id :: HeldIn(id, ps, Unconditioned, ctx, eval) ==> HeldByCandidate(id, rows, Unconditioned, ctx, eval)
    ensures forall id :: HeldIn(id, ps, ConditionHolds, ctx, eval) ==> HeldByCandidate(id, rows, ConditionHolds, ctx, eval)
  {
    forall id | HeldIn(id, ps, Unconditioned, ctx, eval) ensures HeldByCandidate(id, rows, Unconditioned, ctx, eval) {
      HeldInSameMembers(id, ps, rows, Unconditioned, ctx, eval);
    }
    forall id | HeldIn(id, ps, ConditionHolds, ctx, eval) ensures HeldByCandidate(id, rows, ConditionHolds, ctx, eval) {
      HeldInSameMembers(id, ps, rows, ConditionHolds, ctx, eval);
    }
  }

  /** Being held by a candidate does not depend on the order of the candidates. */
  lemma HeldInCandidates(id: string, rows: seq<Publishing>, pass: Pass, ctx: EvaluationContext, eval: ConditionEval)
    requires ctx.DynamicContext?
    ensures HeldIn(id, Candidates(rows, ctx), pass, ctx, eval) <==> HeldByCandidate(id, rows, pass, ctx, eval)
  {
    HeldInSameMembers(id, Candidates(rows, ctx), rows, pass, ctx, eval);
  }

  /** The ids of the publishings in `ps`: first those of every publishing
      without a condition, then those of every publishing whose condition holds. */
  function OrderedIds(ps: seq<Publishing>, ctx: EvaluationContext, eval: ConditionEval): (r: seq<string>)
    ensures var k := |CollectIds(ps, Unconditioned, ctx, eval)|;
            && k <= |r|
            && (forall i :: 0 <= i < k ==> HeldIn(r[i], ps, Unconditioned, ctx, eval))
            && (forall i :: k <= i < |r| ==> HeldIn(r[i], ps, ConditionHolds, ctx, eval))
  {
    var u := CollectIds(ps, Unconditioned, ctx, eval);
    var h := CollectIds(ps, ConditionHolds, ctx, eval);
    assert forall i :: 0 <= i < |u| ==> (u + h)[i] in u;
    assert forall i :: |u| <= i < |u| + |h| ==> (u + h)[i] in h;
    u + h
  }

  /** `EvaluateItemsAsync`, up to the ids handed to `GetContentItemsByIdsAsync`:
      an argument error for any other kind of context; otherwise the ids of
      the unconditioned candidates come first and those of the candidates
      whose condition holds after them. */
  function EvaluateItems(ctx: EvaluationContext, rows: seq<Publishing>, now: int, eval: ConditionEval): (r: Result<seq<string>, EvaluatorError>)
    ensures ctx.OtherContext? <==> r.Failure?
    ensures r.Success? ==>
              var c := WithDefaultDate(ctx, now);
              var k := |CollectIds(Candidates(rows, c), Unconditioned, c, eval)|;
              && k <= |r.value|
              && (forall i :: 0 <= i < k ==> HeldByCandidate(r.value[i], rows, Unconditioned, c, eval))
              && (forall i :: k <= i < |r.value| ==> HeldByCandidate(r.value[i], rows, ConditionHolds, c, eval))
  {
    match ctx
    case OtherContext => Failure(ArgumentError("The context must be a DynamicContentEvaluationContext."))
    case DynamicContext(_, _, _) =>
      var c := WithDefaultDate(ctx, now);
      var ps := Candidates(rows, c);
      HeldInSameMembersAll(ps, rows, c, eval);
      Success(OrderedIds(ps, c, eval))
  }

  /** A content item is listed exactly when some candidate publishing holds it
      and either has no condition or has one that evaluated to true. */
  lemma EvaluateItemsMembers(ctx: EvaluationContext, rows: seq<Publishing>, now: int, eval: ConditionEval, id: string)
    requires ctx.DynamicContext?
    ensures var c := WithDefaultDate(ctx, now);
            id in EvaluateItems(ctx, rows, now, eval).value <==> HeldByCandidate(id, rows, Contributing, c, eval)
  {
    var c := WithDefaultDate(ctx, now);
    var ps := Candidates(rows, c);
    var ids := EvaluateItems(ctx, rows, now, eval).value;
    assert ids == CollectIds(ps, Unconditioned, c, eval) + CollectIds(ps, ConditionHolds, c, eval);
    HeldInCandidates(id, rows, Unconditioned, c, eval);
    HeldInCandidates(id, rows, ConditionHolds, c, eval);
    HeldInCandidates(id, rows, Contributing, c, eval);
    if HeldIn(id, ps, Contributing, c, eval) {
      var j :| 0 <= j < |ps| && Kept(ps[j], Contributing, c, eval) && id in ps[j].contentItemIds;
      if ps[j].conditionExpression.None? {
        assert HeldIn(id, ps, Unconditioned, c, eval);
      } else {
        assert HeldIn(id, ps, ConditionHolds, c, eval);
      }
    }
    if HeldIn(id, ps, Unconditioned, c, eval) {
      var j :| 0 <= j < |ps| && Kept(ps[j], Unconditioned, c, eval) && id in ps[j].contentItemIds;
      assert Kept(ps[j], Contributing, c, eval);
    }
    if HeldIn(id, ps, ConditionHolds, c, eval) {
      var j :| 0 <= j < |ps| && Kept(ps[j], ConditionHolds, c, eval) && id in ps[j].contentItemIds;
      assert Kept(ps[j], Contributing, c, eval);
    }
  }

  /** Collecting distributes over concatenation. */
  lemma {:induction false} CollectIdsAppend(a: seq<Publishing>, b: seq<Publishing>, pass: Pass, ctx: EvaluationContext, eval: ConditionEval)
    ensures CollectIds(a + b, pass, ctx, eval) == CollectIds(a, pass, ctx, eval) + CollectIds(b, pass, ctx, eval)
    decreases |a|
  {
    if |a| == 0 {
      assert a + b == b;
    } else {
      assert (a + b)[0] == a[0];
      assert (a + b)[1..] == a[1..] + b;
      CollectIdsAppend(a[1..], b, pass, ctx, eval);
    }
  }

  /** A publishing whose condition throws adds nothing, and the publishings
      after it are still collected. */
  lemma ThrowingConditionIsSkipped(ps: seq<Publishing>, i: nat, pass: Pass, ctx: EvaluationContext, eval: ConditionEval)
    requires i < |ps|
    requires ps[i].conditionExpression.Some? && eval(ps[i].conditionExpression.value, ctx).None?
    ensures CollectIds(ps, pass, ctx, eval) == CollectIds(ps[..i] + ps[i + 1..], pass, ctx, eval)
  {
    assert ps == ps[..i] + ([ps[i]] + ps[i + 1..]);
    CollectIdsAppend(ps[..i], [ps[i]] + ps[i + 1..], pass, ctx, eval);
    CollectIdsAppend([ps[i]], ps[i + 1..], pass, ctx, eval);
    CollectIdsAppend(ps[..i], ps[i + 1..], pass, ctx, eval);
    assert [ps[i]][1..] == [];
  }

  /** The two passes together take, as a multiset, exactly the ids of the
      contributing publishings: the order changes, the multiplicities do not. */
  lemma {:induction false} PassesPartitionContributing(ps: seq<Publishing>, ctx: EvaluationContext, eval: ConditionEval)
    ensures multiset(OrderedIds(ps, ctx, eval)) == multiset(CollectIds(ps, Contributing, ctx, eval))
    decreases |ps|
  {
    if |ps| > 0 {
      PassesPartitionContributing(ps[1..], ctx, eval);
    }
  }

  /** Ids are not de-duplicated: an item held by two contributing
      publishings is listed at least twice. */
  lemma ContributedTwiceListedTwice(ps: seq<Publishing>, i: nat, j: nat, ctx: EvaluationContext, eval: ConditionEval, id: string)
    requires i < j < |ps|
    requires Kept(ps[i], Contributing, ctx, eval) && Kept(ps[j], Contributing, ctx, eval)
    requires id in ps[i].contentItemIds && id in ps[j].contentItemIds
    ensures multiset(OrderedIds(ps, ctx, eval))[id] >= 2
  {
    PassesPartitionContributing(ps, ctx, eval);
    var pass := Contributing;
    assert ps == ps[..i] + ([ps[i]] + (ps[i + 1..j] + ([ps[j]] + ps[j + 1..])));
    CollectIdsAppend(ps[..i], [ps[i]] + (ps[i + 1..j] + ([ps[j]] + ps[j + 1..])), pass, ctx, eval);
    CollectIdsAppend([ps[i]], ps[i + 1..j] + ([ps[j]] + ps[j + 1..]), pass, ctx, eval);
    CollectIdsAppend(ps[i + 1..j], [ps[j]] + ps[j + 1..], pass, ctx, eval);
    CollectIdsAppend([ps[j]], ps[j + 1..], pass, ctx, eval);
    assert [ps[i]][1..] == [] && [ps[j]][1..] == [];
    assert CollectIds([ps[i]], pass, ctx, eval) == ps[i].contentItemIds;
    assert CollectIds([ps[j]], pass, ctx, eval) == ps[j].contentItemIds;
    assert multiset(ps[i].contentItemIds)[id] >= 1;
    assert multiset(ps[j].contentItemIds)[id] >= 1;
  }

  /** Two positions of a value that occurs at least twice. */
  lemma {:induction false} TwoPositions(s: seq<Publishing>, x: Publishing) returns (i: nat, j: nat)
    requires multiset(s)[x] >= 2
    ensures i < j < |s| && s[i] == x && s[j] == x
    decreases |s|
  {
    assert s == [s[0]] + s[1..];
    assert multiset(s) == multiset{s[0]} + multiset(s[1..]);
    if s[0] == x {
      assert x in multiset(s[1..]);
      var k :| 0 <= k < |s[1..]| && s[1..][k] == x;
      i, j := 0, k + 1;
    } else {
      var a, b := TwoPositions(s[1..], x);
      i, j := a + 1, b + 1;
    }
  }

  /** No de-duplication from the rows to the result: a contributing candidate
      row stored twice lists each of its content items at least twice. */
  lemma RepeatedRowListedTwice(ctx: EvaluationContext, rows: seq<Publishing>, now: int, eval: ConditionEval, p: Publishing, id: string)
    requires ctx.DynamicContext?
    requires multiset(rows)[p] >= 2
    requires IsCandidate(p, WithDefaultDate(ctx, now)) && Kept(p, Contributing, WithDefaultDate(ctx, now), eval)
    requires id in p.contentItemIds
    ensures multiset(EvaluateItems(ctx, rows, now, eval).value)[id] >= 2
  {
    var c := WithDefaultDate(ctx, now);
    var ps := Candidates(rows, c);
    assert multiset(ps)[p] == multiset(Filter(rows, c))[p] == multiset(rows)[p];
    var i, j := TwoPositions(ps, p);
    ContributedTwiceListedTwice(ps, i, j, c, eval, id);
  }

  /** A default `ToDate` behaves as if the current time had been given, and
      a given `ToDate` makes the clock irrelevant. */
  lemma DefaultDateIsNow(storeId: string, placeName: string, toDate: int, rows: seq<Publishing>, now: int, later: int, eval: ConditionEval)
    requires now != DefaultDate
    ensures EvaluateItems(DynamicContext(storeId, placeName, DefaultDate), rows, now, eval)
         == EvaluateItems(DynamicContext(storeId, placeName, now), rows, later, eval)
    ensures toDate != DefaultDate ==>
              (EvaluateItems(DynamicContext(storeId, placeName, toDate), rows, now, eval)
               == EvaluateItems(DynamicContext(storeId, placeName, toDate), rows, later, eval))
  {
  }
}
