/** The promotion condition "the customer belongs to user group G"
    (UserGroupsContainsCondition.cs). Case-insensitive comparison is
    modelled as ASCII case folding. */
module UserGroupsCondition {
  import opened Wrappers

  /** The evaluation context handed to a condition: an `EvaluationContextBase`
      with its (possibly null) user groups, or some other context type. */
  datatype EvaluationContext = BaseContext(userGroups: Option<seq<string>>) | OtherContext

  /** ASCII lower-casing of one character. */
  function FoldChar(c: char): (r: char)
    ensures 'A' <= c <= 'Z' ==> 'a' <= r <= 'z' && r as int - c as int == 32
    ensures !('A' <= c <= 'Z') ==> r == c
  {
    if 'A' <= c <= 'Z' then (c as int + 32) as char else c
  }

  function Fold(s: string): (r: string)
    ensures |r| == |s|
    ensures forall i :: 0 <= i < |s| ==> r[i] == FoldChar(s[i])
  {
    seq(|s|, i requires 0 <= i < |s| => FoldChar(s[i]))
  }

  /** `string.Equals(a, b, InvariantCultureIgnoreCase)`. */
  predicate EqualsIgnoreCase(a: string, b: string) {
    Fold(a) == Fold(b)
  }

  /** ASCII upper-casing of one character. */
  function UpperChar(c: char): char {
    if 'a' <= c <= 'z' then (c as int - 32) as char else c
  }

  function Upper(s: string): string {
    seq(|s|, i requires 0 <= i < |s| => UpperChar(s[i]))
  }

  /** `UserGroups.Any(x => EqualsIgnoreCase(x, group))`, left to right. */
  function AnyEqualsIgnoreCase(groups: seq<string>, group: string): (r: bool)
    ensures r <==> exists i :: 0 <= i < |groups| && EqualsIgnoreCase(groups[i], group)
    decreases |groups|
  {
    if |groups| == 0 then false
    else if EqualsIgnoreCase(groups[0], group) then true
    else
      var r := AnyEqualsIgnoreCase(groups[1..], group);
      assert forall i :: 1 <= i < |groups| ==> groups[i] == groups[1..][i - 1];
      r
  }

  /** `UserGroupsContainsCondition.Evaluate`. */
  function Evaluate(group: string, context: EvaluationContext): (r: bool)
    ensures context.OtherContext? ==> !r
    ensures context.BaseContext? && context.userGroups.None? ==> !r
    ensures context.BaseContext? && context.userGroups.Some? ==>
              (r <==> exists g :: g in context.userGroups.value && EqualsIgnoreCase(g, group))
  {
    match context
    case OtherContext => false
    case BaseContext(groups) =>
      if groups.None? then false
      else AnyEqualsIgnoreCase(groups.value, group)
  }

  /** No group list, no membership. */
  lemma EmptyGroupsNeverMatch(group: string)
    ensures !Evaluate(group, BaseContext(Some([])))
  {
  }

  /** Adding groups to the customer never takes membership away. */
  lemma EvaluateMonotone(group: string, groups: seq<string>, more: seq<string>)
    ensures Evaluate(group, BaseContext(Some(groups))) ==> Evaluate(group, BaseContext(Some(groups + more)))
  {
    if Evaluate(group, BaseContext(Some(groups))) {
      var g :| g in groups && EqualsIgnoreCase(g, group);
      assert g in groups + more;
    }
  }

  /** Folding is idempotent. */
  lemma FoldIdempotent(s: string)
    ensures Fold(Fold(s)) == Fold(s)
  {
  }

  /** Upper-casing does not change the folded form. */
  lemma FoldUpper(s: string)
    ensures Fold(Upper(s)) == Fold(s)
  {
    assert forall i :: 0 <= i < |s| ==> FoldChar(UpperChar(s[i])) == FoldChar(s[i]);
  }

  /** The result does not depend on the letter case of the condition's group. */
  lemma EvaluateIgnoresCaseOfGroup(group: string, other: string, context: EvaluationContext)
    requires Fold(other) == Fold(group)
    ensures Evaluate(group, context) == Evaluate(other, context)
  {
  }

  /** In particular, upper-casing or lower-casing the group changes nothing. */
  lemma EvaluateIgnoresUpperLower(group: string, context: EvaluationContext)
    ensures Evaluate(Upper(group), context) == Evaluate(group, context)
    ensures Evaluate(Fold(group), context) == Evaluate(group, context)
  {
    FoldUpper(group);
    FoldIdempotent(group);
    EvaluateIgnoresCaseOfGroup(group, Upper(group), context);
    EvaluateIgnoresCaseOfGroup(group, Fold(group), context);
  }
}
