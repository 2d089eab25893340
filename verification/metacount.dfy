/** The count-guard check of the meta rule: `count` should only ever be a
    literal 0 or 1, or a conditional choosing between the two. */
module MetaCount {
  import opened Syntax
  import opened Issues

  const OnlyDynamicGuardMessage := "Avoid using count for anything other than dynamic guarding (condition ? 1 : 0)."
  const GuardMustReturn10Message := "Count guard must return 1 or 0."

  /** The older rule's wording lacks the final period. */
  const LegacyDynamicMessage := "Avoid using count for anything other than dynamic guarding (condition ? 1 : 0)"
  const LegacyMustReturnMessage := "Count guard must return 1 or 0"

  /** A numeric literal equal to 0 or to 1. */
  predicate IsGuardValue(e: Expr) {
    e.Literal? && (e.val == Number(0.0) || e.val == Number(1.0))
  }

  /** `getLiteralValue`: 0 or 1 for a numeric literal of that value, -1 for
      everything else, strings and booleans included. */
  function LiteralValue(e: Expr): (r: int)
    ensures r == -1 || r == 0 || r == 1
    ensures r != -1 <==> IsGuardValue(e)
    ensures IsGuardValue(e) ==> e.val == Number(r as real)
  {
    if e.Literal? && e.val.Number? then
      if e.val.n == 0.0 then 0
      else if e.val.n == 1.0 then 1
      else -1
    else -1
  }

  /** `isValidGuardResult`. */
  predicate ValidGuardResult(e: Expr) {
    var v := LiteralValue(e);
    v == 0 || v == 1
  }

  /** The two messages a generation uses: for anything that is not a
      conditional, and for a conditional with a bad branch. */
  function DynamicMessage(gen: Gen): string {
    if gen == Current then OnlyDynamicGuardMessage else LegacyDynamicMessage
  }

  function MustReturnMessage(gen: Gen): string {
    if gen == Current then GuardMustReturn10Message else LegacyMustReturnMessage
  }

  /** `checkCountGuard` on a `count` attribute: at most one issue, at the
      attribute's range. A conditional passes exactly when both branches are
      literal 0 or 1, whatever its condition; anything else passes exactly
      when it is itself a literal 0 or 1. */
  function CountIssues(gen: Gen, count: Attribute): (r: seq<Issue>)
    ensures |r| <= 1
    ensures count.expr.Conditional? ==>
      (r == [] <==> IsGuardValue(count.expr.yes) && IsGuardValue(count.expr.no))
    ensures !count.expr.Conditional? ==> (r == [] <==> IsGuardValue(count.expr))
    ensures r != [] && count.expr.Conditional? ==> r[0] == TextIssue(MustReturnMessage(gen), count.rng)
    ensures r != [] && !count.expr.Conditional? ==> r[0] == TextIssue(DynamicMessage(gen), count.rng)
  {
    match count.expr
    case Conditional(_, yes, no, _) =>
      if !ValidGuardResult(yes) || !ValidGuardResult(no) then
        [TextIssue(MustReturnMessage(gen), count.rng)]
      else []
    case Literal(_, _) =>
      if ValidGuardResult(count.expr) then [] else [TextIssue(DynamicMessage(gen), count.rng)]
    case _ => [TextIssue(DynamicMessage(gen), count.rng)]
  }

  /** The condition of a guard is never looked at. */
  lemma ConditionIgnored(gen: Gen, count: Attribute, cond: Expr)
    requires count.expr.Conditional?
    ensures CountIssues(gen, count.(expr := count.expr.(cond := cond))) == CountIssues(gen, count)
  {
  }

  /** A guard written with strings or booleans is not a guard. */
  lemma NonNumericGuardFlagged(gen: Gen, count: Attribute, s: string, b: bool, rng: Range)
    requires count.expr.Conditional?
    requires count.expr.yes == Literal(Str(s), rng) || count.expr.no == Literal(Bool(b), rng)
    ensures CountIssues(gen, count) == [TextIssue(MustReturnMessage(gen), count.rng)]
  {
  }

  /** The two generations agree on which attributes they flag, and with
      which of the two messages. */
  lemma GenerationsAgree(count: Attribute)
    ensures |CountIssues(Current, count)| == |CountIssues(Legacy, count)|
  {
  }
}
