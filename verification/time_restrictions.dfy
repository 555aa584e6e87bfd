/** How a query's optional time bounds become the two timestamp clauses of a
    store query: one lower clause and one upper clause. */
module TimeRestrictions {
  import opened Primitives

  /** Optional bounds on a timestamp: at or after `from`, strictly after
      `after`, at or before `to`. */
  datatype TimeRestriction = TimeRestriction(from: Option<int64>, after: Option<int64>, to: Option<int64>)

  /** A comparison of the timestamp column with a constant. */
  datatype Clause = Gt(bound: int64) | Gte(bound: int64) | Lte(bound: int64)

  /** Whether timestamp `t` satisfies a clause. */
  predicate Holds(c: Clause, t: int64) {
    match c
    case Gt(b) => t > b
    case Gte(b) => t >= b
    case Lte(b) => t <= b
  }

  /** The intended meaning of the lower bounds: every bound present holds. */
  predicate AdmitsLower(tr: TimeRestriction, t: int64) {
    (tr.from.None? || t >= tr.from.value) && (tr.after.None? || t > tr.after.value)
  }

  /** The intended meaning of the upper bound. */
  predicate AdmitsUpper(tr: TimeRestriction, t: int64) {
    tr.to.None? || t <= tr.to.value
  }

  predicate Admits(tr: TimeRestriction, t: int64) {
    AdmitsLower(tr, t) && AdmitsUpper(tr, t)
  }

  /** The lower clause: when both lower bounds are given, the one that is
      stronger is kept; with none, the smallest long. A timestamp satisfies
      the clause exactly when it satisfies every lower bound given. */
  function LowerClause(tr: TimeRestriction): (c: Clause)
    ensures c.Gt? || c.Gte?
    ensures forall t: int64 :: Holds(c, t) <==> AdmitsLower(tr, t)
  {
    if tr.from.Some? then
      if tr.after.Some? && tr.after.value >= tr.from.value then Gt(tr.after.value)
      else Gte(tr.from.value)
    else if tr.after.Some? then Gt(tr.after.value)
    else Gte(LONG_MIN)
  }

  /** The upper clause is inclusive, with the largest long when `to` is absent;
      a timestamp satisfies it exactly when it satisfies the `to` bound. */
  function UpperClause(tr: TimeRestriction): (c: Clause)
    ensures c.Lte?
    ensures forall t: int64 :: Holds(c, t) <==> AdmitsUpper(tr, t)
  {
    Lte(if tr.to.Some? then tr.to.value else LONG_MAX)
  }

  /** The two clauses together admit exactly the timestamps within all bounds. */
  lemma ClausesMeanRestriction(tr: TimeRestriction, t: int64)
    ensures Holds(LowerClause(tr), t) && Holds(UpperClause(tr), t) <==> Admits(tr, t)
  {
  }

  /** Without bounds, every timestamp is admitted. */
  lemma UnrestrictedAdmitsAll(t: int64)
    ensures Holds(LowerClause(TimeRestriction(None, None, None)), t)
    ensures Holds(UpperClause(TimeRestriction(None, None, None)), t)
  {
  }

  /** The clause chosen when both lower bounds are given: the later bound wins,
      and a tie goes to the strict `after`. */
  lemma BothLowerBounds(from: int64, after: int64, to: Option<int64>)
    ensures after >= from ==> LowerClause(TimeRestriction(Some(from), Some(after), to)) == Gt(after)
    ensures after < from ==> LowerClause(TimeRestriction(Some(from), Some(after), to)) == Gte(from)
  {
  }

  lemma LowerClauseExamples()
    ensures LowerClause(TimeRestriction(Some(100), Some(150), None)) == Gt(150)
    ensures LowerClause(TimeRestriction(Some(200), Some(150), None)) == Gte(200)
    ensures LowerClause(TimeRestriction(Some(150), Some(150), None)) == Gt(150)
    ensures LowerClause(TimeRestriction(None, None, Some(5))) == Gte(LONG_MIN)
    ensures UpperClause(TimeRestriction(None, None, None)) == Lte(LONG_MAX)
  {
  }
}
