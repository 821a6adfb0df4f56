/** Exactly when a generated function means what an expression means, for every machine, state and
    placing of the slices. */
module ArrayOpExact {
  import opened Wrappers
  import opened ArrayOp
  import opened ArrayOpNames
  import opened ArrayOpMeaning
  import opened ArrayOpTerms

  // ----- the requirement, and its exact condition -----

  /** Calling `f` for `e` gives the meaning of `e` whatever the arithmetic, the state and the slices. */
  ghost predicate Means(f: Function, e: Expr, lang: Lang)
    requires Accepted(e) && Fits(f, e) && |f.params| == |Args(e)| > 0
  {
    forall m: Machine<Term>, st: State<Term>, env: Slices ::
      m.lang == lang && Apart(e, env(e.e1.name).len, env) ==> CallMeans(f, e, st, env, m)
  }


  // ----- two rounds of the loop on terms -----

  lemma {:induction false} AccumulatedByLeaves(fr: Frame<Term>, e: Expr, dim: nat, ls: seq<Expr>, lang: Lang)
    requires AllHold(fr, ls, Start().vars, Here(), Free(lang)) && LeavesAt(e, dim, ls)
    ensures Accumulated(fr, e, dim, false)
  {
    match e
    case Operand(_, _) =>
    case Slice(_, _) =>
    case Cast(e1, ty) => if ty.ArrayOf? { AccumulatedByLeaves(fr, e1, dim, ls, lang); }
    case Unary(_, e1, _) => AccumulatedByLeaves(fr, e1, dim, ls, lang);
    case Binary(_, e1, e2, _) =>
      LeavesSplit(Leaves(e1), Leaves(e2), dim, ls);
      AccumulatedByLeaves(fr, e1, dim, ls, lang);
      AccumulatedByLeaves(fr, e2, dim + |Leaves(e1)|, ls, lang);
    case Assign(_, e1, e2, _) =>
      LeavesSplit(Leaves(e2), Leaves(e1), dim, ls);
      AccumulatedByLeaves(fr, e2, dim, ls, lang);
      var k := dim + |Leaves(e2)|;
      if e1.Operand? {
        assert ls[k..k + |Leaves(e1)|][0] == ls[k];
        assert Holds(fr, ls[k], k, Start().vars, Here(), Free(lang));
      }
  }

  lemma {:induction false} AccumulatedIgnoresIndex(fr: Frame<Term>, e: Expr, dim: nat, k: nat, again: bool)
    requires Accumulated(fr, e, dim, again)
    ensures Accumulated(fr[INDEX := Count(k)], e, dim, again)
  {
    match e
    case Operand(_, _) =>
    case Slice(_, _) =>
    case Cast(e1, ty) => if ty.ArrayOf? { AccumulatedIgnoresIndex(fr, e1, dim, k, again); }
    case Unary(_, e1, _) => AccumulatedIgnoresIndex(fr, e1, dim, k, again);
    case Binary(_, e1, e2, _) =>
      AccumulatedIgnoresIndex(fr, e1, dim, k, again);
      AccumulatedIgnoresIndex(fr, e2, dim + |Leaves(e1)|, k, again);
    case Assign(_, e1, e2, _) =>
      AccumulatedIgnoresIndex(fr, e2, dim, k, again);
      LeafNamesDiffer(e1, e1, dim + |Leaves(e2)|, dim + |Leaves(e2)|);
  }

  lemma {:induction false} RoundAt(e: Expr, fr: Frame<Term>, i: nat, again: bool, lang: Lang)
    requires Elementwise(e) && i < 2 && Accumulated(fr, e, 0, again)
    requires Bound(fr, e, 0, Start().vars, Here(), Free(lang))
    ensures Round(e, 0, i, fr[INDEX := Count(i)], again, lang)
  {
    AccumulatedIgnoresIndex(fr, e, 0, i, again);
    BoundIgnoresIndex(fr, e, 0, i, Start().vars, Here(), Free(lang));
  }

  lemma {:induction false} FirstFrame(f: Function, e: Expr, lang: Lang)
    requires Elementwise(e) && Fits(f, e)
    ensures var fr := Bind(f.params, Args(e), Start().vars, Here(), Free(lang));
      Accumulated(fr, e, 0, false) && Bound(fr, e, 0, Start().vars, Here(), Free(lang)) &&
      TypedSlices(e, 0, TypesOf(f.params))
  {
    var ls, fr := Leaves(e), Bind(f.params, Args(e), Start().vars, Here(), Free(lang));
    forall j | 0 <= j < |ls| ensures Holds(fr, ls[j], j, Start().vars, Here(), Free(lang)) {
      BindLeaf(f, e, j, Start().vars, Here(), Free(lang));
    }
    assert ls[0..0 + |ls|] == ls;
    AccumulatedByLeaves(fr, e, 0, ls, lang);
    BindHolds(f, e, Start().vars, Here(), Free(lang));
  }

  /** The value of an array assignment is the element it leaves. */
  lemma {:induction false} ValueIsStored(
      e: Expr, i: nat, fr: Frame<Term>, mem: int -> Term, again: bool, tys: string -> Ty, lang: Lang)
    requires Accepted(e) && Round(e, 0, i, fr, again, lang)
    ensures var o := EvalAt(e, i, Start(), Here(), Free(lang)); o.Done? && o.v == o.st.mem(i)
    ensures var r := Exec(Body(e, 0), tys, fr, mem, Free(lang)); r.LDone? && r.v == r.mem(i)
  {
    Parts(e);
    var k, r := |Leaves(e.e2)|, Exec(Body(e.e2, 0), tys, fr, mem, Free(lang));
    SourceRuns(e.e2, i, Start(), lang);
    BodyRuns(e.e2, 0, i, fr, mem, again, tys, lang);
    assert SameAt(fr, r.fr, LeafName(e.e1, k)) && SameAt(fr, r.fr, INDEX);
    TargetHolds(fr, e, 0, lang);
    HereAt(r.fr, e.e1, k, i, lang);
    UnfoldAssign(e, 0, i, fr, mem, Start(), tys, lang);
  }

  /** In round i the loop leaves the element that the expression gives exactly if the body keeps its
      meaning. */
  lemma {:induction false} RoundExactly(
      e: Expr, i: nat, fr: Frame<Term>, mem: int -> Term, again: bool, tys: string -> Ty, lang: Lang)
    requires Accepted(e) && Round(e, 0, i, fr, again, lang) && TypedSlices(e, 0, tys) && mem(i) == TCell(i)
    requires again ==> Keeps(e, 0, {}, tys, lang, false)
    ensures var o, r := EvalAt(e, i, Start(), Here(), Free(lang)), Exec(Body(e, 0), tys, fr, mem, Free(lang));
      o.Done? && r.LDone? && (o.st.mem(i) == r.mem(i) <==> Keeps(e, 0, {}, tys, lang, again))
  {
    Lockstep(e, 0, i, fr, mem, Start(), {}, again, tys, lang);
    ValueIsStored(e, i, fr, mem, again, tys, lang);
  }

  /** Where the condition fails, two elements are enough to see it. */
  lemma {:induction false} Witness(f: Function, e: Expr, lang: Lang)
    requires Accepted(e) && Fits(f, e) && !Keeps(e, 0, {}, TypesOf(f.params), lang, true)
    ensures |f.params| == |Args(e)| > 0 && !CallMeans(f, e, Start(), Here(), Free(lang))
  {
    var m, tys, fr := Free(lang), TypesOf(f.params), Bind(f.params, Args(e), Start().vars, Here(), Free(lang));
    FirstFrame(f, e, lang);
    RoundAt(e, fr, 0, false, lang);
    var fr0 := fr[INDEX := Count(0)];
    BodyRuns(e, 0, 0, fr0, Start().mem, false, tys, lang);
    RoundExactly(e, 0, fr0, Start().mem, false, tys, lang);
    var r := Exec(Body(e, 0), tys, fr0, Start().mem, m);
    RoundAt(e, r.fr, 1, true, lang);
    var fr1 := r.fr[INDEX := Count(1)];
    BodyRuns(e, 0, 1, fr1, r.mem, true, tys, lang);
    if Keeps(e, 0, {}, tys, lang, false) {
      RoundExactly(e, 1, fr1, r.mem, true, tys, lang);
    }
    var q := Exec(Body(e, 0), tys, fr1, r.mem, m);
    CallInTwoRounds(f, e, Start(), Here(), m);
    NotMeant(e, q.mem, lang);
  }

  lemma {:induction false} NotMeant(e: Expr, mem: int -> Term, lang: Lang)
    requires Accepted(e)
    ensures PointwiseMeaning(mem, 2, e, Start(), Here(), Free(lang)) ==>
      forall i: nat :: i < 2 ==> mem(i) == EvalAt(e, i, Start(), Here(), Free(lang)).st.mem(i)
    ensures LongEnough(e, 2, Here()) && Apart(e, 2, Here())
  {
  }

  // ----- exactly when -----

  /** A function that fits an expression computes its meaning, whatever the arithmetic, the state and
      the slices, if and only if its body keeps it. */
  lemma {:induction false} MeansExactly(f: Function, e: Expr, lang: Lang)
    requires Accepted(e) && Fits(f, e) && |f.params| == |Args(e)| > 0
    ensures Means(f, e, lang) <==> Keeps(e, 0, {}, TypesOf(f.params), lang, true)
  {
    if Keeps(e, 0, {}, TypesOf(f.params), lang, true) {
      forall m: Machine<Term>, st: State<Term>, env: Slices | m.lang == lang && Apart(e, env(e.e1.name).len, env)
        ensures CallMeans(f, e, st, env, m)
      {
        MeaningPreserved(f, e, st, env, m);
      }
    } else {
      Witness(f, e, lang);
      NotMeant(e, Start().mem, lang);
      assert Free(lang).lang == lang && Here()(e.e1.name).len == 2;
    }
  }

  /** The function generated for an expression computes its meaning if and only if analysis is stable on
      its scalar operands, scalar assignments are plain, and no variable is read after it was given
      another value. */
  lemma {:induction false} OwnMeansExactly(e: Expr, lang: Lang)
    requires Accepted(e)
    ensures Fits(Generate(e), e) && |Generate(e).params| == |Args(e)| > 0
    ensures Means(Generate(e), e, lang) <==> Stable(e, lang) && Clean(e, {})
  {
    OwnFunctionFits(e);
    KeepsWithOwnTypes(e, 0, {}, TypesOf(Params(e, 0)), lang);
    MeansExactly(Generate(e), e, lang);
  }

  // ----- the caller's variables -----

  /** Variables are passed by value, so the call leaves those of the caller alone: does the expression? */
  ghost predicate LeavesCaller(e: Expr, lang: Lang) {
    forall m: Machine<Term>, st: State<Term>, env: Slices, i: nat, x: string ::
      m.lang == lang && EvalAt(e, i, st, env, m).Done? ==> EvalAt(e, i, st, env, m).st.vars(x) == st.vars(x)
  }

  /** A variable is assigned to only from itself. */
  predicate SelfOnly(e: Expr) {
    match e
    case Operand(_, _) => true
    case Slice(_, _) => true
    case Cast(e1, ty) => ty.ArrayOf? ==> SelfOnly(e1)
    case Unary(_, e1, _) => SelfOnly(e1)
    case Binary(_, e1, e2, _) => SelfOnly(e1) && SelfOnly(e2)
    case Assign(aop, e1, e2, _) => SelfOnly(e2) && (e1.Operand? ==> aop == Plain && Same(e2) == Some(e1.name))
  }

  lemma {:induction false} SelfOnlyChangesNothing(e: Expr)
    requires Elementwise(e) && SelfOnly(e)
    ensures Dirty(e, {}) == {} && Clean(e, {})
  {
    Parts(e);
    match e
    case Operand(_, _) =>
    case Slice(_, _) =>
    case Cast(_, _) =>
    case Unary(_, e1, _) => SelfOnlyChangesNothing(e1);
    case Binary(_, e1, e2, _) => SelfOnlyChangesNothing(e1); SelfOnlyChangesNothing(e2);
    case Assign(_, e1, e2, _) => SelfOnlyChangesNothing(e2);
  }

  /** A variable that was given another value never gets the first one back: that would be read from a
      variable that has changed. */
  lemma {:induction false} NeverRestored(e: Expr, d: set<string>)
    requires Elementwise(e) && Clean(e, d)
    ensures d <= Dirty(e, d)
    ensures Same(e).Some? ==> Same(e).value !in Dirty(e, d)
  {
    Parts(e);
    match e
    case Operand(_, _) =>
    case Slice(_, _) =>
    case Cast(_, _) =>
    case Unary(_, e1, _) => NeverRestored(e1, d);
    case Binary(_, e1, e2, _) => NeverRestored(e1, d); NeverRestored(e2, Dirty(e1, d));
    case Assign(_, e1, e2, _) => NeverRestored(e2, d);
  }

  lemma {:induction false} NothingChangedIsSelfOnly(e: Expr, d: set<string>)
    requires Elementwise(e) && Clean(e, d) && Dirty(e, d) == {}
    ensures SelfOnly(e)
  {
    Parts(e);
    match e
    case Operand(_, _) =>
    case Slice(_, _) =>
    case Cast(_, _) =>
    case Unary(_, e1, _) => NothingChangedIsSelfOnly(e1, d);
    case Binary(_, e1, e2, _) =>
      NeverRestored(e2, Dirty(e1, d));
      NothingChangedIsSelfOnly(e1, d);
      NothingChangedIsSelfOnly(e2, Dirty(e1, d));
    case Assign(_, e1, e2, _) =>
      NeverRestored(e2, d);
      NothingChangedIsSelfOnly(e2, d);
  }

  /** On terms exactly the variables in `Dirty` have changed. */
  lemma {:induction false} ChangesExactly(e: Expr, i: nat, st: State<Term>, d: set<string>, lang: Lang)
    requires Elementwise(e) && i < 2 && Clean(e, d) && Changed(st.vars, d)
    ensures var o := EvalAt(e, i, st, Here(), Free(lang));
      o.Done? && Changed(o.st.vars, Dirty(e, d)) &&
      (!e.ty.ArrayOf? ==> !o.v.TConvert? && forall x :: o.v == TVar(x) <==> Same(e) == Some(x))
  {
    Parts(e);
    SourceRuns(e, i, st, lang);
    match e
    case Operand(_, _) =>
    case Slice(_, _) =>
    case Cast(_, _) =>
    case Unary(_, e1, _) =>
      ChangesExactly(e1, i, st, d, lang);
    case Binary(_, e1, e2, _) =>
      ChangesExactly(e1, i, st, d, lang);
      ChangesExactly(e2, i, EvalAt(e1, i, st, Here(), Free(lang)).st, Dirty(e1, d), lang);
    case Assign(_, e1, e2, _) =>
      ChangesExactly(e2, i, st, d, lang);
  }

  lemma {:induction false} LeavesCallerExactly(e: Expr, lang: Lang)
    requires Elementwise(e) && Clean(e, {})
    ensures LeavesCaller(e, lang) <==> SelfOnly(e)
  {
    if SelfOnly(e) {
      SelfOnlyChangesNothing(e);
      forall m: Machine<Term>, st: State<Term>, env: Slices, i: nat, x: string
        | m.lang == lang && EvalAt(e, i, st, env, m).Done?
        ensures EvalAt(e, i, st, env, m).st.vars(x) == st.vars(x)
      {
        SourceVars(e, i, st, {}, st.vars, env, m);
      }
    } else {
      ChangesExactly(e, 0, Start(), {}, lang);
      if Dirty(e, {}) == {} {
        NothingChangedIsSelfOnly(e, {});
      } else {
        var x :| x in Dirty(e, {});
        var o := EvalAt(e, 0, Start(), Here(), Free(lang));
        assert o.st.vars(x) != TVar(x) && Free(lang).lang == lang;
      }
    }
  }

  /** Elements and the caller's variables are as the expression leaves them if and only if analysis is
      stable on scalar operands and a variable is assigned to only from itself. */
  lemma {:induction false} WholeMeaningExactly(e: Expr, lang: Lang)
    requires Accepted(e)
    ensures Fits(Generate(e), e) && |Generate(e).params| == |Args(e)| > 0
    ensures Means(Generate(e), e, lang) && LeavesCaller(e, lang) <==> Stable(e, lang) && SelfOnly(e)
  {
    OwnMeansExactly(e, lang);
    if SelfOnly(e) {
      SelfOnlyChangesNothing(e);
    }
    if Clean(e, {}) {
      LeavesCallerExactly(e, lang);
    }
  }
}
