/** The machine whose values are the terms that compute them: on it the body of a generated function
    and the expression leave the same values only if they mean the same. */
module ArrayOpTerms {
  import opened Wrappers
  import opened ArrayOp
  import opened ArrayOpNames
  import opened ArrayOpMeaning

  datatype Term =
    | TVar(n: string)
    | TCell(a: int)
    | TOperand(leaf: Expr, vals: map<string, Term>)
    | TNode(op: Op, t1: Ty, t2: Ty, ty: Ty, v1: Term, v2: Term)
    | TRewritten(op: Op, t1: Ty, t2: Ty, v1: Term, v2: Term)
    | TUnary(u: UnOp, t: Ty, v: Term)
    | TConvert(from: Ty, to: Ty, v: Term)

  function Free(lang: Lang): Machine<Term> {
    Machine(
      lang,
      (op, t1, t2, ty, v1, v2) => TNode(op, t1, t2, ty, v1, v2),
      (op, t1, t2, v1, v2) => TRewritten(op, t1, t2, v1, v2),
      (u, t, v) => TUnary(u, t, v),
      (from, to, v) => TConvert(from, to, v),
      (leaf, vals) => TOperand(leaf, vals))
  }

  function Start(): State<Term> {
    State(a => TCell(a), x => TVar(x))
  }

  /** All slices are the same two elements. */
  function Here(): Slices {
    n => SliceRef(0, 2)
  }

  // ----- the loop body on terms -----

  /** A variable that is assigned to from its own value is in its parameter in the first round only. */
  ghost predicate Accumulated(fr: Frame<Term>, e: Expr, dim: nat, again: bool) {
    match e
    case Operand(_, _) => true
    case Slice(_, _) => true
    case Cast(e1, ty) => ty.ArrayOf? ==> Accumulated(fr, e1, dim, again)
    case Unary(_, e1, _) => Accumulated(fr, e1, dim, again)
    case Binary(_, e1, e2, _) => Accumulated(fr, e1, dim, again) && Accumulated(fr, e2, dim + |Leaves(e1)|, again)
    case Assign(aop, e1, e2, _) =>
      Accumulated(fr, e2, dim, again) &&
      var n := LeafName(e1, dim + |Leaves(e2)|);
      (e1.Operand? && aop.Compound? ==> n in fr && fr[n].Scalar? && (fr[n].v == TVar(e1.name) <==> !again))
  }

  lemma {:induction false} AccumulatedElsewhere(
      fr: Frame<Term>, fr1: Frame<Term>, lo: nat, n: nat, e: Expr, dim: nat, again: bool)
    requires OnlyLeaves(fr, fr1, lo, n) && Accumulated(fr, e, dim, again)
    requires dim + |Leaves(e)| <= lo || lo + n <= dim
    ensures Accumulated(fr1, e, dim, again)
  {
    match e
    case Operand(_, _) =>
    case Slice(_, _) =>
    case Cast(e1, ty) => if ty.ArrayOf? { AccumulatedElsewhere(fr, fr1, lo, n, e1, dim, again); }
    case Unary(_, e1, _) => AccumulatedElsewhere(fr, fr1, lo, n, e1, dim, again);
    case Binary(_, e1, e2, _) =>
      AccumulatedElsewhere(fr, fr1, lo, n, e1, dim, again);
      AccumulatedElsewhere(fr, fr1, lo, n, e2, dim + |Leaves(e1)|, again);
    case Assign(_, e1, e2, _) =>
      AccumulatedElsewhere(fr, fr1, lo, n, e2, dim, again);
      assert SameAt(fr, fr1, LeafName(e1, dim + |Leaves(e2)|));
  }

  /** The frame of round i. */
  ghost predicate Round(e: Expr, dim: nat, i: nat, fr: Frame<Term>, again: bool, lang: Lang) {
    && i < 2 && Elementwise(e) && INDEX in fr && fr[INDEX] == Count(i)
    && Bound(fr, e, dim, Start().vars, Here(), Free(lang)) && Accumulated(fr, e, dim, again)
  }

  /** After a round: it did not fault, touched nothing but element i, and its parameters have changed. */
  ghost predicate Rounded(
      e: Expr, dim: nat, i: nat, fr: Frame<Term>, mem: int -> Term, r: LoopOutcome<Term>, lang: Lang)
  {
    && r.LDone? && Framed(e, dim, fr, r, Start().vars, Here(), Free(lang)) && Accumulated(r.fr, e, dim, true)
    && forall a :: a != i ==> r.mem(a) == mem(a)
  }

  lemma {:induction false} BodyRuns(
      e: Expr, dim: nat, i: nat, fr: Frame<Term>, mem: int -> Term, again: bool, tys: string -> Ty, lang: Lang)
    requires Round(e, dim, i, fr, again, lang)
    ensures Rounded(e, dim, i, fr, mem, Exec(Body(e, dim), tys, fr, mem, Free(lang)), lang)
  {
    Parts(e);
    if e.Unary? {
      BodyRuns(e.e1, dim, i, fr, mem, again, tys, lang);
    } else if e.Binary? {
      BodyRuns(e.e1, dim, i, fr, mem, again, tys, lang);
      var r := Exec(Body(e.e1, dim), tys, fr, mem, Free(lang));
      NextRound(e, dim, i, fr, mem, again, tys, lang);
      BodyRuns(e.e2, dim + |Leaves(e.e1)|, i, r.fr, r.mem, again, tys, lang);
      NodeRuns(e, dim, i, fr, mem, again, tys, lang);
    } else if e.Assign? {
      BodyRuns(e.e2, dim, i, fr, mem, again, tys, lang);
      AssignRuns(e, dim, i, fr, mem, again, tys, lang);
    } else {
      ExecFrame(e, dim, tys, fr, mem, Start().vars, Here(), Free(lang));
    }
  }

  lemma {:induction false} NodeRuns(
      e: Expr, dim: nat, i: nat, fr: Frame<Term>, mem: int -> Term, again: bool, tys: string -> Ty, lang: Lang)
    requires e.Binary? && Round(e, dim, i, fr, again, lang)
    requires Rounded(e.e1, dim, i, fr, mem, Exec(Body(e.e1, dim), tys, fr, mem, Free(lang)), lang)
    requires var r := Exec(Body(e.e1, dim), tys, fr, mem, Free(lang));
      var dim2 := dim + |Leaves(e.e1)|;
      Rounded(e.e2, dim2, i, r.fr, r.mem, Exec(Body(e.e2, dim2), tys, r.fr, r.mem, Free(lang)), lang)
    ensures Rounded(e, dim, i, fr, mem, Exec(Body(e, dim), tys, fr, mem, Free(lang)), lang)
  {
    ExecFrame(e, dim, tys, fr, mem, Start().vars, Here(), Free(lang));
    var r, dim2 := Exec(Body(e.e1, dim), tys, fr, mem, Free(lang)), dim + |Leaves(e.e1)|;
    var q := Exec(Body(e.e2, dim2), tys, r.fr, r.mem, Free(lang));
    AccumulatedElsewhere(r.fr, q.fr, dim2, |Leaves(e.e2)|, e.e1, dim, true);
  }

  lemma {:induction false} NextRound(
      e: Expr, dim: nat, i: nat, fr: Frame<Term>, mem: int -> Term, again: bool, tys: string -> Ty, lang: Lang)
    requires e.Binary? && Round(e, dim, i, fr, again, lang)
    requires Rounded(e.e1, dim, i, fr, mem, Exec(Body(e.e1, dim), tys, fr, mem, Free(lang)), lang)
    ensures Round(e.e2, dim + |Leaves(e.e1)|, i, Exec(Body(e.e1, dim), tys, fr, mem, Free(lang)).fr, again, lang)
  {
    Parts(e);
    var r := Exec(Body(e.e1, dim), tys, fr, mem, Free(lang));
    AccumulatedElsewhere(fr, r.fr, dim, |Leaves(e.e1)|, e.e2, dim + |Leaves(e.e1)|, again);
    BoundElsewhere(fr, r.fr, dim, |Leaves(e.e1)|, e.e2, dim + |Leaves(e.e1)|, Start().vars, Here(), Free(lang));
  }

  lemma {:induction false} AssignRuns(
      e: Expr, dim: nat, i: nat, fr: Frame<Term>, mem: int -> Term, again: bool, tys: string -> Ty, lang: Lang)
    requires e.Assign? && Round(e, dim, i, fr, again, lang)
    requires Rounded(e.e2, dim, i, fr, mem, Exec(Body(e.e2, dim), tys, fr, mem, Free(lang)), lang)
    ensures Rounded(e, dim, i, fr, mem, Exec(Body(e, dim), tys, fr, mem, Free(lang)), lang)
  {
    Parts(e);
    ExecFrame(e, dim, tys, fr, mem, Start().vars, Here(), Free(lang));
    var k, r := dim + |Leaves(e.e2)|, Exec(Body(e.e2, dim), tys, fr, mem, Free(lang));
    assert SameAt(fr, r.fr, LeafName(e.e1, k)) && SameAt(fr, r.fr, INDEX);
    if e.e1.Slice? {
      TargetHolds(fr, e, dim, lang);
    }
    var q := ExecStore(e.aop, Body(e.e1, k), tys, BodyType(Body(e.e2, dim), tys, lang), r.v, r.fr, r.mem, Free(lang));
    assert Exec(Body(e, dim), tys, fr, mem, Free(lang)) == q;
    if e.e1.Operand? {
      OneLeaf(r.fr, e.e1, k, k, 1, Scalar(q.v));
      AccumulatedElsewhere(r.fr, q.fr, k, 1, e.e2, dim, true);
    } else {
      HereAt(r.fr, e.e1, k, i, lang);
    }
  }

  lemma {:induction false} TargetHolds(fr: Frame<Term>, e: Expr, dim: nat, lang: Lang)
    requires e.Assign? && e.e1.Slice? && Bound(fr, e, dim, Start().vars, Here(), Free(lang))
    ensures Holds(fr, e.e1, dim + |Leaves(e.e2)|, Start().vars, Here(), Free(lang))
  {
  }

  lemma {:induction false} HereAt(fr: Frame<Term>, slice: Expr, k: nat, i: nat, lang: Lang)
    requires slice.Slice? && Holds(fr, slice, k, Start().vars, Here(), Free(lang)) && i < 2
    requires INDEX in fr && fr[INDEX] == Count(i)
    ensures Body(slice, k) == Element(LeafName(slice, k), INDEX) && Locate(fr, LeafName(slice, k), INDEX) == Some(i)
  {
    assert Here()(slice.name) == SliceRef(0, 2);
  }

  // ----- the source on terms -----

  ghost predicate NoConversions(vars: string -> Term) {
    forall x :: !vars(x).TConvert?
  }

  /** Evaluation never faults, and values of scalar operands are no conversions: those are operands. */
  lemma {:induction false} SourceRuns(e: Expr, i: nat, st: State<Term>, lang: Lang)
    requires Elementwise(e) && i < 2 && NoConversions(st.vars)
    ensures var o := EvalAt(e, i, st, Here(), Free(lang));
      o.Done? && NoConversions(o.st.vars) && (!e.ty.ArrayOf? ==> !o.v.TConvert?)
  {
    Parts(e);
    DoneInBounds(e, i, st, Here(), Free(lang));
    match e
    case Operand(_, _) =>
    case Slice(_, _) =>
    case Cast(_, _) =>
    case Unary(_, e1, _) =>
      SourceRuns(e1, i, st, lang);
    case Binary(_, e1, e2, _) =>
      SourceRuns(e1, i, st, lang);
      SourceRuns(e2, i, EvalAt(e1, i, st, Here(), Free(lang)).st, lang);
    case Assign(_, e1, e2, _) =>
      SourceRuns(e2, i, st, lang);
  }

  /** Where the body's type differs from the source's, neither value is a conversion (that of the body
      may be one in a scalar operand). */
  lemma {:induction false} RootsDiffer(
      e: Expr, dim: nat, i: nat, fr: Frame<Term>, mem: int -> Term, st: State<Term>, again: bool,
      tys: string -> Ty, lang: Lang)
    requires Round(e, dim, i, fr, again, lang) && TypedSlices(e, dim, tys) && NoConversions(st.vars)
    requires !TypeKept(e, dim, tys, lang)
    ensures var o := EvalAt(e, i, st, Here(), Free(lang)); o.Done? && !o.v.TConvert?
    ensures e.ty.ArrayOf? ==>
      var r := Exec(Body(e, dim), tys, fr, mem, Free(lang)); r.LDone? && !r.v.TConvert?
  {
    Parts(e);
    SourceRuns(e, i, st, lang);
    if e.ty.ArrayOf? {
      if e.Unary? {
        SourceRuns(e.e1, i, st, lang);
        BodyRuns(e.e1, dim, i, fr, mem, again, tys, lang);
      } else if e.Binary? {
        BinaryRoots(e, dim, i, fr, mem, st, again, tys, lang);
      } else if e.Assign? {
        SlicesKeepTheirType(e, dim, tys, lang);
      }
    }
  }

  lemma {:induction false} SlicesKeepTheirType(e: Expr, dim: nat, tys: string -> Ty, lang: Lang)
    requires e.Assign? && e.e1.Slice? && e.ty == e.e1.ty && e.ty.ArrayOf? && TypedSlices(e, dim, tys)
    ensures TypeKept(e, dim, tys, lang)
  {
    var k := dim + |Leaves(e.e2)|;
    assert TypedSlices(e.e1, k, tys) && SourceType(e.e1, lang) == e.e1.ty.elem;
    assert BodyType(Body(e, dim), tys, lang) == BodyType(Body(e.e1, k), tys, lang);
  }

  lemma {:induction false} BinaryRoots(
      e: Expr, dim: nat, i: nat, fr: Frame<Term>, mem: int -> Term, st: State<Term>, again: bool,
      tys: string -> Ty, lang: Lang)
    requires e.Binary? && e.ty.ArrayOf? && Round(e, dim, i, fr, again, lang) && NoConversions(st.vars)
    ensures var o := EvalAt(e, i, st, Here(), Free(lang)); o.Done? && !o.v.TConvert?
    ensures var r := Exec(Body(e, dim), tys, fr, mem, Free(lang)); r.LDone? && !r.v.TConvert?
  {
    BinaryRuns(e, dim, i, fr, mem, st, again, tys, lang);
  }

  // ----- source and body in step -----

  /** The variables in `d`, and no others, have another value than at the start. */
  ghost predicate Changed(vars: string -> Term, d: set<string>) {
    NoConversions(vars) && forall x :: vars(x) == TVar(x) <==> x !in d
  }

  lemma {:induction false} ApplyInjective(lang: Lang, op: Op, t1: Ty, t2: Ty, v1: Term, v2: Term,
                                          u1: Ty, u2: Ty, w1: Term, w2: Term)
    ensures Apply(Free(lang), op, t1, t2, v1, v2) == Apply(Free(lang), op, u1, u2, w1, w2) <==>
      t1 == u1 && t2 == u2 && v1 == w1 && v2 == w2
  {
  }

  ghost predicate InStep(
      e: Expr, dim: nat, i: nat, fr: Frame<Term>, mem: int -> Term, st: State<Term>, d: set<string>, again: bool,
      tys: string -> Ty, lang: Lang)
  {
    && Round(e, dim, i, fr, again, lang) && TypedSlices(e, dim, tys) && Changed(st.vars, d) && mem(i) == st.mem(i)
    && (again ==> Keeps(e, dim, d, tys, lang, false))
  }

  /** Values agree exactly if the body keeps the meaning of the expression, and then source and body stay
      in step. */
  ghost predicate Agree(
      e: Expr, dim: nat, i: nat, o: Outcome<Term>, r: LoopOutcome<Term>, d: set<string>, again: bool,
      tys: string -> Ty, lang: Lang)
  {
    && o.Done? && r.LDone? && (o.v == r.v <==> Keeps(e, dim, d, tys, lang, again))
    && (o.v == r.v ==> r.mem(i) == o.st.mem(i) && Changed(o.st.vars, Dirty(e, d)))
    && (o.v == r.v && !e.ty.ArrayOf? ==> forall x :: o.v == TVar(x) <==> Same(e) == Some(x))
  }

  ghost predicate Agreed(
      e: Expr, dim: nat, i: nat, fr: Frame<Term>, mem: int -> Term, st: State<Term>, d: set<string>, again: bool,
      tys: string -> Ty, lang: Lang)
  {
    var o, r := EvalAt(e, i, st, Here(), Free(lang)), Exec(Body(e, dim), tys, fr, mem, Free(lang));
    Agree(e, dim, i, o, r, d, again, tys, lang)
  }

  lemma {:induction false} Lockstep(
      e: Expr, dim: nat, i: nat, fr: Frame<Term>, mem: int -> Term, st: State<Term>, d: set<string>, again: bool,
      tys: string -> Ty, lang: Lang)
    requires InStep(e, dim, i, fr, mem, st, d, again, tys, lang)
    ensures Agreed(e, dim, i, fr, mem, st, d, again, tys, lang)
  {
    Parts(e);
    match e
    case Unary(_, e1, _) =>
      Lockstep(e1, dim, i, fr, mem, st, d, again, tys, lang);
      UnaryAgrees(e, dim, i, fr, mem, st, d, again, tys, lang);
    case Binary(_, e1, e2, _) =>
      Lockstep(e1, dim, i, fr, mem, st, d, again, tys, lang);
      var o, r := EvalAt(e1, i, st, Here(), Free(lang)), Exec(Body(e1, dim), tys, fr, mem, Free(lang));
      if Keeps(e1, dim, d, tys, lang, again) {
        StepOn(e, dim, i, fr, mem, st, d, again, tys, lang);
        Lockstep(e2, dim + |Leaves(e1)|, i, r.fr, r.mem, o.st, Dirty(e1, d), again, tys, lang);
      }
      BinaryAgrees(e, dim, i, fr, mem, st, d, again, tys, lang);
    case Assign(_, e1, e2, _) =>
      Lockstep(e2, dim, i, fr, mem, st, d, again, tys, lang);
      if e1.Slice? {
        ElementAgrees(e, dim, i, fr, mem, st, d, again, tys, lang);
      } else {
        VariableAgrees(e, dim, i, fr, mem, st, d, again, tys, lang);
      }
    case _ =>
      LeafAgrees(e, dim, i, fr, mem, st, d, again, tys, lang);
  }

  lemma {:induction false} LeafAgrees(
      e: Expr, dim: nat, i: nat, fr: Frame<Term>, mem: int -> Term, st: State<Term>, d: set<string>, again: bool,
      tys: string -> Ty, lang: Lang)
    requires IsLeaf(e) && InStep(e, dim, i, fr, mem, st, d, again, tys, lang)
    ensures Agreed(e, dim, i, fr, mem, st, d, again, tys, lang)
  {
    Parts(e);
    if e.Slice? {
      HereAt(fr, e, dim, i, lang);
    } else if e.Cast? {
      OperandAgrees(e, st.vars, d, lang);
    }
  }

  lemma {:induction false} OperandAgrees(e: Expr, vars: string -> Term, d: set<string>, lang: Lang)
    requires e.Cast? && Changed(vars, d)
    ensures LeafValue(e, vars, Free(lang)) == LeafValue(e, Start().vars, Free(lang)) <==> VarsOf(e) !! d
  {
    var now, before := map x | x in VarsOf(e) :: vars(x), map x | x in VarsOf(e) :: Start().vars(x);
    if VarsOf(e) !! d {
      assert forall x :: x in VarsOf(e) ==> now[x] == before[x];
      assert now == before;
    } else {
      var x :| x in VarsOf(e) && x in d;
      assert now[x] != before[x];
    }
  }

  lemma {:induction false} UnaryAgrees(
      e: Expr, dim: nat, i: nat, fr: Frame<Term>, mem: int -> Term, st: State<Term>, d: set<string>, again: bool,
      tys: string -> Ty, lang: Lang)
    requires e.Unary? && InStep(e, dim, i, fr, mem, st, d, again, tys, lang)
    requires Agreed(e.e1, dim, i, fr, mem, st, d, again, tys, lang)
    ensures Agreed(e, dim, i, fr, mem, st, d, again, tys, lang)
  {
  }

  lemma {:induction false} StepOn(
      e: Expr, dim: nat, i: nat, fr: Frame<Term>, mem: int -> Term, st: State<Term>, d: set<string>, again: bool,
      tys: string -> Ty, lang: Lang)
    requires e.Binary? && InStep(e, dim, i, fr, mem, st, d, again, tys, lang)
    requires Agreed(e.e1, dim, i, fr, mem, st, d, again, tys, lang)
    requires Keeps(e.e1, dim, d, tys, lang, again)
    ensures InStep(e.e2, dim + |Leaves(e.e1)|, i, Exec(Body(e.e1, dim), tys, fr, mem, Free(lang)).fr,
                   Exec(Body(e.e1, dim), tys, fr, mem, Free(lang)).mem, EvalAt(e.e1, i, st, Here(), Free(lang)).st,
                   Dirty(e.e1, d), again, tys, lang)
  {
    SecondStep(e, dim, d, again, tys, lang);
    BodyRuns(e.e1, dim, i, fr, mem, again, tys, lang);
    NextRound(e, dim, i, fr, mem, again, tys, lang);
  }

  lemma {:induction false} SecondStep(
      e: Expr, dim: nat, d: set<string>, again: bool, tys: string -> Ty, lang: Lang)
    requires e.Binary? && Elementwise(e) && TypedSlices(e, dim, tys) && (again ==> Keeps(e, dim, d, tys, lang, false))
    ensures var dim2 := dim + |Leaves(e.e1)|;
      && Elementwise(e.e1) && Elementwise(e.e2) && TypedSlices(e.e2, dim2, tys)
      && (again ==> Keeps(e.e2, dim2, Dirty(e.e1, d), tys, lang, false))
  {
    Parts(e);
  }

  lemma {:induction false} BinaryAgrees(
      e: Expr, dim: nat, i: nat, fr: Frame<Term>, mem: int -> Term, st: State<Term>, d: set<string>, again: bool,
      tys: string -> Ty, lang: Lang)
    requires e.Binary? && InStep(e, dim, i, fr, mem, st, d, again, tys, lang)
    requires Agreed(e.e1, dim, i, fr, mem, st, d, again, tys, lang)
    requires var o, r := EvalAt(e.e1, i, st, Here(), Free(lang)), Exec(Body(e.e1, dim), tys, fr, mem, Free(lang));
      var dim2 := dim + |Leaves(e.e1)|;
      Keeps(e.e1, dim, d, tys, lang, again) ==>
      Agreed(e.e2, dim2, i, r.fr, r.mem, o.st, Dirty(e.e1, d), again, tys, lang)
    ensures Agreed(e, dim, i, fr, mem, st, d, again, tys, lang)
  {
    var o, r := EvalAt(e.e1, i, st, Here(), Free(lang)), Exec(Body(e.e1, dim), tys, fr, mem, Free(lang));
    var dim2 := dim + |Leaves(e.e1)|;
    var p, q := EvalAt(e.e2, i, o.st, Here(), Free(lang)), Exec(Body(e.e2, dim2), tys, r.fr, r.mem, Free(lang));
    BinaryRuns(e, dim, i, fr, mem, st, again, tys, lang);
    NodesAgree(e, dim, i, o, r, p, q, d, again, tys, lang);
  }

  lemma {:induction false} BinaryRuns(
      e: Expr, dim: nat, i: nat, fr: Frame<Term>, mem: int -> Term, st: State<Term>, again: bool,
      tys: string -> Ty, lang: Lang)
    requires e.Binary? && Round(e, dim, i, fr, again, lang) && NoConversions(st.vars)
    ensures var o := EvalAt(e.e1, i, st, Here(), Free(lang));
      o.Done? &&
      var p := EvalAt(e.e2, i, o.st, Here(), Free(lang));
      p.Done? && EvalAt(e, i, st, Here(), Free(lang)) == Done(SourceNode(e, o.v, p.v, Free(lang)), p.st)
    ensures var dim2, r := dim + |Leaves(e.e1)|, Exec(Body(e.e1, dim), tys, fr, mem, Free(lang));
      r.LDone? &&
      var q := Exec(Body(e.e2, dim2), tys, r.fr, r.mem, Free(lang));
      var t1, t2 := BodyType(Body(e.e1, dim), tys, lang), BodyType(Body(e.e2, dim2), tys, lang);
      q.LDone? &&
      Exec(Body(e, dim), tys, fr, mem, Free(lang)) == LDone(Apply(Free(lang), e.bop, t1, t2, r.v, q.v), q.fr, q.mem)
  {
    BothSourcesRun(e, i, st, lang);
    BothBodiesRun(e, dim, i, fr, mem, again, tys, lang);
    UnfoldBinary(e, dim, i, fr, mem, st, tys, lang);
  }

  lemma {:induction false} BothSourcesRun(e: Expr, i: nat, st: State<Term>, lang: Lang)
    requires e.Binary? && Elementwise(e) && i < 2 && NoConversions(st.vars)
    ensures var o := EvalAt(e.e1, i, st, Here(), Free(lang));
      o.Done? && EvalAt(e.e2, i, o.st, Here(), Free(lang)).Done?
  {
    Parts(e);
    SourceRuns(e.e1, i, st, lang);
    SourceRuns(e.e2, i, EvalAt(e.e1, i, st, Here(), Free(lang)).st, lang);
  }

  lemma {:induction false} BothBodiesRun(
      e: Expr, dim: nat, i: nat, fr: Frame<Term>, mem: int -> Term, again: bool, tys: string -> Ty, lang: Lang)
    requires e.Binary? && Round(e, dim, i, fr, again, lang)
    ensures var r := Exec(Body(e.e1, dim), tys, fr, mem, Free(lang));
      r.LDone? && Exec(Body(e.e2, dim + |Leaves(e.e1)|), tys, r.fr, r.mem, Free(lang)).LDone?
  {
    Parts(e);
    BodyRuns(e.e1, dim, i, fr, mem, again, tys, lang);
    NextRound(e, dim, i, fr, mem, again, tys, lang);
    var r := Exec(Body(e.e1, dim), tys, fr, mem, Free(lang));
    BodyRuns(e.e2, dim + |Leaves(e.e1)|, i, r.fr, r.mem, again, tys, lang);
  }

  lemma {:induction false} UnfoldBinary(
      e: Expr, dim: nat, i: nat, fr: Frame<Term>, mem: int -> Term, st: State<Term>, tys: string -> Ty, lang: Lang)
    requires e.Binary?
    ensures var o := EvalAt(e.e1, i, st, Here(), Free(lang));
      o.Done? ==>
        var p := EvalAt(e.e2, i, o.st, Here(), Free(lang));
        p.Done? ==> EvalAt(e, i, st, Here(), Free(lang)) == Done(SourceNode(e, o.v, p.v, Free(lang)), p.st)
    ensures var dim2, r := dim + |Leaves(e.e1)|, Exec(Body(e.e1, dim), tys, fr, mem, Free(lang));
      r.LDone? ==>
        var q := Exec(Body(e.e2, dim2), tys, r.fr, r.mem, Free(lang));
        var t1, t2 := BodyType(Body(e.e1, dim), tys, lang), BodyType(Body(e.e2, dim2), tys, lang);
        q.LDone? ==>
          Exec(Body(e, dim), tys, fr, mem, Free(lang)) == LDone(Apply(Free(lang), e.bop, t1, t2, r.v, q.v), q.fr, q.mem)
  {
  }

  lemma {:induction false} UnfoldAssign(
      e: Expr, dim: nat, i: nat, fr: Frame<Term>, mem: int -> Term, st: State<Term>, tys: string -> Ty, lang: Lang)
    requires e.Assign?
    ensures var o := EvalAt(e.e2, i, st, Here(), Free(lang));
      o.Done? ==> EvalAt(e, i, st, Here(), Free(lang)) == Store(e, i, o.v, o.st, Here(), Free(lang))
    ensures var r := Exec(Body(e.e2, dim), tys, fr, mem, Free(lang));
      r.LDone? ==>
        Exec(Body(e, dim), tys, fr, mem, Free(lang)) ==
        ExecStore(e.aop, Body(e.e1, dim + |Leaves(e.e2)|), tys, BodyType(Body(e.e2, dim), tys, lang),
                  r.v, r.fr, r.mem, Free(lang))
  {
  }

  /** The nodes agree exactly if their operands do and have the same types, and on values if the node is
      analysed as it stands. */
  lemma {:induction false} NodesAgree(
      e: Expr, dim: nat, i: nat, o: Outcome<Term>, r: LoopOutcome<Term>, p: Outcome<Term>, q: LoopOutcome<Term>,
      d: set<string>, again: bool, tys: string -> Ty, lang: Lang)
    requires e.Binary? && Elementwise(e) && Agree(e.e1, dim, i, o, r, d, again, tys, lang) && p.Done? && q.LDone?
    requires o.v == r.v ==> Agree(e.e2, dim + |Leaves(e.e1)|, i, p, q, Dirty(e.e1, d), again, tys, lang)
    ensures var t1, t2 := BodyType(Body(e.e1, dim), tys, lang), BodyType(Body(e.e2, dim + |Leaves(e.e1)|), tys, lang);
      Agree(e, dim, i, Done(SourceNode(e, o.v, p.v, Free(lang)), p.st),
            LDone(Apply(Free(lang), e.bop, t1, t2, r.v, q.v), q.fr, q.mem), d, again, tys, lang)
  {
    Parts(e);
    var dim2 := dim + |Leaves(e.e1)|;
    ApplyInjective(lang, e.bop, SourceType(e.e1, lang), SourceType(e.e2, lang), o.v, p.v,
                   BodyType(Body(e.e1, dim), tys, lang), BodyType(Body(e.e2, dim2), tys, lang), r.v, q.v);
  }

  /** Both leave the value in element i. */
  lemma {:induction false} ElementRuns(
      e: Expr, dim: nat, i: nat, fr: Frame<Term>, mem: int -> Term, st: State<Term>, again: bool,
      tys: string -> Ty, lang: Lang)
    requires e.Assign? && e.e1.Slice? && e.ty.ArrayOf? && Round(e, dim, i, fr, again, lang) && TypedSlices(e, dim, tys)
    ensures var o := EvalAt(e.e2, i, st, Here(), Free(lang));
      o.Done? ==>
        var x := Combine(Free(lang), e.aop, e.ty.elem, SourceType(e.e2, lang), o.st.mem(i), o.v);
        EvalAt(e, i, st, Here(), Free(lang)) == Done(x, o.st.(mem := Write(o.st.mem, i, x)))
    ensures var r := Exec(Body(e.e2, dim), tys, fr, mem, Free(lang));
      r.LDone? &&
      var x := Combine(Free(lang), e.aop, e.ty.elem, BodyType(Body(e.e2, dim), tys, lang), r.mem(i), r.v);
      Exec(Body(e, dim), tys, fr, mem, Free(lang)) == LDone(x, r.fr, Write(r.mem, i, x))
  {
    Parts(e);
    var k := dim + |Leaves(e.e2)|;
    var r := Exec(Body(e.e2, dim), tys, fr, mem, Free(lang));
    BodyRuns(e.e2, dim, i, fr, mem, again, tys, lang);
    assert SameAt(fr, r.fr, LeafName(e.e1, k)) && SameAt(fr, r.fr, INDEX);
    TargetHolds(fr, e, dim, lang);
    HereAt(r.fr, e.e1, k, i, lang);
    assert TypedSlices(e.e1, k, tys);
    UnfoldAssign(e, dim, i, fr, mem, st, tys, lang);
  }

  lemma {:induction false} ElementAgrees(
      e: Expr, dim: nat, i: nat, fr: Frame<Term>, mem: int -> Term, st: State<Term>, d: set<string>, again: bool,
      tys: string -> Ty, lang: Lang)
    requires e.Assign? && e.e1.Slice? && InStep(e, dim, i, fr, mem, st, d, again, tys, lang)
    requires Agreed(e.e2, dim, i, fr, mem, st, d, again, tys, lang)
    ensures Agreed(e, dim, i, fr, mem, st, d, again, tys, lang)
  {
    Parts(e);
    var o, r := EvalAt(e.e2, i, st, Here(), Free(lang)), Exec(Body(e.e2, dim), tys, fr, mem, Free(lang));
    ElementRuns(e, dim, i, fr, mem, st, again, tys, lang);
    if !TypeKept(e.e2, dim, tys, lang) {
      RootsDiffer(e.e2, dim, i, fr, mem, st, again, tys, lang);
    }
    CombineAgrees(lang, e.aop, e.ty.elem, SourceType(e.e2, lang), BodyType(Body(e.e2, dim), tys, lang),
                  o.st.mem(i), r.mem(i), o.v, r.v);
  }

  /** The values left in an element agree exactly if the values assigned do and have the same type. */
  lemma {:induction false} CombineAgrees(
      lang: Lang, aop: AssignOp, t: Ty, s: Ty, b: Ty, before: Term, before': Term, v: Term, w: Term)
    requires v == w ==> before == before'
    requires s != b ==> !v.TConvert? && (s == t || !w.TConvert?)
    ensures Combine(Free(lang), aop, t, s, before, v) == Combine(Free(lang), aop, t, b, before', w) <==>
      v == w && s == b
  {
    if aop.Compound? {
      ApplyInjective(lang, aop.op, t, s, before, v, t, b, before', w);
    }
  }

  lemma {:induction false} VariableAgrees(
      e: Expr, dim: nat, i: nat, fr: Frame<Term>, mem: int -> Term, st: State<Term>, d: set<string>, again: bool,
      tys: string -> Ty, lang: Lang)
    requires e.Assign? && e.e1.Operand? && InStep(e, dim, i, fr, mem, st, d, again, tys, lang)
    requires Agreed(e.e2, dim, i, fr, mem, st, d, again, tys, lang)
    ensures Agreed(e, dim, i, fr, mem, st, d, again, tys, lang)
  {
    Parts(e);
    var k := dim + |Leaves(e.e2)|;
    var o, r := EvalAt(e.e2, i, st, Here(), Free(lang)), Exec(Body(e.e2, dim), tys, fr, mem, Free(lang));
    SourceRuns(e.e2, i, st, lang);
    BodyRuns(e.e2, dim, i, fr, mem, again, tys, lang);
    assert SameAt(fr, r.fr, LeafName(e.e1, k));
    UnfoldAssign(e, dim, i, fr, mem, st, tys, lang);
    SetsAgree(e, dim, i, o, r, fr, d, again, tys, lang);
  }

  lemma {:induction false} SetsAgree(
      e: Expr, dim: nat, i: nat, o: Outcome<Term>, r: LoopOutcome<Term>, fr: Frame<Term>, d: set<string>, again: bool,
      tys: string -> Ty, lang: Lang)
    requires e.Assign? && e.e1.Operand? && Elementwise(e) && Agree(e.e2, dim, i, o, r, d, again, tys, lang)
    requires NoConversions(o.st.vars) && !o.v.TConvert?
    requires again ==> Keeps(e, dim, d, tys, lang, false)
    requires var n := LeafName(e.e1, dim + |Leaves(e.e2)|);
      n in r.fr && r.fr[n].Scalar? && (e.aop.Compound? ==> (r.fr[n].v == TVar(e.e1.name) <==> !again))
    ensures Agree(e, dim, i, Store(e, i, o.v, o.st, Here(), Free(lang)),
                  ExecStore(e.aop, Body(e.e1, dim + |Leaves(e.e2)|), tys, BodyType(Body(e.e2, dim), tys, lang),
                            r.v, r.fr, r.mem, Free(lang)), d, again, tys, lang)
  {
    Parts(e);
  }
}
