/** `BinExp::arrayOp`: the cache of array operation functions over a whole compilation. */
module ArrayOpCache {
  import opened Root
  import opened ArrayOp
  import opened ArrayOpNames
  import opened ArrayOpMeaning
  import opened ArrayOpTerms
  import opened ArrayOpExact
  import opened ArrayOpInputs

  datatype Error = VoidElements | InvalidOperation

  datatype Result = Error(why: Error) | CallTo(f: Function, args: seq<Expr>)

  /** Cached under `name` is the library function of that name, or one generated from an expression
      that has the name. */
  ghost predicate BuiltFor(f: Function, name: string, lib: set<string>) {
    if name in lib then f == Library(name)
    else exists e: Expr :: Accepted(e) && NameOf(e) == name && f == Generate(e)
  }

  method Mangle(e: Expr) returns (name: string, args: seq<Expr>)
    requires e.ty.ArrayOf?
    ensures name == NameOf(e) && args == Args(e)
  {
    var buf := new OutBuffer();
    var arguments := new Array<Expr>();
    buf.WriteString("_array");
    BuildArrayIdent(e, buf, arguments);
    buf.WriteString("_");
    buf.WriteString(Deco(e.ty.elem));
    return buf.data, arguments.data;
  }

  method GenerateFunction(e: Expr) returns (f: Function)
    ensures f == Generate(e)
  {
    var fparams := new Array<Parameter>();
    var loopbody := BuildArrayLoop(e, fparams);
    f := Generated(fparams.data, loopbody, e.ty);
  }

  class Compiler {
    var arrayfuncs: map<string, Function>
    const lib: set<string>

    ghost predicate Valid()
      reads this
    {
      forall name :: name in arrayfuncs ==> BuiltFor(arrayfuncs[name], name, lib)
    }

    constructor (libArrayopFuncs: set<string>)
      ensures Valid() && arrayfuncs == map[] && lib == libArrayopFuncs
    {
      arrayfuncs := map[];
      lib := libArrayopFuncs;
    }

    method ArrayOp(e: Expr) returns (r: Result)
      requires Valid() && WellTyped(e) && e.Assign? && e.e1.Slice? && e.ty.ArrayOf?
      modifies this
      ensures Valid()
      ensures e.ty.elem == VOID ==> r == Error(VoidElements)
      ensures e.ty.elem != VOID && !TakesElements(e.e2) ==> r == Error(InvalidOperation)
      ensures r.Error? <==> e.ty.elem == VOID || !TakesElements(e.e2)
      ensures r.Error? ==> arrayfuncs == old(arrayfuncs)
      ensures r.CallTo? ==>
        var name := NameOf(e);
        && r.args == Args(e) && name in arrayfuncs && r.f == arrayfuncs[name]
        && arrayfuncs == old(arrayfuncs)[name := r.f]
        && (name in old(arrayfuncs) ==> r.f == old(arrayfuncs)[name])
        && (name !in old(arrayfuncs) ==> r.f == (if name in lib then Library(name) else Generate(e)))
    {
      AcceptedExactly(e.e2);
      if e.ty.elem == VOID {
        return Error(VoidElements);
      }
      if !IsArrayOpValid(e.e2) {
        return Error(InvalidOperation);
      }
      var name, arguments := Mangle(e);
      if name !in arrayfuncs {
        var fd;
        if name in lib {
          fd := Library(name);
        } else {
          fd := GenerateFunction(e);
        }
        arrayfuncs := arrayfuncs[name := fd];
      }
      r := CallTo(arrayfuncs[name], arguments);
    }
  }

  // ----- the cached function against the expression -----

  lemma {:induction false} ScalarsHaveNoSlices(e: Expr)
    requires WellTyped(e) && !e.ty.ArrayOf?
    ensures forall l :: l in Leaves(e) ==> !l.Slice?
  {
    match e
    case Operand(_, _) =>
    case Slice(_, _) =>
    case Cast(_, _) =>
    case Unary(_, e1, _) => ScalarsHaveNoSlices(e1);
    case Binary(_, e1, e2, _) => ScalarsHaveNoSlices(e1); ScalarsHaveNoSlices(e2);
    case Assign(_, e1, e2, _) => ScalarsHaveNoSlices(e1); ScalarsHaveNoSlices(e2);
  }

  /** All slices of an accepted expression have its type. */
  lemma {:induction false} SlicesHaveOneType(e: Expr)
    requires Elementwise(e)
    ensures forall l :: l in Leaves(e) && l.Slice? ==> l.ty == e.ty
    ensures e.ty.ArrayOf? ==> !e.ty.elem.ArrayOf?
  {
    Parts(e);
    match e
    case Operand(_, _) =>
    case Slice(_, _) =>
    case Cast(_, _) =>
    case Unary(_, e1, _) => SlicesHaveOneType(e1);
    case Binary(_, e1, e2, ty) =>
      if e1.ty.ArrayOf? { SlicesHaveOneType(e1); } else { ScalarsHaveNoSlices(e1); }
      if e2.ty.ArrayOf? { SlicesHaveOneType(e2); } else { ScalarsHaveNoSlices(e2); }
    case Assign(_, e1, e2, _) =>
      assert WellTyped(e1) && Leaves(e1) == [e1];
      if e2.ty.ArrayOf? { SlicesHaveOneType(e2); } else { ScalarsHaveNoSlices(e2); }
  }

  /** The name decides everything but the types of scalar operands. */
  lemma {:induction false} SameNameFits(e0: Expr, e: Expr)
    requires Accepted(e0) && Accepted(e) && NameOf(e0) == NameOf(e)
    ensures e0.ty == e.ty && Fits(Generate(e0), e) && |Params(e0, 0)| == |Args(e)| > 0
  {
    NameDecodes(e0, e);
    DecoInjective(e0.ty.elem, e.ty.elem);
    SameShapeSameCode(e0, e, 0);
    SlicesHaveOneType(e0);
    SlicesHaveOneType(e);
    LeavesFit(Leaves(e0), Written(e0), Leaves(e), e.ty);
  }

  lemma {:induction false} LeavesFit(ls0: seq<Expr>, ws: seq<bool>, ls: seq<Expr>, ty: Ty)
    requires |ls0| == |ws| && Kinds(ls0) == Kinds(ls)
    requires forall l :: l in ls0 && l.Slice? ==> l.ty == ty
    requires forall l :: l in ls && l.Slice? ==> l.ty == ty
    ensures |ls0| == |ls| && forall k :: 0 <= k < |ls| ==> FitsAt(ParamsOf(ls0, ws, 0), ls, k)
  {
    assert |ls0| == |Kinds(ls0)| == |ls|;
    forall k | 0 <= k < |ls| ensures FitsAt(ParamsOf(ls0, ws, 0), ls, k) {
      var j := |ls| - 1 - k;
      ParameterAt(ls0, ws, 0, k);
      assert Kinds(ls0)[j] == ls0[j].Slice? && Kinds(ls)[j] == ls[j].Slice? && ls0[j] in ls0 && ls[j] in ls;
    }
  }

  lemma {:induction false} OwnTypesAt(e: Expr, dim: nat, tys: string -> Ty, j: nat)
    requires OwnTypes(e, dim, tys) && j < |Leaves(e)|
    ensures tys(LeafName(Leaves(e)[j], dim + j)) == Leaves(e)[j].ty
  {
    match e
    case Operand(_, _) =>
    case Slice(_, _) =>
    case Cast(e1, ty) => if ty.ArrayOf? { OwnTypesAt(e1, dim, tys, j); }
    case Unary(_, e1, _) => OwnTypesAt(e1, dim, tys, j);
    case Binary(_, e1, e2, _) =>
      var n := |Leaves(e1)|;
      if j < n { OwnTypesAt(e1, dim, tys, j); } else { OwnTypesAt(e2, dim + n, tys, j - n); }
    case Assign(_, e1, e2, _) =>
      var n := |Leaves(e2)|;
      if j < n { OwnTypesAt(e2, dim, tys, j); } else { OwnTypesAt(e1, dim + n, tys, j - n); }
  }

  /** The parameters have the types of the arguments. */
  predicate Agrees(ps: seq<Parameter>, args: seq<Expr>) {
    |ps| == |args| && forall i :: 0 <= i < |ps| ==> ps[i].ty == args[i].ty
  }

  lemma {:induction false} AgreesExactly(f: Function, e: Expr)
    requires Fits(f, e)
    ensures Agrees(f.params, Args(e)) <==> OwnTypes(e, 0, TypesOf(f.params))
  {
    var ls, tys := Leaves(e), TypesOf(f.params);
    ParametersAgree(f.params, ls);
    assert ls[0..0 + |ls|] == ls;
    TypedByLeaves(e, 0, ls, tys);
    if OwnTypes(e, 0, tys) {
      forall j | 0 <= j < |ls| ensures tys(LeafName(ls[j], j)) == ls[j].ty {
        OwnTypesAt(e, 0, tys, j);
      }
    }
  }

  lemma {:induction false} ParametersAgree(ps: seq<Parameter>, ls: seq<Expr>)
    requires |ps| == |ls| && forall k :: 0 <= k < |ps| ==> FitsAt(ps, ls, k)
    ensures Agrees(ps, Reverse(ls)) <==> AllTyped(ls, TypesOf(ps), false)
  {
    forall j: nat | j < |ls|
      ensures TypesOf(ps)(LeafName(ls[j], j)) == ps[|ls| - 1 - j].ty && Reverse(ls)[|ls| - 1 - j] == ls[j]
    {
      TypeOfLeaf(ps, ls, j);
      ReversedAt(ls, |ls| - 1 - j);
    }
    if AllTyped(ls, TypesOf(ps), false) {
      forall i | 0 <= i < |ls| ensures ps[i].ty == Reverse(ls)[i].ty {
        assert ls[|ls| - 1 - i].ty == ps[i].ty;
      }
    }
  }

  /** Whatever was compiled before, a cached function that is not a library function computes the
      meaning of `e` if its parameters have the types of the arguments, and the function generated for
      `e` itself would. */
  lemma {:induction false} CachedCallPreservesMeaning<V>(
      f: Function, lib: set<string>, e: Expr, st: State<V>, env: Slices, m: Machine<V>)
    requires Accepted(e) && NameOf(e) !in lib && BuiltFor(f, NameOf(e), lib) && Agrees(f.params, Args(e))
    requires Stable(e, m.lang) && Clean(e, {}) && Apart(e, env(e.e1.name).len, env)
    ensures Fits(f, e) && |f.params| == |Args(e)| > 0 && CallMeans(f, e, st, env, m)
  {
    var e0: Expr :| Accepted(e0) && NameOf(e0) == NameOf(e) && f == Generate(e0);
    SameNameFits(e0, e);
    AgreesExactly(f, e);
    KeepsWithOwnTypes(e, 0, {}, TypesOf(f.params), m.lang);
    MeaningPreserved(f, e, st, env, m);
  }

  /** A cached function computes the meaning of `e` whatever the arithmetic, the state and the slices if
      and only if its parameters have the types of the arguments, and the function generated for `e`
      itself would. */
  lemma {:induction false} CachedCallExactly(f: Function, lib: set<string>, e: Expr, lang: Lang)
    requires Accepted(e) && NameOf(e) !in lib && BuiltFor(f, NameOf(e), lib)
    ensures Fits(f, e) && |f.params| == |Args(e)| > 0
    ensures Means(f, e, lang) <==> Agrees(f.params, Args(e)) && Stable(e, lang) && Clean(e, {})
  {
    var e0: Expr :| Accepted(e0) && NameOf(e0) == NameOf(e) && f == Generate(e0);
    SameNameFits(e0, e);
    MeansExactly(f, e, lang);
    AgreesExactly(f, e);
    BindHolds(f, e, Start().vars, Here(), Free(lang));
    KeepsExactly(e, TypesOf(f.params), lang);
  }

  lemma {:induction false} KeepsExactly(e: Expr, tys: string -> Ty, lang: Lang)
    requires Accepted(e) && TypedSlices(e, 0, tys)
    ensures Keeps(e, 0, {}, tys, lang, true) <==> OwnTypes(e, 0, tys) && Stable(e, lang) && Clean(e, {})
  {
    if Keeps(e, 0, {}, tys, lang, true) {
      SlicesKeepTheirType(e, 0, tys, lang);
      KeepsFixesTypes(e, 0, {}, tys, lang, true);
    }
    if OwnTypes(e, 0, tys) {
      KeepsWithOwnTypes(e, 0, {}, tys, lang);
    }
  }

  // ----- two names alike -----

  const DOUBLE := Basic("d")
  const IDOUBLE := Basic("p")
  const CDOUBLE := Basic("r")

  /** The sum of a double and an imaginary double, in any order, is complex, and its operands are left
      as they are. */
  function ComplexLang(): Lang {
    (op: Op, t1: Ty, t2: Ty) => AsIs(if t1 == t2 then t1 else CDOUBLE)
  }

  /** A double and an imaginary double are one number each, a complex one is two. */
  function Re(t: Ty, v: (int, int)): int {
    if t == IDOUBLE then 0 else v.0
  }

  function Im(t: Ty, v: (int, int)): int {
    if t == IDOUBLE then v.0 else if t == DOUBLE then 0 else v.1
  }

  /** Only addition is needed here. */
  function Complexes(): Machine<(int, int)> {
    Machine(
      ComplexLang(),
      (op, t1, t2, ty, v1, v2) => (Re(t1, v1) + Re(t2, v2), Im(t1, v1) + Im(t2, v2)),
      (op, t1, t2, v1, v2) => v1,
      (u, t, v) => v,
      (from, to, v) => (Re(from, v), Im(from, v)),
      (leaf, vals) => (0, 0))
  }

  /** `x + y`, where x is of type t and y of type u. */
  function XPlusY(t: Ty, u: Ty): Expr {
    Binary(Add, Operand("x", t), Operand("y", u), CDOUBLE)
  }

  /** All elements are zero, x is one and y two. */
  function OneAndTwo(): State<(int, int)> {
    State(a => (0, 0), x => if x == "y" then (2, 0) else (1, 0))
  }

  ghost predicate SumBound(fr: Frame<(int, int)>, t: Ty, u: Ty) {
    var x, y := LeafName(Operand("x", t), 1), LeafName(Operand("y", u), 2);
    && SlicesBound(fr, CDOUBLE, XPlusY(t, u))
    && x in fr && fr[x] == Scalar((1, 0)) && y in fr && fr[y] == Scalar((2, 0))
  }

  lemma {:induction false} SumBody(t: Ty, u: Ty)
    ensures var x, y := Operand("x", t), Operand("y", u);
      Leaves(XPlusY(t, u)) == [x, y] &&
      Body(XPlusY(t, u), 1) == LBinary(Add, Name(LeafName(x, 1)), Name(LeafName(y, 2)))
    ensures ShapeOf(XPlusY(t, u)) == SBinary(Add, SExp, SExp)
  {
    assert Leaves(XPlusY(t, u)) == [Operand("x", t)] + [Operand("y", u)];
  }

  lemma {:induction false} SumStarts(
      operand: Expr, fr: Frame<(int, int)>, t: Ty, u: Ty, st: State<(int, int)>, m: Machine<(int, int)>)
    requires operand == XPlusY(t, u) && st == OneAndTwo() && OperandBound(CDOUBLE, operand, fr, st.vars, m)
    ensures SumBound(fr, t, u)
  {
    SumBody(t, u);
    assert LeafBound(operand, fr, 0, st.vars, m) && LeafBound(operand, fr, 1, st.vars, m);
  }

  /** With an imaginary x and a real y. */
  ghost predicate SwappedTypes(tys: string -> Ty) {
    tys(LeafName(Operand("x", DOUBLE), 1)) == IDOUBLE && tys(LeafName(Operand("y", IDOUBLE), 2)) == DOUBLE
  }

  lemma {:induction false} SumTypes(operand0: Expr, tys: string -> Ty)
    requires operand0 == XPlusY(IDOUBLE, DOUBLE) && OperandTyped(operand0, tys)
    ensures SwappedTypes(tys)
  {
    SumBody(IDOUBLE, DOUBLE);
    assert LeafTyped(operand0, 0, tys) && LeafTyped(operand0, 1, tys);
  }

  lemma {:induction false} SumRuns(
      operand: Expr, tys: string -> Ty, fr: Frame<(int, int)>, i: nat, mem: int -> (int, int), m: Machine<(int, int)>)
    requires operand == XPlusY(DOUBLE, IDOUBLE) && m == Complexes() && i < 2
    requires SumBound(fr, DOUBLE, IDOUBLE) && SwappedTypes(tys)
    ensures var r := OperandRound(operand, tys, fr, i, mem, m);
      Harmless(CDOUBLE, operand, i, mem, r) && r.v == (2, 1) && SumBound(r.fr, DOUBLE, IDOUBLE)
    ensures BodyType(Body(operand, 1), tys, m.lang) == CDOUBLE
  {
    SumBody(DOUBLE, IDOUBLE);
    var x, y := Operand("x", DOUBLE), Operand("y", IDOUBLE);
    LeafNamesDiffer(x, x, 1, 1);
    LeafNamesDiffer(y, y, 2, 2);
    IndexAside(fr, CDOUBLE, operand, i);
    var fr0 := fr[INDEX := Count(i)];
    assert Exec(Name(LeafName(x, 1)), tys, fr0, mem, m) == LDone((1, 0), fr0, mem);
    assert Exec(Name(LeafName(y, 2)), tys, fr0, mem, m) == LDone((2, 0), fr0, mem);
    assert Exec(Body(operand, 1), tys, fr0, mem, m) == LDone((2, 1), fr0, mem);
  }

  lemma {:induction false} SumTwice(
      operand: Expr, tys: string -> Ty, fr: Frame<(int, int)>, st: State<(int, int)>, m: Machine<(int, int)>)
      returns (r: LoopOutcome<(int, int)>, q: LoopOutcome<(int, int)>)
    requires operand == XPlusY(DOUBLE, IDOUBLE) && m == Complexes()
    requires SumBound(fr, DOUBLE, IDOUBLE) && SwappedTypes(tys)
    ensures r == OperandRound(operand, tys, fr, 0, st.mem, m) && Harmless(CDOUBLE, operand, 0, st.mem, r)
    ensures var mem := Write(st.mem, 0, Sum(CDOUBLE, st.mem(2), r.v, m));
      q == OperandRound(operand, tys, r.fr, 1, mem, m) && Harmless(CDOUBLE, operand, 1, mem, q)
    ensures q.v == (2, 1) && BodyType(Body(operand, 1), tys, m.lang) == CDOUBLE
  {
    SumRuns(operand, tys, fr, 0, st.mem, m);
    r := OperandRound(operand, tys, fr, 0, st.mem, m);
    var mem := Write(st.mem, 0, Sum(CDOUBLE, st.mem(2), r.v, m));
    SumRuns(operand, tys, r.fr, 1, mem, m);
    q := OperandRound(operand, tys, r.fr, 1, mem, m);
  }

  ghost predicate ShareName(e0: Expr, e: Expr) {
    Accepted(e0) && Accepted(e) && NameOf(e0) == NameOf(e)
  }

  lemma {:induction false} SumsShareName(operand: Expr, operand0: Expr, m: Machine<(int, int)>)
    requires operand == XPlusY(DOUBLE, IDOUBLE) && operand0 == XPlusY(IDOUBLE, DOUBLE)
    requires Summand(CDOUBLE, operand, m) && Summand(CDOUBLE, operand0, m)
    ensures ShareName(Statement(CDOUBLE, operand0), Statement(CDOUBLE, operand))
  {
    SumBody(DOUBLE, IDOUBLE);
    SumBody(IDOUBLE, DOUBLE);
    StatementAccepted(CDOUBLE, operand, m);
    StatementAccepted(CDOUBLE, operand0, m);
    SameShapeSameName(CDOUBLE, operand, operand0);
  }

  lemma {:induction false} SameShapeSameName(elem: Ty, operand: Expr, operand0: Expr)
    requires ShapeOf(operand) == ShapeOf(operand0)
    ensures NameOf(Statement(elem, operand0)) == NameOf(Statement(elem, operand))
  {
    var e, e0 := Statement(elem, operand), Statement(elem, operand0);
    assert ShapeOf(e.e2) == ShapeOf(e0.e2);
    NameDecodes(e0, e);
  }

  /** What a call for one statement of the function generated for another starts with. */
  lemma {:induction false} SharedStarts<V>(elem: Ty, operand: Expr, operand0: Expr, vars: string -> V, m: Machine<V>)
    requires ShareName(Statement(elem, operand0), Statement(elem, operand))
    requires Summand(elem, operand, m) && Summand(elem, operand0, m)
    ensures var e, ps := Statement(elem, operand), Params(Statement(elem, operand0), 0);
      |ps| == |Args(e)| && OperandBound(elem, operand, Bind(ps, Args(e), vars, Side(), m), vars, m) &&
      OperandTyped(operand0, TypesOf(ps))
  {
    var e, e0 := Statement(elem, operand), Statement(elem, operand0);
    SameNameFits(e0, e);
    StatementStarts(elem, operand, Generate(e0), vars, m);
    OwnStarts(elem, operand0, vars, m);
  }

  lemma {:induction false} SharedCall<V>(
      elem: Ty, operand: Expr, operand0: Expr, st: State<V>, r: LoopOutcome<V>, q: LoopOutcome<V>, m: Machine<V>)
    requires ShareName(Statement(elem, operand0), Statement(elem, operand)) && Summand(elem, operand, m)
    requires var e, ps := Statement(elem, operand), Params(Statement(elem, operand0), 0);
      && |ps| == |Args(e)| && BodyType(Body(operand, 1), TypesOf(ps), m.lang) == elem
      && r == OperandRound(operand, TypesOf(ps), Bind(ps, Args(e), st.vars, Side(), m), 0, st.mem, m)
      && Harmless(elem, operand, 0, st.mem, r)
    requires var mem, ps := Write(st.mem, 0, Sum(elem, st.mem(2), r.v, m)), Params(Statement(elem, operand0), 0);
      q == OperandRound(operand, TypesOf(ps), r.fr, 1, mem, m) && Harmless(elem, operand, 1, mem, q)
    ensures var e, e0 := Statement(elem, operand), Statement(elem, operand0);
      ElementOneIs(e, Generate(e0), st, Sum(elem, st.mem(3), q.v, m), m)
  {
    var e0 := Statement(elem, operand0);
    SameNameFits(e0, Statement(elem, operand));
    StatementCall(elem, operand, Generate(e0), st, r, q, m);
  }

  lemma {:induction false} SumIsStable(operand: Expr, t: Ty, u: Ty, m: Machine<(int, int)>)
    requires operand == XPlusY(t, u) && m == Complexes()
    requires (t == DOUBLE && u == IDOUBLE) || (t == IDOUBLE && u == DOUBLE)
    ensures Summand(CDOUBLE, operand, m) && Stable(operand, m.lang) && Clean(operand, {})
  {
  }

  lemma {:induction false} SumAt(operand: Expr, st: State<(int, int)>, m: Machine<(int, int)>)
    requires operand == XPlusY(DOUBLE, IDOUBLE) && m == Complexes() && st == OneAndTwo()
    ensures EvalAt(operand, 1, st, Side(), m) == Done((1, 2), st)
  {
  }

  lemma {:induction false} SumCall(operand: Expr, operand0: Expr, st: State<(int, int)>, m: Machine<(int, int)>)
    requires operand == XPlusY(DOUBLE, IDOUBLE) && operand0 == XPlusY(IDOUBLE, DOUBLE)
    requires m == Complexes() && st == OneAndTwo()
    ensures ElementOneIs(Statement(CDOUBLE, operand), Generate(Statement(CDOUBLE, operand0)), st, (2, 1), m)
  {
    var ps, args := Params(Statement(CDOUBLE, operand0), 0), Args(Statement(CDOUBLE, operand));
    SumIsStable(operand, DOUBLE, IDOUBLE, m);
    SumIsStable(operand0, IDOUBLE, DOUBLE, m);
    SumsShareName(operand, operand0, m);
    SharedStarts(CDOUBLE, operand, operand0, st.vars, m);
    SumTypes(operand0, TypesOf(ps));
    var fr := Bind(ps, args, st.vars, Side(), m);
    SumStarts(operand, fr, DOUBLE, IDOUBLE, st, m);
    var r, q := SumTwice(operand, TypesOf(ps), fr, st, m);
    SharedCall(CDOUBLE, operand, operand0, st, r, q, m);
  }

  /** The types do matter: on complex elements, `a[] = b[] + (x + y)` has the same name when x is an
      imaginary double and y a double as when x is a double and y an imaginary one. Called for the
      second one, the function generated for the first takes the real part for the imaginary: with x
      one and y two, a[1] becomes 2 + 1i, where the expression gives 1 + 2i. */
  lemma {:induction false} NameHidesOperandTypes(
      operand: Expr, operand0: Expr, st: State<(int, int)>, m: Machine<(int, int)>)
    requires operand == XPlusY(DOUBLE, IDOUBLE) && operand0 == XPlusY(IDOUBLE, DOUBLE)
    requires m == Complexes() && st == OneAndTwo()
    ensures var e, e0 := Statement(CDOUBLE, operand), Statement(CDOUBLE, operand0);
      && ShareName(e0, e) && Stable(e, m.lang) && Clean(e, {})
      && Wrong(CDOUBLE, operand, Generate(e0), st, (1, 2), (2, 1), m)
  {
    SumIsStable(operand, DOUBLE, IDOUBLE, m);
    SumIsStable(operand0, IDOUBLE, DOUBLE, m);
    SumsShareName(operand, operand0, m);
    SumAt(operand, st, m);
    SumCall(operand, operand0, st, m);
    CallIsWrong(CDOUBLE, operand, Generate(Statement(CDOUBLE, operand0)), st, (1, 2), (2, 1), m);
  }
}
