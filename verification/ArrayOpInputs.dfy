/** Expressions that arrayOp accepts and that the generated function does not compute. */
module ArrayOpInputs {
  import opened Wrappers
  import opened ArrayOp
  import opened ArrayOpNames
  import opened ArrayOpMeaning
  import opened ArrayOpTerms
  import opened ArrayOpExact

  /** `a[] = b[] + operand`. */
  function Statement(elem: Ty, operand: Expr): Expr {
    var t := ArrayOf(elem);
    Assign(Plain, Slice("a", t), Binary(Add, Slice("b", t), operand, t), t)
  }

  /** Slice a is the elements 0 and 1, slice b the elements 2 and 3. */
  function Side(): Slices {
    n => if n == "a" then SliceRef(0, 2) else SliceRef(2, 2)
  }

  ghost predicate Summand<V>(elem: Ty, operand: Expr, m: Machine<V>) {
    WellTyped(operand) && operand.ty == elem && !elem.ArrayOf? && m.lang(Add, elem, elem) == AsIs(elem)
  }

  function Sum<V>(elem: Ty, v: V, w: V, m: Machine<V>): V {
    m.node(Add, elem, elem, elem, v, w)
  }

  lemma {:induction false} StatementAccepted<V>(elem: Ty, operand: Expr, m: Machine<V>)
    requires Summand(elem, operand, m)
    ensures var e := Statement(elem, operand);
      Accepted(e) && Apart(e, 2, Side()) && LongEnough(e, 2, Side()) && |Params(e, 0)| == |Args(e)| > 0 &&
      (Stable(e, m.lang) <==> Stable(operand, m.lang)) && (Clean(e, {}) <==> Clean(operand, {}))
  {
    var e := Statement(elem, operand);
    ScalarsHoldNoSlices(operand);
    assert WellTyped(e.e2.e1) && IsArrayOpValid(e.e2.e1) && Stable(e.e2.e1, m.lang) && Dirty(e.e2.e1, {}) == {};
    assert WellTyped(e.e2) && IsArrayOpValid(e.e2);
    assert Stable(e.e2, m.lang) <==> Stable(operand, m.lang);
    assert Clean(e.e2.e1, {}) && (Clean(e.e2, {}) <==> Clean(operand, {}));
    assert SliceNames(e.e2) == {"b"} + SliceNames(operand);
  }

  lemma {:induction false} ScalarsHoldNoSlices(e: Expr)
    requires WellTyped(e) && !e.ty.ArrayOf?
    ensures SliceNames(e) == {} && Targets(e) == {} && IsArrayOpValid(e)
  {
    match e
    case Operand(_, _) =>
    case Slice(_, _) =>
    case Cast(_, _) =>
    case Unary(_, e1, _) => ScalarsHoldNoSlices(e1);
    case Binary(_, e1, e2, _) => ScalarsHoldNoSlices(e1); ScalarsHoldNoSlices(e2);
    case Assign(_, e1, e2, _) => ScalarsHoldNoSlices(e1); ScalarsHoldNoSlices(e2);
  }

  /** Element i of the statement, in terms of its operand. */
  lemma {:induction false} StatementAt<V>(elem: Ty, operand: Expr, i: nat, st: State<V>, m: Machine<V>)
    requires Summand(elem, operand, m) && i < 2
    ensures var o := EvalAt(operand, i, st, Side(), m);
      o.Done? && o.st.mem == st.mem ==>
        var v := Sum(elem, st.mem(2 + i), o.v, m);
        EvalAt(Statement(elem, operand), i, st, Side(), m) == Done(v, State(Write(st.mem, i, v), o.st.vars))
  {
    var e, o := Statement(elem, operand), EvalAt(operand, i, st, Side(), m);
    if o.Done? && o.st.mem == st.mem {
      assert EvalAt(e.e2.e1, i, st, Side(), m) == Done(st.mem(2 + i), st);
      assert SourceType(e.e2, m.lang) == elem;
      assert EvalAt(e.e2, i, st, Side(), m) == Done(Sum(elem, st.mem(2 + i), o.v, m), o.st);
    }
  }

  ghost predicate SlicesBound<V>(fr: Frame<V>, elem: Ty, operand: Expr) {
    var t, k := ArrayOf(elem), 1 + |Leaves(operand)|;
    SliceBound(fr, Slice("b", t), 0) && SliceBound(fr, Slice("a", t), k)
  }

  ghost predicate SliceBound<V>(fr: Frame<V>, slice: Expr, k: nat)
    requires slice.Slice?
  {
    LeafName(slice, k) in fr && fr[LeafName(slice, k)] == Ref(Side()(slice.name))
  }

  /** A round of the generated loop, in terms of the part built for the operand. */
  lemma {:induction false} StatementRound<V>(
      elem: Ty, operand: Expr, tys: string -> Ty, fr: Frame<V>, i: nat, mem: int -> V, m: Machine<V>)
    requires Summand(elem, operand, m) && i < 2
    requires SlicesBound(fr, elem, operand) && INDEX in fr && fr[INDEX] == Count(i)
    requires TypedSlices(Statement(elem, operand), 0, tys) && BodyType(Body(operand, 1), tys, m.lang) == elem
    ensures var r := Exec(Body(operand, 1), tys, fr, mem, m);
      r.LDone? && r.mem == mem && SlicesBound(r.fr, elem, operand) && INDEX in r.fr && r.fr[INDEX] == Count(i) ==>
        var v := Sum(elem, mem(2 + i), r.v, m);
        Exec(Body(Statement(elem, operand), 0), tys, fr, mem, m) == LDone(v, r.fr, Write(mem, i, v))
  {
    var e, r := Statement(elem, operand), Exec(Body(operand, 1), tys, fr, mem, m);
    var b, a := Body(e.e2.e1, 0), Body(e.e1, 1 + |Leaves(operand)|);
    assert Body(e.e2, 0) == LBinary(Add, b, Body(operand, 1));
    assert Leaves(e.e2) == [e.e2.e1] + Leaves(operand);
    assert Body(e, 0) == LAssign(Plain, a, Body(e.e2, 0));
    assert TypedSlices(e.e2, 0, tys) && TypedSlices(e.e2.e1, 0, tys) && TypedSlices(e.e1, 1 + |Leaves(operand)|, tys);
    if r.LDone? && r.mem == mem && SlicesBound(r.fr, elem, operand) && INDEX in r.fr && r.fr[INDEX] == Count(i) {
      assert Exec(b, tys, fr, mem, m) == LDone(mem(2 + i), fr, mem);
      assert BodyType(b, tys, m.lang) == elem && BodyType(Body(e.e2, 0), tys, m.lang) == elem;
      assert Exec(Body(e.e2, 0), tys, fr, mem, m) == LDone(Sum(elem, mem(2 + i), r.v, m), r.fr, mem);
    }
  }

  lemma {:induction false} StatementLeaves(elem: Ty, operand: Expr)
    ensures var e := Statement(elem, operand); Leaves(e) == [e.e2.e1] + Leaves(operand) + [e.e1]
  {
    var e := Statement(elem, operand);
    assert Leaves(e.e2) == Leaves(e.e2.e1) + Leaves(operand) && Leaves(e.e2.e1) == [e.e2.e1];
    assert Leaves(e) == Leaves(e.e2) + Leaves(e.e1);
  }

  lemma {:induction false} StatementBound<V>(elem: Ty, operand: Expr, f: Function, vars: string -> V, m: Machine<V>)
    requires Summand(elem, operand, m) && Fits(f, Statement(elem, operand))
    ensures SlicesBound(Bind(f.params, Args(Statement(elem, operand)), vars, Side(), m), elem, operand)
    ensures TypedSlices(Statement(elem, operand), 0, TypesOf(f.params))
  {
    var e := Statement(elem, operand);
    StatementLeaves(elem, operand);
    BindLeaf(f, e, 0, vars, Side(), m);
    BindLeaf(f, e, 1 + |Leaves(operand)|, vars, Side(), m);
    BindHolds(f, e, vars, Side(), m);
  }

  ghost predicate LeafBound<V>(operand: Expr, fr: Frame<V>, j: nat, vars: string -> V, m: Machine<V>)
    requires j < |Leaves(operand)|
  {
    Holds(fr, Leaves(operand)[j], 1 + j, vars, Side(), m)
  }

  /** The frame the call starts with. */
  ghost predicate OperandBound<V>(elem: Ty, operand: Expr, fr: Frame<V>, vars: string -> V, m: Machine<V>) {
    SlicesBound(fr, elem, operand) && forall j: nat :: j < |Leaves(operand)| ==> LeafBound(operand, fr, j, vars, m)
  }

  predicate LeafTyped(operand: Expr, j: nat, tys: string -> Ty)
    requires j < |Leaves(operand)|
  {
    tys(LeafName(Leaves(operand)[j], 1 + j)) == Leaves(operand)[j].ty
  }

  /** The parameters have the types of the operand's leaves. */
  ghost predicate OperandTyped(operand: Expr, tys: string -> Ty) {
    forall j: nat :: j < |Leaves(operand)| ==> LeafTyped(operand, j, tys)
  }

  lemma {:induction false} StatementStarts<V>(elem: Ty, operand: Expr, f: Function, vars: string -> V, m: Machine<V>)
    requires Summand(elem, operand, m) && Fits(f, Statement(elem, operand))
    ensures OperandBound(elem, operand, Bind(f.params, Args(Statement(elem, operand)), vars, Side(), m), vars, m)
    ensures f == Generate(Statement(elem, operand)) ==> OperandTyped(operand, TypesOf(f.params))
  {
    var e := Statement(elem, operand);
    var ls, fr := Leaves(e), Bind(f.params, Args(e), vars, Side(), m);
    StatementBound(elem, operand, f, vars, m);
    StatementLeaves(elem, operand);
    forall j: nat | j < |Leaves(operand)|
      ensures LeafBound(operand, fr, j, vars, m)
      ensures f == Generate(e) ==> LeafTyped(operand, j, TypesOf(f.params))
    {
      assert ls[1 + j] == Leaves(operand)[j];
      BindLeaf(f, e, 1 + j, vars, Side(), m);
      ParameterAt(ls, Written(e), 0, |Leaves(operand)| - j);
    }
  }

  /** What the part built for the operand does in round i, from the frame that the last one left. */
  function OperandRound<V>(
      operand: Expr, tys: string -> Ty, fr: Frame<V>, i: nat, mem: int -> V, m: Machine<V>): LoopOutcome<V>
  {
    Exec(Body(operand, 1), tys, fr[INDEX := Count(i)], mem, m)
  }

  /** It touches no elements and no slices. */
  ghost predicate Harmless<V>(elem: Ty, operand: Expr, i: nat, mem: int -> V, r: LoopOutcome<V>) {
    r.LDone? && r.mem == mem && SlicesBound(r.fr, elem, operand) && INDEX in r.fr && r.fr[INDEX] == Count(i)
  }

  lemma {:induction false} OneRound<V>(
      elem: Ty, operand: Expr, tys: string -> Ty, fr: Frame<V>, i: nat, mem: int -> V, m: Machine<V>)
    requires Summand(elem, operand, m) && SlicesBound(fr, elem, operand) && i < 2
    requires TypedSlices(Statement(elem, operand), 0, tys) && BodyType(Body(operand, 1), tys, m.lang) == elem
    requires Harmless(elem, operand, i, mem, OperandRound(operand, tys, fr, i, mem, m))
    ensures var r := OperandRound(operand, tys, fr, i, mem, m);
      var v := Sum(elem, mem(2 + i), r.v, m);
      Exec(Body(Statement(elem, operand), 0), tys, fr[INDEX := Count(i)], mem, m) == LDone(v, r.fr, Write(mem, i, v))
  {
    IndexAside(fr, elem, operand, i);
    StatementRound(elem, operand, tys, fr[INDEX := Count(i)], i, mem, m);
  }

  /** A call, in terms of the operand in both rounds. */
  lemma {:induction false} StatementCall<V>(
      elem: Ty, operand: Expr, f: Function, st: State<V>, r: LoopOutcome<V>, q: LoopOutcome<V>, m: Machine<V>)
    requires Summand(elem, operand, m) && Accepted(Statement(elem, operand)) && Fits(f, Statement(elem, operand))
    requires BodyType(Body(operand, 1), TypesOf(f.params), m.lang) == elem
    requires var fr := Bind(f.params, Args(Statement(elem, operand)), st.vars, Side(), m);
      r == OperandRound(operand, TypesOf(f.params), fr, 0, st.mem, m) && Harmless(elem, operand, 0, st.mem, r)
    requires var mem := Write(st.mem, 0, Sum(elem, st.mem(2), r.v, m));
      q == OperandRound(operand, TypesOf(f.params), r.fr, 1, mem, m) && Harmless(elem, operand, 1, mem, q)
    ensures |f.params| == |Args(Statement(elem, operand))| > 0
    ensures Call(f, Args(Statement(elem, operand)), st, Side(), m) ==
      Some((Ref(SliceRef(0, 2)),
            Write(Write(st.mem, 0, Sum(elem, st.mem(2), r.v, m)), 1, Sum(elem, st.mem(3), q.v, m))))
  {
    var e, tys := Statement(elem, operand), TypesOf(f.params);
    StatementBound(elem, operand, f, st.vars, m);
    CallInTwoRounds(f, e, st, Side(), m);
    OneRound(elem, operand, tys, Bind(f.params, Args(e), st.vars, Side(), m), 0, st.mem, m);
    OneRound(elem, operand, tys, r.fr, 1, Write(st.mem, 0, Sum(elem, st.mem(2), r.v, m)), m);
  }

  lemma {:induction false} IndexAside<V>(fr: Frame<V>, elem: Ty, operand: Expr, i: nat)
    requires SlicesBound(fr, elem, operand)
    ensures SlicesBound(fr[INDEX := Count(i)], elem, operand)
  {
    var e, k := Statement(elem, operand), 1 + |Leaves(operand)|;
    LeafNamesDiffer(e.e1, e.e1, k, k);
    LeafNamesDiffer(e.e2.e1, e.e1, 0, k);
  }

  /** The call leaves `v` in a[1]. */
  ghost predicate ElementOneIs<V>(e: Expr, f: Function, st: State<V>, v: V, m: Machine<V>) {
    f.Generated? && |f.params| == |Args(e)| > 0 &&
    var r := Call(f, Args(e), st, Side(), m);
    r.Some? && r.value.1(1) == v
  }

  /** The same for the function generated for the statement itself. */
  lemma {:induction false} OwnStarts<V>(elem: Ty, operand: Expr, vars: string -> V, m: Machine<V>)
    requires Summand(elem, operand, m)
    ensures var e := Statement(elem, operand);
      OperandBound(elem, operand, Bind(Params(e, 0), Args(e), vars, Side(), m), vars, m) &&
      OperandTyped(operand, TypesOf(Params(e, 0)))
  {
    StatementAccepted(elem, operand, m);
    OwnFunctionFits(Statement(elem, operand));
    StatementStarts(elem, operand, Generate(Statement(elem, operand)), vars, m);
  }

  lemma {:induction false} OwnCall<V>(
      elem: Ty, operand: Expr, st: State<V>, r: LoopOutcome<V>, q: LoopOutcome<V>, m: Machine<V>)
    requires Summand(elem, operand, m)
    requires BodyType(Body(operand, 1), TypesOf(Params(Statement(elem, operand), 0)), m.lang) == elem
    requires var e := Statement(elem, operand);
      var fr, tys := Bind(Params(e, 0), Args(e), st.vars, Side(), m), TypesOf(Params(e, 0));
      r == OperandRound(operand, tys, fr, 0, st.mem, m) && Harmless(elem, operand, 0, st.mem, r)
    requires var mem := Write(st.mem, 0, Sum(elem, st.mem(2), r.v, m));
      q == OperandRound(operand, TypesOf(Params(Statement(elem, operand), 0)), r.fr, 1, mem, m) &&
      Harmless(elem, operand, 1, mem, q)
    ensures var e := Statement(elem, operand);
      ElementOneIs(e, Generate(e), st, Sum(elem, st.mem(3), q.v, m), m)
  {
    StatementAccepted(elem, operand, m);
    OwnFunctionFits(Statement(elem, operand));
    StatementCall(elem, operand, Generate(Statement(elem, operand)), st, r, q, m);
  }

  /** What the examples below have in common: the call for a statement gives another element than the
      statement. */
  ghost predicate Wrong<V>(elem: Ty, operand: Expr, f: Function, st: State<V>, right: V, wrong: V, m: Machine<V>) {
    var e := Statement(elem, operand);
    && Accepted(e) && Apart(e, 2, Side()) && LongEnough(e, 2, Side())
    && f.Generated? && |f.params| == |Args(e)| > 0
    && var o, r := EvalAt(e, 1, st, Side(), m), Call(f, Args(e), st, Side(), m);
    && o.Done? && o.st.mem(1) == right && r.Some? && r.value.1(1) == wrong
    && !PointwiseMeaning(r.value.1, 2, e, st, Side(), m)
  }

  lemma {:induction false} CallIsWrong<V>(
      elem: Ty, operand: Expr, f: Function, st: State<V>, right: V, wrong: V, m: Machine<V>)
    requires Summand(elem, operand, m) && ElementOneIs(Statement(elem, operand), f, st, wrong, m) && right != wrong
    requires var o := EvalAt(operand, 1, st, Side(), m);
      o.Done? && o.st.mem == st.mem && right == Sum(elem, st.mem(3), o.v, m)
    ensures Wrong(elem, operand, f, st, right, wrong, m)
    ensures var e := Statement(elem, operand);
      (Stable(e, m.lang) <==> Stable(operand, m.lang)) && (Clean(e, {}) <==> Clean(operand, {}))
  {
    StatementAccepted(elem, operand, m);
    StatementAt(elem, operand, 1, st, m);
    assert "a" in Targets(Statement(elem, operand)) && Side()("a").base + 1 == 1;
  }

  // ----- integers -----

  const INT := Basic("i")

  function Compute(op: Op, v1: int, v2: int): int {
    match op
    case Add => v1 + v2
    case Min => v1 - v2
    case Mul => v1 * v2
    case Div => if v2 == 0 then 0 else v1 / v2
    case _ => v1
  }

  /** The difference of two pointers to int is an int, scaled; any other operator is what it is. */
  function IntLang(): Lang {
    (op: Op, t1: Ty, t2: Ty) => if op == Min && t1 == Pointer(INT) && t2 == t1 then Rewritten(INT) else AsIs(t1)
  }

  function Integers(): Machine<int> {
    Machine(
      IntLang(),
      (op, t1, t2, ty, v1, v2) => Compute(op, v1, v2),
      (op, t1, t2, v1, v2) => Compute(op, v1, v2) / 4,
      (u, t, v) => v,
      (from, to, v) => v,
      (leaf, vals) => 0)
  }

  /** All elements are zero. */
  function Zeros(vars: string -> int): State<int> {
    State(a => 0, vars)
  }

  // ----- x += y accumulates -----

  /** `x += y`, on int. */
  function Accumulate(): Expr {
    Assign(Compound(Add), Operand("x", INT), Operand("y", INT), INT)
  }

  /** y is one, any other variable zero. */
  function YIsOne(): string -> int {
    x => if x == "y" then 1 else 0
  }

  ghost predicate AccumulateBound(fr: Frame<int>, v: int) {
    var y, x := LeafName(Operand("y", INT), 1), LeafName(Operand("x", INT), 2);
    SlicesBound(fr, INT, Accumulate()) && y in fr && fr[y] == Scalar(1) && x in fr && fr[x] == Scalar(v)
  }

  lemma {:induction false} AccumulateBody()
    ensures var y, x := Operand("y", INT), Operand("x", INT);
      Leaves(Accumulate()) == [y, x] &&
      Body(Accumulate(), 1) == LAssign(Compound(Add), Name(LeafName(x, 2)), Name(LeafName(y, 1)))
  {
    var y, x := Operand("y", INT), Operand("x", INT);
    assert Leaves(Accumulate()) == [y] + [x];
  }

  lemma {:induction false} AccumulateRuns(
      operand: Expr, tys: string -> Ty, fr: Frame<int>, i: nat, mem: int -> int, v: int, m: Machine<int>)
    requires operand == Accumulate() && m == Integers() && AccumulateBound(fr, v) && i < 2
    ensures var r := OperandRound(operand, tys, fr, i, mem, m);
      Harmless(INT, operand, i, mem, r) && r.v == v + 1 && AccumulateBound(r.fr, v + 1)
  {
    AccumulateBody();
    var y, x, t := Operand("y", INT), Operand("x", INT), ArrayOf(INT);
    LeafNamesDiffer(y, x, 1, 2);
    LeafNamesDiffer(x, x, 2, 2);
    LeafNamesDiffer(Slice("b", t), x, 0, 2);
    LeafNamesDiffer(Slice("a", t), x, 3, 2);
    IndexAside(fr, INT, operand, i);
    var fr0 := fr[INDEX := Count(i)];
    assert Exec(Body(operand, 1), tys, fr0, mem, m) == LDone(v + 1, fr0[LeafName(x, 2) := Scalar(v + 1)], mem);
  }

  lemma {:induction false} AccumulateStarts(
      operand: Expr, fr: Frame<int>, tys: string -> Ty, st: State<int>, m: Machine<int>)
    requires operand == Accumulate() && st == Zeros(YIsOne())
    requires OperandBound(INT, operand, fr, st.vars, m) && OperandTyped(operand, tys)
    ensures AccumulateBound(fr, 0) && BodyType(Body(operand, 1), tys, m.lang) == INT
  {
    AccumulateBody();
    assert LeafBound(operand, fr, 0, st.vars, m) && LeafBound(operand, fr, 1, st.vars, m);
    assert LeafTyped(operand, 1, tys);
  }

  lemma {:induction false} AccumulateTwice(
      operand: Expr, tys: string -> Ty, fr: Frame<int>, st: State<int>, m: Machine<int>)
      returns (r: LoopOutcome<int>, q: LoopOutcome<int>)
    requires operand == Accumulate() && m == Integers() && AccumulateBound(fr, 0)
    ensures r == OperandRound(operand, tys, fr, 0, st.mem, m) && Harmless(INT, operand, 0, st.mem, r)
    ensures var mem := Write(st.mem, 0, Sum(INT, st.mem(2), r.v, m));
      q == OperandRound(operand, tys, r.fr, 1, mem, m) && Harmless(INT, operand, 1, mem, q)
    ensures q.v == 2
  {
    AccumulateRuns(operand, tys, fr, 0, st.mem, 0, m);
    r := OperandRound(operand, tys, fr, 0, st.mem, m);
    var mem := Write(st.mem, 0, Sum(INT, st.mem(2), r.v, m));
    AccumulateRuns(operand, tys, r.fr, 1, mem, 1, m);
    q := OperandRound(operand, tys, r.fr, 1, mem, m);
  }

  lemma {:induction false} AccumulateCall(operand: Expr, st: State<int>, m: Machine<int>)
    requires operand == Accumulate() && st == Zeros(YIsOne()) && m == Integers() && Summand(INT, operand, m)
    ensures ElementOneIs(Statement(INT, operand), Generate(Statement(INT, operand)), st, 2, m)
  {
    var e := Statement(INT, operand);
    var fr, tys := Bind(Params(e, 0), Args(e), st.vars, Side(), m), TypesOf(Params(e, 0));
    OwnStarts(INT, operand, st.vars, m);
    AccumulateStarts(operand, fr, tys, st, m);
    var r, q := AccumulateTwice(operand, tys, fr, st, m);
    OwnCall(INT, operand, st, r, q, m);
  }

  lemma {:induction false} AccumulateAt(operand: Expr, st: State<int>, m: Machine<int>)
    requires operand == Accumulate() && st == Zeros(YIsOne()) && m == Integers()
    ensures var o := EvalAt(operand, 1, st, Side(), m); o.Done? && o.v == 1 && o.st.mem == st.mem
    ensures Stable(operand, m.lang) && !Clean(operand, {}) && Summand(INT, operand, m)
  {
  }

  /** For `a[] = b[] + (x += y)` the parameter of x keeps what it was given in one round for the next:
      with all elements zero, x zero and y one, a[1] becomes 2, where the expression gives 1. */
  lemma {:induction false} ByValueAccumulates(operand: Expr, st: State<int>, m: Machine<int>)
    requires operand == Accumulate() && st == Zeros(YIsOne()) && m == Integers()
    ensures var e := Statement(INT, operand);
      Wrong(INT, operand, Generate(e), st, 1, 2, m) && Stable(e, m.lang) && !Clean(e, {})
  {
    AccumulateAt(operand, st, m);
    AccumulateCall(operand, st, m);
    CallIsWrong(INT, operand, Generate(Statement(INT, operand)), st, 1, 2, m);
  }

  // ----- x = y is lost -----

  /** For `a[] = b[] + (x = y)` every element is right, but the caller's x does not change. */
  lemma {:induction false} ScalarAssignmentIsLost(operand: Expr, lang: Lang)
    requires operand == Assign(Plain, Operand("x", INT), Operand("y", INT), INT) && lang(Add, INT, INT) == AsIs(INT)
    ensures var e := Statement(INT, operand);
      Accepted(e) && Fits(Generate(e), e) && |Params(e, 0)| == |Args(e)| > 0 && Means(Generate(e), e, lang) &&
      !LeavesCaller(e, lang)
  {
    var e := Statement(INT, operand);
    assert WellTyped(operand) && Clean(operand, {}) && Stable(operand, lang) && !SelfOnly(operand);
    StatementAccepted(INT, operand, Free(lang));
    assert !SelfOnly(e.e2) && !SelfOnly(e);
    OwnMeansExactly(e, lang);
    WholeMeaningExactly(e, lang);
  }

  // ----- p - q is divided twice -----

  /** `p - q`, on pointers to int, as it was left by its analysis: divided by the size of an int. */
  function Distance(): Expr {
    Binary(Div, Binary(Min, Operand("p", Pointer(INT)), Operand("q", Pointer(INT)), INT), Operand("4", INT), INT)
  }

  /** 4 is four, p is sixteen, any other variable zero. */
  function SixteenApart(): string -> int {
    x => if x == "p" then 16 else if x == "4" then 4 else 0
  }

  ghost predicate DistanceBound(fr: Frame<int>) {
    var p, q, n := LeafName(Operand("p", Pointer(INT)), 1), LeafName(Operand("q", Pointer(INT)), 2),
                   LeafName(Operand("4", INT), 3);
    && SlicesBound(fr, INT, Distance()) && p in fr && fr[p] == Scalar(16) && q in fr && fr[q] == Scalar(0)
    && n in fr && fr[n] == Scalar(4)
  }

  ghost predicate DistanceTypes(tys: string -> Ty) {
    && tys(LeafName(Operand("p", Pointer(INT)), 1)) == Pointer(INT)
    && tys(LeafName(Operand("q", Pointer(INT)), 2)) == Pointer(INT) && tys(LeafName(Operand("4", INT), 3)) == INT
  }

  lemma {:induction false} DistanceBody()
    ensures var p, q, n := Operand("p", Pointer(INT)), Operand("q", Pointer(INT)), Operand("4", INT);
      Leaves(Distance()) == [p, q, n] &&
      Body(Distance(), 1) ==
      LBinary(Div, LBinary(Min, Name(LeafName(p, 1)), Name(LeafName(q, 2))), Name(LeafName(n, 3)))
  {
    var p, q, n := Operand("p", Pointer(INT)), Operand("q", Pointer(INT)), Operand("4", INT);
    assert Leaves(Distance().e1) == [p] + [q];
    assert Leaves(Distance()) == [p, q] + [n];
  }

  lemma {:induction false} DistanceRuns(
      operand: Expr, tys: string -> Ty, fr: Frame<int>, i: nat, mem: int -> int, m: Machine<int>)
    requires operand == Distance() && m == Integers() && DistanceBound(fr) && DistanceTypes(tys) && i < 2
    ensures var r := OperandRound(operand, tys, fr, i, mem, m);
      Harmless(INT, operand, i, mem, r) && r.v == 1 && DistanceBound(r.fr)
  {
    DistanceBody();
    var p, q, n := Operand("p", Pointer(INT)), Operand("q", Pointer(INT)), Operand("4", INT);
    LeafNamesDiffer(p, p, 1, 1);
    LeafNamesDiffer(q, q, 2, 2);
    LeafNamesDiffer(n, n, 3, 3);
    IndexAside(fr, INT, operand, i);
    var fr0 := fr[INDEX := Count(i)];
    var b1, b2 := LBinary(Min, Name(LeafName(p, 1)), Name(LeafName(q, 2))), Name(LeafName(n, 3));
    assert BodyType(b1, tys, m.lang) == INT && BodyType(b2, tys, m.lang) == INT;
    assert Exec(b1, tys, fr0, mem, m) == LDone(4, fr0, mem);
    assert Exec(Body(operand, 1), tys, fr0, mem, m) == LDone(1, fr0, mem);
  }

  lemma {:induction false} DistanceStarts(
      operand: Expr, fr: Frame<int>, tys: string -> Ty, st: State<int>, m: Machine<int>)
    requires operand == Distance() && st == Zeros(SixteenApart()) && m == Integers()
    requires OperandBound(INT, operand, fr, st.vars, m) && OperandTyped(operand, tys)
    ensures DistanceBound(fr) && DistanceTypes(tys) && BodyType(Body(operand, 1), tys, m.lang) == INT
  {
    DistanceBody();
    assert LeafBound(operand, fr, 0, st.vars, m) && LeafTyped(operand, 0, tys);
    assert LeafBound(operand, fr, 1, st.vars, m) && LeafTyped(operand, 1, tys);
    assert LeafBound(operand, fr, 2, st.vars, m) && LeafTyped(operand, 2, tys);
  }

  lemma {:induction false} DistanceTwice(
      operand: Expr, tys: string -> Ty, fr: Frame<int>, st: State<int>, m: Machine<int>)
      returns (r: LoopOutcome<int>, q: LoopOutcome<int>)
    requires operand == Distance() && m == Integers() && DistanceBound(fr) && DistanceTypes(tys)
    ensures r == OperandRound(operand, tys, fr, 0, st.mem, m) && Harmless(INT, operand, 0, st.mem, r)
    ensures var mem := Write(st.mem, 0, Sum(INT, st.mem(2), r.v, m));
      q == OperandRound(operand, tys, r.fr, 1, mem, m) && Harmless(INT, operand, 1, mem, q)
    ensures q.v == 1
  {
    DistanceRuns(operand, tys, fr, 0, st.mem, m);
    r := OperandRound(operand, tys, fr, 0, st.mem, m);
    var mem := Write(st.mem, 0, Sum(INT, st.mem(2), r.v, m));
    DistanceRuns(operand, tys, r.fr, 1, mem, m);
    q := OperandRound(operand, tys, r.fr, 1, mem, m);
  }

  lemma {:induction false} DistanceCall(operand: Expr, st: State<int>, m: Machine<int>)
    requires operand == Distance() && st == Zeros(SixteenApart()) && m == Integers() && Summand(INT, operand, m)
    ensures ElementOneIs(Statement(INT, operand), Generate(Statement(INT, operand)), st, 1, m)
  {
    var e := Statement(INT, operand);
    var fr, tys := Bind(Params(e, 0), Args(e), st.vars, Side(), m), TypesOf(Params(e, 0));
    OwnStarts(INT, operand, st.vars, m);
    DistanceStarts(operand, fr, tys, st, m);
    var r, q := DistanceTwice(operand, tys, fr, st, m);
    OwnCall(INT, operand, st, r, q, m);
  }

  lemma {:induction false} DistanceAt(operand: Expr, st: State<int>, m: Machine<int>)
    requires operand == Distance() && st == Zeros(SixteenApart()) && m == Integers()
    ensures var o := EvalAt(operand, 1, st, Side(), m); o.Done? && o.v == 4 && o.st.mem == st.mem
    ensures !Stable(operand, m.lang) && Clean(operand, {}) && Summand(INT, operand, m)
  {
    assert EvalAt(operand.e1, 1, st, Side(), m) == Done(16, st);
    assert !Stable(operand.e1, m.lang) && Clean(operand.e1, {});
  }

  /** For `a[] = b[] + (p - q)` on int, with sixteen bytes between p and q, a[1] becomes 1, where the
      expression gives 4: the body's `c1 - c2` is analysed again, and divided again. */
  lemma {:induction false} PointersDividedTwice(operand: Expr, st: State<int>, m: Machine<int>)
    requires operand == Distance() && st == Zeros(SixteenApart()) && m == Integers()
    ensures var e := Statement(INT, operand);
      Wrong(INT, operand, Generate(e), st, 4, 1, m) && !Stable(e, m.lang) && Clean(e, {})
  {
    DistanceAt(operand, st, m);
    DistanceCall(operand, st, m);
    CallIsWrong(INT, operand, Generate(Statement(INT, operand)), st, 4, 1, m);
  }
}
