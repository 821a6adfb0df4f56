/** What a generated array operation computes, against the element-by-element meaning of the
    expression it was generated from. The generated function is analysed again, from the types of its
    parameters; the expression has been analysed once already. */
module ArrayOpMeaning {
  import opened Wrappers
  import opened ArrayOp
  import opened ArrayOpNames

  // ----- types and operators -----

  /** What semantic analysis makes of an operator on values of two types: the node as it stands, with
      its type, or something else (a pointer difference, say, is divided by the stride). */
  datatype Analysis = AsIs(ty: Ty) | Rewritten(ty: Ty)

  type Lang = (Op, Ty, Ty) -> Analysis

  /** The language and the arithmetic, all arbitrary: analysed nodes are told apart by the types of
      their operands and their own; `operand` is the value of an operand that is no variable. */
  datatype Machine<!V> = Machine(
    lang: Lang,
    node: (Op, Ty, Ty, Ty, V, V) -> V,
    rewritten: (Op, Ty, Ty, V, V) -> V,
    unary: (UnOp, Ty, V) -> V,
    convert: (Ty, Ty, V) -> V,
    operand: (Expr, map<string, V>) -> V)

  /** An operator that is analysed now. */
  function Apply<V>(m: Machine<V>, op: Op, t1: Ty, t2: Ty, v1: V, v2: V): V {
    match m.lang(op, t1, t2)
    case AsIs(ty) => m.node(op, t1, t2, ty, v1, v2)
    case Rewritten(_) => m.rewritten(op, t1, t2, v1, v2)
  }

  function Convert<V>(m: Machine<V>, from: Ty, to: Ty, v: V): V {
    if from == to then v else m.convert(from, to, v)
  }

  /** The value an assignment that is analysed now leaves in a target of type t. */
  function Combine<V>(m: Machine<V>, aop: AssignOp, t: Ty, s: Ty, before: V, v: V): V {
    match aop
    case Plain => Convert(m, s, t, v)
    case Compound(op) => Convert(m, m.lang(op, t, s).ty, t, Apply(m, op, t, s, before, v))
  }

  function ElemOf(t: Ty): Ty {
    if t.ArrayOf? then t.elem else t
  }

  /** The type of one element of `e`, under the ordinary rules for its operators. */
  function SourceType(e: Expr, lang: Lang): Ty {
    if !e.ty.ArrayOf? then e.ty
    else
      match e
      case Operand(_, ty) => ty.elem
      case Slice(_, ty) => ty.elem
      case Cast(e1, _) => SourceType(e1, lang)
      case Unary(_, e1, _) => SourceType(e1, lang)
      case Binary(op, e1, e2, _) => lang(op, SourceType(e1, lang), SourceType(e2, lang)).ty
      case Assign(_, e1, _, _) => SourceType(e1, lang)
  }

  /** The type of the loop body when the parameters have the types `tys`. */
  function BodyType(b: LoopExpr, tys: string -> Ty, lang: Lang): Ty {
    match b
    case Name(n) => tys(n)
    case Element(a, _) => ElemOf(tys(a))
    case LUnary(_, b1) => BodyType(b1, tys, lang)
    case LBinary(op, b1, b2) => lang(op, BodyType(b1, tys, lang), BodyType(b2, tys, lang)).ty
    case LAssign(_, b1, _) => BodyType(b1, tys, lang)
  }

  // ----- the meaning of the source expression at one index -----

  /** A slice at run time: the address of its first element and its length, in elements. */
  datatype SliceRef = SliceRef(base: int, len: nat)

  type Slices = string -> SliceRef

  /** Array elements, and the variables of the caller. */
  datatype State<!V> = State(mem: int -> V, vars: string -> V)

  function Write<V>(mem: int -> V, a: int, v: V): int -> V {
    b => if b == a then v else mem(b)
  }

  function Set<V>(vars: string -> V, x: string, v: V): string -> V {
    y => if y == x then v else vars(y)
  }

  /** The variables an operand mentions. */
  function VarsOf(e: Expr): set<string> {
    match e
    case Operand(n, _) => {n}
    case Slice(_, _) => {}
    case Cast(e1, _) => VarsOf(e1)
    case Unary(_, e1, _) => VarsOf(e1)
    case Binary(_, e1, e2, _) => VarsOf(e1) + VarsOf(e2)
    case Assign(_, e1, e2, _) => VarsOf(e1) + VarsOf(e2)
  }

  /** The value of a variable, or of an operand that depends on variables. */
  function LeafValue<V>(leaf: Expr, vars: string -> V, m: Machine<V>): V {
    match leaf
    case Operand(n, _) => vars(n)
    case _ => m.operand(leaf, map x | x in VarsOf(leaf) :: vars(x))
  }

  datatype Outcome<!V> = Fault | Done(v: V, st: State<V>)

  /** An operator on values is a node analysed before; on arrays it has the ordinary meaning for each
      pair of elements. */
  function SourceNode<V>(e: Expr, v1: V, v2: V, m: Machine<V>): V
    requires e.Binary?
  {
    if e.ty.ArrayOf? then Apply(m, e.bop, SourceType(e.e1, m.lang), SourceType(e.e2, m.lang), v1, v2)
    else m.node(e.bop, e.e1.ty, e.e2.ty, e.ty, v1, v2)
  }

  function Store<V>(e: Expr, i: nat, v: V, st: State<V>, env: Slices, m: Machine<V>): Outcome<V>
    requires e.Assign?
  {
    match e.e1
    case Slice(n, ty) =>
      var s := env(n);
      if i >= s.len then Fault
      else
        var x := Combine(m, e.aop, ElemOf(ty), SourceType(e.e2, m.lang), st.mem(s.base + i), v);
        Done(x, st.(mem := Write(st.mem, s.base + i, x)))
    case Operand(n, ty) =>
      var x := match e.aop case Plain => v case Compound(op) => m.node(op, ty, e.e2.ty, ty, st.vars(n), v);
      Done(x, st.(vars := Set(st.vars, n, x)))
    case _ => Fault
  }

  /** Element i of `e`; assignments evaluate right to left, reading out of bounds faults. */
  function EvalAt<V>(e: Expr, i: nat, st: State<V>, env: Slices, m: Machine<V>): Outcome<V> {
    match e
    case Operand(_, _) => Done(LeafValue(e, st.vars, m), st)
    case Slice(n, _) => if i < env(n).len then Done(st.mem(env(n).base + i), st) else Fault
    case Cast(e1, ty) => if ty.ArrayOf? then EvalAt(e1, i, st, env, m) else Done(LeafValue(e, st.vars, m), st)
    case Unary(u, e1, _) =>
      (match EvalAt(e1, i, st, env, m)
       case Fault => Fault
       case Done(v, st1) => Done(m.unary(u, SourceType(e1, m.lang), v), st1))
    case Binary(_, e1, e2, _) =>
      (match EvalAt(e1, i, st, env, m)
       case Fault => Fault
       case Done(v1, st1) =>
         match EvalAt(e2, i, st1, env, m)
         case Fault => Fault
         case Done(v2, st2) => Done(SourceNode(e, v1, v2, m), st2))
    case Assign(_, _, e2, _) =>
      (match EvalAt(e2, i, st, env, m)
       case Fault => Fault
       case Done(v, st1) => Store(e, i, v, st1, env, m))
  }

  // ----- running the generated function -----

  datatype Value<!V> = Scalar(v: V) | Ref(s: SliceRef) | Count(i: nat)
  type Frame<!V> = map<string, Value<V>>

  datatype LoopOutcome<!V> = LFault | LDone(v: V, fr: Frame<V>, mem: int -> V)

  /** The address of `base[index]`, bounds checked. */
  function Locate<V>(fr: Frame<V>, base: string, index: string): Option<int> {
    if base in fr && index in fr && fr[base].Ref? && fr[index].Count? && fr[index].i < fr[base].s.len
    then Some(fr[base].s.base + fr[index].i) else None
  }

  function Exec<V>(b: LoopExpr, tys: string -> Ty, fr: Frame<V>, mem: int -> V, m: Machine<V>): LoopOutcome<V> {
    match b
    case Name(n) => if n in fr && fr[n].Scalar? then LDone(fr[n].v, fr, mem) else LFault
    case Element(a, ix) =>
      (match Locate(fr, a, ix)
       case None => LFault
       case Some(addr) => LDone(mem(addr), fr, mem))
    case LUnary(u, b1) =>
      (match Exec(b1, tys, fr, mem, m)
       case LFault => LFault
       case LDone(v, fr1, mem1) => LDone(m.unary(u, BodyType(b1, tys, m.lang), v), fr1, mem1))
    case LBinary(op, b1, b2) =>
      (match Exec(b1, tys, fr, mem, m)
       case LFault => LFault
       case LDone(v1, fr1, mem1) =>
         match Exec(b2, tys, fr1, mem1, m)
         case LFault => LFault
         case LDone(v2, fr2, mem2) =>
           LDone(Apply(m, op, BodyType(b1, tys, m.lang), BodyType(b2, tys, m.lang), v1, v2), fr2, mem2))
    case LAssign(aop, b1, b2) =>
      (match Exec(b2, tys, fr, mem, m)
       case LFault => LFault
       case LDone(v, fr1, mem1) => ExecStore(aop, b1, tys, BodyType(b2, tys, m.lang), v, fr1, mem1, m))
  }

  function ExecStore<V>(
      aop: AssignOp, target: LoopExpr, tys: string -> Ty, s: Ty, v: V, fr: Frame<V>, mem: int -> V, m: Machine<V>)
      : LoopOutcome<V>
  {
    match target
    case Name(n) =>
      if n in fr && fr[n].Scalar? then
        var x := Combine(m, aop, tys(n), s, fr[n].v, v);
        LDone(x, fr[n := Scalar(x)], mem)
      else LFault
    case Element(a, ix) =>
      (match Locate(fr, a, ix)
       case None => LFault
       case Some(addr) =>
         var x := Combine(m, aop, ElemOf(tys(a)), s, mem(addr), v);
         LDone(x, fr, Write(mem, addr, x)))
    case _ => LFault
  }

  /** `for (size_t p = i; p < n; p++) b;` */
  function RunLoop<V>(
      b: LoopExpr, tys: string -> Ty, i: nat, n: nat, fr: Frame<V>, mem: int -> V, m: Machine<V>)
      : Option<(Frame<V>, int -> V)>
    decreases n - i
  {
    if i >= n then Some((fr, mem))
    else
      match Exec(b, tys, fr[INDEX := Count(i)], mem, m)
      case LFault => None
      case LDone(_, fr1, mem1) => RunLoop(b, tys, i + 1, n, fr1, mem1, m)
  }

  /** The value of an argument; the call is not analysed, so no argument is converted. */
  function Pass<V>(leaf: Expr, vars: string -> V, env: Slices, m: Machine<V>): Value<V> {
    if leaf.Slice? then Ref(env(leaf.name)) else Scalar(LeafValue(leaf, vars, m))
  }

  function Bind<V>(ps: seq<Parameter>, args: seq<Expr>, vars: string -> V, env: Slices, m: Machine<V>): Frame<V>
    requires |ps| == |args|
  {
    if ps == [] then map[]
    else Bind(ps[1..], args[1..], vars, env, m)[ps[0].name := Pass(args[0], vars, env, m)]
  }

  function TypeOf(ps: seq<Parameter>, n: string): Ty {
    if ps == [] then VOID else if ps[0].name == n then ps[0].ty else TypeOf(ps[1..], n)
  }

  function TypesOf(ps: seq<Parameter>): string -> Ty {
    n => TypeOf(ps, n)
  }

  /** `f(args)`: bind the parameters, run the loop over the length of the first one, return it. */
  function Call<V>(f: Function, args: seq<Expr>, st: State<V>, env: Slices, m: Machine<V>)
      : Option<(Value<V>, int -> V)>
    requires f.Generated? && |f.params| == |args| > 0
  {
    var fr, p := Bind(f.params, args, st.vars, env, m), f.params[0].name;
    if p in fr && fr[p].Ref? then
      match RunLoop(f.body, TypesOf(f.params), 0, fr[p].s.len, fr, st.mem, m)
      case None => None
      case Some((fr1, mem1)) => if p in fr1 then Some((fr1[p], mem1)) else None
    else None
  }

  // ----- the expressions arrayOp accepts -----

  predicate Accepted(e: Expr) {
    WellTyped(e) && e.Assign? && e.e1.Slice? && e.ty.ArrayOf? && IsArrayOpValid(e.e2)
  }

  /** Part of an accepted expression. */
  predicate Elementwise(e: Expr) {
    WellTyped(e) && IsArrayOpValid(e)
  }

  lemma {:induction false} Parts(e: Expr)
    requires Elementwise(e)
    ensures e.Unary? || e.Binary? ==> Elementwise(e.e1)
    ensures e.Binary? || e.Assign? ==> Elementwise(e.e2)
    ensures e.Assign? ==> e.ty == e.e1.ty && (e.aop == Plain && e.e1.Operand? ==> e.e2.ty == e.ty)
    ensures e.Assign? ==> if e.ty.ArrayOf? then e.e1.Slice? else e.e1.Operand? && !e.e2.ty.ArrayOf?
    ensures e.Assign? && !e.e2.ty.ArrayOf? && e.ty.ArrayOf? ==> e.e2.ty == e.ty.elem
    ensures e.Assign? && e.e2.ty.ArrayOf? ==> e.e2.ty == e.ty
    ensures e.Slice? ==> e.ty.ArrayOf?
    ensures e.Operand? || e.Cast? ==> !e.ty.ArrayOf?
    ensures (e.Unary? || e.Binary?) && !e.ty.ArrayOf? ==> !e.e1.ty.ArrayOf?
    ensures e.Binary? && !e.ty.ArrayOf? ==> !e.e2.ty.ArrayOf?
  {
    if e.Assign? {
      assert WellTyped(e.e1) && WellTyped(e.e2);
    }
  }

  // ----- when the body means what the expression means -----

  /** The variable whose initial value `e` has, if it is one by its form. */
  function Same(e: Expr): Option<string> {
    match e
    case Operand(n, _) => Some(n)
    case Assign(Plain, e1, e2, _) => if e1.Operand? then Same(e2) else None
    case _ => None
  }

  /** The variables that evaluating `e` leaves with another value than they had at first, when those
      in `d` have one before. */
  function Dirty(e: Expr, d: set<string>): set<string> {
    match e
    case Operand(_, _) => d
    case Slice(_, _) => d
    case Cast(e1, ty) => if ty.ArrayOf? then Dirty(e1, d) else d
    case Unary(_, e1, _) => Dirty(e1, d)
    case Binary(_, e1, e2, _) => Dirty(e2, Dirty(e1, d))
    case Assign(aop, e1, e2, _) =>
      if !e1.Operand? then Dirty(e2, d)
      else if aop == Plain && Same(e2) == Some(e1.name) then Dirty(e2, d) - {e1.name}
      else Dirty(e2, d) + {e1.name}
  }

  /** No operand mentions a variable after it was given another value, and variables are only assigned
      to plainly: the body reads its own parameter for every occurrence of a variable. */
  predicate Clean(e: Expr, d: set<string>) {
    match e
    case Operand(n, _) => n !in d
    case Slice(_, _) => true
    case Cast(e1, ty) => if ty.ArrayOf? then Clean(e1, d) else VarsOf(e) !! d
    case Unary(_, e1, _) => Clean(e1, d)
    case Binary(_, e1, e2, _) => Clean(e1, d) && Clean(e2, Dirty(e1, d))
    case Assign(aop, e1, e2, _) => Clean(e2, d) && (e1.Operand? ==> aop == Plain)
  }

  /** Analysing an operator on values once more changes nothing. */
  predicate Stable(e: Expr, lang: Lang) {
    match e
    case Operand(_, _) => true
    case Slice(_, _) => true
    case Cast(e1, ty) => ty.ArrayOf? ==> Stable(e1, lang)
    case Unary(_, e1, _) => Stable(e1, lang)
    case Binary(op, e1, e2, ty) =>
      Stable(e1, lang) && Stable(e2, lang) && (!ty.ArrayOf? ==> lang(op, e1.ty, e2.ty) == AsIs(ty))
    case Assign(_, _, e2, _) => Stable(e2, lang)
  }

  /** The body built for `e`, with parameters of the types `tys`, has the value of `e` in the first
      round of the loop, or with `again` in the later ones too, where a parameter that is assigned to
      from its own value no longer has the value of its argument. */
  predicate Keeps(e: Expr, dim: nat, d: set<string>, tys: string -> Ty, lang: Lang, again: bool) {
    match e
    case Operand(n, _) => n !in d
    case Slice(_, _) => true
    case Cast(e1, ty) => if ty.ArrayOf? then Keeps(e1, dim, d, tys, lang, again) else VarsOf(e) !! d
    case Unary(_, e1, _) => Keeps(e1, dim, d, tys, lang, again) && TypeKept(e1, dim, tys, lang)
    case Binary(op, e1, e2, ty) =>
      var dim2 := dim + |Leaves(e1)|;
      Keeps(e1, dim, d, tys, lang, again) && Keeps(e2, dim2, Dirty(e1, d), tys, lang, again) &&
      TypeKept(e1, dim, tys, lang) && TypeKept(e2, dim2, tys, lang) &&
      (!ty.ArrayOf? ==> lang(op, e1.ty, e2.ty) == AsIs(ty))
    case Assign(aop, e1, e2, _) =>
      Keeps(e2, dim, d, tys, lang, again) &&
      if !e1.Operand? then TypeKept(e2, dim, tys, lang)
      else
        var t := tys(LeafName(e1, dim + |Leaves(e2)|));
        match aop
        case Plain => BodyType(Body(e2, dim), tys, lang) == t
        case Compound(op) =>
          !again && e1.name !in Dirty(e2, d) && t == e1.ty && TypeKept(e2, dim, tys, lang) &&
          lang(op, e1.ty, e2.ty) == AsIs(e1.ty)
  }

  predicate TypeKept(e: Expr, dim: nat, tys: string -> Ty, lang: Lang) {
    BodyType(Body(e, dim), tys, lang) == SourceType(e, lang)
  }

  /** Slice parameters have the types of their slices. */
  predicate TypedSlices(e: Expr, dim: nat, tys: string -> Ty) {
    match e
    case Operand(_, _) => true
    case Slice(_, ty) => tys(LeafName(e, dim)) == ty
    case Cast(e1, ty) => ty.ArrayOf? ==> TypedSlices(e1, dim, tys)
    case Unary(_, e1, _) => TypedSlices(e1, dim, tys)
    case Binary(_, e1, e2, _) => TypedSlices(e1, dim, tys) && TypedSlices(e2, dim + |Leaves(e1)|, tys)
    case Assign(_, e1, e2, _) => TypedSlices(e2, dim, tys) && TypedSlices(e1, dim + |Leaves(e2)|, tys)
  }

  /** All parameters have the types of their leaves. */
  predicate OwnTypes(e: Expr, dim: nat, tys: string -> Ty) {
    match e
    case Operand(_, ty) => tys(LeafName(e, dim)) == ty
    case Slice(_, ty) => tys(LeafName(e, dim)) == ty
    case Cast(e1, ty) => if ty.ArrayOf? then OwnTypes(e1, dim, tys) else tys(LeafName(e, dim)) == ty
    case Unary(_, e1, _) => OwnTypes(e1, dim, tys)
    case Binary(_, e1, e2, _) => OwnTypes(e1, dim, tys) && OwnTypes(e2, dim + |Leaves(e1)|, tys)
    case Assign(_, e1, e2, _) => OwnTypes(e2, dim, tys) && OwnTypes(e1, dim + |Leaves(e2)|, tys)
  }

  /** A function generated for `e` itself keeps the meaning if analysis is stable and variables are
      read before they change. */
  lemma {:induction false} KeepsWithOwnTypes(e: Expr, dim: nat, d: set<string>, tys: string -> Ty, lang: Lang)
    requires Elementwise(e) && OwnTypes(e, dim, tys)
    ensures Keeps(e, dim, d, tys, lang, true) <==> Stable(e, lang) && Clean(e, d)
    ensures Stable(e, lang) ==> TypeKept(e, dim, tys, lang)
  {
    Parts(e);
    match e
    case Operand(_, _) =>
    case Slice(_, _) =>
    case Cast(e1, ty) =>
    case Unary(_, e1, _) =>
      KeepsWithOwnTypes(e1, dim, d, tys, lang);
    case Binary(_, e1, e2, _) =>
      KeepsWithOwnTypes(e1, dim, d, tys, lang);
      KeepsWithOwnTypes(e2, dim + |Leaves(e1)|, Dirty(e1, d), tys, lang);
    case Assign(_, e1, e2, _) =>
      KeepsWithOwnTypes(e2, dim, d, tys, lang);
  }

  /** Conversely the types of all parameters matter. */
  lemma {:induction false} KeepsFixesTypes(
      e: Expr, dim: nat, d: set<string>, tys: string -> Ty, lang: Lang, again: bool)
    requires Elementwise(e) && TypedSlices(e, dim, tys)
    requires Keeps(e, dim, d, tys, lang, again) && TypeKept(e, dim, tys, lang)
    ensures OwnTypes(e, dim, tys)
  {
    Parts(e);
    match e
    case Operand(_, _) =>
    case Slice(_, _) =>
    case Cast(e1, ty) =>
    case Unary(_, e1, _) =>
      KeepsFixesTypes(e1, dim, d, tys, lang, again);
    case Binary(_, e1, e2, _) =>
      KeepsFixesTypes(e1, dim, d, tys, lang, again);
      KeepsFixesTypes(e2, dim + |Leaves(e1)|, Dirty(e1, d), tys, lang, again);
    case Assign(_, e1, e2, _) =>
      if e1.Operand? {
        assert BodyType(Body(e, dim), tys, lang) == tys(LeafName(e1, dim + |Leaves(e2)|));
      }
      KeepsFixesTypes(e2, dim, d, tys, lang, again);
  }

  // ----- the frame -----

  ghost predicate Holds<V>(fr: Frame<V>, leaf: Expr, dim: nat, vars: string -> V, env: Slices, m: Machine<V>) {
    var n := LeafName(leaf, dim);
    n in fr && if leaf.Slice? then fr[n] == Ref(env(leaf.name)) else fr[n] == Scalar(LeafValue(leaf, vars, m))
  }

  /** The frame holds every leaf of `e` under its name, variables that are assigned to excepted. */
  ghost predicate Bound<V>(fr: Frame<V>, e: Expr, dim: nat, vars: string -> V, env: Slices, m: Machine<V>) {
    match e
    case Operand(_, _) => Holds(fr, e, dim, vars, env, m)
    case Slice(_, _) => Holds(fr, e, dim, vars, env, m)
    case Cast(e1, ty) => if ty.ArrayOf? then Bound(fr, e1, dim, vars, env, m) else Holds(fr, e, dim, vars, env, m)
    case Unary(_, e1, _) => Bound(fr, e1, dim, vars, env, m)
    case Binary(_, e1, e2, _) => Bound(fr, e1, dim, vars, env, m) && Bound(fr, e2, dim + |Leaves(e1)|, vars, env, m)
    case Assign(_, e1, e2, _) =>
      Bound(fr, e2, dim, vars, env, m) &&
      var n := LeafName(e1, dim + |Leaves(e2)|);
      if e1.Operand? then n in fr && fr[n].Scalar? else Bound(fr, e1, dim + |Leaves(e2)|, vars, env, m)
  }

  /** The frames differ only in the names of the n leaves from `dim` on. */
  ghost predicate OnlyLeaves<V>(fr: Frame<V>, fr1: Frame<V>, dim: nat, n: nat) {
    && (forall l: Expr, j: nat {:trigger LeafName(l, j)} :: j < dim || dim + n <= j ==> SameAt(fr, fr1, LeafName(l, j)))
    && SameAt(fr, fr1, INDEX)
  }

  ghost predicate SameAt<V>(fr: Frame<V>, fr1: Frame<V>, n: string) {
    if n in fr then n in fr1 && fr1[n] == fr[n] else n !in fr1
  }

  lemma {:induction false} BoundElsewhere<V>(
      fr: Frame<V>, fr1: Frame<V>, lo: nat, n: nat, e: Expr, dim: nat, vars: string -> V, env: Slices, m: Machine<V>)
    requires OnlyLeaves(fr, fr1, lo, n) && Bound(fr, e, dim, vars, env, m)
    requires dim + |Leaves(e)| <= lo || lo + n <= dim
    ensures Bound(fr1, e, dim, vars, env, m)
  {
    match e
    case Operand(_, _) => assert SameAt(fr, fr1, LeafName(e, dim));
    case Slice(_, _) => assert SameAt(fr, fr1, LeafName(e, dim));
    case Cast(e1, ty) =>
      if ty.ArrayOf? {
        BoundElsewhere(fr, fr1, lo, n, e1, dim, vars, env, m);
      } else {
        assert SameAt(fr, fr1, LeafName(e, dim));
      }
    case Unary(_, e1, _) =>
      BoundElsewhere(fr, fr1, lo, n, e1, dim, vars, env, m);
    case Binary(_, e1, e2, _) =>
      BoundElsewhere(fr, fr1, lo, n, e1, dim, vars, env, m);
      BoundElsewhere(fr, fr1, lo, n, e2, dim + |Leaves(e1)|, vars, env, m);
    case Assign(_, e1, e2, _) =>
      BoundElsewhere(fr, fr1, lo, n, e2, dim, vars, env, m);
      if e1.Operand? {
        assert SameAt(fr, fr1, LeafName(e1, dim + |Leaves(e2)|));
      } else {
        BoundElsewhere(fr, fr1, lo, n, e1, dim + |Leaves(e2)|, vars, env, m);
      }
  }

  lemma {:induction false} OnlyLeavesTwice<V>(fr: Frame<V>, fr1: Frame<V>, fr2: Frame<V>, dim: nat, n1: nat, n2: nat)
    requires OnlyLeaves(fr, fr1, dim, n1) && OnlyLeaves(fr1, fr2, dim + n1, n2)
    ensures OnlyLeaves(fr, fr2, dim, n1 + n2)
  {
    forall l: Expr, j: nat {:trigger LeafName(l, j)} | j < dim || dim + (n1 + n2) <= j
      ensures SameAt(fr, fr2, LeafName(l, j))
    {
      assert SameAt(fr, fr1, LeafName(l, j)) && SameAt(fr1, fr2, LeafName(l, j));
    }
  }

  lemma {:induction false} OneLeaf<V>(fr: Frame<V>, l: Expr, dim: nat, k: nat, n: nat, v: Value<V>)
    requires LeafName(l, k) in fr && dim <= k < dim + n
    ensures OnlyLeaves(fr, fr[LeafName(l, k) := v], dim, n)
  {
    LeafNamesDiffer(l, l, k, k);
    forall o: Expr, j: nat {:trigger LeafName(o, j)} | j < dim || dim + n <= j
      ensures SameAt(fr, fr[LeafName(l, k) := v], LeafName(o, j))
    {
      LeafNamesDiffer(o, l, j, k);
    }
  }

  /** The frame after a round: every name is found again, and names of other leaves are untouched. */
  ghost predicate Framed<V>(
      e: Expr, dim: nat, fr: Frame<V>, r: LoopOutcome<V>, vars: string -> V, env: Slices, m: Machine<V>)
  {
    r.LDone? ==> Bound(r.fr, e, dim, vars, env, m) && OnlyLeaves(fr, r.fr, dim, |Leaves(e)|)
  }

  lemma {:induction false} ExecFrame<V>(
      e: Expr, dim: nat, tys: string -> Ty, fr: Frame<V>, mem: int -> V, vars: string -> V, env: Slices, m: Machine<V>)
    requires Elementwise(e) && Bound(fr, e, dim, vars, env, m)
    ensures Framed(e, dim, fr, Exec(Body(e, dim), tys, fr, mem, m), vars, env, m)
  {
    Parts(e);
    match e
    case Operand(_, _) =>
    case Slice(_, _) =>
    case Cast(_, _) =>
    case Unary(_, e1, _) =>
      ExecFrame(e1, dim, tys, fr, mem, vars, env, m);
    case Binary(_, e1, e2, _) =>
      ExecFrame(e1, dim, tys, fr, mem, vars, env, m);
      var r := Exec(Body(e1, dim), tys, fr, mem, m);
      if r.LDone? {
        var dim2 := dim + |Leaves(e1)|;
        BoundElsewhere(fr, r.fr, dim, |Leaves(e1)|, e2, dim2, vars, env, m);
        ExecFrame(e2, dim2, tys, r.fr, r.mem, vars, env, m);
      }
      BinaryFrame(e, dim, tys, fr, mem, vars, env, m);
    case Assign(_, e1, e2, _) =>
      ExecFrame(e2, dim, tys, fr, mem, vars, env, m);
      AssignFrame(e, dim, tys, fr, mem, vars, env, m);
  }

  lemma {:induction false} BinaryFrame<V>(
      e: Expr, dim: nat, tys: string -> Ty, fr: Frame<V>, mem: int -> V, vars: string -> V, env: Slices, m: Machine<V>)
    requires e.Binary? && Framed(e.e1, dim, fr, Exec(Body(e.e1, dim), tys, fr, mem, m), vars, env, m)
    requires var r := Exec(Body(e.e1, dim), tys, fr, mem, m);
      var dim2 := dim + |Leaves(e.e1)|;
      r.LDone? ==> Framed(e.e2, dim2, r.fr, Exec(Body(e.e2, dim2), tys, r.fr, r.mem, m), vars, env, m)
    ensures Framed(e, dim, fr, Exec(Body(e, dim), tys, fr, mem, m), vars, env, m)
  {
    var r, dim2 := Exec(Body(e.e1, dim), tys, fr, mem, m), dim + |Leaves(e.e1)|;
    if r.LDone? {
      var q := Exec(Body(e.e2, dim2), tys, r.fr, r.mem, m);
      if q.LDone? {
        BoundElsewhere(r.fr, q.fr, dim2, |Leaves(e.e2)|, e.e1, dim, vars, env, m);
        OnlyLeavesTwice(fr, r.fr, q.fr, dim, |Leaves(e.e1)|, |Leaves(e.e2)|);
      }
    }
  }

  lemma {:induction false} AssignFrame<V>(
      e: Expr, dim: nat, tys: string -> Ty, fr: Frame<V>, mem: int -> V, vars: string -> V, env: Slices, m: Machine<V>)
    requires e.Assign? && (e.e1.Slice? || e.e1.Operand?) && Bound(fr, e, dim, vars, env, m)
    requires Framed(e.e2, dim, fr, Exec(Body(e.e2, dim), tys, fr, mem, m), vars, env, m)
    ensures Framed(e, dim, fr, Exec(Body(e, dim), tys, fr, mem, m), vars, env, m)
  {
    var k, r := dim + |Leaves(e.e2)|, Exec(Body(e.e2, dim), tys, fr, mem, m);
    if r.LDone? {
      var q := ExecStore(e.aop, Body(e.e1, k), tys, BodyType(Body(e.e2, dim), tys, m.lang), r.v, r.fr, r.mem, m);
      assert Exec(Body(e, dim), tys, fr, mem, m) == q;
      if q.LDone? {
        if e.e1.Operand? {
          OneLeaf(r.fr, e.e1, k, k, 1, Scalar(q.v));
          BoundElsewhere(r.fr, q.fr, k, 1, e.e2, dim, vars, env, m);
        } else {
          BoundElsewhere(fr, r.fr, dim, |Leaves(e.e2)|, e.e1, k, vars, env, m);
        }
        OnlyLeavesTwice(fr, r.fr, q.fr, dim, |Leaves(e.e2)|, 1);
      }
    }
  }

  // ----- one round simulates the source -----

  ghost predicate Outside<V>(d: set<string>, vars: string -> V, vars0: string -> V) {
    forall x :: x !in d ==> vars(x) == vars0(x)
  }

  ghost predicate Matches<V>(r: LoopOutcome<V>, o: Outcome<V>) {
    match o
    case Fault => r.LFault?
    case Done(v, st) => r.LDone? && r.v == v && r.mem == st.mem
  }

  lemma {:induction false} LeafSame<V>(leaf: Expr, d: set<string>, vars: string -> V, vars0: string -> V, m: Machine<V>)
    requires Outside(d, vars, vars0) && VarsOf(leaf) !! d
    ensures LeafValue(leaf, vars, m) == LeafValue(leaf, vars0, m)
  {
    if leaf.Operand? {
      assert leaf.name in VarsOf(leaf);
    } else {
      assert (map x | x in VarsOf(leaf) :: vars(x)) == (map x | x in VarsOf(leaf) :: vars0(x));
    }
  }

  lemma {:induction false} KeepsIsClean(
      e: Expr, dim: nat, d: set<string>, tys: string -> Ty, lang: Lang)
    requires Elementwise(e) && Keeps(e, dim, d, tys, lang, true)
    ensures Clean(e, d)
  {
    Parts(e);
    match e
    case Operand(_, _) =>
    case Slice(_, _) =>
    case Cast(_, _) =>
    case Unary(_, e1, _) => KeepsIsClean(e1, dim, d, tys, lang);
    case Binary(_, e1, e2, _) =>
      KeepsIsClean(e1, dim, d, tys, lang);
      KeepsIsClean(e2, dim + |Leaves(e1)|, Dirty(e1, d), tys, lang);
    case Assign(_, e1, e2, _) => KeepsIsClean(e2, dim, d, tys, lang);
  }

  /** The source changes at most the variables that `Dirty` names. */
  lemma {:induction false} SourceVars<V>(
      e: Expr, i: nat, st: State<V>, d: set<string>, vars0: string -> V, env: Slices, m: Machine<V>)
    requires Elementwise(e) && Clean(e, d) && Outside(d, st.vars, vars0)
    ensures var o := EvalAt(e, i, st, env, m);
      o.Done? ==> Outside(Dirty(e, d), o.st.vars, vars0) && (Same(e).Some? ==> o.v == vars0(Same(e).value))
  {
    Parts(e);
    match e
    case Operand(_, _) =>
    case Slice(_, _) =>
    case Cast(_, _) =>
    case Unary(_, e1, _) => SourceVars(e1, i, st, d, vars0, env, m);
    case Binary(_, e1, e2, _) =>
      SourceVars(e1, i, st, d, vars0, env, m);
      var o := EvalAt(e1, i, st, env, m);
      if o.Done? {
        SourceVars(e2, i, o.st, Dirty(e1, d), vars0, env, m);
      }
    case Assign(_, e1, e2, _) =>
      SourceVars(e2, i, st, d, vars0, env, m);
  }

  /** What the lemmas below ask of the frame and the variables. */
  ghost predicate Ready<V>(
      e: Expr, dim: nat, i: nat, fr: Frame<V>, vars: string -> V, d: set<string>, vars0: string -> V,
      tys: string -> Ty, env: Slices, m: Machine<V>)
  {
    && Elementwise(e) && Bound(fr, e, dim, vars0, env, m) && INDEX in fr && fr[INDEX] == Count(i)
    && TypedSlices(e, dim, tys) && Outside(d, vars, vars0) && Keeps(e, dim, d, tys, m.lang, true)
  }

  /** One round of the body does what evaluating the expression does, faults included. */
  lemma {:induction false} Simulates<V>(
      e: Expr, dim: nat, i: nat, fr: Frame<V>, st: State<V>, d: set<string>, vars0: string -> V,
      tys: string -> Ty, env: Slices, m: Machine<V>)
    requires Ready(e, dim, i, fr, st.vars, d, vars0, tys, env, m)
    ensures Matches(Exec(Body(e, dim), tys, fr, st.mem, m), EvalAt(e, i, st, env, m))
  {
    Parts(e);
    match e
    case Operand(_, _) => LeafSimulates(e, dim, i, fr, st, d, vars0, tys, env, m);
    case Slice(_, _) => LeafSimulates(e, dim, i, fr, st, d, vars0, tys, env, m);
    case Cast(_, _) => LeafSimulates(e, dim, i, fr, st, d, vars0, tys, env, m);
    case Unary(_, e1, _) => Simulates(e1, dim, i, fr, st, d, vars0, tys, env, m);
    case Binary(_, e1, e2, _) =>
      Simulates(e1, dim, i, fr, st, d, vars0, tys, env, m);
      var o, r := EvalAt(e1, i, st, env, m), Exec(Body(e1, dim), tys, fr, st.mem, m);
      if o.Done? {
        ReadyNext(e, dim, i, fr, st, d, vars0, tys, env, m);
        Simulates(e2, dim + |Leaves(e1)|, i, r.fr, o.st, Dirty(e1, d), vars0, tys, env, m);
      }
      BinarySimulates(e, dim, i, fr, st, d, tys, env, m);
    case Assign(_, e1, e2, _) =>
      Simulates(e2, dim, i, fr, st, d, vars0, tys, env, m);
      ExecFrame(e2, dim, tys, fr, st.mem, vars0, env, m);
      AssignSimulates(e, dim, i, fr, st, d, vars0, tys, env, m);
  }

  lemma {:induction false} LeafSimulates<V>(
      e: Expr, dim: nat, i: nat, fr: Frame<V>, st: State<V>, d: set<string>, vars0: string -> V,
      tys: string -> Ty, env: Slices, m: Machine<V>)
    requires IsLeaf(e) && Ready(e, dim, i, fr, st.vars, d, vars0, tys, env, m)
    ensures Matches(Exec(Body(e, dim), tys, fr, st.mem, m), EvalAt(e, i, st, env, m))
  {
    Parts(e);
    if e.Cast? {
      LeafSame(e, d, st.vars, vars0, m);
    }
  }

  lemma {:induction false} BinarySimulates<V>(
      e: Expr, dim: nat, i: nat, fr: Frame<V>, st: State<V>, d: set<string>, tys: string -> Ty, env: Slices,
      m: Machine<V>)
    requires e.Binary? && Keeps(e, dim, d, tys, m.lang, true)
    requires !e.ty.ArrayOf? ==> !e.e1.ty.ArrayOf? && !e.e2.ty.ArrayOf?
    requires var o, r := EvalAt(e.e1, i, st, env, m), Exec(Body(e.e1, dim), tys, fr, st.mem, m);
      var dim2 := dim + |Leaves(e.e1)|;
      Matches(r, o) &&
      (o.Done? ==> Matches(Exec(Body(e.e2, dim2), tys, r.fr, o.st.mem, m), EvalAt(e.e2, i, o.st, env, m)))
    ensures Matches(Exec(Body(e, dim), tys, fr, st.mem, m), EvalAt(e, i, st, env, m))
  {
  }

  /** After the first operand everything is ready for the second. */
  lemma {:induction false} ReadyNext<V>(
      e: Expr, dim: nat, i: nat, fr: Frame<V>, st: State<V>, d: set<string>, vars0: string -> V,
      tys: string -> Ty, env: Slices, m: Machine<V>)
    requires e.Binary? && Ready(e, dim, i, fr, st.vars, d, vars0, tys, env, m)
    ensures var o, r := EvalAt(e.e1, i, st, env, m), Exec(Body(e.e1, dim), tys, fr, st.mem, m);
      o.Done? && Matches(r, o) ==>
        Ready(e.e2, dim + |Leaves(e.e1)|, i, r.fr, o.st.vars, Dirty(e.e1, d), vars0, tys, env, m)
  {
    Parts(e);
    var o, r := EvalAt(e.e1, i, st, env, m), Exec(Body(e.e1, dim), tys, fr, st.mem, m);
    if o.Done? && Matches(r, o) {
      ExecFrame(e.e1, dim, tys, fr, st.mem, vars0, env, m);
      BoundElsewhere(fr, r.fr, dim, |Leaves(e.e1)|, e.e2, dim + |Leaves(e.e1)|, vars0, env, m);
      KeepsIsClean(e.e1, dim, d, tys, m.lang);
      SourceVars(e.e1, i, st, d, vars0, env, m);
    }
  }

  lemma {:induction false} AssignSimulates<V>(
      e: Expr, dim: nat, i: nat, fr: Frame<V>, st: State<V>, d: set<string>, vars0: string -> V,
      tys: string -> Ty, env: Slices, m: Machine<V>)
    requires e.Assign? && Elementwise(e) && TypedSlices(e, dim, tys) && Keeps(e, dim, d, tys, m.lang, true)
    requires Bound(fr, e, dim, vars0, env, m) && INDEX in fr && fr[INDEX] == Count(i)
    requires Matches(Exec(Body(e.e2, dim), tys, fr, st.mem, m), EvalAt(e.e2, i, st, env, m))
    requires Framed(e.e2, dim, fr, Exec(Body(e.e2, dim), tys, fr, st.mem, m), vars0, env, m)
    ensures Matches(Exec(Body(e, dim), tys, fr, st.mem, m), EvalAt(e, i, st, env, m))
  {
    Parts(e);
    var k, r := dim + |Leaves(e.e2)|, Exec(Body(e.e2, dim), tys, fr, st.mem, m);
    if r.LDone? {
      assert SameAt(fr, r.fr, LeafName(e.e1, k)) && SameAt(fr, r.fr, INDEX);
    }
  }

  // ----- the source touches few elements -----

  function SliceNames(e: Expr): set<string> {
    match e
    case Operand(_, _) => {}
    case Slice(n, _) => {n}
    case Cast(e1, ty) => if ty.ArrayOf? then SliceNames(e1) else {}
    case Unary(_, e1, _) => SliceNames(e1)
    case Binary(_, e1, e2, _) => SliceNames(e1) + SliceNames(e2)
    case Assign(_, e1, e2, _) => SliceNames(e1) + SliceNames(e2)
  }

  /** The slices that are assigned to. */
  function Targets(e: Expr): (s: set<string>)
    ensures s <= SliceNames(e)
  {
    match e
    case Operand(_, _) => {}
    case Slice(_, _) => {}
    case Cast(e1, ty) => if ty.ArrayOf? then Targets(e1) else {}
    case Unary(_, e1, _) => Targets(e1)
    case Binary(_, e1, e2, _) => Targets(e1) + Targets(e2)
    case Assign(_, e1, e2, _) => Targets(e2) + (if e1.Slice? then {e1.name} else {})
  }

  ghost predicate SameOn<V>(names: set<string>, i: nat, env: Slices, m1: int -> V, m2: int -> V) {
    forall x :: x in names ==> m1(env(x).base + i) == m2(env(x).base + i)
  }

  /** Index i depends on its own elements only ... */
  lemma {:induction false} DependsOnCells<V>(
      e: Expr, i: nat, s: State<V>, t: State<V>, names: set<string>, env: Slices, m: Machine<V>)
    requires Elementwise(e) && SliceNames(e) <= names && s.vars == t.vars && SameOn(names, i, env, s.mem, t.mem)
    ensures var o, p := EvalAt(e, i, s, env, m), EvalAt(e, i, t, env, m);
      match o
      case Fault => p.Fault?
      case Done(v, s1) => p.Done? && p.v == v && s1.vars == p.st.vars && SameOn(names, i, env, s1.mem, p.st.mem)
  {
    Parts(e);
    match e
    case Operand(_, _) =>
    case Slice(n, _) =>
      assert n in names;
    case Cast(_, _) =>
    case Unary(_, e1, _) =>
      DependsOnCells(e1, i, s, t, names, env, m);
    case Binary(_, e1, e2, _) =>
      DependsOnCells(e1, i, s, t, names, env, m);
      var o, p := EvalAt(e1, i, s, env, m), EvalAt(e1, i, t, env, m);
      if o.Done? {
        DependsOnCells(e2, i, o.st, p.st, names, env, m);
      }
    case Assign(_, e1, e2, _) =>
      DependsOnCells(e2, i, s, t, names, env, m);
      if e1.Slice? {
        assert e1.name in SliceNames(e1) && e1.name in names;
      }
  }

  /** ... and changes nothing but the elements it assigns to. */
  lemma {:induction false} ChangesCells<V>(e: Expr, i: nat, s: State<V>, a: int, env: Slices, m: Machine<V>)
    requires Elementwise(e) && forall x :: x in Targets(e) ==> env(x).base + i != a
    ensures var o := EvalAt(e, i, s, env, m); o.Done? ==> o.st.mem(a) == s.mem(a)
  {
    Parts(e);
    match e
    case Operand(_, _) =>
    case Slice(_, _) =>
    case Cast(_, _) =>
    case Unary(_, e1, _) => ChangesCells(e1, i, s, a, env, m);
    case Binary(_, e1, e2, _) =>
      ChangesCells(e1, i, s, a, env, m);
      var o := EvalAt(e1, i, s, env, m);
      if o.Done? { ChangesCells(e2, i, o.st, a, env, m); }
    case Assign(_, e1, e2, _) =>
      ChangesCells(e2, i, s, a, env, m);
      assert e1.Slice? ==> e1.name in Targets(e);
  }

  /** Every slice has an element i. */
  predicate InBounds(e: Expr, i: nat, env: Slices) {
    forall x :: x in SliceNames(e) ==> i < env(x).len
  }

  lemma {:induction false} DoneInBounds<V>(e: Expr, i: nat, s: State<V>, env: Slices, m: Machine<V>)
    requires Elementwise(e)
    ensures EvalAt(e, i, s, env, m).Done? <==> InBounds(e, i, env)
  {
    Parts(e);
    match e
    case Operand(_, _) =>
    case Slice(n, _) => assert n in SliceNames(e);
    case Cast(_, _) =>
    case Unary(_, e1, _) =>
      DoneInBounds(e1, i, s, env, m);
    case Binary(_, e1, e2, _) =>
      DoneInBounds(e1, i, s, env, m);
      var o := EvalAt(e1, i, s, env, m);
      DoneInBounds(e2, i, if o.Done? then o.st else s, env, m);
      assert InBounds(e, i, env) <==> InBounds(e1, i, env) && InBounds(e2, i, env);
    case Assign(_, e1, e2, _) =>
      DoneInBounds(e2, i, s, env, m);
      assert InBounds(e, i, env) <==> InBounds(e1, i, env) && InBounds(e2, i, env);
      assert e1.Slice? ==> e1.name in SliceNames(e1);
  }

  // ----- the whole loop -----

  /** An assigned slice starts at the same element as any other slice, or lies at least n elements
      away; slices that are only read may overlap as they like. */
  predicate Apart(e: Expr, n: nat, env: Slices) {
    forall x, y :: x in Targets(e) && y in SliceNames(e) ==>
      env(x).base == env(y).base || env(x).base + n <= env(y).base || env(y).base + n <= env(x).base
  }

  predicate LongEnough(e: Expr, n: nat, env: Slices) {
    forall x :: x in SliceNames(e) ==> n <= env(x).len
  }

  /** Memory after the first k rounds: the elements assigned in them have the meaning over the initial
      state, everything else is as it was. */
  ghost predicate Progress<V>(mem: int -> V, k: nat, e: Expr, st: State<V>, env: Slices, m: Machine<V>) {
    && (forall j: nat :: j < k ==> Settled(mem, j, e, st, env, m))
    && (forall a :: Untouched(e, k, a, env) ==> mem(a) == st.mem(a))
  }

  ghost predicate Settled<V>(mem: int -> V, j: nat, e: Expr, st: State<V>, env: Slices, m: Machine<V>) {
    var o := EvalAt(e, j, st, env, m);
    o.Done? && SameOn(Targets(e), j, env, mem, o.st.mem)
  }

  predicate Untouched(e: Expr, k: nat, a: int, env: Slices) {
    forall x :: x in Targets(e) ==> !(env(x).base <= a < env(x).base + k)
  }

  lemma {:induction false} OneMore<V>(
      mem: int -> V, k: nat, n: nat, e: Expr, st: State<V>, env: Slices, m: Machine<V>)
    requires Elementwise(e) && Apart(e, n, env) && k < n && InBounds(e, k, env) && Progress(mem, k, e, st, env, m)
    ensures var o := EvalAt(e, k, State(mem, st.vars), env, m);
      o.Done? && Progress(o.st.mem, k + 1, e, st, env, m)
  {
    var now := State(mem, st.vars);
    var o := EvalAt(e, k, now, env, m);
    DoneInBounds(e, k, now, env, m);
    DoneInBounds(e, k, st, env, m);
    forall j: nat | j < k + 1 ensures Settled(o.st.mem, j, e, st, env, m) {
      if j < k {
        StaysSettled(mem, j, k, n, e, st, env, m);
      } else {
        NowSettled(mem, k, n, e, st, env, m);
      }
    }
    forall a | Untouched(e, k + 1, a, env) ensures o.st.mem(a) == st.mem(a) {
      assert Untouched(e, k, a, env);
      ChangesCells(e, k, now, a, env, m);
    }
  }

  lemma {:induction false} NowSettled<V>(
      mem: int -> V, k: nat, n: nat, e: Expr, st: State<V>, env: Slices, m: Machine<V>)
    requires Elementwise(e) && Apart(e, n, env) && k < n && InBounds(e, k, env) && Progress(mem, k, e, st, env, m)
    ensures var o := EvalAt(e, k, State(mem, st.vars), env, m); o.Done? && Settled(o.st.mem, k, e, st, env, m)
  {
    var now := State(mem, st.vars);
    DoneInBounds(e, k, now, env, m);
    forall x | x in SliceNames(e) ensures mem(env(x).base + k) == st.mem(env(x).base + k) {
      assert Untouched(e, k, env(x).base + k, env);
    }
    DependsOnCells(e, k, now, st, SliceNames(e), env, m);
  }

  lemma {:induction false} StaysSettled<V>(
      mem: int -> V, j: nat, k: nat, n: nat, e: Expr, st: State<V>, env: Slices, m: Machine<V>)
    requires Elementwise(e) && Apart(e, n, env) && j < k < n && Settled(mem, j, e, st, env, m)
    ensures var o := EvalAt(e, k, State(mem, st.vars), env, m); o.Done? ==> Settled(o.st.mem, j, e, st, env, m)
  {
    forall x | x in Targets(e)
      ensures var o := EvalAt(e, k, State(mem, st.vars), env, m);
        o.Done? ==> o.st.mem(env(x).base + j) == mem(env(x).base + j)
    {
      ChangesCells(e, k, State(mem, st.vars), env(x).base + j, env, m);
    }
  }

  lemma {:induction false} LoopPointwise<V>(
      e: Expr, k: nat, n: nat, fr: Frame<V>, mem: int -> V, st: State<V>, tys: string -> Ty, env: Slices, m: Machine<V>)
    requires Elementwise(e) && Apart(e, n, env) && k <= n && Bound(fr, e, 0, st.vars, env, m)
    requires TypedSlices(e, 0, tys) && Keeps(e, 0, {}, tys, m.lang, true) && Progress(mem, k, e, st, env, m)
    ensures var r := RunLoop(Body(e, 0), tys, k, n, fr, mem, m);
      if forall i: nat :: k <= i < n ==> InBounds(e, i, env) then
        r.Some? && Progress(r.value.1, n, e, st, env, m) && Bound(r.value.0, e, 0, st.vars, env, m)
      else r.None?
    decreases n - k
  {
    if k < n {
      var now, fr1 := State(mem, st.vars), fr[INDEX := Count(k)];
      BoundIgnoresIndex(fr, e, 0, k, st.vars, env, m);
      Simulates(e, 0, k, fr1, now, {}, st.vars, tys, env, m);
      ExecFrame(e, 0, tys, fr1, mem, st.vars, env, m);
      DoneInBounds(e, k, now, env, m);
      if InBounds(e, k, env) {
        OneMore(mem, k, n, e, st, env, m);
        var r := Exec(Body(e, 0), tys, fr1, mem, m);
        LoopPointwise(e, k + 1, n, r.fr, r.mem, st, tys, env, m);
      }
    }
  }

  lemma {:induction false} BoundIgnoresIndex<V>(
      fr: Frame<V>, e: Expr, dim: nat, k: nat, vars: string -> V, env: Slices, m: Machine<V>)
    requires Bound(fr, e, dim, vars, env, m)
    ensures Bound(fr[INDEX := Count(k)], e, dim, vars, env, m)
  {
    match e
    case Operand(_, _) => LeafNamesDiffer(e, e, dim, dim);
    case Slice(_, _) => LeafNamesDiffer(e, e, dim, dim);
    case Cast(e1, ty) =>
      if ty.ArrayOf? { BoundIgnoresIndex(fr, e1, dim, k, vars, env, m); } else { LeafNamesDiffer(e, e, dim, dim); }
    case Unary(_, e1, _) => BoundIgnoresIndex(fr, e1, dim, k, vars, env, m);
    case Binary(_, e1, e2, _) =>
      BoundIgnoresIndex(fr, e1, dim, k, vars, env, m);
      BoundIgnoresIndex(fr, e2, dim + |Leaves(e1)|, k, vars, env, m);
    case Assign(_, e1, e2, _) =>
      BoundIgnoresIndex(fr, e2, dim, k, vars, env, m);
      LeafNamesDiffer(e1, e1, dim + |Leaves(e2)|, dim + |Leaves(e2)|);
      if !e1.Operand? { BoundIgnoresIndex(fr, e1, dim + |Leaves(e2)|, k, vars, env, m); }
  }

  // ----- the call -----

  lemma {:induction false} BindHas<V>(
      ps: seq<Parameter>, args: seq<Expr>, k: nat, vars: string -> V, env: Slices, m: Machine<V>)
    requires |ps| == |args| && k < |ps|
    requires forall i :: 0 <= i < k ==> ps[i].name != ps[k].name
    ensures ps[k].name in Bind(ps, args, vars, env, m)
    ensures Bind(ps, args, vars, env, m)[ps[k].name] == Pass(args[k], vars, env, m)
  {
    if k > 0 {
      assert ps[1..][k - 1] == ps[k] && args[1..][k - 1] == args[k];
      assert ps[0].name != ps[k].name;
      BindHas(ps[1..], args[1..], k - 1, vars, env, m);
    }
  }

  /** `f` was generated for an expression of the shape of `e`, with slices of the same types. */
  ghost predicate Fits(f: Function, e: Expr) {
    && f.Generated? && f.body == Body(e, 0) && |f.params| == |Leaves(e)|
    && forall k :: 0 <= k < |f.params| ==> FitsAt(f.params, Leaves(e), k)
  }

  predicate FitsAt(ps: seq<Parameter>, ls: seq<Expr>, k: nat)
    requires k < |ps| == |ls|
  {
    var l := ls[|ls| - 1 - k];
    ps[k].name == LeafName(l, |ls| - 1 - k) && (l.Slice? ==> ps[k].ty == l.ty)
  }

  /** The parameter of the j-th leaf is where the body looks for it. */
  lemma {:induction false} BindLeaf<V>(f: Function, e: Expr, j: nat, vars: string -> V, env: Slices, m: Machine<V>)
    requires Fits(f, e) && j < |Leaves(e)|
    ensures Holds(Bind(f.params, Args(e), vars, env, m), Leaves(e)[j], j, vars, env, m)
    ensures TypeOf(f.params, LeafName(Leaves(e)[j], j)) == f.params[|Leaves(e)| - 1 - j].ty
  {
    TypeOfLeaf(f.params, Leaves(e), j);
    var ls, k := Leaves(e), |Leaves(e)| - 1 - j;
    assert FitsAt(f.params, ls, k);
    forall i | 0 <= i < k ensures f.params[i].name != f.params[k].name {
      assert FitsAt(f.params, ls, i);
      LeafNamesDiffer(ls[|ls| - 1 - i], ls[j], |ls| - 1 - i, j);
    }
    BindHas(f.params, Args(e), k, vars, env, m);
    ReversedAt(ls, k);
  }

  ghost predicate LeavesAt(e: Expr, dim: nat, ls: seq<Expr>) {
    dim + |Leaves(e)| <= |ls| && ls[dim..dim + |Leaves(e)|] == Leaves(e)
  }

  lemma {:induction false} LeavesSplit(a: seq<Expr>, b: seq<Expr>, dim: nat, ls: seq<Expr>)
    requires dim + |a + b| <= |ls| && ls[dim..dim + |a + b|] == a + b
    ensures ls[dim..dim + |a|] == a && ls[dim + |a|..dim + |a| + |b|] == b
  {
    var all := ls[dim..dim + |a + b|];
    assert ls[dim..dim + |a|] == all[..|a|] && ls[dim + |a|..dim + |a| + |b|] == all[|a|..];
  }

  ghost predicate AllHold<V>(
      fr: Frame<V>, ls: seq<Expr>, vars: string -> V, env: Slices, m: Machine<V>) {
    forall j :: 0 <= j < |ls| ==> Holds(fr, ls[j], j, vars, env, m)
  }

  lemma {:induction false} BoundByLeaves<V>(
      fr: Frame<V>, e: Expr, dim: nat, ls: seq<Expr>, vars: string -> V, env: Slices, m: Machine<V>)
    requires AllHold(fr, ls, vars, env, m) && LeavesAt(e, dim, ls)
    ensures Bound(fr, e, dim, vars, env, m)
  {
    if e.Unary? || (e.Cast? && e.ty.ArrayOf?) {
      BoundByLeaves(fr, e.e1, dim, ls, vars, env, m);
    } else if e.Binary? || e.Assign? {
      var (a, b) := if e.Binary? then (e.e1, e.e2) else (e.e2, e.e1);
      LeavesSplit(Leaves(a), Leaves(b), dim, ls);
      BoundByLeaves(fr, a, dim, ls, vars, env, m);
      BoundByLeaves(fr, b, dim + |Leaves(a)|, ls, vars, env, m);
      BothBound(fr, e, dim, vars, env, m);
    } else {
      assert ls[dim..dim + 1][0] == ls[dim] == e;
      assert Holds(fr, ls[dim], dim, vars, env, m);
    }
  }

  lemma {:induction false} BothBound<V>(
      fr: Frame<V>, e: Expr, dim: nat, vars: string -> V, env: Slices, m: Machine<V>)
    requires e.Binary? || e.Assign?
    requires var (a, b) := if e.Binary? then (e.e1, e.e2) else (e.e2, e.e1);
      Bound(fr, a, dim, vars, env, m) && Bound(fr, b, dim + |Leaves(a)|, vars, env, m)
    ensures Bound(fr, e, dim, vars, env, m)
  {
  }

  predicate AllTyped(ls: seq<Expr>, tys: string -> Ty, slicesOnly: bool) {
    forall j :: 0 <= j < |ls| ==> ls[j].Slice? || !slicesOnly ==> tys(LeafName(ls[j], j)) == ls[j].ty
  }

  lemma {:induction false} TypedByLeaves(e: Expr, dim: nat, ls: seq<Expr>, tys: string -> Ty)
    requires LeavesAt(e, dim, ls)
    ensures AllTyped(ls, tys, true) ==> TypedSlices(e, dim, tys)
    ensures AllTyped(ls, tys, false) ==> OwnTypes(e, dim, tys)
  {
    assert ls[dim..dim + |Leaves(e)|][0] == ls[dim];
    match e
    case Operand(_, _) =>
    case Slice(_, _) =>
    case Cast(e1, ty) => if ty.ArrayOf? { TypedByLeaves(e1, dim, ls, tys); }
    case Unary(_, e1, _) => TypedByLeaves(e1, dim, ls, tys);
    case Binary(_, e1, e2, _) =>
      LeavesSplit(Leaves(e1), Leaves(e2), dim, ls);
      TypedByLeaves(e1, dim, ls, tys);
      TypedByLeaves(e2, dim + |Leaves(e1)|, ls, tys);
    case Assign(_, e1, e2, _) =>
      LeavesSplit(Leaves(e2), Leaves(e1), dim, ls);
      TypedByLeaves(e2, dim, ls, tys);
      TypedByLeaves(e1, dim + |Leaves(e2)|, ls, tys);
  }

  lemma {:induction false} BindHolds<V>(f: Function, e: Expr, vars: string -> V, env: Slices, m: Machine<V>)
    requires Fits(f, e)
    ensures Bound(Bind(f.params, Args(e), vars, env, m), e, 0, vars, env, m) && TypedSlices(e, 0, TypesOf(f.params))
  {
    var ls := Leaves(e);
    forall j | 0 <= j < |ls|
      ensures Holds(Bind(f.params, Args(e), vars, env, m), ls[j], j, vars, env, m)
      ensures ls[j].Slice? ==> TypesOf(f.params)(LeafName(ls[j], j)) == ls[j].ty
    {
      BindLeaf(f, e, j, vars, env, m);
      assert FitsAt(f.params, ls, |ls| - 1 - j);
    }
    assert ls[0..0 + |ls|] == ls;
    BoundByLeaves(Bind(f.params, Args(e), vars, env, m), e, 0, ls, vars, env, m);
    TypedByLeaves(e, 0, ls, TypesOf(f.params));
  }

  /** The first parameter is the destination. */
  lemma {:induction false} FirstIsDestination<V>(
      f: Function, e: Expr, fr: Frame<V>, vars: string -> V, env: Slices, m: Machine<V>)
    requires Accepted(e) && Fits(f, e) && Bound(fr, e, 0, vars, env, m)
    ensures |f.params| > 0 && f.params[0].name != INDEX
    ensures f.params[0].name in fr && fr[f.params[0].name] == Ref(env(e.e1.name))
  {
    var k := |Leaves(e.e2)|;
    assert FitsAt(f.params, Leaves(e), 0);
    assert Leaves(e) == Leaves(e.e2) + [e.e1];
    LeafNamesDiffer(e.e1, e.e1, k, k);
  }

  /** A call over two elements. */
  lemma {:induction false} TwoRounds<V>(b: LoopExpr, tys: string -> Ty, fr: Frame<V>, mem: int -> V, m: Machine<V>)
    ensures var r := Exec(b, tys, fr[INDEX := Count(0)], mem, m);
      r.LDone? ==>
        var q := Exec(b, tys, r.fr[INDEX := Count(1)], r.mem, m);
        q.LDone? ==> RunLoop(b, tys, 0, 2, fr, mem, m) == Some((q.fr, q.mem))
  {
    var r := Exec(b, tys, fr[INDEX := Count(0)], mem, m);
    if r.LDone? {
      var q := Exec(b, tys, r.fr[INDEX := Count(1)], r.mem, m);
      if q.LDone? {
        assert RunLoop(b, tys, 2, 2, q.fr, q.mem, m) == Some((q.fr, q.mem));
        assert RunLoop(b, tys, 1, 2, r.fr, r.mem, m) == Some((q.fr, q.mem));
      }
    }
  }

  lemma {:induction false} CallInTwoRounds<V>(f: Function, e: Expr, st: State<V>, env: Slices, m: Machine<V>)
    requires Accepted(e) && Fits(f, e) && env(e.e1.name).len == 2
    ensures |f.params| == |Args(e)| > 0
    ensures var fr, tys := Bind(f.params, Args(e), st.vars, env, m), TypesOf(f.params);
      var r := Exec(f.body, tys, fr[INDEX := Count(0)], st.mem, m);
      r.LDone? ==>
        var q := Exec(f.body, tys, r.fr[INDEX := Count(1)], r.mem, m);
        q.LDone? ==> Call(f, Args(e), st, env, m) == Some((Ref(env(e.e1.name)), q.mem))
  {
    var fr, tys := Bind(f.params, Args(e), st.vars, env, m), TypesOf(f.params);
    BindHolds(f, e, st.vars, env, m);
    FirstIsDestination(f, e, fr, st.vars, env, m);
    BoundIgnoresIndex(fr, e, 0, 0, st.vars, env, m);
    ExecFrame(e, 0, tys, fr[INDEX := Count(0)], st.mem, st.vars, env, m);
    var r := Exec(f.body, tys, fr[INDEX := Count(0)], st.mem, m);
    if r.LDone? {
      BoundIgnoresIndex(r.fr, e, 0, 1, st.vars, env, m);
      ExecFrame(e, 0, tys, r.fr[INDEX := Count(1)], r.mem, st.vars, env, m);
      var q := Exec(f.body, tys, r.fr[INDEX := Count(1)], r.mem, m);
      if q.LDone? {
        FirstIsDestination(f, e, q.fr, st.vars, env, m);
        TwoRounds(f.body, tys, fr, st.mem, m);
      }
    }
  }

  // ----- main result -----

  /** The elements assigned to have the values that evaluating `e` at each index over the state before
      the call leaves in them, and nothing else has changed. */
  ghost predicate PointwiseMeaning<V>(
      mem: int -> V, n: nat, e: Expr, st: State<V>, env: Slices, m: Machine<V>) {
    && (forall x, j: nat :: x in Targets(e) && j < n ==>
          EvalAt(e, j, st, env, m).Done? &&
          mem(env(x).base + j) == EvalAt(e, j, st, env, m).st.mem(env(x).base + j))
    && (forall a :: Untouched(e, n, a, env) ==> mem(a) == st.mem(a))
  }

  /** What is asked of a call for `e`: over slices that allow it, it returns the destination and leaves
      the meaning of `e` in memory, and it stops with a bounds error exactly if some slice is shorter
      than the destination. */
  ghost predicate CallMeans<V>(f: Function, e: Expr, st: State<V>, env: Slices, m: Machine<V>)
    requires Accepted(e) && Fits(f, e) && |f.params| == |Args(e)| > 0
  {
    var dest, r := env(e.e1.name), Call(f, Args(e), st, env, m);
    if LongEnough(e, dest.len, env) then
      r.Some? && r.value.0 == Ref(dest) && PointwiseMeaning(r.value.1, dest.len, e, st, env, m)
    else r.None?
  }

  lemma {:induction false} MeaningPreserved<V>(f: Function, e: Expr, st: State<V>, env: Slices, m: Machine<V>)
    requires Accepted(e) && Fits(f, e) && Keeps(e, 0, {}, TypesOf(f.params), m.lang, true)
    requires Apart(e, env(e.e1.name).len, env)
    ensures |f.params| == |Args(e)| > 0 && CallMeans(f, e, st, env, m)
  {
    var n, fr, tys := env(e.e1.name).len, Bind(f.params, Args(e), st.vars, env, m), TypesOf(f.params);
    BindHolds(f, e, st.vars, env, m);
    FirstIsDestination(f, e, fr, st.vars, env, m);
    LoopPointwise(e, 0, n, fr, st.mem, st, tys, env, m);
    var r := RunLoop(Body(e, 0), tys, 0, n, fr, st.mem, m);
    if LongEnough(e, n, env) {
      FirstIsDestination(f, e, r.value.0, st.vars, env, m);
      ProgressIsMeaning(r.value.1, n, e, st, env, m);
    } else {
      assert e.e1.name in SliceNames(e.e1);
      assert n > 0 && !InBounds(e, n - 1, env);
    }
  }

  lemma {:induction false} ProgressIsMeaning<V>(
      mem: int -> V, n: nat, e: Expr, st: State<V>, env: Slices, m: Machine<V>)
    requires Progress(mem, n, e, st, env, m)
    ensures PointwiseMeaning(mem, n, e, st, env, m)
  {
    forall x, j: nat | x in Targets(e) && j < n
      ensures EvalAt(e, j, st, env, m).Done?
      ensures mem(env(x).base + j) == EvalAt(e, j, st, env, m).st.mem(env(x).base + j)
    {
      assert Settled(mem, j, e, st, env, m);
    }
  }

  /** The function generated for `e` itself. */
  lemma {:induction false} OwnFunctionFits(e: Expr)
    requires Elementwise(e)
    ensures Fits(Generate(e), e) && OwnTypes(e, 0, TypesOf(Params(e, 0)))
  {
    var ls, ps := Leaves(e), Params(e, 0);
    forall k | 0 <= k < |ls| ensures FitsAt(ps, ls, k) && ps[k].ty == ls[|ls| - 1 - k].ty {
      ParameterAt(ls, Written(e), 0, k);
    }
    forall j | 0 <= j < |ls| ensures TypesOf(ps)(LeafName(ls[j], j)) == ls[j].ty {
      TypeOfLeaf(ps, ls, j);
    }
    assert ls[0..0 + |ls|] == ls;
    TypedByLeaves(e, 0, ls, TypesOf(ps));
  }

  /** It has the type of its first parameter, which it returns. */
  lemma {:induction false} ReturnsDestination(e: Expr)
    requires Accepted(e)
    ensures |Params(e, 0)| > 0 && Generate(e).ret == Params(e, 0)[0].ty == e.e1.ty
  {
    assert Leaves(e) == Leaves(e.e2) + [e.e1];
    ParameterAt(Leaves(e), Written(e), 0, 0);
  }

  lemma {:induction false} TypeOfLeaf(ps: seq<Parameter>, ls: seq<Expr>, j: nat)
    requires |ps| == |ls| && j < |ls| && forall k :: 0 <= k < |ps| ==> FitsAt(ps, ls, k)
    ensures TypeOf(ps, LeafName(ls[j], j)) == ps[|ls| - 1 - j].ty
  {
    var k := |ls| - 1 - j;
    assert FitsAt(ps, ls, k);
    forall i | 0 <= i < k ensures ps[i].name != ps[k].name {
      assert FitsAt(ps, ls, i);
      LeafNamesDiffer(ls[|ls| - 1 - i], ls[j], |ls| - 1 - i, j);
    }
    FirstOfName(ps, k);
  }

  lemma {:induction false} FirstOfName(ps: seq<Parameter>, k: nat)
    requires k < |ps| && forall i :: 0 <= i < k ==> ps[i].name != ps[k].name
    ensures TypeOf(ps, ps[k].name) == ps[k].ty
  {
    if k > 0 {
      assert ps[1..][k - 1] == ps[k] && ps[0].name != ps[k].name;
      FirstOfName(ps[1..], k - 1);
    }
  }

  /** The function generated for an expression preserves its meaning if analysis is stable on its scalar
      operands and no variable is read after it was given another value. */
  lemma {:induction false} OwnMeaningPreserved<V>(e: Expr, st: State<V>, env: Slices, m: Machine<V>)
    requires Accepted(e) && Stable(e, m.lang) && Clean(e, {}) && Apart(e, env(e.e1.name).len, env)
    ensures Fits(Generate(e), e) && |Params(e, 0)| == |Args(e)| > 0 && CallMeans(Generate(e), e, st, env, m)
  {
    OwnFunctionFits(e);
    KeepsWithOwnTypes(e, 0, {}, TypesOf(Params(e, 0)), m.lang);
    MeaningPreserved(Generate(e), e, st, env, m);
  }
}
