/** arrayop.c: an array expression becomes the name of a function, the argument list of a call to
    it, and (when no function of that name is cached yet) the loop body and the parameter list of
    the function. */
module ArrayOp {
  import Numerals
  import opened Root

  /** The deco of a type that is neither an array nor a pointer never starts like theirs. */
  type BasicDeco = s: string | |s| > 0 && s[0] != 'A' && s[0] != 'P' witness "v"

  /** Arrays (dynamic or static) and pointers are told from the other types, known by their deco. */
  datatype Ty = Basic(deco: BasicDeco) | Pointer(to: Ty) | ArrayOf(elem: Ty)

  function Deco(t: Ty): (d: string)
    ensures |d| > 0
  {
    match t
    case Basic(d) => d
    case Pointer(to) => "P" + Deco(to)
    case ArrayOf(elem) => "A" + Deco(elem)
  }

  /** Types are merged by their deco. */
  lemma {:induction false} DecoInjective(t: Ty, u: Ty)
    requires Deco(t) == Deco(u)
    ensures t == u
  {
    assert Deco(t)[0] == Deco(u)[0];
    if t.Pointer? {
      assert Deco(t)[1..] == Deco(t.to) && Deco(u)[1..] == Deco(u.to);
      DecoInjective(t.to, u.to);
    } else if t.ArrayOf? {
      assert Deco(t)[1..] == Deco(t.elem) && Deco(u)[1..] == Deco(u.elem);
      DecoInjective(t.elem, u.elem);
    }
  }

  /** `int*` and `char[]`. */
  lemma {:induction false} DecoOfDerived()
    ensures Deco(Pointer(Basic("i"))) == "Pi" && Deco(ArrayOf(Basic("a"))) == "Aa"
  {
    assert Deco(Basic("i")) == "i" && Deco(Basic("a")) == "a";
  }

  const VOID := Basic("v")

  datatype Op = Add | Min | Mul | Div | Mod | Xor | And | Or
  datatype UnOp = Neg | Com
  datatype AssignOp = Plain | Compound(op: Op)

  /** `Operand` stands for every expression class that inherits the default build functions. */
  datatype Expr =
    | Operand(name: string, ty: Ty)
    | Slice(name: string, ty: Ty)
    | Cast(e1: Expr, ty: Ty)
    | Unary(uop: UnOp, e1: Expr, ty: Ty)
    | Binary(bop: Op, e1: Expr, e2: Expr, ty: Ty)
    | Assign(aop: AssignOp, e1: Expr, e2: Expr, ty: Ty)

  /** `isArrayOpValid` (lines 38-79). */
  predicate IsArrayOpValid(e: Expr) {
    if e.Slice? then true
    else if e.ty.ArrayOf? then
      match e
      case Binary(_, e1, e2, _) => IsArrayOpValid(e1) && IsArrayOpValid(e2)
      case Assign(_, e1, e2, _) => IsArrayOpValid(e1) && IsArrayOpValid(e2)
      case Unary(_, e1, _) => IsArrayOpValid(e1)
      case _ => false
    else true
  }

  /** The leaves in the order in which the build functions visit them: assignments go right to left. */
  function Leaves(e: Expr): (ls: seq<Expr>)
    ensures |ls| > 0
  {
    match e
    case Operand(_, _) => [e]
    case Slice(_, _) => [e]
    case Cast(e1, ty) => if ty.ArrayOf? then Leaves(e1) else [e]
    case Unary(_, e1, _) => Leaves(e1)
    case Binary(_, e1, e2, _) => Leaves(e1) + Leaves(e2)
    case Assign(_, e1, e2, _) => Leaves(e2) + Leaves(e1)
  }

  /** One parameter of the generated function: nothing below it is visited. */
  predicate IsLeaf(e: Expr) {
    e.Operand? || e.Slice? || (e.Cast? && !e.ty.ArrayOf?)
  }

  // ----- typing: what isArrayOpValid promises about the leaves -----

  /** What semantic analysis leaves of an expression: an operator on an array takes arrays of the same
      type or values cast to the type of its elements (BinExp::typeCombine), an assignment goes to a
      slice or a variable and its operand has been cast to the type of that. */
  predicate WellTyped(e: Expr) {
    match e
    case Operand(_, _) => true
    case Slice(_, ty) => ty.ArrayOf? && !ty.elem.ArrayOf?
    case Cast(e1, ty) => WellTyped(e1) && (ty.ArrayOf? ==> e1.ty == ty)
    case Unary(_, e1, ty) => WellTyped(e1) && ty == e1.ty
    case Binary(_, e1, e2, ty) =>
      WellTyped(e1) && WellTyped(e2) &&
      if e1.ty.ArrayOf? then ty == e1.ty && (e2.ty == ty || e2.ty == ty.elem)
      else if e2.ty.ArrayOf? then ty == e2.ty && e1.ty == ty.elem
      else !ty.ArrayOf?
    case Assign(aop, e1, e2, ty) =>
      WellTyped(e1) && WellTyped(e2) && ty == e1.ty &&
      if e1.Slice? then e2.ty == ty || e2.ty == ty.elem
      else e1.Operand? && !ty.ArrayOf? && !e2.ty.ArrayOf? && (aop == Plain ==> e2.ty == ty)
  }

  /** What the build functions meet above the leaves. */
  function Above(e: Expr): set<Expr> {
    match e
    case Operand(_, _) => {}
    case Slice(_, _) => {}
    case Cast(e1, ty) => if ty.ArrayOf? then {e} + Above(e1) else {}
    case Unary(_, e1, _) => {e} + Above(e1)
    case Binary(_, e1, e2, _) => {e} + Above(e1) + Above(e2)
    case Assign(_, e1, e2, _) => {e} + Above(e1) + Above(e2)
  }

  /** The generated function is handed only slices and element values, never a whole array where the
      loop body expects one element, and no operator is applied to a converted array. */
  predicate TakesElements(e: Expr) {
    && (forall l :: l in Leaves(e) ==> l.Slice? || !l.ty.ArrayOf?)
    && (forall n :: n in Above(e) ==> !n.Cast?)
  }

  /** That is exactly what is accepted. */
  lemma {:induction false} AcceptedExactly(e: Expr)
    requires WellTyped(e)
    ensures IsArrayOpValid(e) <==> TakesElements(e)
  {
    match e
    case Operand(_, _) =>
    case Slice(_, _) =>
    case Cast(e1, ty) =>
      if ty.ArrayOf? {
        assert e in Above(e);
      }
    case Unary(_, e1, _) => AcceptedExactly(e1);
    case Binary(_, e1, e2, _) => AcceptedExactly(e1); AcceptedExactly(e2);
    case Assign(_, e1, e2, _) => AcceptedExactly(e1); AcceptedExactly(e2);
  }

  // ----- the name -----

  function OpName(op: Op): (s: string) {
    match op
    case Add => "Add" case Min => "Min" case Mul => "Mul" case Div => "Div"
    case Mod => "Mod" case Xor => "Xor" case And => "And" case Or => "Or"
  }

  datatype Token = TokExp | TokSlice | TokUnary(u: UnOp) | TokBinary(b: Op) | TokAssign(a: AssignOp)

  function Text(t: Token): (s: string) {
    match t
    case TokExp => "Exp"
    case TokSlice => "Slice"
    case TokUnary(Neg) => "Neg"
    case TokUnary(Com) => "Com"
    case TokBinary(op) => OpName(op)
    case TokAssign(Plain) => "Assign"
    case TokAssign(Compound(op)) => OpName(op) + "ass"
  }

  /** What `buildArrayIdent` appends to the name (lines 385-470). */
  function Ident(e: Expr): string {
    match e
    case Operand(_, _) => Text(TokExp)
    case Slice(_, _) => Text(TokSlice)
    case Cast(e1, ty) => if ty.ArrayOf? then Ident(e1) else Text(TokExp)
    case Unary(u, e1, _) => Ident(e1) + Text(TokUnary(u))
    case Binary(op, e1, e2, _) => Ident(e1) + Ident(e2) + Text(TokBinary(op))
    case Assign(op, e1, e2, _) => Ident(e2) + Ident(e1) + Text(TokAssign(op))
  }

  function NameOf(e: Expr): string
    requires e.ty.ArrayOf?
  {
    "_array" + Ident(e) + "_" + Deco(e.ty.elem)
  }

  function Reverse<T>(s: seq<T>): (r: seq<T>)
    ensures |r| == |s|
    ensures forall i {:trigger r[i]} :: 0 <= i < |s| ==> r[i] == s[|s| - 1 - i]
  {
    seq(|s|, i requires 0 <= i < |s| => s[|s| - 1 - i])
  }

  /** The arguments `buildArrayIdent` shifts to the front of the list, one by one. */
  function Args(e: Expr): (args: seq<Expr>) {
    Reverse(Leaves(e))
  }

  // ----- the generated function -----

  datatype Parameter = Parameter(isConst: bool, ty: Ty, name: string)

  datatype LoopExpr =
    | Name(name: string)
    | Element(base: string, index: string)
    | LUnary(uop: UnOp, l1: LoopExpr)
    | LBinary(bop: Op, l1: LoopExpr, l2: LoopExpr)
    | LAssign(aop: AssignOp, l1: LoopExpr, l2: LoopExpr)

  /** `Id::p`: the loop index of the generated function. */
  const INDEX := "p"

  /** `Identifier::generateId(prefix, dim)` for the leaf met when `dim` parameters exist. */
  function LeafName(leaf: Expr, dim: nat): string {
    (if leaf.Slice? then "p" else "c") + Numerals.Digits(dim, 10)
  }

  /** The expression `buildArrayLoop` returns when `dim` parameters exist already. */
  function Body(e: Expr, dim: nat): LoopExpr {
    match e
    case Operand(_, _) => Name(LeafName(e, dim))
    case Slice(_, _) => Element(LeafName(e, dim), INDEX)
    case Cast(e1, ty) => if ty.ArrayOf? then Body(e1, dim) else Name(LeafName(e, dim))
    case Unary(u, e1, _) => LUnary(u, Body(e1, dim))
    case Binary(op, e1, e2, _) => LBinary(op, Body(e1, dim), Body(e2, dim + |Leaves(e1)|))
    case Assign(op, e1, e2, _) => LAssign(op, Body(e1, dim + |Leaves(e2)|), Body(e2, dim))
  }

  /** Per visited leaf: has its parameter lost `const` because it was the newest one when an
      assignment was built? */
  function Written(e: Expr): (ws: seq<bool>)
    ensures |ws| == |Leaves(e)|
  {
    match e
    case Operand(_, _) => [false]
    case Slice(_, _) => [false]
    case Cast(e1, ty) => if ty.ArrayOf? then Written(e1) else [false]
    case Unary(_, e1, _) => Written(e1)
    case Binary(_, e1, e2, _) => Written(e1) + Written(e2)
    case Assign(_, e1, e2, _) =>
      var ws := Written(e2) + Written(e1);
      ws[|ws| - 1 := true]
  }

  function ParameterFor(leaf: Expr, written: bool, dim: nat): Parameter {
    Parameter(leaf.Slice? && !written, leaf.ty, LeafName(leaf, dim))
  }

  /** The parameters of leaves visited when `dim` exist already, newest first. */
  function ParamsOf(ls: seq<Expr>, ws: seq<bool>, dim: nat): (ps: seq<Parameter>)
    requires |ls| == |ws|
    ensures |ps| == |ls|
    ensures forall i {:trigger ps[i]} :: 0 <= i < |ls| ==>
      ps[i] == ParameterFor(ls[|ls| - 1 - i], ws[|ls| - 1 - i], dim + |ls| - 1 - i)
  {
    seq(|ls|, i requires 0 <= i < |ls| => ParameterFor(ls[|ls| - 1 - i], ws[|ls| - 1 - i], dim + |ls| - 1 - i))
  }

  /** The parameters `buildArrayLoop` shifts to the front of the list. */
  function Params(e: Expr, dim: nat): seq<Parameter> {
    ParamsOf(Leaves(e), Written(e), dim)
  }

  datatype Function = Library(name: string) | Generated(params: seq<Parameter>, body: LoopExpr, ret: Ty)

  function Generate(e: Expr): Function {
    Generated(Params(e, 0), Body(e, 0), e.ty)
  }

  // ----- the build functions, in the form of the source -----

  lemma ReverseConcat<T>(a: seq<T>, b: seq<T>)
    ensures Reverse(a + b) == Reverse(b) + Reverse(a)
  {
  }

  method BuildArrayIdent(e: Expr, buf: OutBuffer, arguments: Array<Expr>)
    modifies buf, arguments
    ensures buf.data == old(buf.data) + Ident(e)
    ensures arguments.data == Args(e) + old(arguments.data)
    decreases e
  {
    ghost var name, args := buf.data, arguments.data;
    match e
    case Operand(_, _) =>
      buf.WriteString(Text(TokExp));
      arguments.Shift(e);
    case Slice(_, _) =>
      buf.WriteString(Text(TokSlice));
      arguments.Shift(e);
    case Cast(e1, ty) =>
      if ty.ArrayOf? {
        BuildArrayIdent(e1, buf, arguments);
      } else {
        buf.WriteString(Text(TokExp));
        arguments.Shift(e);
      }
    case Unary(u, e1, _) =>
      BuildArrayIdent(e1, buf, arguments);
      buf.WriteString(Text(TokUnary(u)));
      Append2(name, Ident(e1), Text(TokUnary(u)));
    case Binary(op, e1, e2, _) =>
      BuildArrayIdent(e1, buf, arguments);
      BuildArrayIdent(e2, buf, arguments);
      buf.WriteString(Text(TokBinary(op)));
      Append3(name, Ident(e1), Ident(e2), Text(TokBinary(op)));
      ShiftTwo(Leaves(e1), Leaves(e2), args);
    case Assign(op, e1, e2, _) =>
      BuildArrayIdent(e2, buf, arguments);
      BuildArrayIdent(e1, buf, arguments);
      buf.WriteString(Text(TokAssign(op)));
      Append3(name, Ident(e2), Ident(e1), Text(TokAssign(op)));
      ShiftTwo(Leaves(e2), Leaves(e1), args);
  }

  lemma ShiftTwo(a: seq<Expr>, b: seq<Expr>, args: seq<Expr>)
    ensures Reverse(b) + (Reverse(a) + args) == Reverse(a + b) + args
  {
    ReverseConcat(a, b);
    Append2(Reverse(b), Reverse(a), args);
  }

  lemma ParamsOfConcat(a: seq<Expr>, v: seq<bool>, b: seq<Expr>, w: seq<bool>, dim: nat, ps: seq<Parameter>)
    requires |a| == |v| && |b| == |w|
    ensures ParamsOf(b, w, dim + |a|) + (ParamsOf(a, v, dim) + ps) == ParamsOf(a + b, v + w, dim) + ps
  {
    assert ParamsOf(b, w, dim + |a|) + ParamsOf(a, v, dim) == ParamsOf(a + b, v + w, dim);
    Append2(ParamsOf(b, w, dim + |a|), ParamsOf(a, v, dim), ps);
  }

  lemma ClearNewest(ls: seq<Expr>, ws: seq<bool>, dim: nat, ps: seq<Parameter>)
    requires |ls| == |ws| > 0
    ensures var all := ParamsOf(ls, ws, dim) + ps;
      all[0 := all[0].(isConst := false)] == ParamsOf(ls, ws[|ws| - 1 := true], dim) + ps
  {
    var before, after := ParamsOf(ls, ws, dim), ParamsOf(ls, ws[|ws| - 1 := true], dim);
    assert after == before[0 := before[0].(isConst := false)];
  }

  lemma {:induction false} BinaryParams(e: Expr, ps: seq<Parameter>)
    requires e.Binary?
    ensures Params(e.e2, |ps| + |Leaves(e.e1)|) + (Params(e.e1, |ps|) + ps) == Params(e, |ps|) + ps
  {
    ParamsOfConcat(Leaves(e.e1), Written(e.e1), Leaves(e.e2), Written(e.e2), |ps|, ps);
  }

  lemma {:induction false} AssignParams(e: Expr, ps: seq<Parameter>)
    requires e.Assign?
    ensures var all := Params(e.e1, |ps| + |Leaves(e.e2)|) + (Params(e.e2, |ps|) + ps);
      |all| > 0 && all[0 := all[0].(isConst := false)] == Params(e, |ps|) + ps
  {
    ParamsOfConcat(Leaves(e.e2), Written(e.e2), Leaves(e.e1), Written(e.e1), |ps|, ps);
    ClearNewest(Leaves(e), Written(e.e2) + Written(e.e1), |ps|, ps);
  }

  lemma {:induction false} LeafParams(e: Expr, dim: nat)
    requires Leaves(e) == [e] && Written(e) == [false]
    ensures Params(e, dim) == [ParameterFor(e, false, dim)]
  {
  }

  method BuildArrayLoop(e: Expr, fparams: Array<Parameter>) returns (body: LoopExpr)
    modifies fparams
    ensures body == Body(e, old(|fparams.data|))
    ensures fparams.data == Params(e, old(|fparams.data|)) + old(fparams.data)
    decreases e
  {
    ghost var ps := fparams.data;
    match e
    case Operand(_, ty) =>
      var id := LeafName(e, |fparams.data|);
      LeafParams(e, |ps|);
      fparams.Shift(Parameter(false, ty, id));
      body := Name(id);
    case Slice(_, ty) =>
      var id := LeafName(e, |fparams.data|);
      LeafParams(e, |ps|);
      fparams.Shift(Parameter(true, ty, id));
      body := Element(id, INDEX);
    case Cast(e1, ty) =>
      if ty.ArrayOf? {
        body := BuildArrayLoop(e1, fparams);
      } else {
        var id := LeafName(e, |fparams.data|);
        LeafParams(e, |ps|);
        fparams.Shift(Parameter(false, ty, id));
        body := Name(id);
      }
    case Unary(u, e1, _) =>
      var ex1 := BuildArrayLoop(e1, fparams);
      body := LUnary(u, ex1);
    case Binary(op, e1, e2, _) =>
      var ex1 := BuildArrayLoop(e1, fparams);
      var ex2 := BuildArrayLoop(e2, fparams);
      BinaryParams(e, ps);
      body := LBinary(op, ex1, ex2);
    case Assign(op, e1, e2, _) =>
      var ex2 := BuildArrayLoop(e2, fparams);
      var ex1 := BuildArrayLoop(e1, fparams);
      AssignParams(e, ps);
      fparams.data := fparams.data[0 := fparams.data[0].(isConst := false)];
      body := LAssign(op, ex1, ex2);
  }
}
