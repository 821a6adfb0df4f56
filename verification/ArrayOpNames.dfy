/** The name of an array operation as a cache key: what it determines of the generated function,
    and what it does not. */
module ArrayOpNames {
  import opened Root
  import opened ArrayOp

  /** What the build functions see of an expression once array casts are skipped. */
  datatype Shape =
    | SExp
    | SSlice
    | SUnary(u: UnOp, s1: Shape)
    | SBinary(b: Op, s1: Shape, s2: Shape)
    | SAssign(a: AssignOp, s1: Shape, s2: Shape)

  function ShapeOf(e: Expr): Shape {
    match e
    case Operand(_, _) => SExp
    case Slice(_, _) => SSlice
    case Cast(e1, ty) => if ty.ArrayOf? then ShapeOf(e1) else SExp
    case Unary(u, e1, _) => SUnary(u, ShapeOf(e1))
    case Binary(op, e1, e2, _) => SBinary(op, ShapeOf(e1), ShapeOf(e2))
    case Assign(op, e1, e2, _) => SAssign(op, ShapeOf(e1), ShapeOf(e2))
  }

  // ----- a shape is recovered from its tokens -----

  function Rpn(s: Shape): seq<Token> {
    match s
    case SExp => [TokExp]
    case SSlice => [TokSlice]
    case SUnary(u, s1) => Rpn(s1) + [TokUnary(u)]
    case SBinary(op, s1, s2) => Rpn(s1) + Rpn(s2) + [TokBinary(op)]
    case SAssign(op, s1, s2) => Rpn(s2) + Rpn(s1) + [TokAssign(op)]
  }

  /** The stack machine that reads tokens back; ill-formed input leaves the stack alone. */
  function Push(t: Token, stack: seq<Shape>): seq<Shape> {
    var n := |stack|;
    match t
    case TokExp => stack + [SExp]
    case TokSlice => stack + [SSlice]
    case TokUnary(u) => if n < 1 then stack else stack[..n - 1] + [SUnary(u, stack[n - 1])]
    case TokBinary(op) => if n < 2 then stack else stack[..n - 2] + [SBinary(op, stack[n - 2], stack[n - 1])]
    case TokAssign(op) => if n < 2 then stack else stack[..n - 2] + [SAssign(op, stack[n - 1], stack[n - 2])]
  }

  function Parse(ts: seq<Token>, stack: seq<Shape>): seq<Shape> {
    if ts == [] then stack else Parse(ts[1..], Push(ts[0], stack))
  }

  lemma {:induction false} ParseConcat(ts: seq<Token>, us: seq<Token>, stack: seq<Shape>)
    ensures Parse(ts + us, stack) == Parse(us, Parse(ts, stack))
  {
    if ts == [] {
      assert ts + us == us;
    } else {
      assert (ts + us)[1..] == ts[1..] + us;
      ParseConcat(ts[1..], us, Push(ts[0], stack));
    }
  }

  lemma {:induction false} ParseRpn(s: Shape, stack: seq<Shape>)
    ensures Parse(Rpn(s), stack) == stack + [s]
  {
    match s
    case SExp =>
    case SSlice =>
    case SUnary(u, s1) =>
      ParseConcat(Rpn(s1), [TokUnary(u)], stack);
      ParseRpn(s1, stack);
    case SBinary(op, s1, s2) =>
      ParseRpn(s1, stack);
      ParseRpn(s2, stack + [s1]);
      ParseTwo(s1, s2, TokBinary(op), stack);
    case SAssign(op, s1, s2) =>
      ParseRpn(s2, stack);
      ParseRpn(s1, stack + [s2]);
      ParseTwo(s2, s1, TokAssign(op), stack);
  }

  lemma {:induction false} ParseTwo(s1: Shape, s2: Shape, t: Token, stack: seq<Shape>)
    requires Parse(Rpn(s1), stack) == stack + [s1]
    requires Parse(Rpn(s2), stack + [s1]) == stack + [s1] + [s2]
    ensures Parse(Rpn(s1) + Rpn(s2) + [t], stack) == Push(t, stack + [s1] + [s2])
  {
    ParseConcat(Rpn(s1) + Rpn(s2), [t], stack);
    ParseConcat(Rpn(s1), Rpn(s2), stack);
  }

  lemma {:induction false} RpnInjective(s: Shape, t: Shape)
    requires Rpn(s) == Rpn(t)
    ensures s == t
  {
    ParseRpn(s, []);
    ParseRpn(t, []);
    assert Parse(Rpn(s), [])[0] == s;
  }

  // ----- the tokens are recovered from the text -----

  function Spell(ts: seq<Token>): string {
    if ts == [] then "" else Text(ts[0]) + Spell(ts[1..])
  }

  predicate IsLower(c: char) {
    'a' <= c <= 'z'
  }

  /** Capital-initial words: every token text is one, and distinct tokens have distinct texts. */
  predicate IsWord(w: string) {
    |w| > 0 && 'A' <= w[0] <= 'Z' && forall i :: 1 <= i < |w| ==> IsLower(w[i])
  }

  lemma TextsAreWords(t: Token)
    ensures IsWord(Text(t))
  {
  }

  lemma TextInjective(t: Token, u: Token)
    requires Text(t) == Text(u)
    ensures t == u
  {
    assert Text(t)[0] == Text(u)[0] && Text(t)[1] == Text(u)[1];
    assert |Text(t)| > 2 ==> Text(t)[2] == Text(u)[2];
  }

  lemma SplitWord(w: string, v: string, x: string, y: string)
    requires IsWord(w) && IsWord(v) && |x| > 0 && |y| > 0 && !IsLower(x[0]) && !IsLower(y[0])
    requires w + x == v + y
    ensures w == v && x == y
  {
    var text := w + x;
    assert !IsLower(text[|w|]) && !IsLower(text[|v|]);
    assert forall i :: 1 <= i < |w| ==> IsLower(text[i]);
    assert forall i :: 1 <= i < |v| ==> IsLower(text[i]);
    assert |w| == |v|;
    assert w == text[..|w|] == v;
    assert x == text[|w|..] == y;
  }

  lemma {:induction false} SpellConcat(ts: seq<Token>, us: seq<Token>)
    ensures Spell(ts + us) == Spell(ts) + Spell(us)
  {
    if ts == [] {
      assert ts + us == us;
    } else {
      assert (ts + us)[1..] == ts[1..] + us;
      SpellConcat(ts[1..], us);
      Append2(Text(ts[0]), Spell(ts[1..]), Spell(us));
    }
  }

  lemma {:induction false} SpellOne(ts: seq<Token>, t: Token)
    ensures Spell([t]) == Text(t)
    ensures Spell(ts + [t]) == Spell(ts) + Text(t)
  {
    assert Spell([t]) == Text(t) + Spell([]) == Text(t);
    SpellConcat(ts, [t]);
  }

  lemma {:induction false} SpellTwo(ts: seq<Token>, us: seq<Token>, t: Token)
    ensures Spell(ts + us + [t]) == Spell(ts) + Spell(us) + Text(t)
  {
    SpellConcat(ts, us);
    SpellOne(ts + us, t);
  }

  lemma {:induction false} SpellInjective(ts: seq<Token>, us: seq<Token>, x: string, y: string)
    requires Spell(ts) + ("_" + x) == Spell(us) + ("_" + y)
    ensures ts == us && x == y
  {
    var tx, uy := Spell(ts) + ("_" + x), Spell(us) + ("_" + y);
    if ts != [] { TextsAreWords(ts[0]); assert tx[0] == Text(ts[0])[0]; }
    if us != [] { TextsAreWords(us[0]); assert uy[0] == Text(us[0])[0]; }
    if ts == [] || us == [] {
      assert ts == [] ==> tx[0] == '_';
      assert us == [] ==> uy[0] == '_';
      assert x == tx[1..] && y == uy[1..];
    } else {
      NextIsNotLower(ts[1..], x);
      NextIsNotLower(us[1..], y);
      Append2(Text(ts[0]), Spell(ts[1..]), "_" + x);
      Append2(Text(us[0]), Spell(us[1..]), "_" + y);
      SplitWord(Text(ts[0]), Text(us[0]), Spell(ts[1..]) + ("_" + x), Spell(us[1..]) + ("_" + y));
      TextInjective(ts[0], us[0]);
      SpellInjective(ts[1..], us[1..], x, y);
    }
  }

  lemma {:induction false} NextIsNotLower(ts: seq<Token>, x: string)
    ensures var r := Spell(ts) + ("_" + x); |r| > 0 && !IsLower(r[0])
  {
    if ts != [] {
      TextsAreWords(ts[0]);
    }
  }

  lemma {:induction false} IdentSpellsRpn(e: Expr)
    ensures Ident(e) == Spell(Rpn(ShapeOf(e)))
  {
    match e
    case Operand(_, _) => SpellOne([], TokExp);
    case Slice(_, _) => SpellOne([], TokSlice);
    case Cast(e1, ty) =>
      if ty.ArrayOf? { IdentSpellsRpn(e1); } else { SpellOne([], TokExp); }
    case Unary(u, e1, _) =>
      IdentSpellsRpn(e1);
      assert Rpn(ShapeOf(e)) == Rpn(ShapeOf(e1)) + [TokUnary(u)];
      SpellOne(Rpn(ShapeOf(e1)), TokUnary(u));
    case Binary(op, e1, e2, _) =>
      IdentSpellsRpn(e1);
      IdentSpellsRpn(e2);
      assert Rpn(ShapeOf(e)) == Rpn(ShapeOf(e1)) + Rpn(ShapeOf(e2)) + [TokBinary(op)];
      SpellTwo(Rpn(ShapeOf(e1)), Rpn(ShapeOf(e2)), TokBinary(op));
    case Assign(op, e1, e2, _) =>
      IdentSpellsRpn(e1);
      IdentSpellsRpn(e2);
      assert Rpn(ShapeOf(e)) == Rpn(ShapeOf(e2)) + Rpn(ShapeOf(e1)) + [TokAssign(op)];
      SpellTwo(Rpn(ShapeOf(e2)), Rpn(ShapeOf(e1)), TokAssign(op));
  }

  // ----- the names of the run-time library -----

  /** What the library calls the operators. */
  const OPERATORS: map<string, Op> := map[
    "Add" := Add, "Min" := Min, "Mul" := Mul, "Div" := Div, "Mod" := Mod, "Xor" := Xor, "And" := And, "Or" := Or]

  const UNARY: map<string, UnOp> := map["Neg" := Neg, "Com" := Com]

  function SliceOf(n: string, elem: Ty): Expr {
    Slice(n, ArrayOf(elem))
  }

  predicate Named(e: Expr, ident: string) {
    e.ty.ArrayOf? && NameOf(e) == "_array" + ident + "_" + Deco(e.ty.elem)
  }

  /** Operators are called what the library calls them; `a[] = e1 op e2`, with slices and values for e1
      and e2, names the operands, then the operator, then the target: "ExpSlice" + "Min" + "SliceAssign"
      is `a[] = x - b[]`. */
  lemma {:induction false} OperatorNames(word: string, e1: Expr, e2: Expr, elem: Ty)
    requires word in OPERATORS
    ensures var e := Assign(Plain, SliceOf("a", elem), Binary(OPERATORS[word], e1, e2, ArrayOf(elem)), ArrayOf(elem));
      Named(e, Ident(e1) + Ident(e2) + word + "Slice" + "Assign")
    ensures Ident(SliceOf("b", elem)) == "Slice" && Ident(Operand("x", elem)) == "Exp"
  {
    OperatorWord(word);
    var e := Assign(Plain, SliceOf("a", elem), Binary(OPERATORS[word], e1, e2, ArrayOf(elem)), ArrayOf(elem));
    assert Ident(e.e2) == Ident(e1) + Ident(e2) + word;
    TargetIsLast(e.e2, elem);
  }

  lemma {:induction false} OperatorWord(word: string)
    requires word in OPERATORS
    ensures OpName(OPERATORS[word]) == word
  {
  }

  lemma {:induction false} TargetIsLast(e2: Expr, elem: Ty)
    ensures Ident(Assign(Plain, SliceOf("a", elem), e2, ArrayOf(elem))) == Ident(e2) + "Slice" + "Assign"
  {
  }

  lemma {:induction false} UnaryNames(word: string, e1: Expr, elem: Ty)
    requires word in UNARY
    ensures var e := Assign(Plain, SliceOf("a", elem), Unary(UNARY[word], e1, ArrayOf(elem)), ArrayOf(elem));
      Named(e, Ident(e1) + word + "Slice" + "Assign")
  {
    var e := Assign(Plain, SliceOf("a", elem), Unary(UNARY[word], e1, ArrayOf(elem)), ArrayOf(elem));
    assert Text(TokUnary(UNARY[word])) == word;
    assert Ident(e.e2) == Ident(e1) + word;
    TargetIsLast(e.e2, elem);
  }

  /** `a[] op= operand` names the operand before the target. */
  lemma {:induction false} UpdateNames(word: string, operand: Expr, elem: Ty)
    requires word in OPERATORS
    ensures var e := Assign(Compound(OPERATORS[word]), SliceOf("a", elem), operand, ArrayOf(elem));
      Named(e, Ident(operand) + "Slice" + (word + "ass"))
  {
    OperatorWord(word);
    var e := Assign(Compound(OPERATORS[word]), SliceOf("a", elem), operand, ArrayOf(elem));
    assert Ident(e) == Ident(operand) + "Slice" + (word + "ass");
  }

  /** The name determines the shape of the expression and the deco of the element type. */
  lemma {:induction false} NameDecodes(e: Expr, f: Expr)
    requires e.ty.ArrayOf? && f.ty.ArrayOf?
    ensures NameOf(e) == NameOf(f) <==> ShapeOf(e) == ShapeOf(f) && Deco(e.ty.elem) == Deco(f.ty.elem)
  {
    IdentSpellsRpn(e);
    IdentSpellsRpn(f);
    if NameOf(e) == NameOf(f) {
      var x, y := Deco(e.ty.elem), Deco(f.ty.elem);
      Append2("_array" + Ident(e), "_", x);
      Append2("_array" + Ident(f), "_", y);
      Append2("_array", Ident(e), "_" + x);
      Append2("_array", Ident(f), "_" + y);
      assert NameOf(e)[6..] == Ident(e) + ("_" + x);
      assert NameOf(f)[6..] == Ident(f) + ("_" + y);
      SpellInjective(Rpn(ShapeOf(e)), Rpn(ShapeOf(f)), x, y);
      RpnInjective(ShapeOf(e), ShapeOf(f));
    }
  }

  // ----- what the name fixes of the generated function -----

  function Kinds(ls: seq<Expr>): (ks: seq<bool>)
    ensures |ks| == |ls| && forall i :: 0 <= i < |ls| ==> ks[i] == ls[i].Slice?
  {
    seq(|ls|, i requires 0 <= i < |ls| => ls[i].Slice?)
  }

  lemma KindsConcat(a: seq<Expr>, b: seq<Expr>)
    ensures Kinds(a + b) == Kinds(a) + Kinds(b)
  {
  }

  lemma {:induction false} SameShapeSameCode(e: Expr, f: Expr, dim: nat)
    requires ShapeOf(e) == ShapeOf(f)
    ensures Body(e, dim) == Body(f, dim)
    ensures Kinds(Leaves(e)) == Kinds(Leaves(f)) && Written(e) == Written(f)
    decreases e, f
  {
    if e.Cast? && e.ty.ArrayOf? {
      SameShapeSameCode(e.e1, f, dim);
    } else if f.Cast? && f.ty.ArrayOf? {
      SameShapeSameCode(e, f.e1, dim);
    } else if e.Unary? {
      SameShapeSameCode(e.e1, f.e1, dim);
    } else if e.Binary? {
      SameShapeSameCode(e.e1, f.e1, dim);
      SameShapeSameCode(e.e2, f.e2, dim + |Leaves(e.e1)|);
      KindsConcat(Leaves(e.e1), Leaves(e.e2));
      KindsConcat(Leaves(f.e1), Leaves(f.e2));
    } else if e.Assign? {
      SameShapeSameCode(e.e2, f.e2, dim);
      SameShapeSameCode(e.e1, f.e1, dim + |Leaves(e.e2)|);
      KindsConcat(Leaves(e.e2), Leaves(e.e1));
      KindsConcat(Leaves(f.e2), Leaves(f.e1));
    }
  }

  /** Argument i and parameter i are built for the same leaf, last visited first: the parameter has
      that leaf's type and is named after the number of leaves visited before it. */
  lemma {:induction false} PositionalAgreement(e: Expr, dim: nat, i: nat)
    requires i < |Leaves(e)|
    ensures |Args(e)| == |Params(e, dim)| == |Leaves(e)|
    ensures Args(e)[i] == Leaves(e)[|Leaves(e)| - 1 - i]
    ensures var k := |Leaves(e)| - 1 - i; Params(e, dim)[i] == ParameterFor(Leaves(e)[k], Written(e)[k], dim + k)
  {
    ArgumentAt(e, i);
    var ls, ws := Leaves(e), Written(e);
    ParameterAt(ls, ws, dim, i);
  }

  lemma {:induction false} ArgumentAt(e: Expr, i: nat)
    requires i < |Leaves(e)|
    ensures |Args(e)| == |Leaves(e)| && Args(e)[i] == Leaves(e)[|Leaves(e)| - 1 - i]
  {
    ReversedAt(Leaves(e), i);
  }

  lemma ParameterAt(ls: seq<Expr>, ws: seq<bool>, dim: nat, i: nat)
    requires |ws| == |ls| && i < |ls|
    ensures var k := |ls| - 1 - i; ParamsOf(ls, ws, dim)[i] == ParameterFor(ls[k], ws[k], dim + k)
  {
  }

  lemma ReversedAt(ls: seq<Expr>, i: nat)
    requires i < |ls|
    ensures Reverse(ls)[i] == ls[|ls| - 1 - i]
  {
  }

  lemma SameParamsExact(ls: seq<Expr>, ms: seq<Expr>, ws: seq<bool>, dim: nat)
    requires |ls| == |ms| == |ws| && Kinds(ls) == Kinds(ms)
    ensures ParamsOf(ls, ws, dim) == ParamsOf(ms, ws, dim) <==>
      forall i :: 0 <= i < |ls| ==> Reverse(ls)[i].ty == Reverse(ms)[i].ty
  {
    var ps, qs, n := ParamsOf(ls, ws, dim), ParamsOf(ms, ws, dim), |ls|;
    forall i | 0 <= i < n ensures ps[i] == qs[i] <==> Reverse(ls)[i].ty == Reverse(ms)[i].ty {
      assert Kinds(ls)[n - 1 - i] == Kinds(ms)[n - 1 - i];
    }
  }

  /** Two expressions of the same name need the same function exactly when the types of their leaves
      and their own types agree as well: the name does not mention the types of scalar operands. */
  lemma CacheKeyExact(e: Expr, f: Expr)
    requires e.ty.ArrayOf? && f.ty.ArrayOf? && NameOf(e) == NameOf(f)
    ensures |Args(e)| == |Args(f)|
    ensures Generate(e) == Generate(f) <==>
      e.ty == f.ty && forall i :: 0 <= i < |Args(e)| ==> Args(e)[i].ty == Args(f)[i].ty
  {
    NameDecodes(e, f);
    SameShapeSameCode(e, f, 0);
    SameParamsExact(Leaves(e), Leaves(f), Written(e), 0);
  }

  // ----- hygiene -----

  lemma LeafNamesDiffer(l: Expr, m: Expr, j: nat, k: nat)
    ensures LeafName(l, j) != INDEX
    ensures j != k ==> LeafName(l, j) != LeafName(m, k)
  {
    if LeafName(l, j) == LeafName(m, k) {
      assert LeafName(l, j)[1..] == Numerals.Digits(j, 10);
      assert LeafName(m, k)[1..] == Numerals.Digits(k, 10);
      Numerals.DigitsInjective(j, k, 10);
    }
  }

  lemma NamesDistinct(ls: seq<Expr>, ws: seq<bool>, dim: nat, i: nat, j: nat)
    requires |ls| == |ws| && i < |ls| && j < |ls|
    ensures ParamsOf(ls, ws, dim)[i].name != INDEX
    ensures i != j ==> ParamsOf(ls, ws, dim)[i].name != ParamsOf(ls, ws, dim)[j].name
  {
    LeafNamesDiffer(ls[|ls| - 1 - i], ls[|ls| - 1 - j], dim + |ls| - 1 - i, dim + |ls| - 1 - j);
  }

  /** No two parameters share a name, and none is captured by the loop index. */
  lemma ParameterNamesDistinct(e: Expr, dim: nat)
    ensures forall i, j :: 0 <= i < j < |Params(e, dim)| ==> Params(e, dim)[i].name != Params(e, dim)[j].name
    ensures forall i :: 0 <= i < |Params(e, dim)| ==> Params(e, dim)[i].name != INDEX
  {
    forall i, j | 0 <= i < |Leaves(e)| && 0 <= j < |Leaves(e)|
      ensures i != j ==> Params(e, dim)[i].name != Params(e, dim)[j].name
      ensures Params(e, dim)[i].name != INDEX
    {
      NamesDistinct(Leaves(e), Written(e), dim, i, j);
    }
  }

  // ----- const correctness -----

  /** The target of an assignment once array casts are skipped. */
  function Target(e: Expr): Expr {
    if e.Cast? && e.ty.ArrayOf? then Target(e.e1) else e
  }

  /** Every assignment inside `e` goes to something that is passed as one parameter. */
  predicate TargetsAreLeaves(e: Expr) {
    match e
    case Operand(_, _) => true
    case Slice(_, _) => true
    case Cast(e1, ty) => ty.ArrayOf? ==> TargetsAreLeaves(e1)
    case Unary(_, e1, _) => TargetsAreLeaves(e1)
    case Binary(_, e1, e2, _) => TargetsAreLeaves(e1) && TargetsAreLeaves(e2)
    case Assign(_, e1, e2, _) =>
      TargetsAreLeaves(e1) && TargetsAreLeaves(e2) && IsLeaf(Target(e1))
  }

  /** The parameters the loop body assigns to or through. */
  function Assigned(b: LoopExpr): set<string> {
    match b
    case Name(_) => {}
    case Element(_, _) => {}
    case LUnary(_, b1) => Assigned(b1)
    case LBinary(_, b1, b2) => Assigned(b1) + Assigned(b2)
    case LAssign(_, b1, b2) =>
      Assigned(b1) + Assigned(b2) + (if b1.Name? then {b1.name} else if b1.Element? then {b1.base} else {})
  }

  lemma {:induction false} TargetIsOneLeaf(e: Expr, dim: nat)
    requires IsLeaf(Target(e))
    ensures Leaves(e) == [Target(e)] && Written(e) == [false] && Body(e, dim) == Body(Target(e), dim)
  {
    if e.Cast? && e.ty.ArrayOf? {
      TargetIsOneLeaf(e.e1, dim);
    }
  }

  /** The names of the parameters that lost `const`. */
  function WrittenNames(ls: seq<Expr>, ws: seq<bool>, dim: nat): set<string>
    requires |ls| == |ws|
  {
    set j | 0 <= j < |ls| && ws[j] :: LeafName(ls[j], dim + j)
  }

  lemma WrittenNamesConcat(a: seq<Expr>, v: seq<bool>, b: seq<Expr>, w: seq<bool>, dim: nat)
    requires |a| == |v| && |b| == |w|
    ensures WrittenNames(a + b, v + w, dim) == WrittenNames(a, v, dim) + WrittenNames(b, w, dim + |a|)
  {
    var l, r := WrittenNames(a, v, dim), WrittenNames(b, w, dim + |a|);
    forall n | n in r ensures n in WrittenNames(a + b, v + w, dim) {
      var j :| 0 <= j < |b| && w[j] && LeafName(b[j], dim + |a| + j) == n;
      assert (a + b)[|a| + j] == b[j] && (v + w)[|a| + j] && dim + (|a| + j) == dim + |a| + j;
    }
    forall n | n in l ensures n in WrittenNames(a + b, v + w, dim) {
      var j :| 0 <= j < |a| && v[j] && LeafName(a[j], dim + j) == n;
      assert (a + b)[j] == a[j] && (v + w)[j];
    }
  }

  predicate WritesAssigned(e: Expr, dim: nat) {
    Assigned(Body(e, dim)) == WrittenNames(Leaves(e), Written(e), dim)
  }

  /** The loop assigns to exactly the parameters that lost `const`. */
  lemma {:induction false} AssignedAreWritten(e: Expr, dim: nat)
    requires TargetsAreLeaves(e)
    ensures WritesAssigned(e, dim)
  {
    match e
    case Operand(_, _) =>
      NothingWritten(e, dim);
    case Slice(_, _) =>
      NothingWritten(e, dim);
    case Cast(e1, ty) =>
      if ty.ArrayOf? {
        AssignedAreWritten(e1, dim);
      } else {
        NothingWritten(e, dim);
      }
    case Unary(_, e1, _) =>
      AssignedAreWritten(e1, dim);
    case Binary(_, e1, e2, _) =>
      AssignedAreWritten(e1, dim);
      AssignedAreWritten(e2, dim + |Leaves(e1)|);
      AssignedOperands(e, dim);
    case Assign(_, e1, e2, _) =>
      AssignedAreWritten(e2, dim);
      AssignedTarget(e, dim);
  }

  lemma {:induction false} NothingWritten(e: Expr, dim: nat)
    requires IsLeaf(e)
    ensures WritesAssigned(e, dim)
  {
  }

  lemma {:induction false} AssignedOperands(e: Expr, dim: nat)
    requires e.Binary? && WritesAssigned(e.e1, dim) && WritesAssigned(e.e2, dim + |Leaves(e.e1)|)
    ensures WritesAssigned(e, dim)
  {
    WrittenNamesConcat(Leaves(e.e1), Written(e.e1), Leaves(e.e2), Written(e.e2), dim);
  }

  lemma {:induction false} AssignedTarget(e: Expr, dim: nat)
    requires e.Assign? && IsLeaf(Target(e.e1)) && WritesAssigned(e.e2, dim)
    ensures WritesAssigned(e, dim)
  {
    var n2, t := |Leaves(e.e2)|, Target(e.e1);
    TargetIsOneLeaf(e.e1, dim + n2);
    assert Written(e) == Written(e.e2) + [true];
    WrittenNamesConcat(Leaves(e.e2), Written(e.e2), [t], [true], dim);
    OneWrittenName(t, dim + n2);
  }

  lemma OneWrittenName(t: Expr, dim: nat)
    ensures WrittenNames([t], [true], dim) == {LeafName(t, dim)}
  {
    assert LeafName([t][0], dim + 0) in WrittenNames([t], [true], dim);
  }

  lemma WrittenByName(ls: seq<Expr>, ws: seq<bool>, dim: nat, k: nat)
    requires |ls| == |ws| && k < |ls|
    ensures ws[k] <==> LeafName(ls[k], dim + k) in WrittenNames(ls, ws, dim)
  {
    var n := LeafName(ls[k], dim + k);
    if n in WrittenNames(ls, ws, dim) {
      var j :| 0 <= j < |ls| && ws[j] && LeafName(ls[j], dim + j) == n;
      LeafNamesDiffer(ls[j], ls[k], dim + j, dim + k);
    }
  }

  /** A parameter is const exactly when it is a slice the loop body never assigns through. */
  lemma {:induction false} ConstExactly(e: Expr, dim: nat, i: nat)
    requires TargetsAreLeaves(e) && i < |Args(e)|
    ensures Params(e, dim)[i].isConst <==>
      Args(e)[i].Slice? && Params(e, dim)[i].name !in Assigned(Body(e, dim))
  {
    AssignedAreWritten(e, dim);
    ParameterAt(Leaves(e), Written(e), dim, i);
    WrittenByName(Leaves(e), Written(e), dim, |Args(e)| - 1 - i);
  }
}
