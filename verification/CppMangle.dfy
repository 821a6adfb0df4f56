/** cppmangle.c: C++ mangling with a substitution dictionary shared by the whole symbol.
    A component enters the dictionary before its operands are written. */
module CppMangle {
  import opened Wrappers
  import opened Numerals
  import opened Root

  /** Identifiers and decos: never empty, never starting with a digit. */
  type Id = s: string | |s| > 0 && !IsDigit(s[0], 10) witness "x"

  /** A declared symbol; `key` tells apart symbols that share a name, `parent` is None at module level. */
  datatype Symbol = Symbol(key: nat, name: Id, parent: Option<Symbol>)

  datatype Kind =
    | Void | Int8 | Uns8 | Int16 | Uns16 | Int32 | Uns32 | Int64 | Uns64
    | Float32 | Float64 | Float80 | Bool | Char | Wchar | Dchar
    | Imaginary32 | Imaginary64 | Imaginary80 | Complex32 | Complex64 | Complex80

  /** Types; `id` tells apart function types, which are never merged. `Vendor` stands for the types
      without a C++ analog: dynamic and associative arrays, delegates, typedefs. */
  datatype Ty =
    | Basic(kind: Kind, isConst: bool)
    | SArray(dim: nat, next: Ty)
    | Pointer(next: Ty)
    | Reference(next: Ty)
    | Func(id: nat, isC: bool, next: Ty, params: seq<Param>, variadic: bool)
    | Struct(sym: Symbol)
    | Enum(sym: Symbol)
    | Class(sym: Symbol)
    | Vendor(deco: Id)

  /** A parameter; `isRef` for `out` and `ref`. */
  datatype Param = Param(isRef: bool, ty: Ty)

  datatype Component = TypeComp(t: Ty) | SymComp(s: Symbol)

  /** The letter of a basic type; imaginary and complex types have a prefix, 'G' or 'C'. */
  function Letter(k: Kind): (c: char) {
    match k
    case Void => 'v' case Int8 => 'a' case Uns8 => 'h' case Int16 => 's' case Uns16 => 't'
    case Int32 => 'i' case Uns32 => 'j' case Int64 => 'x' case Uns64 => 'y'
    case Float32 => 'f' case Float64 => 'd' case Float80 => 'e'
    case Bool => 'b' case Char => 'c' case Wchar => 't' case Dchar => 'w'
    case Imaginary32 => 'f' case Imaginary64 => 'd' case Imaginary80 => 'e'
    case Complex32 => 'f' case Complex64 => 'd' case Complex80 => 'e'
  }

  function Prefix(k: Kind): Option<char> {
    match k
    case Imaginary32 => Some('G') case Imaginary64 => Some('G') case Imaginary80 => Some('G')
    case Complex32 => Some('C') case Complex64 => Some('C') case Complex80 => Some('C')
    case _ => None
  }

  // ----- the printer as a function: the text written and the dictionary left -----

  type Printed = (string, seq<Component>)

  function IndexOf(cs: seq<Component>, c: Component): (i: nat)
    requires c in cs
    ensures i < |cs| && cs[i] == c && c !in cs[..i]
  {
    if cs[0] == c then 0
    else
      var i := 1 + IndexOf(cs[1..], c);
      assert cs[..i] == [cs[0]] + cs[1..][..i - 1];
      i
  }

  /** S_, S0_, ..., S9_, SA_, ..., SZ_, S10_, ... */
  function BackReference(i: nat): string {
    "S" + (if i == 0 then "" else Digits(i - 1, 36)) + "_"
  }

  function SourceName(name: Id): string {
    Digits(|name|, 10) + name
  }

  function PrefixName(s: Symbol, cs: seq<Component>): Printed {
    if SymComp(s) in cs then (BackReference(IndexOf(cs, SymComp(s))), cs)
    else
      var cs1 := cs + [SymComp(s)];
      match s.parent
      case None => (SourceName(s.name), cs1)
      case Some(p) => var (t, cs2) := PrefixName(p, cs1); (t + SourceName(s.name), cs2)
  }

  /** `cpp_mangle_name`; `isConst` for const member functions. */
  function MangleName(s: Symbol, isConst: bool, cs: seq<Component>): Printed {
    match s.parent
    case None => (SourceName(s.name), cs)
    case Some(p) =>
      var (t, cs1) := PrefixName(p, cs);
      ("N" + (if isConst then "K" else "") + t + SourceName(s.name) + "E", cs1)
  }

  function MangleSymbol(s: Symbol, cs: seq<Component>): Printed {
    if SymComp(s) in cs then (BackReference(IndexOf(cs, SymComp(s))), cs)
    else MangleName(s, false, cs + [SymComp(s)])
  }

  /** `toCppMangle`. */
  function Mangle(t: Ty, cs: seq<Component>): Printed
    decreases Size(t), 0
  {
    match t
    case Struct(sym) => MangleSymbol(sym, cs)
    case Enum(sym) => MangleSymbol(sym, cs)
    case Basic(k, isConst) =>
      var k0 := if isConst then "K" else "";
      (match Prefix(k)
       case None => (k0 + [Letter(k)], cs)
       case Some(p) =>
         if TypeComp(t) in cs then (k0 + BackReference(IndexOf(cs, TypeComp(t))), cs)
         else (k0 + [p] + [Letter(k)], cs + [TypeComp(t)]))
    case _ =>
      if TypeComp(t) in cs then (BackReference(IndexOf(cs, TypeComp(t))), cs)
      else MangleNew(t, cs + [TypeComp(t)])
  }

  predicate IsComposite(t: Ty) {
    !t.Basic? && !t.Struct? && !t.Enum?
  }

  /** A composite type that is in no dictionary yet; `cs` already has it. */
  function MangleNew(t: Ty, cs: seq<Component>): Printed
    requires IsComposite(t)
    decreases Size(t), 0, 0
  {
    match t
    case SArray(dim, next) => var (s, cs1) := Mangle(next, cs); ("A" + Digits(dim, 10) + "_" + s, cs1)
    case Pointer(next) => var (s, cs1) := Mangle(next, cs); ("P" + s, cs1)
    case Reference(next) => var (s, cs1) := Mangle(next, cs); ("R" + s, cs1)
    case Func(_, isC, next, params, variadic) =>
      var (s, cs1) := Mangle(next, cs);
      var (a, cs2) := MangleArgs(params, variadic, cs1);
      ("F" + (if isC then "Y" else "") + s + a + "E", cs2)
    case Class(sym) => var (s, cs1) := MangleSymbol(sym, cs); ("P" + s, cs1)
    case Vendor(deco) => ("u" + SourceName(deco), cs)
  }

  /** The type a parameter is mangled as: `out` and `ref` as references, static arrays as pointers. */
  function ParamType(p: Param): Ty {
    if p.isRef then Reference(p.ty) else if p.ty.SArray? then Pointer(p.ty) else p.ty
  }

  function MangleParams(ps: seq<Param>, cs: seq<Component>): Printed
    decreases ParamsSize(ps), 1
  {
    if ps == [] then ("", cs)
    else
      var (s, cs1) := Mangle(ParamType(ps[0]), cs);
      var (r, cs2) := MangleParams(ps[1..], cs1);
      (s + r, cs2)
  }

  /** `argsCppMangle`. */
  function MangleArgs(ps: seq<Param>, variadic: bool, cs: seq<Component>): Printed
    decreases ParamsSize(ps), 2
  {
    var (s, cs1) := MangleParams(ps, cs);
    (s + (if variadic then "z" else if ps == [] then "v" else ""), cs1)
  }

  /** `cpp_mangle` of a function. */
  function MangleFunction(s: Symbol, isConst: bool, ps: seq<Param>, variadic: bool): string {
    var (n, cs) := MangleName(s, isConst, []);
    "_Z" + n + MangleArgs(ps, variadic, cs).0
  }

  function Size(t: Ty): (n: nat)
    ensures n > 0
  {
    match t
    case SArray(_, next) => 1 + Size(next)
    case Pointer(next) => 1 + Size(next)
    case Reference(next) => 1 + Size(next)
    case Func(_, _, next, params, _) => 1 + Size(next) + ParamsSize(params)
    case _ => 1
  }

  function ParamsSize(ps: seq<Param>): nat {
    if ps == [] then 0 else ParamSize(ps[0]) + ParamsSize(ps[1..])
  }

  function ParamSize(p: Param): (n: nat)
    ensures n == 2 + Size(p.ty)
  {
    2 + Size(p.ty)
  }

  // ----- the printer in the form of the source -----

  method WriteBase36(buf: OutBuffer, i: nat)
    modifies buf
    ensures buf.data == old(buf.data) + Digits(i, 36)
    decreases i
  {
    if i >= 36 {
      WriteBase36(buf, i / 36);
    }
    buf.WriteByte(DigitChar(i % 36));
  }

  method WriteSourceName(buf: OutBuffer, name: Id)
    modifies buf
    ensures buf.data == old(buf.data) + SourceName(name)
  {
    buf.WriteString(Digits(|name|, 10) + name);
  }

  class CppMangleState {
    var components: seq<Component>

    constructor ()
      ensures components == []
    {
      components := [];
    }

    /** Writes a back reference to `p` if it is a component already, and makes it one otherwise. */
    method Substitute(buf: OutBuffer, p: Component) returns (found: bool)
      modifies this, buf
      ensures found <==> p in old(components)
      ensures found ==> components == old(components)
      ensures found ==> buf.data == old(buf.data) + BackReference(IndexOf(old(components), p))
      ensures !found ==> components == old(components) + [p] && buf.data == old(buf.data)
    {
      var i := 0;
      while i < |components|
        invariant i <= |components| && p !in components[..i]
        invariant components == old(components) && buf.data == old(buf.data)
      {
        if p == components[i] {
          buf.WriteByte('S');
          if i != 0 {
            WriteBase36(buf, i - 1);
          }
          buf.WriteByte('_');
          FirstIndex(components, p, i);
          return true;
        }
        i := i + 1;
      }
      components := components + [p];
      return false;
    }

    method WritePrefixName(buf: OutBuffer, s: Symbol)
      modifies this, buf
      ensures components == PrefixName(s, old(components)).1
      ensures buf.data == old(buf.data) + PrefixName(s, old(components)).0
      decreases s
    {
      var found := Substitute(buf, SymComp(s));
      if !found {
        if s.parent.Some? {
          WritePrefixName(buf, s.parent.value);
        }
        WriteSourceName(buf, s.name);
      }
    }

    method CppMangleName(buf: OutBuffer, s: Symbol, isConst: bool)
      modifies this, buf
      ensures components == MangleName(s, isConst, old(components)).1
      ensures buf.data == old(buf.data) + MangleName(s, isConst, old(components)).0
    {
      ghost var b, cs := buf.data, components;
      if s.parent.Some? {
        buf.WriteByte('N');
        if isConst {
          buf.WriteByte('K');
        }
        WritePrefixName(buf, s.parent.value);
        WriteSourceName(buf, s.name);
        buf.WriteByte('E');
        Append5(b, "N", if isConst then "K" else "", PrefixName(s.parent.value, cs).0, SourceName(s.name), "E");
      } else {
        WriteSourceName(buf, s.name);
      }
    }

    method SymbolToCppMangle(buf: OutBuffer, s: Symbol)
      modifies this, buf
      ensures components == MangleSymbol(s, old(components)).1
      ensures buf.data == old(buf.data) + MangleSymbol(s, old(components)).0
    {
      var found := Substitute(buf, SymComp(s));
      if !found {
        CppMangleName(buf, s, false);
      }
    }

    method ToCppMangle(buf: OutBuffer, t: Ty)
      modifies this, buf
      ensures components == Mangle(t, old(components)).1
      ensures buf.data == old(buf.data) + Mangle(t, old(components)).0
      decreases Size(t), 0
    {
      match t {
        case Struct(sym) => SymbolToCppMangle(buf, sym);
        case Enum(sym) => SymbolToCppMangle(buf, sym);
        case Basic(_, _) => BasicToCppMangle(buf, t);
        case _ =>
          var found := Substitute(buf, TypeComp(t));
          if !found {
            OperandsToCppMangle(buf, t);
          }
      }
    }

    method BasicToCppMangle(buf: OutBuffer, t: Ty)
      requires t.Basic?
      modifies this, buf
      ensures components == Mangle(t, old(components)).1
      ensures buf.data == old(buf.data) + Mangle(t, old(components)).0
    {
      ghost var b, cs, k0 := buf.data, components, if t.isConst then "K" else "";
      if t.isConst {
        buf.WriteByte('K');
      }
      if Prefix(t.kind).Some? {
        var found := Substitute(buf, TypeComp(t));
        if found {
          Append2(b, k0, BackReference(IndexOf(cs, TypeComp(t))));
          return;
        }
        buf.WriteByte(Prefix(t.kind).value);
        Append3(b, k0, [Prefix(t.kind).value], [Letter(t.kind)]);
      } else {
        Append2(b, k0, [Letter(t.kind)]);
      }
      buf.WriteByte(Letter(t.kind));
    }

    method OperandsToCppMangle(buf: OutBuffer, t: Ty)
      requires IsComposite(t)
      modifies this, buf
      ensures components == MangleNew(t, old(components)).1
      ensures buf.data == old(buf.data) + MangleNew(t, old(components)).0
      decreases Size(t), 0, 0
    {
      ghost var b, cs := buf.data, components;
      match t {
        case SArray(dim, next) =>
          buf.WriteString("A" + Digits(dim, 10) + "_");
          ToCppMangle(buf, next);
          Append2(b, "A" + Digits(dim, 10) + "_", Mangle(next, cs).0);
        case Pointer(next) =>
          buf.WriteByte('P');
          ToCppMangle(buf, next);
          Append2(b, "P", Mangle(next, cs).0);
        case Reference(next) =>
          buf.WriteByte('R');
          ToCppMangle(buf, next);
          Append2(b, "R", Mangle(next, cs).0);
        case Func(_, isC, next, params, variadic) =>
          FunctionToCppMangle(buf, t);
        case Class(sym) =>
          buf.WriteByte('P');
          SymbolToCppMangle(buf, sym);
          Append2(b, "P", MangleSymbol(sym, cs).0);
        case Vendor(deco) =>
          buf.WriteString("u" + SourceName(deco));
      }
    }

    method FunctionToCppMangle(buf: OutBuffer, t: Ty)
      requires t.Func?
      modifies this, buf
      ensures components == MangleNew(t, old(components)).1
      ensures buf.data == old(buf.data) + MangleNew(t, old(components)).0
      decreases Size(t), 0, 0, 0
    {
      ghost var b, y := buf.data, if t.isC then "Y" else "";
      ghost var (s, cs1) := Mangle(t.next, components);
      buf.WriteByte('F');
      if t.isC {
        buf.WriteByte('Y');
      }
      ToCppMangle(buf, t.next);
      ArgsCppMangle(buf, t.params, t.variadic);
      buf.WriteByte('E');
      Append5(b, "F", y, s, MangleArgs(t.params, t.variadic, cs1).0, "E");
    }

    method ArgsCppMangle(buf: OutBuffer, arguments: seq<Param>, varargs: bool)
      modifies this, buf
      ensures components == MangleArgs(arguments, varargs, old(components)).1
      ensures buf.data == old(buf.data) + MangleArgs(arguments, varargs, old(components)).0
      decreases ParamsSize(arguments), 2
    {
      var n := 0;
      ghost var b, cs := buf.data, components;
      for i := 0 to |arguments|
        invariant n == i
        invariant components == MangleParams(arguments[..i], old(components)).1
        invariant buf.data == old(buf.data) + MangleParams(arguments[..i], old(components)).0
      {
        var t := arguments[i].ty;
        if arguments[i].isRef {
          t := Reference(t);
        }
        if t.SArray? {
          t := Pointer(t);
        }
        SizeOfElement(arguments, i);
        assert arguments[..i + 1] == arguments[..i] + [arguments[i]];
        ParamsSnoc(arguments[..i], arguments[i], cs);
        Append2(b, MangleParams(arguments[..i], cs).0, Mangle(t, components).0);
        ToCppMangle(buf, t);
        n := n + 1;
      }
      assert arguments[..|arguments|] == arguments;
      Append2(b, MangleParams(arguments, cs).0, if varargs then "z" else if arguments == [] then "v" else "");
      if varargs {
        buf.WriteString("z");
      } else if n == 0 {
        buf.WriteByte('v');
      }
    }
  }

  lemma {:induction false} FirstIndex(cs: seq<Component>, c: Component, i: nat)
    requires i < |cs| && cs[i] == c && c !in cs[..i]
    ensures IndexOf(cs, c) == i
  {
    var j := IndexOf(cs, c);
    assert forall k :: 0 <= k < i ==> cs[..i][k] != c;
    assert forall k :: 0 <= k < j ==> cs[..j][k] != c;
  }

  lemma {:induction false} ParamsSnoc(ps: seq<Param>, p: Param, cs: seq<Component>)
    ensures var (s, cs1) := MangleParams(ps, cs);
      var (r, cs2) := Mangle(ParamType(p), cs1);
      MangleParams(ps + [p], cs) == (s + r, cs2)
  {
    if ps == [] {
      var r := Mangle(ParamType(p), cs).0;
      assert (ps + [p])[0] == p && (ps + [p])[1..] == [];
      assert r + "" == r && "" + r == r;
    } else {
      var (s0, cs0) := Mangle(ParamType(ps[0]), cs);
      ParamsSnoc(ps[1..], p, cs0);
      assert (ps + [p])[0] == ps[0] && (ps + [p])[1..] == ps[1..] + [p];
      Append2(s0, MangleParams(ps[1..], cs0).0, Mangle(ParamType(p), MangleParams(ps[1..], cs0).1).0);
    }
  }

  lemma {:induction false} SizeOfElement(ps: seq<Param>, i: nat)
    requires i < |ps|
    ensures ParamSize(ps[i]) <= ParamsSize(ps)
  {
    if i > 0 {
      SizeOfElement(ps[1..], i - 1);
    }
  }

  method MangleCpp(s: Symbol, isConst: bool, parameters: seq<Param>, varargs: bool) returns (text: string)
    ensures text == MangleFunction(s, isConst, parameters, varargs)
  {
    var cms := new CppMangleState();
    var buf := new OutBuffer();
    buf.WriteString("_Z");
    cms.CppMangleName(buf, s, isConst);
    cms.ArgsCppMangle(buf, parameters, varargs);
    text := buf.data;
  }
}
