/** A reader for the mangled names of cppmangle.c that keeps the dictionary the printer keeps, and the
    proof that it recovers what was printed, up to the printer's own identifications. */
module CppDemangle {
  import opened Wrappers
  import opened Numerals
  import opened CppMangle
  import opened Root

  /** A type as far as its mangling tells: a class is a pointer to its symbol, `Wchar` is `Uns16`,
      function types have lost their identity and symbols are known by name. */
  datatype Form =
    | Scalar(kind: Kind)
    | Const(f: Form)
    | Array(dim: nat, elem: Form)
    | Ptr(to: Form)
    | Ref(to: Form)
    | Fun(isC: bool, ret: Form, args: seq<Form>, variadic: bool)
    | Named(path: seq<string>)
    | Ext(deco: string)

  function Path(s: Symbol): (p: seq<string>)
    ensures |p| > 0
  {
    (if s.parent.Some? then Path(s.parent.value) else []) + [s.name]
  }

  function Unqualified(k: Kind): Form {
    Scalar(if k == Wchar then Uns16 else k)
  }

  /** No two kinds are mangled alike but these two. */
  lemma {:induction false} KindsToldApart(k: Kind, l: Kind)
    ensures Prefix(k) == Prefix(l) && Letter(k) == Letter(l) <==> Unqualified(k) == Unqualified(l)
    ensures Unqualified(k) == Unqualified(l) <==> k == l || (k in {Uns16, Wchar} && l in {Uns16, Wchar})
  {
    ReadLetter(k, [], "");
    ReadLetter(l, [], "");
  }

  function Erase(t: Ty): Form
    decreases Size(t)
  {
    match t
    case Basic(k, isConst) => if isConst then Const(Unqualified(k)) else Unqualified(k)
    case SArray(dim, next) => Array(dim, Erase(next))
    case Pointer(next) => Ptr(Erase(next))
    case Reference(next) => Ref(Erase(next))
    case Func(_, isC, next, params, variadic) => Fun(isC, Erase(next), EraseParams(params), variadic)
    case Struct(sym) => Named(Path(sym))
    case Enum(sym) => Named(Path(sym))
    case Class(sym) => Ptr(Named(Path(sym)))
    case Vendor(deco) => Ext(deco)
  }

  /** What a caller passes: `out` and `ref` are references, even to a static array, and any other static
      array is a pointer to it. */
  function EraseParam(p: Param): Form
    decreases ParamSize(p), 0
  {
    if p.isRef then Ref(Erase(p.ty)) else if p.ty.SArray? then Ptr(Erase(p.ty)) else Erase(p.ty)
  }

  function EraseParams(ps: seq<Param>): (fs: seq<Form>)
    ensures |fs| == |ps|
    decreases ParamsSize(ps), 1
  {
    if ps == [] then [] else [EraseParam(ps[0])] + EraseParams(ps[1..])
  }

  function EraseComp(c: Component): Form {
    match c
    case SymComp(s) => Named(Path(s))
    case TypeComp(Basic(k, _)) => Unqualified(k)
    case TypeComp(t) => Erase(t)
  }

  // ----- the reader -----

  /** The letters of C++ for the types that D has as well. */
  const LETTERS: map<char, Kind> := map[
    'v' := Void, 'b' := Bool, 'c' := Char, 'w' := Dchar,
    'a' := Int8, 's' := Int16, 'i' := Int32, 'x' := Int64,
    'h' := Uns8, 't' := Uns16, 'j' := Uns32, 'y' := Uns64,
    'f' := Float32, 'd' := Float64, 'e' := Float80]

  /** What they stand for after 'G' and 'C'. */
  const IMAGINARY: map<char, Kind> := map['f' := Imaginary32, 'd' := Imaginary64, 'e' := Imaginary80]
  const COMPLEX: map<char, Kind> := map['f' := Complex32, 'd' := Complex64, 'e' := Complex80]

  /** An entry is None while its type is still being read. */
  type Dict = seq<Option<Form>>

  datatype Parsed = Fail | Parsed(f: Form, rest: string, d: Dict)
  datatype ParsedArgs = ArgsFail | ParsedArgs(fs: seq<Form>, variadic: bool, rest: string, d: Dict)

  function ReadName(text: string): (r: Option<(string, string)>)
    ensures r.Some? ==> |r.value.1| <= |text|
  {
    var (n, t) := ReadNumber(text, 10);
    if n <= |t| then Some((t[..n], t[n..])) else None
  }

  function ReadBackReference(text: string): (r: Option<(nat, string)>)
    ensures r.Some? ==> |r.value.1| < |text|
  {
    if text == "" then None
    else if text[0] == '_' then Some((0, text[1..]))
    else
      var (n, t) := ReadNumber(text, 36);
      if t != "" && t[0] == '_' then Some((n + 1, t[1..])) else None
  }

  /** The entry reserved at `i` is the type just read. */
  function Close(r: Parsed, i: nat, f: Form): Parsed {
    if r.Parsed? && i < |r.d| then Parsed(f, r.rest, r.d[i := Some(f)]) else Fail
  }

  function Read(text: string, d: Dict): (r: Parsed)
    ensures r.Parsed? ==> |r.rest| < |text|
    decreases |text|, 0
  {
    if text == "" then Fail
    else
      var tl, n := text[1..], |d|;
      match text[0]
      case 'K' =>
        var r := Read(tl, d);
        if r.Parsed? then Parsed(Const(r.f), r.rest, r.d) else Fail
      case 'S' =>
        var b := ReadBackReference(tl);
        if b.Some? && b.value.0 < n && d[b.value.0].Some? then Parsed(d[b.value.0].value, b.value.1, d) else Fail
      case 'P' =>
        var r := Read(tl, d + [None]);
        if r.Parsed? then Close(r, n, Ptr(r.f)) else Fail
      case 'R' =>
        var r := Read(tl, d + [None]);
        if r.Parsed? then Close(r, n, Ref(r.f)) else Fail
      case 'A' =>
        ReadStaticArray(tl, d)
      case 'F' =>
        ReadFunctionType(tl, d)
      case 'u' =>
        var nm := ReadName(tl);
        if nm.Some? then Parsed(Ext(nm.value.0), nm.value.1, d + [Some(Ext(nm.value.0))]) else Fail
      case c =>
        if c == 'G' || c == 'C' then
          var table := if c == 'G' then IMAGINARY else COMPLEX;
          if tl != "" && tl[0] in table then
            Parsed(Scalar(table[tl[0]]), tl[1..], d + [Some(Scalar(table[tl[0]]))])
          else Fail
        else if IsDigit(c, 10) then
          var (len, t) := ReadNumber(text, 10);
          if len <= |t| && |t| < |text| then
            Parsed(Named([t[..len]]), t[len..], d + [Some(Named([t[..len]]))])
          else Fail
        else if c in LETTERS then Parsed(Scalar(LETTERS[c]), tl, d)
        else Fail
  }

  /** What follows 'A'. */
  function ReadStaticArray(text: string, d: Dict): (r: Parsed)
    ensures r.Parsed? ==> |r.rest| <= |text|
    decreases |text|, 2
  {
    var (dim, t) := ReadNumber(text, 10);
    if t != "" && t[0] == '_' then
      var r := Read(t[1..], d + [None]);
      if r.Parsed? then Close(r, |d|, Array(dim, r.f)) else Fail
    else Fail
  }

  /** What follows 'F'. */
  function ReadFunctionType(text: string, d: Dict): (r: Parsed)
    ensures r.Parsed? ==> |r.rest| <= |text|
    decreases |text|, 2
  {
    var isC := text != "" && text[0] == 'Y';
    var r := Read(if isC then text[1..] else text, d + [None]);
    if r.Parsed? then
      var a := ReadArgs(r.rest, r.d, true);
      if a.ParsedArgs? && a.rest != "" && a.rest[0] == 'E' && |d| < |a.d| then
        var f := Fun(isC, r.f, a.fs, a.variadic);
        Parsed(f, a.rest[1..], a.d[|d| := Some(f)])
      else Fail
    else Fail
  }

  /** Reads parameters up to the end of the text or the 'E' of a function type. */
  function ReadArgs(text: string, d: Dict, first: bool): (r: ParsedArgs)
    ensures r.ParsedArgs? ==> |r.rest| <= |text|
    decreases |text|, 1
  {
    if text == "" || text[0] == 'E' then ParsedArgs([], false, text, d)
    else if text[0] == 'z' then ParsedArgs([], true, text[1..], d)
    else if first && text[0] == 'v' then ParsedArgs([], false, text[1..], d)
    else
      var r := Read(text, d);
      if r.Parsed? then
        var a := ReadArgs(r.rest, r.d, false);
        if a.ParsedArgs? then a.(fs := [r.f] + a.fs) else ArgsFail
      else ArgsFail
  }

  // ----- the dictionaries of printer and reader -----

  /** Entry by entry they hold the same component; entries still open belong to types larger than n,
      so no type of size n can be one of them. */
  predicate Agree(cs: seq<Component>, d: Dict, n: nat) {
    && |cs| == |d|
    && forall i :: 0 <= i < |cs| ==>
         d[i] == Some(EraseComp(cs[i])) || (d[i] == None && cs[i].TypeComp? && Size(cs[i].t) > n)
  }

  function Entries(cs: seq<Component>): (d: Dict)
    ensures |d| == |cs|
    ensures forall i :: 0 <= i < |cs| ==> d[i] == Some(EraseComp(cs[i]))
  {
    seq(|cs|, i requires 0 <= i < |cs| => Some(EraseComp(cs[i])))
  }

  /** The text of a printed item reads back as `f`, and extends both dictionaries alike. */
  predicate ReadsAs(p: Printed, cs: seq<Component>, f: Form, d: Dict, rest: string) {
    cs <= p.1 && Read(p.0 + rest, d) == Parsed(f, rest, d + Entries(p.1[|cs|..]))
  }

  // ----- well-formed types -----

  /** Type symbols are at module level (the code reports nested ones as an error) and no function
      takes a parameter of type void (TypeFunction::semantic reports that). */
  predicate WellFormed(t: Ty)
    decreases Size(t)
  {
    match t
    case SArray(_, next) => WellFormed(next)
    case Pointer(next) => WellFormed(next)
    case Reference(next) => WellFormed(next)
    case Func(_, _, next, params, _) => WellFormed(next) && WellFormedParams(params)
    case Struct(sym) => sym.parent.None?
    case Enum(sym) => sym.parent.None?
    case Class(sym) => sym.parent.None?
    case _ => true
  }

  predicate WellFormedParams(ps: seq<Param>)
    decreases ParamsSize(ps)
  {
    ps == [] ||
    (WellFormed(ps[0].ty) && (ps[0].isRef || ps[0].ty != Basic(Void, false)) && WellFormedParams(ps[1..]))
  }

  // ----- the round trip -----

  lemma {:induction false} ReadSourceName(name: Id, rest: string)
    ensures ReadNumber(SourceName(name) + rest, 10) == (|name|, name + rest)
    ensures ReadName(SourceName(name) + rest) == Some((name, rest))
    ensures IsDigit(SourceName(name)[0], 10)
  {
    assert SourceName(name) + rest == Digits(|name|, 10) + (name + rest);
    ReadBack(|name|, 10, name + rest);
    assert (name + rest)[..|name|] == name && (name + rest)[|name|..] == rest;
  }

  lemma ReadReferenceText(i: nat, rest: string)
    ensures ReadBackReference((BackReference(i) + rest)[1..]) == Some((i, rest))
  {
    var tl := (BackReference(i) + rest)[1..];
    assert ("_" + rest)[1..] == rest;
    if i == 0 {
      assert tl == "_" + rest;
    } else {
      assert tl == Digits(i - 1, 36) + ("_" + rest);
      ReadBack(i - 1, 36, "_" + rest);
      assert IsDigit(tl[0], 36);
    }
  }

  lemma {:induction false} ReadReference(cs: seq<Component>, c: Component, d: Dict, n: nat, rest: string)
    requires c in cs && Agree(cs, d, n) && (c.TypeComp? ==> Size(c.t) <= n)
    ensures ReadsAs((BackReference(IndexOf(cs, c)), cs), cs, EraseComp(c), d, rest)
  {
    ReadReferenceText(IndexOf(cs, c), rest);
    assert d + Entries([]) == d;
    assert cs[|cs|..] == [];
  }

  lemma {:induction false} ReadSymbol(s: Symbol, cs: seq<Component>, d: Dict, n: nat, rest: string)
    requires s.parent.None? && Agree(cs, d, n)
    ensures ReadsAs(MangleSymbol(s, cs), cs, Named(Path(s)), d, rest)
  {
    if SymComp(s) in cs {
      ReadReference(cs, SymComp(s), d, n, rest);
    } else {
      ReadSourceName(s.name, rest);
      assert (cs + [SymComp(s)])[|cs|..] == [SymComp(s)];
      assert Path(s) == [s.name];
      assert (s.name + rest)[..|s.name|] == s.name && (s.name + rest)[|s.name|..] == rest;
    }
  }

  lemma AgreeExtends(cs: seq<Component>, cs1: seq<Component>, d: Dict, n: nat)
    requires Agree(cs, d, n) && cs <= cs1
    ensures Agree(cs1, d + Entries(cs1[|cs|..]), n)
  {
  }

  lemma {:induction false} AgreeOpen(cs: seq<Component>, t: Ty, d: Dict, m: nat)
    requires Agree(cs, d, Size(t)) && m < Size(t)
    ensures Agree(cs + [TypeComp(t)], d + [None], m)
  {
  }

  lemma EntriesJoin(cs: seq<Component>, cs1: seq<Component>, cs2: seq<Component>)
    requires cs <= cs1 <= cs2
    ensures cs <= cs2
    ensures forall d: Dict :: (d + Entries(cs1[|cs|..])) + Entries(cs2[|cs1|..]) == d + Entries(cs2[|cs|..])
  {
    assert Entries(cs1[|cs|..]) + Entries(cs2[|cs1|..]) == Entries(cs2[|cs|..]);
    forall d: Dict ensures (d + Entries(cs1[|cs|..])) + Entries(cs2[|cs1|..]) == d + Entries(cs2[|cs|..]) {
      assert (d + Entries(cs1[|cs|..])) + Entries(cs2[|cs1|..]) == d + (Entries(cs1[|cs|..]) + Entries(cs2[|cs1|..]));
    }
  }

  /** Filling the reserved entry gives the dictionary extended by the type and by what its operands added. */
  lemma CloseEntry(cs: seq<Component>, t: Ty, cs1: seq<Component>, d: Dict)
    requires cs + [TypeComp(t)] <= cs1 && |cs| == |d|
    ensures (d + [None] + Entries(cs1[|cs| + 1..]))[|d| := Some(EraseComp(TypeComp(t)))] == d + Entries(cs1[|cs|..])
  {
    assert cs1[|cs|] == (cs + [TypeComp(t)])[|cs|];
  }

  /** One type: whatever follows, the reader finds the type, stops where it ends, and its dictionary
      grows by the entries of the components the printer added. */
  lemma {:induction false} RoundTripType(t: Ty, cs: seq<Component>, d: Dict, rest: string)
    requires WellFormed(t) && Agree(cs, d, Size(t))
    ensures ReadsAs(Mangle(t, cs), cs, Erase(t), d, rest)
    decreases Size(t), 0
  {
    match t
    case Struct(sym) => ReadSymbol(sym, cs, d, Size(t), rest);
    case Enum(sym) => ReadSymbol(sym, cs, d, Size(t), rest);
    case Basic(k, isConst) => ReadBasic(k, isConst, cs, d, rest);
    case _ =>
      if TypeComp(t) in cs {
        ReadReference(cs, TypeComp(t), d, Size(t), rest);
      } else {
        RoundTripNew(t, cs, d, rest);
      }
  }

  lemma {:induction false} ReadConst(tl: string, d: Dict)
    requires Read(tl, d).Parsed?
    ensures var r := Read(tl, d); Read("K" + tl, d) == Parsed(Const(r.f), r.rest, r.d)
  {
    assert ("K" + tl)[1..] == tl;
  }

  lemma {:induction false} ReadIndirect(tl: string, d: Dict)
    requires Read(tl, d + [None]).Parsed?
    ensures var r := Read(tl, d + [None]);
      Read("P" + tl, d) == Close(r, |d|, Ptr(r.f)) && Read("R" + tl, d) == Close(r, |d|, Ref(r.f))
  {
    assert ("P" + tl)[1..] == tl && ("R" + tl)[1..] == tl;
  }

  lemma {:induction false} ReadDimensionAndElement(text: string, dim: nat, t: string, d: Dict)
    requires ReadNumber(text, 10) == (dim, t) && t != "" && t[0] == '_' && Read(t[1..], d + [None]).Parsed?
    ensures var r := Read(t[1..], d + [None]); ReadStaticArray(text, d) == Close(r, |d|, Array(dim, r.f))
  {
  }

  lemma {:induction false} ReadArray(text: string, dim: nat, tl: string, d: Dict)
    requires text != "" && text[0] == 'A' && ReadNumber(text[1..], 10) == (dim, "_" + tl)
    requires Read(tl, d + [None]).Parsed?
    ensures var r := Read(tl, d + [None]); Read(text, d) == Close(r, |d|, Array(dim, r.f))
  {
    assert ("_" + tl)[1..] == tl;
    ReadDimensionAndElement(text[1..], dim, "_" + tl, d);
    assert Read(text, d) == ReadStaticArray(text[1..], d);
  }

  lemma {:induction false} ReadDimension(dim: nat, tl: string)
    ensures ReadNumber(("A" + Digits(dim, 10) + "_" + tl)[1..], 10) == (dim, "_" + tl)
  {
    assert ("A" + Digits(dim, 10) + "_" + tl)[1..] == Digits(dim, 10) + ("_" + tl);
    ReadBack(dim, 10, "_" + tl);
  }

  lemma {:induction false} ReadFunction(isC: bool, tl: string, d: Dict, rest: string)
    requires tl != "" && tl[0] != 'Y' && Read(tl, d + [None]).Parsed?
    requires var r := Read(tl, d + [None]);
      var a := ReadArgs(r.rest, r.d, true); a.ParsedArgs? && a.rest == "E" + rest && |d| < |a.d|
    ensures var r := Read(tl, d + [None]);
      var a := ReadArgs(r.rest, r.d, true);
      var f := Fun(isC, r.f, a.fs, a.variadic);
      Read("F" + (if isC then "Y" else "") + tl, d) == Parsed(f, rest, a.d[|d| := Some(f)])
  {
    var text := "F" + (if isC then "Y" else "") + tl;
    assert text[1..] == (if isC then "Y" else "") + tl;
    assert isC ==> text[1..][1..] == tl;
    assert !isC ==> text[1..] == tl;
    assert ("E" + rest)[1..] == rest;
  }

  lemma ReadQualified(u: string, cs: seq<Component>, cs1: seq<Component>, f: Form, d: Dict, rest: string)
    requires ReadsAs((u, cs1), cs, f, d, rest)
    ensures ReadsAs(("K" + u, cs1), cs, Const(f), d, rest)
  {
    ReadConst(u + rest, d);
    assert "K" + u + rest == "K" + (u + rest);
  }

  lemma {:induction false} ReadBasic(k: Kind, isConst: bool, cs: seq<Component>, d: Dict, rest: string)
    requires Agree(cs, d, 1)
    ensures ReadsAs(Mangle(Basic(k, isConst), cs), cs, Erase(Basic(k, isConst)), d, rest)
  {
    var t := Basic(k, isConst);
    var (s, cs1) := Mangle(t, cs);
    var u := if isConst then s[1..] else s;
    assert s == (if isConst then "K" else "") + u;
    ReadUnqualified(k, isConst, cs, d, u, rest);
    if isConst {
      ReadQualified(u, cs, cs1, Unqualified(k), d, rest);
    }
  }

  lemma {:induction false} ReadUnqualified(k: Kind, isConst: bool, cs: seq<Component>, d: Dict, u: string, rest: string)
    requires Agree(cs, d, 1)
    requires Mangle(Basic(k, isConst), cs).0 == (if isConst then "K" else "") + u
    ensures ReadsAs((u, Mangle(Basic(k, isConst), cs).1), cs, Unqualified(k), d, rest)
  {
    var t := Basic(k, isConst);
    var s := Mangle(t, cs).0;
    assert u == if isConst then s[1..] else s;
    match Prefix(k)
    case None =>
      assert u == [Letter(k)];
      ReadLetter(k, d, rest);
      assert d + Entries([]) == d && cs[|cs|..] == [];
    case Some(p) =>
      if TypeComp(t) in cs {
        ReadReference(cs, TypeComp(t), d, 1, rest);
        assert u == BackReference(IndexOf(cs, TypeComp(t)));
      } else {
        assert u == [p] + [Letter(k)];
        ReadLetter(k, d, rest);
        assert (cs + [TypeComp(t)])[|cs|..] == [TypeComp(t)];
        assert Entries([TypeComp(t)]) == [Some(Unqualified(k))];
      }
  }

  lemma {:induction false} ReadLetter(k: Kind, d: Dict, rest: string)
    ensures Prefix(k).None? ==> Read([Letter(k)] + rest, d) == Parsed(Unqualified(k), rest, d)
    ensures Prefix(k).Some? ==>
      Read([Prefix(k).value] + [Letter(k)] + rest, d) == Parsed(Unqualified(k), rest, d + [Some(Unqualified(k))])
  {
    assert ([Letter(k)] + rest)[1..] == rest;
    if Prefix(k).Some? {
      assert ([Prefix(k).value] + [Letter(k)] + rest)[1..] == [Letter(k)] + rest;
    }
  }

  lemma {:induction false} RoundTripNew(t: Ty, cs: seq<Component>, d: Dict, rest: string)
    requires IsComposite(t) && WellFormed(t) && Agree(cs, d, Size(t))
    ensures ReadsAs(MangleNew(t, cs + [TypeComp(t)]), cs, Erase(t), d, rest)
    decreases Size(t), 0, 0
  {
    var cs0 := cs + [TypeComp(t)];
    if t.Func? {
      RoundTripFunc(t, cs, d, rest);
    } else if t.Class? {
      AgreeOpen(cs, t, d, 0);
      ReadSymbol(t.sym, cs0, d + [None], 0, rest);
      Wrap(t, MangleSymbol(t.sym, cs0), cs, Named(Path(t.sym)), d, rest);
    } else if t.Vendor? {
      ReadSourceName(t.deco, rest);
      assert ("u" + SourceName(t.deco) + rest)[1..] == SourceName(t.deco) + rest;
      assert cs0[|cs|..] == [TypeComp(t)];
    } else {
      AgreeOpen(cs, t, d, Size(t.next));
      RoundTripType(t.next, cs0, d + [None], rest);
      Wrap(t, Mangle(t.next, cs0), cs, Erase(t.next), d, rest);
    }
  }

  /** The text and the form of a type with one operand. */
  function Head(t: Ty): string {
    match t
    case SArray(dim, _) => "A" + Digits(dim, 10) + "_"
    case Reference(_) => "R"
    case _ => "P"
  }

  function Around(t: Ty, f: Form): Form {
    match t
    case SArray(dim, _) => Array(dim, f)
    case Reference(_) => Ref(f)
    case _ => Ptr(f)
  }

  lemma {:induction false} Wrap(t: Ty, inner: Printed, cs: seq<Component>, f: Form, d: Dict, rest: string)
    requires t.SArray? || t.Pointer? || t.Reference? || t.Class?
    requires |cs| == |d| && Erase(t) == Around(t, f)
    requires ReadsAs(inner, cs + [TypeComp(t)], f, d + [None], rest)
    ensures ReadsAs((Head(t) + inner.0, inner.1), cs, Erase(t), d, rest)
  {
    var tl := inner.0 + rest;
    assert Head(t) + inner.0 + rest == Head(t) + tl;
    if t.SArray? {
      ReadDimension(t.dim, tl);
      ReadArray(Head(t) + tl, t.dim, tl, d);
    } else {
      ReadIndirect(tl, d);
    }
    CloseEntry(cs, t, inner.1, d);
  }

  lemma {:induction false} RoundTripFunc(t: Ty, cs: seq<Component>, d: Dict, rest: string)
    requires t.Func? && WellFormed(t) && Agree(cs, d, Size(t))
    ensures ReadsAs(MangleNew(t, cs + [TypeComp(t)]), cs, Erase(t), d, rest)
    decreases Size(t), 0, 0, 0
  {
    var cs0 := cs + [TypeComp(t)];
    var (s, cs1) := Mangle(t.next, cs0);
    var (a, cs2) := MangleArgs(t.params, t.variadic, cs1);
    var tail := a + ("E" + rest);
    AgreeOpen(cs, t, d, Size(t) - 1);
    RoundTripType(t.next, cs0, d + [None], tail);
    AgreeExtends(cs0, cs1, d + [None], Size(t) - 1);
    RoundTripArgs(t.params, t.variadic, cs1, d + [None] + Entries(cs1[|cs0|..]), "E" + rest);
    EntriesJoin(cs0, cs1, cs2);
    FirstChar(t.next, cs0);
    assert (s + tail)[0] == s[0];
    ReadFunction(t.isC, s + tail, d, rest);
    JoinText("F" + (if t.isC then "Y" else ""), s, a, rest);
    CloseEntry(cs, t, cs2, d);
  }

  lemma JoinText(head: string, s: string, a: string, rest: string)
    ensures head + s + a + "E" + rest == head + (s + (a + ("E" + rest)))
  {
  }

  /** The text of a type never starts like the end of a parameter list, a calling convention, or,
      unless it is plain void, the empty list. */
  lemma {:induction false} FirstChar(t: Ty, cs: seq<Component>)
    requires WellFormed(t)
    ensures var s := Mangle(t, cs).0; |s| > 0 && s[0] !in "EzY" && (s[0] == 'v' ==> t == Basic(Void, false))
  {
    match t
    case Struct(sym) => ReadSourceName(sym.name, "");
    case Enum(sym) => ReadSourceName(sym.name, "");
    case Basic(k, _) =>
    case _ =>
  }

  predicate Ends(rest: string) {
    rest == "" || rest[0] == 'E'
  }

  lemma {:induction false} RoundTripArgs(ps: seq<Param>, variadic: bool, cs: seq<Component>, d: Dict, rest: string)
    requires WellFormedParams(ps) && Agree(cs, d, ParamsSize(ps)) && Ends(rest)
    ensures var (a, cs1) := MangleArgs(ps, variadic, cs);
      && cs <= cs1
      && ReadArgs(a + rest, d, true) == ParsedArgs(EraseParams(ps), variadic, rest, d + Entries(cs1[|cs|..]))
    decreases ParamsSize(ps), 2
  {
    if ps == [] {
      EmptyArgs(variadic, d, rest);
      assert d + Entries(cs[|cs|..]) == d;
    } else {
      var (s, cs1) := MangleParams(ps, cs);
      var end := if variadic then "z" else "";
      assert s + end + rest == s + (end + rest);
      RoundTripParams(ps, variadic, true, cs, d, rest);
    }
  }

  lemma {:induction false} EmptyArgs(variadic: bool, d: Dict, rest: string)
    requires Ends(rest)
    ensures ReadArgs("" + (if variadic then "z" else "v") + rest, d, true) == ParsedArgs([], variadic, rest, d)
  {
    var text := "" + (if variadic then "z" else "v") + rest;
    assert text[1..] == rest;
  }

  lemma {:induction false} ParamErased(p: Param)
    ensures Erase(ParamType(p)) == EraseParam(p)
  {
  }

  lemma {:induction false} RoundTripParams(
      ps: seq<Param>, variadic: bool, first: bool, cs: seq<Component>, d: Dict, rest: string)
    requires WellFormedParams(ps) && Agree(cs, d, ParamsSize(ps)) && Ends(rest) && (first ==> ps != [])
    ensures var (s, cs1) := MangleParams(ps, cs);
      var tail := (if variadic then "z" else "") + rest;
      && cs <= cs1
      && ReadArgs(s + tail, d, first) == ParsedArgs(EraseParams(ps), variadic, rest, d + Entries(cs1[|cs|..]))
    decreases ParamsSize(ps), 1
  {
    var tail := (if variadic then "z" else "") + rest;
    assert variadic ==> tail[1..] == rest;
    assert !variadic ==> tail == rest;
    if ps == [] {
      assert "" + tail == tail && d + Entries(cs[|cs|..]) == d;
    } else {
      var t := ParamType(ps[0]);
      ParamErased(ps[0]);
      var (s, cs1) := Mangle(t, cs);
      var (r, cs2) := MangleParams(ps[1..], cs1);
      assert s + r + tail == s + (r + tail);
      FirstChar(t, cs);
      assert (s + (r + tail))[0] == s[0];
      RoundTripType(t, cs, d, r + tail);
      AgreeExtends(cs, cs1, d, ParamsSize(ps));
      RoundTripParams(ps[1..], variadic, false, cs1, d + Entries(cs1[|cs|..]), rest);
      EntriesJoin(cs, cs1, cs2);
    }
  }

  // ----- whole symbols -----

  datatype Signature = Signature(path: seq<string>, isConst: bool, params: seq<Form>, variadic: bool)

  /** The names of a nested name, up to its 'E'. */
  function ReadPath(text: string): (r: Option<(seq<string>, string)>)
    decreases |text|
  {
    if text == "" then None
    else if text[0] == 'E' then Some(([], text[1..]))
    else
      var nm := ReadName(text);
      if nm.None? || |nm.value.1| >= |text| then None
      else
        var r := ReadPath(nm.value.1);
        if r.None? then None else Some(([nm.value.0] + r.value.0, r.value.1))
  }

  /** The entries of the scopes of a member function, innermost first. */
  function ScopeEntries(path: seq<string>): (d: Dict) {
    if path == [] then [] else [Some(Named(path))] + ScopeEntries(path[..|path| - 1])
  }

  function Demangle(text: string): Option<Signature> {
    if |text| < 3 || text[..2] != "_Z" then None
    else if text[2] == 'N' then
      ReadMember(text[3..])
    else
      var nm := ReadName(text[2..]);
      if nm.None? then None else Signed([nm.value.0], false, ReadArgs(nm.value.1, [], true))
  }

  /** What follows 'N'. */
  function ReadMember(text: string): Option<Signature> {
    var isConst := text != "" && text[0] == 'K';
    var r := ReadPath(if isConst then text[1..] else text);
    if r.None? || r.value.0 == [] then None
    else
      var path := r.value.0;
      Signed(path, isConst, ReadArgs(r.value.1, ScopeEntries(path[..|path| - 1]), true))
  }

  function Signed(path: seq<string>, isConst: bool, a: ParsedArgs): Option<Signature> {
    if a.ParsedArgs? && a.rest == "" then Some(Signature(path, isConst, a.fs, a.variadic)) else None
  }

  function Depth(s: Symbol): nat {
    match s.parent case None => 0 case Some(p) => 1 + Depth(p)
  }

  function ScopeComponents(s: Symbol): seq<Component> {
    [SymComp(s)] + (match s.parent case None => [] case Some(p) => ScopeComponents(p))
  }

  function PathText(path: seq<string>): string {
    if path == [] then "" else PathText(path[..|path| - 1]) + (Digits(|path[|path| - 1]|, 10) + path[|path| - 1])
  }

  lemma {:induction false} PathTextSnoc(front: seq<string>, name: Id)
    ensures PathText(front + [name]) == PathText(front) + SourceName(name)
    ensures front == [] ==> PathText(front + [name]) == SourceName(name)
  {
    assert (front + [name])[..|front|] == front;
  }

  lemma {:induction false} PathTextOf(s: Symbol)
    ensures s.parent.None? ==> PathText(Path(s)) == SourceName(s.name)
    ensures s.parent.Some? ==> PathText(Path(s)) == PathText(Path(s.parent.value)) + SourceName(s.name)
  {
    PathTextSnoc(if s.parent.Some? then Path(s.parent.value) else [], s.name);
  }

  /** With no scope of `s` in the dictionary yet, its whole path is written. */
  lemma {:induction false} PrefixIsPath(s: Symbol, cs: seq<Component>)
    requires AllDeeper(cs, Depth(s))
    ensures PrefixName(s, cs) == (PathText(Path(s)), cs + ScopeComponents(s))
  {
    PathTextOf(s);
    match s.parent
    case None =>
      OutermostScope(s, cs);
    case Some(p) =>
      NotYet(s, p, cs);
      PrefixIsPath(p, cs + [SymComp(s)]);
      AppendScope(cs, s, p);
  }

  lemma {:induction false} OutermostScope(s: Symbol, cs: seq<Component>)
    requires s.parent.None? && AllDeeper(cs, Depth(s))
    ensures PrefixName(s, cs) == (SourceName(s.name), cs + ScopeComponents(s))
  {
    assert ScopeComponents(s) == [SymComp(s)];
  }

  lemma {:induction false} NotYet(s: Symbol, p: Symbol, cs: seq<Component>)
    requires AllDeeper(cs, Depth(s)) && s.parent == Some(p)
    ensures AllDeeper(cs + [SymComp(s)], Depth(p))
    ensures var r := PrefixName(p, cs + [SymComp(s)]); PrefixName(s, cs) == (r.0 + SourceName(s.name), r.1)
  {
    assert Depth(s) == 1 + Depth(p);
  }

  predicate AllDeeper(cs: seq<Component>, n: nat) {
    forall i :: 0 <= i < |cs| ==> cs[i].SymComp? && Depth(cs[i].s) > n
  }

  lemma {:induction false} AppendScope(cs: seq<Component>, s: Symbol, p: Symbol)
    requires s.parent == Some(p)
    ensures cs + [SymComp(s)] + ScopeComponents(p) == cs + ScopeComponents(s)
  {
  }

  lemma {:induction false} EntriesOfScopes(s: Symbol)
    ensures Entries(ScopeComponents(s)) == ScopeEntries(Path(s))
  {
    match s.parent
    case None =>
      assert Path(s) == [s.name];
    case Some(p) =>
      EntriesOfScopes(p);
      assert Path(s)[..|Path(s)| - 1] == Path(p);
      assert Entries(ScopeComponents(s)) == [Some(Named(Path(s)))] + Entries(ScopeComponents(p));
  }

  predicate AreIds(path: seq<string>) {
    forall i :: 0 <= i < |path| ==> |path[i]| > 0 && !IsDigit(path[i][0], 10)
  }

  lemma {:induction false} PathHasIds(s: Symbol)
    ensures AreIds(Path(s))
  {
    if s.parent.Some? {
      PathHasIds(s.parent.value);
    }
  }

  lemma {:induction false} ReadPathStep(name: Id, tl: string, more: seq<string>, rest: string)
    requires ReadPath(tl) == Some((more, rest))
    ensures ReadPath(SourceName(name) + tl) == Some(([name] + more, rest))
  {
    ReadSourceName(name, tl);
    var text := SourceName(name) + tl;
    assert text[0] == SourceName(name)[0];
    assert ReadName(text) == Some((name, tl));
  }

  lemma {:induction false} ReadPathText(path: seq<string>, more: seq<string>, tl: string, rest: string)
    requires AreIds(path) && ReadPath(tl) == Some((more, rest))
    ensures ReadPath(PathText(path) + tl) == Some((path + more, rest))
    decreases |path|
  {
    if path == [] {
      assert PathText(path) + tl == tl && path + more == more;
    } else {
      var front, name: Id := path[..|path| - 1], path[|path| - 1];
      ReadPathStep(name, tl, more, rest);
      ReadPathText(front, [name] + more, SourceName(name) + tl, rest);
      Append2(PathText(front), SourceName(name), tl);
      Append2(front, [name], more);
      assert path == front + [name];
    }
  }

  lemma {:induction false} ReadTopLevel(name: Id, a: string)
    ensures Demangle("_Z" + SourceName(name) + a) == Signed([name], false, ReadArgs(a, [], true))
  {
    var text := "_Z" + SourceName(name) + a;
    assert text[..2] == "_Z" && text[2..] == SourceName(name) + a;
    assert text[2] == SourceName(name)[0];
    ReadSourceName(name, a);
  }

  lemma ReadNested(path: seq<string>, isConst: bool, a: string)
    requires AreIds(path) && path != []
    ensures Demangle("_Z" + ("N" + (if isConst then "K" else "") + PathText(path) + "E") + a) ==
      Signed(path, isConst, ReadArgs(a, ScopeEntries(path[..|path| - 1]), true))
  {
    var k, body := if isConst then "K" else "", PathText(path) + ("E" + a);
    NestedText(k, PathText(path), a);
    assert ("E" + a)[1..] == a;
    ReadPathText(path, [], "E" + a, a);
    assert path + [] == path;
    FirstOfPath(path);
    assert body[0] == PathText(path)[0];
    assert isConst ==> (k + body)[1..] == body;
    assert !isConst ==> k + body == body;
  }

  lemma NestedText(k: string, t: string, a: string)
    ensures var text := "_Z" + ("N" + k + t + "E") + a;
      text[..2] == "_Z" && text[2] == 'N' && text[3..] == k + (t + ("E" + a))
  {
  }

  /** The mangled name of a function gives back its path, its parameters as the printer tells types
      apart, and whether it is variadic. */
  lemma {:induction false} RoundTrip(s: Symbol, isConst: bool, ps: seq<Param>, variadic: bool)
    requires WellFormedParams(ps)
    ensures Demangle(MangleFunction(s, isConst, ps, variadic)) ==
      Some(Signature(Path(s), isConst && s.parent.Some?, EraseParams(ps), variadic))
  {
    if s.parent.None? {
      RoundTripTopLevel(s, isConst, ps, variadic);
    } else {
      RoundTripMember(s, s.parent.value, isConst, ps, variadic);
    }
  }

  lemma {:induction false} RoundTripTopLevel(s: Symbol, isConst: bool, ps: seq<Param>, variadic: bool)
    requires s.parent.None? && WellFormedParams(ps)
    ensures Demangle(MangleFunction(s, isConst, ps, variadic)) ==
      Some(Signature(Path(s), false, EraseParams(ps), variadic))
  {
    var a := MangleArgs(ps, variadic, []).0;
    assert a + "" == a;
    assert Path(s) == [s.name];
    ReadTopLevel(s.name, a);
    RoundTripArgs(ps, variadic, [], [], "");
  }

  lemma {:induction false} RoundTripMember(s: Symbol, p: Symbol, isConst: bool, ps: seq<Param>, variadic: bool)
    requires s.parent == Some(p) && WellFormedParams(ps)
    ensures Demangle(MangleFunction(s, isConst, ps, variadic)) ==
      Some(Signature(Path(s), isConst, EraseParams(ps), variadic))
  {
    MemberName(s, p, isConst);
    MemberParams(p, ps, variadic);
    PathHasIds(s);
    ReadNested(Path(s), isConst, MangleArgs(ps, variadic, ScopeComponents(p)).0);
    ParentPath(s, p);
  }

  lemma {:induction false} ParentPath(s: Symbol, p: Symbol)
    requires s.parent == Some(p)
    ensures Path(s)[..|Path(s)| - 1] == Path(p)
  {
  }

  lemma {:induction false} MemberParams(p: Symbol, ps: seq<Param>, variadic: bool)
    requires WellFormedParams(ps)
    ensures var r := ReadArgs(MangleArgs(ps, variadic, ScopeComponents(p)).0, ScopeEntries(Path(p)), true);
      r.ParsedArgs? && r.fs == EraseParams(ps) && r.variadic == variadic && r.rest == ""
  {
    var a := MangleArgs(ps, variadic, ScopeComponents(p)).0;
    EntriesOfScopes(p);
    assert a + "" == a;
    RoundTripArgs(ps, variadic, ScopeComponents(p), ScopeEntries(Path(p)), "");
  }

  lemma {:induction false} MemberName(s: Symbol, p: Symbol, isConst: bool)
    requires s.parent == Some(p)
    ensures MangleName(s, isConst, []) ==
      ("N" + (if isConst then "K" else "") + PathText(Path(s)) + "E", ScopeComponents(p))
  {
    PrefixIsPath(p, []);
    assert [] + ScopeComponents(p) == ScopeComponents(p);
    PathTextOf(s);
    MemberText(if isConst then "K" else "", PathText(Path(p)), SourceName(s.name));
  }

  lemma MemberText(k: string, t: string, n: string)
    ensures "N" + k + t + n + "E" == "N" + k + (t + n) + "E"
  {
  }

  lemma {:induction false} FirstOfPath(path: seq<string>)
    requires path != []
    ensures |PathText(path)| > 0 && IsDigit(PathText(path)[0], 10)
    decreases |path|
  {
    if |path| > 1 {
      FirstOfPath(path[..|path| - 1]);
    }
  }

  /** Functions that mangle alike have the same path, both or neither are const member functions, and
      they have the same parameters, up to the printer's identifications. */
  lemma {:induction false} MangledNamesDistinguish(
      s: Symbol, kc: bool, ps: seq<Param>, sv: bool, t: Symbol, kd: bool, qs: seq<Param>, tv: bool)
    requires WellFormedParams(ps) && WellFormedParams(qs)
    requires MangleFunction(s, kc, ps, sv) == MangleFunction(t, kd, qs, tv)
    ensures Path(s) == Path(t) && (kc && s.parent.Some? <==> kd && t.parent.Some?)
    ensures EraseParams(ps) == EraseParams(qs) && sv == tv
  {
    RoundTrip(s, kc, ps, sv);
    RoundTrip(t, kd, qs, tv);
  }
}
