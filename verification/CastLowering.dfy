/** e2ir.c: the integral part of `CastExp::toElem`, which turns a cast into one or more conversions of
    the back end. */
module CastLowering {

  import opened Root

  datatype TY =
    | Tbool | Tint8 | Tuns8 | Tint16 | Tuns16 | Tint32 | Tuns32 | Tint64 | Tuns64
    | Tchar | Twchar | Tdchar | Tpointer

  /** 2 to the width of a type in bits; `i64` when generating 64 bit code. */
  function Modulus(ty: TY, i64: bool): (m: nat)
    ensures m > 0
  {
    match ty
    case Tbool => 0x100 case Tint8 => 0x100 case Tuns8 => 0x100 case Tchar => 0x100
    case Tint16 => 0x1_0000 case Tuns16 => 0x1_0000 case Twchar => 0x1_0000
    case Tint32 => 0x1_0000_0000 case Tuns32 => 0x1_0000_0000 case Tdchar => 0x1_0000_0000
    case Tint64 => 0x1_0000_0000_0000_0000 case Tuns64 => 0x1_0000_0000_0000_0000
    case Tpointer => if i64 then 0x1_0000_0000_0000_0000 else 0x1_0000_0000
  }

  predicate IsSigned(ty: TY) {
    ty == Tint8 || ty == Tint16 || ty == Tint32 || ty == Tint64
  }

  /** The number a bit pattern stands for. */
  function Meaning(ty: TY, i64: bool, bits: nat): int {
    if IsSigned(ty) then Signed(bits, Modulus(ty, i64)) else bits
  }

  /** What D asks of a cast: the value of the source modulo the width of the target, or for bool
      whether it is non-zero; reading the result as the target type is `Meaning`. */
  function CastResult(from: TY, to: TY, i64: bool, bits: nat): nat {
    if to == Tbool && from != Tbool then (if bits != 0 then 1 else 0)
    else Meaning(from, i64, bits) % Modulus(to, i64)
  }

  // ----- the back end's conversions -----

  datatype Op = OPs8_16 | OPu8_16 | OP16_8 | OPs16_32 | OPu16_32 | OP32_16 | OPs32_64 | OPu32_64 | OP64_32 | OPbool

  /** One conversion and the type of its result. */
  datatype Conv = Conv(op: Op, ty: TY)

  /** Sign or zero extension of the operand to the result, truncation, or the test for non-zero. */
  function Apply(c: Conv, i64: bool, bits: nat): nat {
    Convert(c.op, Modulus(c.ty, i64), bits)
  }

  /** Reads a bit pattern of the given modulus as a signed number. */
  function Signed(bits: nat, modulus: nat): int {
    if 2 * bits >= modulus then bits - modulus else bits
  }

  function Convert(op: Op, modulus: nat, bits: nat): nat
    requires modulus > 0
  {
    match op
    case OPs8_16 => Signed(bits, 0x100) % modulus
    case OPs16_32 => Signed(bits, 0x1_0000) % modulus
    case OPs32_64 => Signed(bits, 0x1_0000_0000) % modulus
    case OPu8_16 => bits
    case OPu16_32 => bits
    case OPu32_64 => bits
    case OP16_8 => bits % 0x100
    case OP32_16 => bits % 0x1_0000
    case OP64_32 => bits % 0x1_0000_0000
    case OPbool => if bits != 0 then 1 else 0
  }

  function ApplyAll(cs: seq<Conv>, i64: bool, bits: nat): nat {
    if cs == [] then bits else ApplyAll(cs[1..], i64, Apply(cs[0], i64, bits))
  }

  // ----- the lowering -----

  /** The rewriting of source and target types that are the same as far as casts go. */
  function Generic(ty: TY, i64: bool): TY {
    match ty
    case Tpointer => if i64 then Tuns64 else Tuns32
    case Tchar => Tuns8
    case Twchar => Tuns16
    case Tdchar => Tuns32
    case _ => ty
  }

  predicate IsGeneric(ty: TY) {
    ty != Tpointer && ty != Tchar && ty != Twchar && ty != Tdchar
  }

  /** One row of the table: convert and look again, convert to the target, or repaint. */
  datatype Row = Again(op: Op, ty: TY) | Last(op: Op) | Paint

  function Table(fty: TY, tty: TY): Row
    requires IsGeneric(fty) && IsGeneric(tty) && tty != Tbool
  {
    if fty == tty then Paint
    else
      match fty
      case Tbool =>
        (match tty
         case Tint8 => Paint case Tuns8 => Paint
         case Tint64 => Again(OPu8_16, Tuns32) case Tuns64 => Again(OPu8_16, Tuns32)
         case _ => Last(OPu8_16))
      case Tint8 =>
        (match tty
         case Tuns8 => Paint
         case Tint64 => Again(OPs8_16, Tint32) case Tuns64 => Again(OPs8_16, Tint32)
         case _ => Last(OPs8_16))
      case Tuns8 =>
        (match tty
         case Tint8 => Paint
         case Tint64 => Again(OPu8_16, Tuns32) case Tuns64 => Again(OPu8_16, Tuns32)
         case _ => Last(OPu8_16))
      case Tint16 =>
        (match tty
         case Tint8 => Last(OP16_8) case Tuns8 => Last(OP16_8)
         case Tuns16 => Paint
         case Tint64 => Again(OPs16_32, Tint32) case Tuns64 => Again(OPs16_32, Tint32)
         case _ => Last(OPs16_32))
      case Tuns16 =>
        (match tty
         case Tint8 => Last(OP16_8) case Tuns8 => Last(OP16_8)
         case Tint16 => Paint
         case Tint64 => Again(OPu16_32, Tuns32) case Tuns64 => Again(OPu16_32, Tuns32)
         case _ => Last(OPu16_32))
      case Tint32 =>
        (match tty
         case Tint8 => Again(OP32_16, Tint16) case Tuns8 => Again(OP32_16, Tint16)
         case Tint16 => Last(OP32_16) case Tuns16 => Last(OP32_16)
         case Tuns32 => Paint
         case _ => Last(OPs32_64))
      case Tuns32 =>
        (match tty
         case Tint8 => Again(OP32_16, Tuns16) case Tuns8 => Again(OP32_16, Tuns16)
         case Tint16 => Last(OP32_16) case Tuns16 => Last(OP32_16)
         case Tint32 => Paint
         case _ => Last(OPu32_64))
      case Tint64 =>
        (match tty
         case Tint32 => Last(OP64_32) case Tuns32 => Last(OP64_32)
         case Tuns64 => Paint
         case _ => Again(OP64_32, Tint32))
      case _ =>
        (match tty
         case Tint32 => Last(OP64_32) case Tuns32 => Last(OP64_32)
         case Tint64 => Paint
         case _ => Again(OP64_32, Tint32))
  }

  function Log(ty: TY): nat {
    match ty
    case Tint16 => 1 case Tuns16 => 1 case Twchar => 1
    case Tint32 => 2 case Tuns32 => 2 case Tdchar => 2
    case Tint64 => 3 case Tuns64 => 3
    case _ => 0
  }

  /** How far the widths are apart: every further round brings them closer. */
  function Distance(fty: TY, tty: TY): nat {
    if Log(fty) > Log(tty) then Log(fty) - Log(tty) else Log(tty) - Log(fty)
  }

  function Lower(fty: TY, tty: TY, t: TY): seq<Conv>
    requires IsGeneric(fty) && IsGeneric(tty) && tty != Tbool
    decreases Distance(fty, tty)
  {
    match Table(fty, tty)
    case Paint => []
    case Last(op) => [Conv(op, t)]
    case Again(op, ty) => [Conv(op, ty)] + Lower(ty, tty, t)
  }

  /** The conversions for a cast between integral types. */
  function LowerCast(from: TY, to: TY, i64: bool): seq<Conv> {
    if from == to then []
    else if to == Tbool then [Conv(OPbool, to)]
    else Lower(Generic(from, i64), Generic(to, i64), to)
  }

  /** The same in the form of the source: `e` grows while `fty` is replaced (label Lagain). */
  method CastToElem(from: TY, t: TY, i64: bool) returns (e: seq<Conv>)
    ensures e == LowerCast(from, t, i64)
  {
    e := [];
    if from == t {
      return;
    }
    if t == Tbool {
      e := e + [Conv(OPbool, t)];
      return;
    }
    var fty, tty := Generic(from, i64), Generic(t, i64);
    GenericWidth(from, i64, 0);
    GenericWidth(t, i64, 0);
    while true
      invariant IsGeneric(fty) && IsGeneric(tty) && tty != Tbool
      invariant e + Lower(fty, tty, t) == LowerCast(from, t, i64)
      decreases Distance(fty, tty)
    {
      match Table(fty, tty) {
        case Paint =>
          return;
        case Last(op) =>
          e := e + [Conv(op, t)];
          return;
        case Again(op, ty) =>
          RowAgain(fty, tty, i64, 0);
          Append2(e, [Conv(op, ty)], Lower(ty, tty, t));
          e := e + [Conv(op, ty)];
          fty := ty;
      }
    }
  }

  // ----- correctness -----

  /** One conversion to `ty` on the way from `fty` keeps the value modulo the width of the target. */
  predicate Keeps(fty: TY, op: Op, ty: TY, tty: TY, i64: bool, bits: nat) {
    var r := Apply(Conv(op, ty), i64, bits);
    r < Modulus(ty, i64) && Meaning(ty, i64, r) % Modulus(tty, i64) == Meaning(fty, i64, bits) % Modulus(tty, i64)
  }

  lemma ModMod(x: int)
    ensures (x % 0x1_0000) % 0x100 == x % 0x100 && (x % 0x1_0000_0000) % 0x100 == x % 0x100
    ensures (x % 0x1_0000_0000) % 0x1_0000 == x % 0x1_0000
  {
    var q, r := x / 0x1_0000_0000, x % 0x1_0000_0000;
    assert x == 0x1_0000 * (0x1_0000 * q + r / 0x1_0000) + r % 0x1_0000;
    assert x == 0x100 * (0x100_0000 * q + r / 0x100) + r % 0x100;
    var p, s := x / 0x1_0000, x % 0x1_0000;
    assert x == 0x100 * (0x100 * p + s / 0x100) + s % 0x100;
  }

  lemma ShiftMod(x: int)
    ensures (x - 0x1_0000) % 0x100 == x % 0x100
    ensures (x - 0x1_0000_0000) % 0x100 == x % 0x100 && (x - 0x1_0000_0000) % 0x1_0000 == x % 0x1_0000
    ensures (x - 0x1_0000_0000_0000_0000) % 0x100 == x % 0x100
    ensures (x - 0x1_0000_0000_0000_0000) % 0x1_0000 == x % 0x1_0000
    ensures (x - 0x1_0000_0000_0000_0000) % 0x1_0000_0000 == x % 0x1_0000_0000
  {
  }

  /** Reading a pattern as signed or not makes no difference modulo a narrower width. */
  lemma MeaningMod(fty: TY, tty: TY, i64: bool, bits: nat)
    requires Log(fty) > Log(tty) && IsGeneric(fty) && IsGeneric(tty) && tty != Tbool
    ensures Meaning(fty, i64, bits) % Modulus(tty, i64) == bits % Modulus(tty, i64)
  {
    ShiftMod(bits);
  }

  lemma NarrowKeeps(fty: TY, tty: TY, i64: bool, bits: nat)
    requires Log(fty) > Log(tty) && IsGeneric(fty) && IsGeneric(tty) && tty != Tbool && bits < Modulus(fty, i64)
    requires Table(fty, tty).Again?
    ensures Keeps(fty, Table(fty, tty).op, Table(fty, tty).ty, tty, i64, bits)
  {
    var ty := Table(fty, tty).ty;
    var r := Apply(Conv(Table(fty, tty).op, ty), i64, bits);
    assert r == bits % Modulus(ty, i64) && Log(ty) > Log(tty);
    MeaningMod(fty, tty, i64, bits);
    MeaningMod(ty, tty, i64, r);
    ModMod(bits);
  }

  lemma SignExtend(bits: nat, half: nat)
    requires 0 < half <= 0x8000 && bits < 2 * half
    ensures Signed(Signed(bits, 2 * half) % 0x1_0000_0000, 0x1_0000_0000) == Signed(bits, 2 * half)
    ensures Signed(bits, 2 * half) % 0x1_0000_0000 < 0x1_0000_0000
  {
    if bits >= half {
      assert (bits - 2 * half) % 0x1_0000_0000 == bits - 2 * half + 0x1_0000_0000;
    }
  }

  lemma WidenKeeps(fty: TY, tty: TY, i64: bool, bits: nat)
    requires Log(fty) < Log(tty) && IsGeneric(fty) && IsGeneric(tty) && bits < Modulus(fty, i64)
    requires Table(fty, tty).Again?
    ensures Keeps(fty, Table(fty, tty).op, Table(fty, tty).ty, tty, i64, bits)
  {
    var ty := Table(fty, tty).ty;
    var r := Apply(Conv(Table(fty, tty).op, ty), i64, bits);
    assert r < Modulus(ty, i64) && Meaning(ty, i64, r) == Meaning(fty, i64, bits) by {
      if fty == Tint8 {
        SignExtend(bits, 0x80);
      } else if fty == Tint16 {
        SignExtend(bits, 0x8000);
      } else {
        assert r == bits && !IsSigned(ty);
      }
    }
  }

  lemma LastKeeps(fty: TY, tty: TY, i64: bool, bits: nat)
    requires IsGeneric(fty) && IsGeneric(tty) && tty != Tbool && bits < Modulus(fty, i64) && Table(fty, tty).Last?
    ensures Convert(Table(fty, tty).op, Modulus(tty, i64), bits) == Meaning(fty, i64, bits) % Modulus(tty, i64)
  {
    if Log(fty) > Log(tty) {
      ShiftMod(bits);
    }
  }

  lemma PaintKeeps(fty: TY, tty: TY, i64: bool, bits: nat)
    requires IsGeneric(fty) && IsGeneric(tty) && tty != Tbool && bits < Modulus(fty, i64) && Table(fty, tty).Paint?
    ensures Modulus(fty, i64) == Modulus(tty, i64) && bits == Meaning(fty, i64, bits) % Modulus(tty, i64)
  {
  }

  lemma RowAgain(fty: TY, tty: TY, i64: bool, bits: nat)
    requires IsGeneric(fty) && IsGeneric(tty) && tty != Tbool && bits < Modulus(fty, i64) && Table(fty, tty).Again?
    ensures var op, ty := Table(fty, tty).op, Table(fty, tty).ty;
      IsGeneric(ty) && Distance(ty, tty) < Distance(fty, tty) && Keeps(fty, op, ty, tty, i64, bits)
  {
    if Log(fty) > Log(tty) {
      NarrowKeeps(fty, tty, i64, bits);
    } else {
      WidenKeeps(fty, tty, i64, bits);
    }
  }

  lemma {:induction false} LowerCorrect(fty: TY, tty: TY, t: TY, i64: bool, bits: nat)
    requires IsGeneric(fty) && IsGeneric(tty) && tty != Tbool && bits < Modulus(fty, i64)
    requires Modulus(t, i64) == Modulus(tty, i64)
    ensures ApplyAll(Lower(fty, tty, t), i64, bits) == Meaning(fty, i64, bits) % Modulus(tty, i64)
    decreases Distance(fty, tty)
  {
    match Table(fty, tty)
    case Paint =>
      PaintKeeps(fty, tty, i64, bits);
    case Last(op) =>
      LastKeeps(fty, tty, i64, bits);
      ApplyOne(Conv(op, t), i64, bits);
    case Again(op, ty) =>
      RowAgain(fty, tty, i64, bits);
      LowerCorrect(ty, tty, t, i64, Apply(Conv(op, ty), i64, bits));
      assert ([Conv(op, ty)] + Lower(ty, tty, t))[1..] == Lower(ty, tty, t);
  }

  lemma {:induction false} ApplyOne(c: Conv, i64: bool, bits: nat)
    ensures ApplyAll([c], i64, bits) == Apply(c, i64, bits)
  {
    assert [c][1..] == [];
  }

  lemma GenericWidth(ty: TY, i64: bool, bits: nat)
    ensures Modulus(Generic(ty, i64), i64) == Modulus(ty, i64) &&
      Meaning(Generic(ty, i64), i64, bits) == Meaning(ty, i64, bits)
    ensures IsGeneric(Generic(ty, i64)) && (ty != Tbool ==> Generic(ty, i64) != Tbool)
  {
  }

  /** For all integral types and every value, the emitted conversions compute the cast. */
  lemma {:induction false} CastIsRight(from: TY, to: TY, i64: bool, bits: nat)
    requires bits < Modulus(from, i64)
    ensures ApplyAll(LowerCast(from, to, i64), i64, bits) == CastResult(from, to, i64, bits)
  {
    GenericWidth(from, i64, bits);
    GenericWidth(to, i64, bits);
    if from == to {
      assert ApplyAll([], i64, bits) == bits;
    } else if to != Tbool {
      LowerCorrect(Generic(from, i64), Generic(to, i64), to, i64, bits);
    }
  }
}
