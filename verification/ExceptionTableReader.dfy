/** The runtime's view of an exception table: a reader that recovers the try blocks from the bytes, and
    the nesting of the ranges it reads. */
module ExceptionTableReader {
  import opened Wrappers
  import opened ExceptionTable

  datatype Catch = Catch(ty: nat, bpoffset: nat, handler: int)

  datatype Guard =
    | Gap
    | Catching(start: nat, end: nat, parent: int, catches: seq<Catch>)
    | Finally(start: nat, end: nat, parent: int, handler: int)

  // ----- the reader -----

  function ReadNat(out: seq<Cell>, at: nat, n: nat): nat {
    if at + n <= |out| then FromBytes(out[at..at + n]) else 0
  }

  function ReadInt(out: seq<Cell>, at: nat): int {
    var v := ReadNat(out, at, 4);
    if v >= WORD / 2 then v - WORD else v
  }

  function ReadAddress(out: seq<Cell>, at: nat): Option<(Sym, int)> {
    if at < |out| && out[at].Address? then Some((out[at].sym, out[at].offset)) else None
  }

  /** The pointer to the function, then two ints, then the number of guards. */
  datatype Header = Header(start: Option<(Sym, int)>, spoff: int, retoffset: int)

  function ReadHeader(out: seq<Cell>, ptr: Ptr): Header {
    Header(ReadAddress(out, 0), ReadInt(out, ptr), ReadInt(out, ptr + 4))
  }

  function ReadDim(out: seq<Cell>, ptr: Ptr): nat {
    ReadNat(out, ptr + 8, ptr)
  }

  function ReadCatch(out: seq<Cell>, ptr: Ptr, at: nat): Catch {
    var ty, handler := ReadAddress(out, at), ReadAddress(out, at + 2 * ptr);
    Catch(if ty.Some? && ty.value.0.TypeInfo? then ty.value.0.id else 0,
          ReadNat(out, at + ptr, ptr),
          if handler.Some? then handler.value.1 else 0)
  }

  function ReadCatches(out: seq<Cell>, ptr: Ptr, at: nat): seq<Catch> {
    seq(ReadNat(out, at, ptr), c requires c >= 0 => ReadCatch(out, ptr, at + ptr + EntrySizes(ptr, c)))
  }

  function ReadGuard(out: seq<Cell>, ptr: Ptr, i: nat): Guard {
    var at := GuardPosition(ptr, i);
    var start, end, parent := ReadNat(out, at, 4), ReadNat(out, at + 4, 4), ReadInt(out, at + 8);
    var catchoffset, handler := ReadNat(out, at + 12, 4), ReadAddress(out, at + 16);
    if catchoffset != 0 then Catching(start, end, parent, ReadCatches(out, ptr, catchoffset))
    else if handler.Some? then Finally(start, end, parent, handler.value.1)
    else Gap
  }

  // ----- what it should find -----

  /** Offset of a block from the start of the function. */
  function FromStart(blocks: seq<Block>, p: nat): int
    requires p < |blocks|
  {
    blocks[p].offset - blocks[0].offset
  }

  predicate FitsInt(v: int) {
    -WORD / 2 <= v < WORD / 2
  }

  function CatchOf(blocks: seq<Block>, ptr: Ptr, bpoffset: int, c: nat): Catch
    requires c < |blocks|
  {
    var range := if ptr == 8 then 0x1_0000_0000_0000_0000 else 0x1_0000_0000;
    Catch(blocks[c].catchType, bpoffset % range, FromStart(blocks, c))
  }

  function GuardOf(blocks: seq<Block>, ptr: Ptr, p: nat): Guard
    requires p < |blocks| && TryFits(blocks, p) && FromStart(blocks, p) >= 0
    requires FromStart(blocks, EndBlock(blocks, p, p + 1).value) >= 0
  {
    var b := blocks[p];
    var start, end := FromStart(blocks, p), FromStart(blocks, EndBlock(blocks, p, p + 1).value);
    match b.jcatchvar
    case None => Finally(start, end, b.lastIndex, FromStart(blocks, blocks[b.succ[1]].succ[0]))
    case Some(bp) => Catching(start, end, b.lastIndex, CatchesOf(blocks, ptr, bp, b.succ[1..]))
  }

  /** The values fit the 32-bit fields they are stored in. */
  predicate Sized(blocks: seq<Block>, ptr: Ptr) {
    && CatchPosition(blocks, ptr, |blocks|) < WORD
    && forall p :: 0 <= p < |blocks| ==>
         0 <= FromStart(blocks, p) < WORD && FitsInt(blocks[p].lastIndex)
  }

  // ----- reading one part -----

  lemma AtParts(out: seq<Cell>, at: nat, a: seq<Cell>, b: seq<Cell>)
    requires At(out, at, a + b)
    ensures At(out, at, a) && At(out, at + |a|, b)
  {
    assert (a + b)[..|a|] == a && (a + b)[|a|..] == b;
    var all := out[at..at + |a + b|];
    assert out[at..at + |a|] == all[..|a|];
    assert out[at + |a|..at + |a| + |b|] == all[|a|..];
  }

  lemma Powers()
    ensures Pow256(4) == WORD && Pow256(8) == 0x1_0000_0000_0000_0000
  {
    assert Pow256(1) == 0x100 && Pow256(2) == 0x1_0000 && Pow256(3) == 0x100_0000 && Pow256(4) == WORD;
    assert Pow256(5) == WORD * 0x100 && Pow256(6) == WORD * 0x1_0000 && Pow256(7) == WORD * 0x100_0000;
  }

  lemma ReadDword(out: seq<Cell>, at: nat, v: int)
    requires At(out, at, Dword(v))
    ensures ReadNat(out, at, 4) == v % WORD
    ensures -WORD / 2 <= v < WORD / 2 ==> ReadInt(out, at) == v
  {
    Powers();
    BytesRoundTrip(v % WORD, 4);
  }

  lemma ReadSizeT(out: seq<Cell>, at: nat, v: int, ptr: Ptr)
    requires At(out, at, SizeT(v, ptr))
    ensures ReadNat(out, at, ptr) == Stored(v, ptr)
    ensures 0 <= v < WORD ==> ReadNat(out, at, ptr) == v
  {
    Powers();
    BytesRoundTrip(Stored(v, ptr), ptr);
  }

  lemma ReadXoff(out: seq<Cell>, at: nat, sym: Sym, offset: int, ptr: Ptr)
    requires At(out, at, Xoff(sym, offset, ptr))
    ensures ReadAddress(out, at) == Some((sym, offset))
  {
    assert out[at] == out[at..at + ptr][0] == Xoff(sym, offset, ptr)[0];
  }

  lemma ReadEntry(out: seq<Cell>, at: nat, blocks: seq<Block>, ptr: Ptr, bpoffset: int, c: nat)
    requires c < |blocks| && At(out, at, CatchEntry(blocks, ptr, bpoffset, c))
    ensures ReadCatch(out, ptr, at) == CatchOf(blocks, ptr, bpoffset, c)
  {
    var t, s := Xoff(TypeInfo(blocks[c].catchType), 0, ptr), SizeT(bpoffset, ptr);
    var h := Xoff(Function, Offset(blocks, c), ptr);
    AtParts(out, at, t + s, h);
    AtParts(out, at, t, s);
    ReadXoff(out, at, TypeInfo(blocks[c].catchType), 0, ptr);
    ReadSizeT(out, at + ptr, bpoffset, ptr);
    ReadXoff(out, at + 2 * ptr, Function, Offset(blocks, c), ptr);
  }

  lemma {:induction false} EntryAt(
      out: seq<Cell>, at: nat, blocks: seq<Block>, ptr: Ptr, bpoffset: int, cs: seq<nat>, i: nat)
    requires i < |cs| && forall j :: 0 <= j < |cs| ==> cs[j] < |blocks|
    requires At(out, at, CatchEntries(blocks, ptr, bpoffset, cs))
    ensures At(out, at + EntrySizes(ptr, i), CatchEntry(blocks, ptr, bpoffset, cs[i]))
    decreases |cs|
  {
    var front, last := cs[..|cs| - 1], cs[|cs| - 1];
    AtParts(out, at, CatchEntries(blocks, ptr, bpoffset, front), CatchEntry(blocks, ptr, bpoffset, last));
    if i < |front| {
      EntryAt(out, at, blocks, ptr, bpoffset, front, i);
    }
  }

  function CatchesOf(blocks: seq<Block>, ptr: Ptr, bpoffset: int, cs: seq<nat>): seq<Catch>
    requires forall j :: 0 <= j < |cs| ==> cs[j] < |blocks|
  {
    seq(|cs|, i requires 0 <= i < |cs| => CatchOf(blocks, ptr, bpoffset, cs[i]))
  }

  lemma {:induction false} ReadTable(out: seq<Cell>, at: nat, blocks: seq<Block>, ptr: Ptr, bpoffset: int, cs: seq<nat>)
    requires (forall j :: 0 <= j < |cs| ==> cs[j] < |blocks|) && |out| < WORD
    requires At(out, at, SizeT(|cs|, ptr) + CatchEntries(blocks, ptr, bpoffset, cs))
    ensures ReadCatches(out, ptr, at) == CatchesOf(blocks, ptr, bpoffset, cs)
  {
    AtParts(out, at, SizeT(|cs|, ptr), CatchEntries(blocks, ptr, bpoffset, cs));
    ReadSizeT(out, at, |cs|, ptr);
    var found := ReadCatches(out, ptr, at);
    forall i | 0 <= i < |cs| ensures found[i] == CatchOf(blocks, ptr, bpoffset, cs[i]) {
      assert found[i] == ReadCatch(out, ptr, at + ptr + EntrySizes(ptr, i));
      EntryAt(out, at + ptr, blocks, ptr, bpoffset, cs, i);
      ReadEntry(out, at + ptr + EntrySizes(ptr, i), blocks, ptr, bpoffset, cs[i]);
    }
  }

  lemma {:induction false} PositionBelowEnd(blocks: seq<Block>, ptr: Ptr, p: nat)
    requires p <= |blocks|
    ensures CatchPosition(blocks, ptr, p) <= CatchPosition(blocks, ptr, |blocks|)
    decreases |blocks| - p
  {
    if p < |blocks| {
      PositionBelowEnd(blocks, ptr, p + 1);
    }
  }

  lemma ReadRange(out: seq<Cell>, at: nat, start: int, end: int, parent: int, rest: seq<Cell>)
    requires At(out, at, Dword(start) + Dword(end) + Dword(parent) + rest)
    requires 0 <= start < WORD && 0 <= end < WORD && -WORD / 2 <= parent < WORD / 2
    ensures ReadNat(out, at, 4) == start && ReadNat(out, at + 4, 4) == end && ReadInt(out, at + 8) == parent
    ensures At(out, at + 12, rest)
  {
    AtParts(out, at, Dword(start) + Dword(end) + Dword(parent), rest);
    AtParts(out, at, Dword(start) + Dword(end), Dword(parent));
    AtParts(out, at, Dword(start), Dword(end));
    ReadDword(out, at, start);
    ReadDword(out, at + 4, end);
    ReadDword(out, at + 8, parent);
  }

  lemma ReadHandlers(out: seq<Cell>, at: nat, co: nat, handler: Option<int>, ptr: Ptr)
    requires co < WORD
    requires At(out, at, match handler
      case None => Dword(co) + SizeT(0, ptr)
      case Some(h) => Dword(co) + Xoff(Function, h, ptr))
    ensures ReadNat(out, at, 4) == co
    ensures handler.Some? ==> ReadAddress(out, at + 4) == Some((Function, handler.value))
  {
    match handler
    case None =>
      AtParts(out, at, Dword(co), SizeT(0, ptr));
      ReadDword(out, at, co);
    case Some(h) =>
      AtParts(out, at, Dword(co), Xoff(Function, h, ptr));
      ReadDword(out, at, co);
      ReadXoff(out, at + 4, Function, h, ptr);
  }

  lemma ReadCatching(out: seq<Cell>, blocks: seq<Block>, ptr: Ptr, p: nat)
    requires Fits(blocks) && Sized(blocks, ptr) && p < |blocks| && IsTry(blocks[p]) && blocks[p].jcatchvar.Some?
    requires GuardInPlace(out, blocks, ptr, p) && |out| < WORD
    requires At(out, CatchPosition(blocks, ptr, p), CatchBytes(blocks, ptr, p))
    ensures ReadGuard(out, ptr, blocks[p].scopeIndex) == GuardOf(blocks, ptr, p)
  {
    ReadCatchTable(out, blocks, ptr, p);
    CatchingBytes(out, blocks, ptr, p, CatchPosition(blocks, ptr, p));
  }

  lemma CatchingBytes(out: seq<Cell>, blocks: seq<Block>, ptr: Ptr, p: nat, co: nat)
    requires Fits(blocks) && Sized(blocks, ptr) && p < |blocks| && IsTry(blocks[p]) && blocks[p].jcatchvar.Some?
    requires At(out, GuardPosition(ptr, blocks[p].scopeIndex), GuardBytes(blocks, ptr, p, co)) && 0 < co < WORD
    ensures ReadGuard(out, ptr, blocks[p].scopeIndex) == Catching(
      Offset(blocks, p), Offset(blocks, EndBlock(blocks, p, p + 1).value), blocks[p].lastIndex,
      ReadCatches(out, ptr, co))
  {
    var b, at := blocks[p], GuardPosition(ptr, blocks[p].scopeIndex);
    var start, end := Offset(blocks, p), Offset(blocks, EndBlock(blocks, p, p + 1).value);
    ReadRange(out, at, start, end, b.lastIndex, Dword(co) + SizeT(0, ptr));
    ReadHandlers(out, at + 12, co, None, ptr);
    GuardWithCatches(out, ptr, b.scopeIndex, co);
  }

  lemma GuardWithCatches(out: seq<Cell>, ptr: Ptr, i: nat, co: nat)
    requires ReadNat(out, GuardPosition(ptr, i) + 12, 4) == co > 0
    ensures var at := GuardPosition(ptr, i);
      ReadGuard(out, ptr, i) ==
        Catching(ReadNat(out, at, 4), ReadNat(out, at + 4, 4), ReadInt(out, at + 8), ReadCatches(out, ptr, co))
  {
    var found := ReadCatches(out, ptr, co);
    assert ReadCatches(out, ptr, ReadNat(out, GuardPosition(ptr, i) + 12, 4)) == found;
  }

  lemma ReadCatchTable(out: seq<Cell>, blocks: seq<Block>, ptr: Ptr, p: nat)
    requires p < |blocks| && IsTry(blocks[p]) && TryFits(blocks, p) && blocks[p].jcatchvar.Some? && |out| < WORD
    requires At(out, CatchPosition(blocks, ptr, p), CatchBytes(blocks, ptr, p))
    ensures ReadCatches(out, ptr, CatchPosition(blocks, ptr, p)) ==
      CatchesOf(blocks, ptr, blocks[p].jcatchvar.value, blocks[p].succ[1..])
    ensures CatchPosition(blocks, ptr, p) <= |out|
  {
    ReadTable(out, CatchPosition(blocks, ptr, p), blocks, ptr, blocks[p].jcatchvar.value, blocks[p].succ[1..]);
  }

  lemma ReadFinally(out: seq<Cell>, blocks: seq<Block>, ptr: Ptr, p: nat)
    requires Fits(blocks) && Sized(blocks, ptr) && p < |blocks| && IsTry(blocks[p]) && blocks[p].jcatchvar.None?
    requires GuardInPlace(out, blocks, ptr, p)
    ensures ReadGuard(out, ptr, blocks[p].scopeIndex) == GuardOf(blocks, ptr, p)
  {
    var b, at := blocks[p], GuardPosition(ptr, blocks[p].scopeIndex);
    var start, end := Offset(blocks, p), Offset(blocks, EndBlock(blocks, p, p + 1).value);
    var h := Offset(blocks, blocks[b.succ[1]].succ[0]);
    ReadRange(out, at, start, end, b.lastIndex, Dword(0) + Xoff(Function, h, ptr));
    ReadHandlers(out, at + 12, 0, Some(h), ptr);
  }

  lemma {:induction false} ZerosAreZero(n: nat)
    ensures FromBytes(Zeros(n)) == 0
  {
    if n > 0 {
      ZerosAreZero(n - 1);
      assert Zeros(n)[1..] == Zeros(n - 1);
    }
  }

  lemma ReadGap(out: seq<Cell>, ptr: Ptr, j: nat)
    requires GapInPlace(out, ptr, j)
    ensures ReadGuard(out, ptr, j) == Gap
  {
    var at, n := GuardPosition(ptr, j), GuardSize(ptr);
    var gap := out[at..at + n];
    assert out[at + 16] == gap[16] == Byte(0);
    forall k | 0 <= k < 4 ensures out[at + 12..at + 16][k] == Zeros(4)[k] {
      assert out[at + 12..at + 16][k] == out[at + (12 + k)] == gap[12 + k];
    }
    assert out[at + 12..at + 16] == Zeros(4);
    ZerosAreZero(4);
  }

  lemma ReadFields(out: seq<Cell>, spoff: int, retoffset: int, dim: nat, ptr: Ptr)
    requires At(out, 0, Xoff(Function, 0, ptr) + Dword(spoff) + Dword(retoffset) + SizeT(dim, ptr)) && dim < WORD
    ensures ReadAddress(out, 0) == Some((Function, 0)) && ReadNat(out, ptr + 8, ptr) == dim
    ensures FitsInt(spoff) ==> ReadInt(out, ptr) == spoff
    ensures FitsInt(retoffset) ==> ReadInt(out, ptr + 4) == retoffset
  {
    AtParts(out, 0, Xoff(Function, 0, ptr) + Dword(spoff) + Dword(retoffset), SizeT(dim, ptr));
    AtParts(out, 0, Xoff(Function, 0, ptr) + Dword(spoff), Dword(retoffset));
    AtParts(out, 0, Xoff(Function, 0, ptr), Dword(spoff));
    ReadXoff(out, 0, Function, 0, ptr);
    ReadDword(out, ptr, spoff);
    ReadDword(out, ptr + 4, retoffset);
    ReadSizeT(out, ptr + 8, dim, ptr);
  }

  /** From the emitted bytes the reader recovers the function and the two offsets of the frame, the number
      of guards and, index by index, the start, end, parent and handlers of the try block with that
      index, or that there is none. */
  lemma {:induction false} RoundTrip(out: seq<Cell>, blocks: seq<Block>, ptr: Ptr, spoff: int, retoffset: int)
    requires Fits(blocks) && Sized(blocks, ptr) && Layout(out, blocks, ptr, spoff, retoffset)
    ensures FitsInt(spoff) && FitsInt(retoffset) ==>
      ReadHeader(out, ptr) == Header(Some((Function, 0)), spoff, retoffset)
    ensures ReadDim(out, ptr) == GuardDim(blocks, |blocks|)
    ensures forall p :: 0 <= p < |blocks| && IsTry(blocks[p]) ==>
      blocks[p].scopeIndex < ReadDim(out, ptr) && ReadGuard(out, ptr, blocks[p].scopeIndex) == GuardOf(blocks, ptr, p)
    ensures forall j: nat :: j < ReadDim(out, ptr) && !HasGuard(blocks, |blocks|, j) ==> ReadGuard(out, ptr, j) == Gap
  {
    var dim := GuardDim(blocks, |blocks|);
    DimCovers(blocks, |blocks|);
    PositionBelowEnd(blocks, ptr, 0);
    ReadFields(out, spoff, retoffset, dim, ptr);
    forall p | 0 <= p < |blocks| && IsTry(blocks[p])
      ensures ReadGuard(out, ptr, blocks[p].scopeIndex) == GuardOf(blocks, ptr, p)
    {
      if blocks[p].jcatchvar.Some? {
        ReadCatching(out, blocks, ptr, p);
      } else {
        ReadFinally(out, blocks, ptr, p);
      }
    }
    forall j: nat | j < dim && !HasGuard(blocks, |blocks|, j) ensures ReadGuard(out, ptr, j) == Gap {
      ReadGap(out, ptr, j);
    }
  }
}
