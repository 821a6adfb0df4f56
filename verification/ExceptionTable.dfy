/** eh.c: `except_gentables` lays out the exception table of a function as bytes, in three passes over
    the list of its basic blocks. */
module ExceptionTable {
  import opened Wrappers
  import opened Root

  /** A symbol an address can be relative to: the function itself, or a type. */
  datatype Sym = Function | TypeInfo(id: nat)

  /** One byte of the table: a constant, or byte k of the address of `sym` plus `offset`. */
  datatype Cell = Byte(v: nat) | Address(sym: Sym, offset: int, k: nat)

  datatype BC = Try | FinallyBlock | Other

  /** A basic block; other blocks are named by their position in the list. `jcatchvar` holds the frame
      offset of the catch variable of a try-catch. */
  datatype Block = Block(
    bc: BC,
    scopeIndex: int,
    lastIndex: int,
    btry: Option<nat>,
    offset: int,
    jcatchvar: Option<int>,
    succ: seq<nat>,
    catchType: nat)

  /** NPTRSIZE. */
  type Ptr = p: nat | p == 4 || p == 8 witness 4

  function GuardSize(ptr: Ptr): nat {
    if ptr == 8 then 24 else 20
  }

  /** The bytes of n guards, and of n catch entries. */
  function GuardSizes(ptr: Ptr, n: int): int {
    if ptr == 8 then 24 * n else 20 * n
  }

  function EntrySizes(ptr: Ptr, n: int): int {
    if ptr == 8 then 24 * n else 12 * n
  }

  function HeaderSize(ptr: Ptr): nat {
    ptr + 4 + 4 + ptr
  }

  function GuardPosition(ptr: Ptr, i: nat): nat {
    HeaderSize(ptr) + GuardSizes(ptr, i)
  }

  // ----- bytes -----

  function Pow256(n: nat): (p: nat)
    ensures p > 0
  {
    if n == 0 then 1 else 256 * Pow256(n - 1)
  }

  /** n bytes, least significant first. */
  function LittleEndian(v: nat, n: nat): (s: seq<Cell>)
    ensures |s| == n
  {
    if n == 0 then [] else [Byte(v % 256)] + LittleEndian(v / 256, n - 1)
  }

  function FromBytes(s: seq<Cell>): nat {
    if s == [] then 0 else (if s[0].Byte? then s[0].v else 0) + 256 * FromBytes(s[1..])
  }

  lemma {:induction false} BytesRoundTrip(v: nat, n: nat)
    requires v < Pow256(n)
    ensures FromBytes(LittleEndian(v, n)) == v
  {
    if n > 0 {
      BytesRoundTrip(v / 256, n - 1);
      assert LittleEndian(v, n)[1..] == LittleEndian(v / 256, n - 1);
    }
  }

  const WORD := 0x1_0000_0000

  function Dword(v: int): (s: seq<Cell>)
    ensures |s| == 4
  {
    LittleEndian(v % WORD, 4)
  }

  /** A size_t value as it is stored. */
  function Stored(v: int, ptr: Ptr): nat {
    if ptr == 8 then v % 0x1_0000_0000_0000_0000 else v % WORD
  }

  function SizeT(v: int, ptr: Ptr): (s: seq<Cell>)
    ensures |s| == ptr
  {
    LittleEndian(Stored(v, ptr), ptr)
  }

  function Xoff(sym: Sym, offset: int, ptr: Ptr): (s: seq<Cell>)
    ensures |s| == ptr
  {
    seq(ptr, k requires 0 <= k < ptr => Address(sym, offset, k))
  }

  function Zeros(n: nat): (s: seq<Cell>)
    ensures |s| == n && forall i :: 0 <= i < n ==> s[i] == Byte(0)
  {
    seq(n, _ => Byte(0))
  }

  // ----- the block list -----

  predicate IsTry(b: Block) {
    b.bc == Try
  }

  /** The block that ends the guarded range of block p: the next one outside of it. */
  function EndBlock(blocks: seq<Block>, p: nat, q: nat): (r: Option<nat>)
    requires p < q <= |blocks|
    ensures r.Some? ==> q <= r.value < |blocks| && blocks[r.value].btry == blocks[p].btry
    ensures forall j :: q <= j < (if r.Some? then r.value else |blocks|) ==> blocks[j].btry != blocks[p].btry
    decreases |blocks| - q
  {
    if q == |blocks| then None
    else if blocks[q].btry == blocks[p].btry then Some(q)
    else EndBlock(blocks, p, q + 1)
  }

  /** What the assertions of the pass demand of a try block, and that its successors exist. */
  predicate TryFits(blocks: seq<Block>, p: nat)
    requires p < |blocks|
  {
    var b := blocks[p];
    && b.scopeIndex >= 0
    && EndBlock(blocks, p, p + 1).Some?
    && |b.succ| >= 1
    && (forall i :: 0 <= i < |b.succ| ==> b.succ[i] < |blocks|)
    && (b.jcatchvar.None? ==>
          |b.succ| == 2 && blocks[b.succ[1]].bc == FinallyBlock
          && blocks[b.succ[1]].succ != [] && blocks[b.succ[1]].succ[0] < |blocks|)
  }

  /** Try blocks appear in the order of their scope indices; indices may be missing. */
  predicate Ordered(blocks: seq<Block>) {
    forall p, q :: 0 <= p < q < |blocks| && IsTry(blocks[p]) && IsTry(blocks[q]) ==>
      blocks[p].scopeIndex < blocks[q].scopeIndex
  }

  predicate Fits(blocks: seq<Block>) {
    Ordered(blocks) && forall p :: 0 <= p < |blocks| && IsTry(blocks[p]) ==> TryFits(blocks, p)
  }

  /** The dimension of guard[] for the first k blocks. */
  function GuardDim(blocks: seq<Block>, k: nat): (dim: nat)
    requires k <= |blocks|
  {
    if k == 0 then 0
    else
      var d := GuardDim(blocks, k - 1);
      if IsTry(blocks[k - 1]) && blocks[k - 1].scopeIndex >= d then blocks[k - 1].scopeIndex + 1 else d
  }

  predicate IsDimension(blocks: seq<Block>, guarddim: nat) {
    guarddim == GuardDim(blocks, |blocks|)
  }

  /** The bytes of the catch table of a block. */
  function CatchSize(b: Block, ptr: Ptr): nat {
    if IsTry(b) && b.jcatchvar.Some? && b.succ != [] then ptr + EntrySizes(ptr, |b.succ| - 1) else 0
  }

  function CatchSizes(blocks: seq<Block>, ptr: Ptr, k: nat): nat
    requires k <= |blocks|
  {
    if k == 0 then 0 else CatchSizes(blocks, ptr, k - 1) + CatchSize(blocks[k - 1], ptr)
  }

  /** Where the catch table of block k goes: after the guards and the tables of the blocks before it. */
  function CatchPosition(blocks: seq<Block>, ptr: Ptr, k: nat): nat
    requires k <= |blocks|
  {
    GuardPosition(ptr, GuardDim(blocks, |blocks|)) + CatchSizes(blocks, ptr, k)
  }

  // ----- the parts of the table -----

  function HeaderBytes(blocks: seq<Block>, ptr: Ptr, spoff: int, retoffset: int): seq<Cell> {
    Xoff(Function, 0, ptr) + Dword(spoff) + Dword(retoffset) + SizeT(GuardDim(blocks, |blocks|), ptr)
  }

  function Offset(blocks: seq<Block>, p: nat): int
    requires p < |blocks|
  {
    blocks[p].offset - blocks[0].offset
  }

  function GuardBytes(blocks: seq<Block>, ptr: Ptr, p: nat, catchoffset: nat): (s: seq<Cell>)
    requires p < |blocks| && TryFits(blocks, p)
    ensures |s| == GuardSize(ptr)
  {
    var b := blocks[p];
    Dword(Offset(blocks, p)) + Dword(Offset(blocks, EndBlock(blocks, p, p + 1).value)) + Dword(b.lastIndex) +
    (if b.jcatchvar.Some? then Dword(catchoffset) + SizeT(0, ptr)
     else Dword(0) + Xoff(Function, Offset(blocks, blocks[b.succ[1]].succ[0]), ptr))
  }

  function CatchEntry(blocks: seq<Block>, ptr: Ptr, bpoffset: int, c: nat): (s: seq<Cell>)
    requires c < |blocks|
    ensures |s| == 3 * ptr
  {
    Xoff(TypeInfo(blocks[c].catchType), 0, ptr) + SizeT(bpoffset, ptr) + Xoff(Function, Offset(blocks, c), ptr)
  }

  function CatchEntries(blocks: seq<Block>, ptr: Ptr, bpoffset: int, cs: seq<nat>): (s: seq<Cell>)
    requires forall i :: 0 <= i < |cs| ==> cs[i] < |blocks|
    ensures |s| == EntrySizes(ptr, |cs|)
  {
    if cs == [] then []
    else CatchEntries(blocks, ptr, bpoffset, cs[..|cs| - 1]) + CatchEntry(blocks, ptr, bpoffset, cs[|cs| - 1])
  }

  function CatchBytes(blocks: seq<Block>, ptr: Ptr, p: nat): (s: seq<Cell>)
    requires p < |blocks| && TryFits(blocks, p) && blocks[p].jcatchvar.Some? && IsTry(blocks[p])
    ensures |s| == CatchSize(blocks[p], ptr)
  {
    var b := blocks[p];
    SizeT(|b.succ| - 1, ptr) + CatchEntries(blocks, ptr, b.jcatchvar.value, b.succ[1..])
  }

  /** `part` lies at position `at` of the table. */
  predicate At(out: seq<Cell>, at: nat, part: seq<Cell>) {
    at + |part| <= |out| && out[at..at + |part|] == part
  }

  predicate HasGuard(blocks: seq<Block>, k: nat, i: nat)
    requires k <= |blocks|
  {
    exists p :: 0 <= p < k && IsTry(blocks[p]) && blocks[p].scopeIndex == i
  }

  predicate GuardInPlace(out: seq<Cell>, blocks: seq<Block>, ptr: Ptr, p: nat)
    requires p < |blocks| && Fits(blocks) && IsTry(blocks[p])
  {
    At(out, GuardPosition(ptr, blocks[p].scopeIndex), GuardBytes(blocks, ptr, p, CatchPosition(blocks, ptr, p)))
  }

  predicate GapInPlace(out: seq<Cell>, ptr: Ptr, j: nat) {
    At(out, GuardPosition(ptr, j), Zeros(GuardSize(ptr)))
  }

  /** The guards of the first k blocks are in their places, and the places before index i that no
      block claims are zero. */
  predicate GuardsPlaced(out: seq<Cell>, blocks: seq<Block>, ptr: Ptr, k: nat, i: nat)
    requires k <= |blocks| && Fits(blocks)
  {
    && (forall p :: 0 <= p < k && IsTry(blocks[p]) ==> GuardInPlace(out, blocks, ptr, p))
    && (forall j: nat :: j < i && !HasGuard(blocks, k, j) ==> GapInPlace(out, ptr, j))
  }

  predicate CatchInPlace(out: seq<Cell>, blocks: seq<Block>, ptr: Ptr, p: nat)
    requires p < |blocks| && Fits(blocks) && IsTry(blocks[p]) && blocks[p].jcatchvar.Some?
  {
    At(out, CatchPosition(blocks, ptr, p), CatchBytes(blocks, ptr, p))
  }

  predicate CatchesPlaced(out: seq<Cell>, blocks: seq<Block>, ptr: Ptr, k: nat)
    requires k <= |blocks| && Fits(blocks)
  {
    forall p :: 0 <= p < k && IsTry(blocks[p]) && blocks[p].jcatchvar.Some? ==> CatchInPlace(out, blocks, ptr, p)
  }

  predicate Layout(out: seq<Cell>, blocks: seq<Block>, ptr: Ptr, spoff: int, retoffset: int)
    requires Fits(blocks)
  {
    && At(out, 0, HeaderBytes(blocks, ptr, spoff, retoffset))
    && GuardsPlaced(out, blocks, ptr, |blocks|, GuardDim(blocks, |blocks|))
    && CatchesPlaced(out, blocks, ptr, |blocks|)
    && |out| == CatchPosition(blocks, ptr, |blocks|)
  }

  lemma AtGrows(out: seq<Cell>, more: seq<Cell>, at: nat, part: seq<Cell>)
    requires At(out, at, part)
    ensures At(out + more, at, part)
  {
  }

  lemma GuardsGrow(out: seq<Cell>, more: seq<Cell>, blocks: seq<Block>, ptr: Ptr, k: nat, i: nat)
    requires k <= |blocks| && Fits(blocks) && GuardsPlaced(out, blocks, ptr, k, i)
    ensures GuardsPlaced(out + more, blocks, ptr, k, i)
  {
    forall p | 0 <= p < k && IsTry(blocks[p]) ensures GuardInPlace(out + more, blocks, ptr, p) {
      assert GuardInPlace(out, blocks, ptr, p);
    }
    forall j: nat | j < i && !HasGuard(blocks, k, j) ensures GapInPlace(out + more, ptr, j) {
      assert GapInPlace(out, ptr, j);
    }
  }

  /** The catch table of block k behind those of the blocks before it. */
  lemma CatchPlaced(out: seq<Cell>, blocks: seq<Block>, ptr: Ptr, k: nat)
    requires Fits(blocks) && k < |blocks| && IsTry(blocks[k]) && blocks[k].jcatchvar.Some?
    requires CatchesPlaced(out, blocks, ptr, k) && |out| == CatchPosition(blocks, ptr, k)
    ensures CatchesPlaced(out + CatchBytes(blocks, ptr, k), blocks, ptr, k + 1)
  {
    var table := CatchBytes(blocks, ptr, k);
    forall p | 0 <= p < k + 1 && IsTry(blocks[p]) && blocks[p].jcatchvar.Some?
      ensures CatchInPlace(out + table, blocks, ptr, p)
    {
      if p < k {
        assert CatchInPlace(out, blocks, ptr, p);
        AtGrows(out, table, CatchPosition(blocks, ptr, p), CatchBytes(blocks, ptr, p));
      } else {
        AtEnd(out, table);
      }
    }
  }

  lemma AtEnd(out: seq<Cell>, part: seq<Cell>)
    ensures At(out + part, |out|, part)
  {
  }

  lemma {:induction false} DimCovers(blocks: seq<Block>, k: nat)
    requires k <= |blocks| && Ordered(blocks)
    requires forall p :: 0 <= p < |blocks| && IsTry(blocks[p]) ==> blocks[p].scopeIndex >= 0
    ensures forall p :: 0 <= p < k && IsTry(blocks[p]) ==> blocks[p].scopeIndex < GuardDim(blocks, k)
    ensures forall p :: k <= p < |blocks| && IsTry(blocks[p]) ==> GuardDim(blocks, k) <= blocks[p].scopeIndex
  {
    if k > 0 {
      DimCovers(blocks, k - 1);
    }
  }

  lemma ZerosInPlace(before: seq<Cell>, ptr: Ptr, i: nat, n: nat, j: nat)
    requires |before| == GuardPosition(ptr, i) && i <= j < n
    ensures GapInPlace(before + Zeros(GuardSizes(ptr, n - i)), ptr, j)
  {
    var zeros, at := Zeros(GuardSizes(ptr, n - i)), GuardSizes(ptr, j - i);
    assert GuardPosition(ptr, j) == |before| + at && at + GuardSize(ptr) <= |zeros|;
    assert zeros[at..at + GuardSize(ptr)] == Zeros(GuardSize(ptr));
    var out := before + zeros;
    assert out[|before| + at..|before| + at + GuardSize(ptr)] == zeros[at..at + GuardSize(ptr)];
  }

  lemma GapFilled(before: seq<Cell>, blocks: seq<Block>, ptr: Ptr, b: nat, i: nat)
    requires Fits(blocks) && b < |blocks| && IsTry(blocks[b]) && i <= blocks[b].scopeIndex
    requires GuardsPlaced(before, blocks, ptr, b, i) && |before| == GuardPosition(ptr, i)
    ensures var after := before + Zeros(GuardSizes(ptr, blocks[b].scopeIndex - i));
      GuardsPlaced(after, blocks, ptr, b, blocks[b].scopeIndex) && |after| == GuardPosition(ptr, blocks[b].scopeIndex)
  {
    GuardsGrow(before, Zeros(GuardSizes(ptr, blocks[b].scopeIndex - i)), blocks, ptr, b, i);
    forall j: nat {:trigger GapInPlace(before, ptr, j)} | i <= j < blocks[b].scopeIndex
      ensures GapInPlace(before + Zeros(GuardSizes(ptr, blocks[b].scopeIndex - i)), ptr, j)
    {
      ZerosInPlace(before, ptr, i, blocks[b].scopeIndex, j);
    }
  }

  lemma GuardPlaced(start: seq<Cell>, blocks: seq<Block>, ptr: Ptr, b: nat)
    requires Fits(blocks) && b < |blocks| && IsTry(blocks[b])
    requires GuardsPlaced(start, blocks, ptr, b, blocks[b].scopeIndex)
    requires |start| == GuardPosition(ptr, blocks[b].scopeIndex)
    ensures var after := start + GuardBytes(blocks, ptr, b, CatchPosition(blocks, ptr, b));
      GuardsPlaced(after, blocks, ptr, b + 1, blocks[b].scopeIndex + 1)
      && |after| == GuardPosition(ptr, blocks[b].scopeIndex + 1)
  {
    var n, guard := blocks[b].scopeIndex, GuardBytes(blocks, ptr, b, CatchPosition(blocks, ptr, b));
    GuardsGrow(start, guard, blocks, ptr, b, n);
    assert GuardInPlace(start + guard, blocks, ptr, b);
    forall j: nat | j < n + 1 && !HasGuard(blocks, b + 1, j) ensures GapInPlace(start + guard, ptr, j) {
      assert j != n && !HasGuard(blocks, b, j);
    }
  }

  lemma NoGuard(out: seq<Cell>, blocks: seq<Block>, ptr: Ptr, b: nat, i: nat)
    requires Fits(blocks) && b < |blocks| && !IsTry(blocks[b]) && GuardsPlaced(out, blocks, ptr, b, i)
    ensures GuardsPlaced(out, blocks, ptr, b + 1, i)
  {
    forall j: nat | j < i && !HasGuard(blocks, b + 1, j) ensures GapInPlace(out, ptr, j) {
      assert !HasGuard(blocks, b, j);
    }
  }

  /** The table after the guards of the first k blocks, when the next free index is i. */
  predicate Guarded(out: seq<Cell>, header: seq<Cell>, blocks: seq<Block>, ptr: Ptr, k: nat, i: nat)
    requires k <= |blocks| && Fits(blocks)
  {
    |out| == GuardPosition(ptr, i) && At(out, 0, header) && GuardsPlaced(out, blocks, ptr, k, i)
  }

  lemma GuardStep(out: seq<Cell>, header: seq<Cell>, blocks: seq<Block>, ptr: Ptr, b: nat, i: nat)
    requires Fits(blocks) && b < |blocks| && IsTry(blocks[b]) && i <= blocks[b].scopeIndex
    requires Guarded(out, header, blocks, ptr, b, i)
    ensures var guard := GuardBytes(blocks, ptr, b, CatchPosition(blocks, ptr, b));
      var zeros := Zeros(GuardSizes(ptr, blocks[b].scopeIndex - i));
      Guarded(out + zeros + guard, header, blocks, ptr, b + 1, blocks[b].scopeIndex + 1)
  {
    var zeros := Zeros(GuardSizes(ptr, blocks[b].scopeIndex - i));
    GapFilled(out, blocks, ptr, b, i);
    GuardPlaced(out + zeros, blocks, ptr, b);
    AtGrows(out, zeros, 0, header);
    AtGrows(out + zeros, GuardBytes(blocks, ptr, b, CatchPosition(blocks, ptr, b)), 0, header);
  }

  /** The table after the catch tables of the first k blocks. */
  predicate Caught(out: seq<Cell>, header: seq<Cell>, blocks: seq<Block>, ptr: Ptr, k: nat)
    requires k <= |blocks| && Fits(blocks)
  {
    && |out| == CatchPosition(blocks, ptr, k) && At(out, 0, header)
    && GuardsPlaced(out, blocks, ptr, |blocks|, GuardDim(blocks, |blocks|)) && CatchesPlaced(out, blocks, ptr, k)
  }

  lemma CatchStep(out: seq<Cell>, header: seq<Cell>, blocks: seq<Block>, ptr: Ptr, b: nat)
    requires Fits(blocks) && b < |blocks| && IsTry(blocks[b]) && blocks[b].jcatchvar.Some?
    requires Caught(out, header, blocks, ptr, b)
    ensures Caught(out + CatchBytes(blocks, ptr, b), header, blocks, ptr, b + 1)
  {
    var table := CatchBytes(blocks, ptr, b);
    AtGrows(out, table, 0, header);
    GuardsGrow(out, table, blocks, ptr, |blocks|, GuardDim(blocks, |blocks|));
    CatchPlaced(out, blocks, ptr, b);
  }

  lemma NoCatch(out: seq<Cell>, header: seq<Cell>, blocks: seq<Block>, ptr: Ptr, b: nat)
    requires Fits(blocks) && b < |blocks| && !(IsTry(blocks[b]) && blocks[b].jcatchvar.Some?)
    requires Caught(out, header, blocks, ptr, b)
    ensures Caught(out, header, blocks, ptr, b + 1)
  {
    forall p | 0 <= p < b + 1 && IsTry(blocks[p]) && blocks[p].jcatchvar.Some?
      ensures CatchInPlace(out, blocks, ptr, p)
    {
      assert p != b;
    }
  }

  lemma GuardStart(header: seq<Cell>, blocks: seq<Block>, ptr: Ptr)
    requires Fits(blocks) && |header| == HeaderSize(ptr)
    ensures Guarded(header, header, blocks, ptr, 0, 0)
  {
  }

  // ----- the pass -----

  method GuardDimension(blocks: seq<Block>) returns (guarddim: nat)
    requires Fits(blocks)
    ensures guarddim == GuardDim(blocks, |blocks|)
  {
    guarddim := 0;
    for b := 0 to |blocks|
      invariant guarddim == GuardDim(blocks, b)
    {
      if blocks[b].bc == Try && blocks[b].scopeIndex >= guarddim {
        guarddim := blocks[b].scopeIndex + 1;
      }
    }
  }

  /** One entry of guard[]; `catchoffset` moves past the catch table the block will have. */
  method EmitGuard(blocks: seq<Block>, ptr: Ptr, b: nat, catchoffset: nat) returns (pdt: seq<Cell>, next: nat)
    requires b < |blocks| && IsTry(blocks[b]) && TryFits(blocks, b)
    ensures pdt == GuardBytes(blocks, ptr, b, catchoffset) && next == catchoffset + CatchSize(blocks[b], ptr)
  {
    var nsucc := |blocks[b].succ|;
    pdt := Dword(blocks[b].offset - blocks[0].offset);
    var endoffset := FindEnd(blocks, b);
    pdt := pdt + Dword(endoffset);
    pdt := pdt + Dword(blocks[b].lastIndex);
    next := catchoffset;
    if blocks[b].jcatchvar.Some? {
      ghost var front := pdt;
      pdt := pdt + Dword(catchoffset);
      pdt := pdt + SizeT(0, ptr);
      assert pdt == front + (Dword(catchoffset) + SizeT(0, ptr));
      next := next + ptr + EntrySizes(ptr, nsucc - 1);
    } else {
      ghost var front := pdt;
      pdt := pdt + Dword(0);
      var bhandler := blocks[b].succ[1];
      bhandler := blocks[bhandler].succ[0];
      var handler := Xoff(Function, blocks[bhandler].offset - blocks[0].offset, ptr);
      pdt := pdt + handler;
      assert pdt == front + (Dword(0) + handler);
    }
  }

  lemma {:induction false} AppendEntry(front: seq<Cell>, blocks: seq<Block>, ptr: Ptr, bp: int, cs: seq<nat>, c: nat)
    requires c < |blocks| && forall i :: 0 <= i < |cs| ==> cs[i] < |blocks|
    ensures front + CatchEntries(blocks, ptr, bp, cs) + CatchEntry(blocks, ptr, bp, c) ==
      front + CatchEntries(blocks, ptr, bp, cs + [c])
  {
    assert (cs + [c])[..|cs|] == cs;
    Append2(front, CatchEntries(blocks, ptr, bp, cs), CatchEntry(blocks, ptr, bp, c));
  }

  /** The catch table of one block. */
  method EmitCatches(blocks: seq<Block>, ptr: Ptr, b: nat) returns (pdt: seq<Cell>)
    requires b < |blocks| && IsTry(blocks[b]) && TryFits(blocks, b) && blocks[b].jcatchvar.Some?
    ensures pdt == CatchBytes(blocks, ptr, b)
  {
    var nsucc, bp := |blocks[b].succ|, blocks[b].jcatchvar.value;
    pdt := SizeT(nsucc - 1, ptr);
    ghost var count, cs := pdt, blocks[b].succ[1..];
    for c := 1 to nsucc
      invariant pdt == count + CatchEntries(blocks, ptr, bp, cs[..c - 1])
    {
      var bcatch := blocks[b].succ[c];
      pdt := pdt + CatchEntry(blocks, ptr, bp, bcatch);
      assert cs[..c] == cs[..c - 1] + [bcatch];
      AppendEntry(count, blocks, ptr, bp, cs[..c - 1], bcatch);
    }
    assert cs[..nsucc - 1] == cs;
  }

  /** The whole of guard[]: `guarddim` entries, those of missing scope indices zero. */
  method EmitGuards(header: seq<Cell>, blocks: seq<Block>, ptr: Ptr, guarddim: nat) returns (pdt: seq<Cell>)
    requires Fits(blocks) && IsDimension(blocks, guarddim) && |header| == HeaderSize(ptr)
    ensures Guarded(pdt, header, blocks, ptr, |blocks|, guarddim)
  {
    pdt := header;
    GuardStart(header, blocks, ptr);
    var catchoffset := |header| + GuardSizes(ptr, guarddim);
    var i := 0;
    for b := 0 to |blocks|
      invariant i == GuardDim(blocks, b) && catchoffset == CatchPosition(blocks, ptr, b)
      invariant Guarded(pdt, header, blocks, ptr, b, i)
    {
      DimStep(blocks, ptr, b);
      if blocks[b].bc == Try {
        GuardStep(pdt, header, blocks, ptr, b, i);
        var entry;
        entry, catchoffset := EmitEntry(blocks, ptr, b, i, catchoffset);
        ghost var zeros := Zeros(GuardSizes(ptr, blocks[b].scopeIndex - i));
        Append2(pdt, zeros, GuardBytes(blocks, ptr, b, CatchPosition(blocks, ptr, b)));
        pdt := pdt + entry;
        i := blocks[b].scopeIndex + 1;
      } else {
        NoGuard(pdt, blocks, ptr, b, i);
      }
    }
  }

  lemma DimStep(blocks: seq<Block>, ptr: Ptr, b: nat)
    requires Fits(blocks) && b < |blocks|
    ensures CatchPosition(blocks, ptr, b + 1) == CatchPosition(blocks, ptr, b) + CatchSize(blocks[b], ptr)
    ensures !IsTry(blocks[b]) ==> GuardDim(blocks, b + 1) == GuardDim(blocks, b) && CatchSize(blocks[b], ptr) == 0
    ensures IsTry(blocks[b]) ==>
      GuardDim(blocks, b) <= blocks[b].scopeIndex && GuardDim(blocks, b + 1) == blocks[b].scopeIndex + 1
  {
    DimCovers(blocks, b);
  }

  /** The zeros for the missing scope indices from i on, then the guard of block b. */
  method EmitEntry(blocks: seq<Block>, ptr: Ptr, b: nat, i: nat, catchoffset: nat) returns (pdt: seq<Cell>, next: nat)
    requires b < |blocks| && IsTry(blocks[b]) && TryFits(blocks, b) && i <= blocks[b].scopeIndex
    ensures pdt == Zeros(GuardSizes(ptr, blocks[b].scopeIndex - i)) + GuardBytes(blocks, ptr, b, catchoffset)
    ensures next == catchoffset + CatchSize(blocks[b], ptr)
  {
    pdt := [];
    if i < blocks[b].scopeIndex {
      var fillsize := GuardSizes(ptr, blocks[b].scopeIndex - i);
      pdt := Zeros(fillsize);
    }
    assert pdt == Zeros(GuardSizes(ptr, blocks[b].scopeIndex - i));
    var guard;
    guard, next := EmitGuard(blocks, ptr, b, catchoffset);
    pdt := pdt + guard;
  }

  /** `except_gentables`. */
  method ExceptGentables(blocks: seq<Block>, ptr: Ptr, spoff: int, retoffset: int) returns (pdt: seq<Cell>)
    requires Fits(blocks)
    ensures Layout(pdt, blocks, ptr, spoff, retoffset)
  {
    var guarddim := GuardDimension(blocks);
    var header := Xoff(Function, 0, ptr) + Dword(spoff) + Dword(retoffset) + SizeT(guarddim, ptr);
    pdt := EmitGuards(header, blocks, ptr, guarddim);
    for b := 0 to |blocks|
      invariant Caught(pdt, header, blocks, ptr, b)
    {
      DimStep(blocks, ptr, b);
      if blocks[b].bc == Try && blocks[b].jcatchvar.Some? {
        CatchStep(pdt, header, blocks, ptr, b);
        var table := EmitCatches(blocks, ptr, b);
        pdt := pdt + table;
      } else {
        NoCatch(pdt, header, blocks, ptr, b);
      }
    }
  }

  /** Offset past the end of the guarded block. */
  method FindEnd(blocks: seq<Block>, b: nat) returns (endoffset: int)
    requires b < |blocks| && EndBlock(blocks, b, b + 1).Some?
    ensures endoffset == Offset(blocks, EndBlock(blocks, b, b + 1).value)
  {
    var bn := b + 1;
    while bn < |blocks|
      invariant bn <= |blocks| && EndBlock(blocks, b, bn) == EndBlock(blocks, b, b + 1)
    {
      if blocks[bn].btry == blocks[b].btry {
        return blocks[bn].offset - blocks[0].offset;
      }
      bn := bn + 1;
    }
    assert false;
  }
}
