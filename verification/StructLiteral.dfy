/** e2ir.c: the stores that initialise a struct from a literal. `fillHole` zeroes the bytes between the
    fields with stores that may spill over into fields; all of them come before the field stores. */
module StructLiteral {
  import opened Wrappers

  /** Bytes written from `at` on. */
  datatype Store = Store(at: nat, bytes: seq<nat>)

  /** A field; `size` is that of its type. */
  datatype Field = Field(offset: nat, size: nat)

  function Put(mem: seq<nat>, s: Store): (r: seq<nat>)
    requires s.at + |s.bytes| <= |mem|
    ensures |r| == |mem|
    ensures forall b :: 0 <= b < |mem| ==> r[b] == if s.at <= b < s.at + |s.bytes| then s.bytes[b - s.at] else mem[b]
  {
    mem[..s.at] + s.bytes + mem[s.at + |s.bytes|..]
  }

  predicate Within(e: seq<Store>, n: nat) {
    forall i :: 0 <= i < |e| ==> e[i].at + |e[i].bytes| <= n
  }

  /** Carries out the stores in order. */
  function Run(e: seq<Store>, mem: seq<nat>): (r: seq<nat>)
    requires Within(e, |mem|)
    ensures |r| == |mem|
  {
    if e == [] then mem else Run(e[1..], Put(mem, e[0]))
  }

  lemma {:induction false} RunConcat(e: seq<Store>, f: seq<Store>, mem: seq<nat>)
    requires Within(e + f, |mem|)
    ensures Within(e, |mem|) && Within(f, |mem|) && Run(e + f, mem) == Run(f, Run(e, mem))
  {
    assert forall i :: 0 <= i < |e| ==> (e + f)[i] == e[i];
    assert forall i :: 0 <= i < |f| ==> (e + f)[|e| + i] == f[i];
    if e == [] {
      assert e + f == f;
    } else {
      assert (e + f)[1..] == e[1..] + f;
      RunConcat(e[1..], f, Put(mem, e[0]));
    }
  }

  lemma {:induction false} RunSnoc(e: seq<Store>, s: Store, mem: seq<nat>)
    requires Within(e, |mem|) && s.at + |s.bytes| <= |mem|
    ensures Within(e + [s], |mem|) && Run(e + [s], mem) == Put(Run(e, mem), s)
  {
    RunConcat(e, [s], mem);
    assert [s][0] == s && [s][1..] == [];
  }

  predicate Hits(s: Store, b: nat) {
    s.at <= b < s.at + |s.bytes|
  }

  predicate Covers(e: seq<Store>, b: nat) {
    exists i :: 0 <= i < |e| && Hits(e[i], b)
  }

  predicate AllZero(e: seq<Store>) {
    forall i :: 0 <= i < |e| ==> forall k :: 0 <= k < |e[i].bytes| ==> e[i].bytes[k] == 0
  }

  lemma {:induction false} RunZeros(e: seq<Store>, mem: seq<nat>, b: nat)
    requires Within(e, |mem|) && AllZero(e) && b < |mem|
    ensures Run(e, mem)[b] == if Covers(e, b) then 0 else mem[b]
  {
    if e != [] {
      var t := e[1..];
      RunZeros(t, Put(mem, e[0]), b);
      assert Covers(e, b) <==> Hits(e[0], b) || Covers(t, b) by {
        if Covers(t, b) {
          var i :| 0 <= i < |t| && Hits(t[i], b);
          assert Hits(e[i + 1], b);
        }
        if Covers(e, b) && !Hits(e[0], b) {
          var i :| 0 <= i < |e| && Hits(e[i], b);
          assert Hits(t[i - 1], b);
        }
      }
    }
  }

  // ----- fillHole -----

  /** Zero stores inside 0 .. maxoff that cover lo .. hi and begin at most three bytes before lo. */
  ghost predicate Fills(e: seq<Store>, lo: nat, hi: nat, maxoff: nat) {
    && Within(e, maxoff) && AllZero(e)
    && (forall b: nat :: lo <= b < hi ==> Covers(e, b))
    && (forall i :: 0 <= i < |e| ==> lo - lo % 4 <= e[i].at && e[i].at + |e[i].bytes| <= hi)
  }

  /** Zero fill from `poffset` up to `offset2`, by aligned words where possible. The cursor is rounded
      down to a word in every round but the one after a three-byte rest, which may leave it in place. */
  method FillHole(poffset: nat, offset2: nat, maxoff: nat) returns (e: seq<Store>, offset: nat)
    requires offset2 <= maxoff
    ensures poffset >= offset2 ==> e == [] && offset == poffset
    ensures poffset < offset2 ==> offset2 <= offset <= maxoff
    ensures Fills(e, poffset, offset, maxoff)
  {
    e, offset := [], poffset;
    var basealign := 1;
    while offset < offset2
      invariant basealign == 0 || basealign == 1
      invariant poffset <= offset && (offset == poffset || offset <= maxoff)
      invariant poffset < offset2 ==> offset <= maxoff
      invariant e == [] ==> offset == poffset && basealign == 1
      invariant poffset >= offset2 ==> e == []
      invariant Fills(e, poffset, offset, maxoff)
      decreases offset2 - offset, basealign
    {
      ghost var cursor := offset;
      if basealign != 0 {
        offset := offset - offset % 4;
      }
      basealign := 1;
      var sz := maxoff - offset;
      var width;
      if sz == 1 {
        width := 1;
      } else if sz == 2 {
        width := 2;
      } else if sz == 3 {
        width := 2;
        basealign := 0;
      } else {
        width := 4;
      }
      ghost var before := e;
      e := e + [Store(offset, seq(width, _ => 0))];
      OneMoreStore(before, offset, width, poffset, cursor, maxoff);
      offset := offset + width;
    }
  }

  lemma OneMoreStore(e: seq<Store>, at: nat, width: nat, lo: nat, cursor: nat, maxoff: nat)
    requires Fills(e, lo, cursor, maxoff) && lo <= cursor && at <= cursor <= at + width <= maxoff && lo - lo % 4 <= at
    ensures Fills(e + [Store(at, seq(width, _ => 0))], lo, at + width, maxoff)
  {
    var s := Store(at, seq(width, _ => 0));
    var f := e + [s];
    forall b: nat | lo <= b < at + width ensures Covers(f, b) {
      if b < cursor {
        assert Covers(e, b);
        var i :| 0 <= i < |e| && Hits(e[i], b);
        assert Hits(f[i], b);
      } else {
        assert Hits(f[|e|], b);
      }
    }
  }

  // ----- the literal -----

  /** `fields` of a struct of the given size, and the bytes of the elements; `None` for an element the
      literal leaves out. There may be fewer elements than fields. */
  predicate FitsStruct(fields: seq<Field>, elements: seq<Option<seq<nat>>>, structsize: nat) {
    && |elements| <= |fields|
    && (forall i :: 0 <= i < |fields| ==> fields[i].offset + fields[i].size <= structsize)
    && (forall i :: 0 <= i < |elements| && elements[i].Some? ==> |elements[i].value| == fields[i].size)
  }

  predicate In(f: Field, b: int) {
    f.offset <= b < f.offset + f.size
  }

  predicate InSome(fields: seq<Field>, b: nat) {
    exists i :: 0 <= i < |fields| && In(fields[i], b)
  }

  /** The byte that the last supplied element covering byte b among the first k has there. */
  function LastByte(fields: seq<Field>, elements: seq<Option<seq<nat>>>, k: nat, b: int): Option<nat>
    requires k <= |elements| <= |fields|
    requires forall i :: 0 <= i < |elements| && elements[i].Some? ==> |elements[i].value| == fields[i].size
  {
    if k == 0 then None
    else if elements[k - 1].Some? && In(fields[k - 1], b) then Some(elements[k - 1].value[b - fields[k - 1].offset])
    else LastByte(fields, elements, k - 1, b)
  }

  /** Fills every hole: afterwards each byte of the struct is zero or belongs to a field. */
  method FillHoles(fields: seq<Field>, structsize: nat) returns (e: seq<Store>)
    requires forall i :: 0 <= i < |fields| ==> fields[i].offset + fields[i].size <= structsize
    ensures Within(e, structsize) && AllZero(e)
    ensures forall b: nat :: b < structsize && !InSome(fields, b) ==> Covers(e, b)
  {
    e := [];
    var offset: nat := 0;
    for i := 0 to |fields|
      invariant Within(e, structsize) && AllZero(e) && offset <= structsize
      invariant forall b: nat :: b < offset ==> Covers(e, b) || InSome(fields[..i], b)
    {
      var v := fields[i];
      var hole, end := FillHole(offset, v.offset, structsize);
      MoreCovered(e, hole, fields, i, offset, end);
      e := e + hole;
      offset := end;
      var vend := v.offset + v.size;
      if offset < vend {
        offset := vend;
      }
    }
    assert fields[..|fields|] == fields;
    var hole, end := FillHole(offset, structsize, structsize);
    LastCovered(e, hole, fields, offset, structsize);
    e := e + hole;
  }

  lemma CoversEither(e: seq<Store>, f: seq<Store>, b: nat)
    ensures Covers(e, b) || Covers(f, b) ==> Covers(e + f, b)
  {
    if Covers(e, b) {
      var i :| 0 <= i < |e| && Hits(e[i], b);
      assert Hits((e + f)[i], b);
    } else if Covers(f, b) {
      var i :| 0 <= i < |f| && Hits(f[i], b);
      assert Hits((e + f)[|e| + i], b);
    }
  }

  lemma MoreCovered(e: seq<Store>, hole: seq<Store>, fields: seq<Field>, i: nat, offset: nat, end: nat)
    requires i < |fields| && forall b: nat :: b < offset ==> Covers(e, b) || InSome(fields[..i], b)
    requires forall b: nat :: offset <= b < end ==> Covers(hole, b)
    requires end == offset >= fields[i].offset || end >= fields[i].offset
    ensures var v := fields[i].offset + fields[i].size;
      forall b: nat :: b < end || b < v ==> Covers(e + hole, b) || InSome(fields[..i + 1], b)
  {
    var front := fields[..i + 1];
    forall b: nat | b < end || b < fields[i].offset + fields[i].size
      ensures Covers(e + hole, b) || InSome(front, b)
    {
      CoversEither(e, hole, b);
      if b < offset && InSome(fields[..i], b) {
        var k :| 0 <= k < i && In(fields[..i][k], b);
        assert front[k] == fields[..i][k];
      }
      if b >= end {
        assert In(front[i], b);
      }
    }
  }

  lemma LastCovered(e: seq<Store>, hole: seq<Store>, fields: seq<Field>, offset: nat, structsize: nat)
    requires forall b: nat :: b < offset ==> Covers(e, b) || InSome(fields, b)
    requires forall b: nat :: offset <= b < structsize ==> Covers(hole, b)
    ensures forall b: nat :: b < structsize && !InSome(fields, b) ==> Covers(e + hole, b)
  {
    forall b: nat | b < structsize && !InSome(fields, b) ensures Covers(e + hole, b) {
      CoversEither(e, hole, b);
    }
  }

  /** `StructLiteralExp::toElem`: hole stores, if asked for, then one store per element in order. Field
      stores are relative to `soffset`, hole stores are not. */
  method ToElem(fields: seq<Field>, elements: seq<Option<seq<nat>>>, structsize: nat, fillHoles: bool, soffset: nat)
    returns (e: seq<Store>)
    requires FitsStruct(fields, elements, structsize)
    ensures var stores := FieldStores(fields, elements, soffset, |elements|);
      |stores| <= |e| && e[|e| - |stores|..] == stores &&
      HolesFilled(e[..|e| - |stores|], fields, structsize, fillHoles)
  {
    e := [];
    if fillHoles {
      e := FillHoles(fields, structsize);
    }
    ghost var holes := e;
    for i := 0 to |elements|
      invariant e == holes + FieldStores(fields, elements, soffset, i)
    {
      if elements[i].Some? {
        e := e + [Store(soffset + fields[i].offset, elements[i].value)];
      }
    }
    Halves(holes, FieldStores(fields, elements, soffset, |elements|));
  }

  lemma Halves<T>(a: seq<T>, b: seq<T>)
    ensures (a + b)[|a + b| - |b|..] == b && (a + b)[..|a + b| - |b|] == a
  {
  }

  /** Zero stores inside the struct, which cover every byte no field has; none if not asked for. */
  ghost predicate HolesFilled(holes: seq<Store>, fields: seq<Field>, structsize: nat, fillHoles: bool) {
    && Within(holes, structsize) && AllZero(holes)
    && if fillHoles then forall b: nat :: b < structsize && !InSome(fields, b) ==> Covers(holes, b) else holes == []
  }

  function FieldStores(fields: seq<Field>, elements: seq<Option<seq<nat>>>, soffset: nat, k: nat): seq<Store>
    requires k <= |elements| <= |fields|
  {
    if k == 0 then []
    else
      FieldStores(fields, elements, soffset, k - 1) +
      (if elements[k - 1].Some? then [Store(soffset + fields[k - 1].offset, elements[k - 1].value)] else [])
  }

  lemma {:induction false} FieldStoresWithin(
      fields: seq<Field>, elements: seq<Option<seq<nat>>>, structsize: nat, soffset: nat, k: nat)
    requires FitsStruct(fields, elements, structsize) && k <= |elements|
    ensures Within(FieldStores(fields, elements, soffset, k), soffset + structsize)
  {
    if k > 0 {
      FieldStoresWithin(fields, elements, structsize, soffset, k - 1);
    }
  }

  /** The field stores leave in every byte what the last element covering it says. */
  lemma {:induction false} RunFields(
      fields: seq<Field>, elements: seq<Option<seq<nat>>>, structsize: nat, soffset: nat, k: nat, mem: seq<nat>, b: nat)
    requires FitsStruct(fields, elements, structsize) && k <= |elements| && soffset + structsize <= |mem| && b < |mem|
    ensures Within(FieldStores(fields, elements, soffset, k), |mem|)
    ensures Run(FieldStores(fields, elements, soffset, k), mem)[b] ==
      match LastByte(fields, elements, k, b - soffset) case Some(v) => v case None => mem[b]
  {
    FieldStoresWithin(fields, elements, structsize, soffset, k);
    if k > 0 {
      FieldStoresWithin(fields, elements, structsize, soffset, k - 1);
      RunFields(fields, elements, structsize, soffset, k - 1, mem, b);
      RunLastField(fields, elements, soffset, k, mem);
    }
  }

  lemma RunLastField(
      fields: seq<Field>, elements: seq<Option<seq<nat>>>, soffset: nat, k: nat, mem: seq<nat>)
    requires 0 < k <= |elements| <= |fields| && Within(FieldStores(fields, elements, soffset, k - 1), |mem|)
    requires elements[k - 1].Some? ==> soffset + fields[k - 1].offset + |elements[k - 1].value| <= |mem|
    ensures Within(FieldStores(fields, elements, soffset, k), |mem|)
    ensures Run(FieldStores(fields, elements, soffset, k), mem) ==
      (var before := Run(FieldStores(fields, elements, soffset, k - 1), mem);
       if elements[k - 1].None? then before
       else Put(before, Store(soffset + fields[k - 1].offset, elements[k - 1].value)))
  {
    var front := FieldStores(fields, elements, soffset, k - 1);
    if elements[k - 1].Some? {
      RunSnoc(front, Store(soffset + fields[k - 1].offset, elements[k - 1].value), mem);
    } else {
      assert front + [] == front;
    }
  }

  lemma WithinConcat(e: seq<Store>, f: seq<Store>, n: nat)
    requires Within(e, n) && Within(f, n)
    ensures Within(e + f, n)
  {
  }

  function ByteAfter(last: Option<nat>, holes: seq<Store>, mem: seq<nat>, b: nat): nat
    requires b < |mem|
  {
    match last
    case Some(v) => v
    case None => if Covers(holes, b) then 0 else mem[b]
  }

  lemma {:induction false} RunLiteral(
      fields: seq<Field>, elements: seq<Option<seq<nat>>>, structsize: nat, holes: seq<Store>, mem: seq<nat>, b: nat)
    requires FitsStruct(fields, elements, structsize) && structsize <= |mem| && b < |mem|
    requires Within(holes, structsize) && AllZero(holes)
    ensures Within(holes + FieldStores(fields, elements, 0, |elements|), |mem|)
    ensures Run(holes + FieldStores(fields, elements, 0, |elements|), mem)[b] ==
      ByteAfter(LastByte(fields, elements, |elements|, b), holes, mem, b)
  {
    RunFields(fields, elements, structsize, 0, |elements|, Run(holes, mem), b);
    ZerosThen(holes, FieldStores(fields, elements, 0, |elements|), mem, b);
  }

  lemma {:induction false} ZerosThen(e: seq<Store>, f: seq<Store>, mem: seq<nat>, b: nat)
    requires Within(e, |mem|) && AllZero(e) && Within(f, |mem|) && b < |mem|
    ensures Within(e + f, |mem|) && Run(e + f, mem) == Run(f, Run(e, mem))
    ensures Run(e, mem)[b] == if Covers(e, b) then 0 else mem[b]
  {
    WithinConcat(e, f, |mem|);
    RunConcat(e, f, mem);
    RunZeros(e, mem, b);
  }

  /** What the stores of a literal leave in byte b: the last element's byte if an element covers it,
      else zero if no field does. */
  lemma {:induction false} LiteralByte(
      fields: seq<Field>, elements: seq<Option<seq<nat>>>, structsize: nat, holes: seq<Store>, mem: seq<nat>, b: nat)
    requires FitsStruct(fields, elements, structsize) && structsize <= |mem| && b < structsize
    requires Within(holes, structsize) && AllZero(holes)
    requires !InSome(fields, b) ==> Covers(holes, b)
    ensures Within(holes + FieldStores(fields, elements, 0, |elements|), |mem|)
    ensures LastByte(fields, elements, |elements|, b).Some? || !InSome(fields, b) ==>
      Run(holes + FieldStores(fields, elements, 0, |elements|), mem)[b] ==
      match LastByte(fields, elements, |elements|, b) case Some(v) => v case None => 0
  {
    RunLiteral(fields, elements, structsize, holes, mem, b);
  }

  lemma {:induction false} SuppliedCovers(fields: seq<Field>, elements: seq<Option<seq<nat>>>, k: nat, i: nat, b: nat)
    requires i < k <= |elements| <= |fields| && elements[i].Some? && In(fields[i], b)
    requires forall j :: 0 <= j < |elements| && elements[j].Some? ==> |elements[j].value| == fields[j].size
    ensures LastByte(fields, elements, k, b).Some?
  {
    if i < k - 1 {
      SuppliedCovers(fields, elements, k - 1, i, b);
    }
  }

  /** A literal that supplies every field decides every byte of the struct, whatever the memory held
      before and however the fields overlap: the last field written there, zero in the holes. */
  lemma {:induction false} LiteralDecidesImage(
      fields: seq<Field>, elements: seq<Option<seq<nat>>>, structsize: nat, holes: seq<Store>, mem: seq<nat>)
    requires FitsStruct(fields, elements, structsize) && |mem| == structsize
    requires |elements| == |fields| && forall i :: 0 <= i < |elements| ==> elements[i].Some?
    requires HolesFilled(holes, fields, structsize, true)
    ensures var e := holes + FieldStores(fields, elements, 0, |elements|);
      Within(e, |mem|) && Run(e, mem) == Image(fields, elements, structsize)
  {
    var e := holes + FieldStores(fields, elements, 0, |elements|);
    FieldStoresWithin(fields, elements, structsize, 0, |elements|);
    forall b | 0 <= b < structsize ensures Run(e, mem)[b] == Image(fields, elements, structsize)[b] {
      LiteralByte(fields, elements, structsize, holes, mem, b);
      if InSome(fields, b) {
        var i :| 0 <= i < |fields| && In(fields[i], b);
        SuppliedCovers(fields, elements, |elements|, i, b);
      }
    }
  }

  function Image(fields: seq<Field>, elements: seq<Option<seq<nat>>>, structsize: nat): (image: seq<nat>)
    requires FitsStruct(fields, elements, structsize)
    ensures |image| == structsize
  {
    seq(structsize, b requires 0 <= b < structsize =>
      match LastByte(fields, elements, |elements|, b) case Some(v) => v case None => 0)
  }

  /** Stores decide a byte, whatever the memory held before, exactly when one of them covers it: a byte
      that only belongs to fields the literal leaves out keeps what was there unless a hole store
      happens to spill over it. */
  lemma {:induction false} DecidedExactly(e: seq<Store>, n: nat, b: nat)
    requires Within(e, n) && b < n
    ensures Covers(e, b) <==>
      forall m1: seq<nat>, m2: seq<nat> :: |m1| == |m2| == n ==> Run(e, m1)[b] == Run(e, m2)[b]
  {
    if Covers(e, b) {
      forall m1: seq<nat>, m2: seq<nat> | |m1| == |m2| == n ensures Run(e, m1)[b] == Run(e, m2)[b] {
        CoveredIsDecided(e, m1, m2, b);
      }
    } else {
      var zeros: seq<nat> := seq(n, _ => 0);
      var ones: seq<nat> := seq(n, _ => 1);
      UncoveredStays(e, zeros, b);
      UncoveredStays(e, ones, b);
      assert Run(e, zeros)[b] != Run(e, ones)[b];
    }
  }

  lemma {:induction false} UncoveredStays(e: seq<Store>, mem: seq<nat>, b: nat)
    requires Within(e, |mem|) && b < |mem| && !Covers(e, b)
    ensures Run(e, mem)[b] == mem[b]
  {
    if e != [] {
      assert !Hits(e[0], b);
      forall i | 0 <= i < |e[1..]| ensures !Hits(e[1..][i], b) {
        assert !Hits(e[i + 1], b);
      }
      UncoveredStays(e[1..], Put(mem, e[0]), b);
    }
  }

  lemma {:induction false} CoveredIsDecided(e: seq<Store>, m1: seq<nat>, m2: seq<nat>, b: nat)
    requires Within(e, |m1|) && |m1| == |m2| && b < |m1| && (Covers(e, b) || m1[b] == m2[b])
    ensures Run(e, m1)[b] == Run(e, m2)[b]
  {
    if e != [] {
      if Covers(e, b) && !Hits(e[0], b) {
        var i :| 0 <= i < |e| && Hits(e[i], b);
        assert Hits(e[1..][i - 1], b);
      }
      CoveredIsDecided(e[1..], Put(m1, e[0]), Put(m2, e[0]), b);
    }
  }
}
