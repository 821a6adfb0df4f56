/** The block list that s2ir.c makes of nested try statements, and the nesting of the guard ranges that
    eh.c computes from it. */
module TryNesting {
  import opened Wrappers
  import opened ExceptionTable
  import opened ExceptionTableReader

  /** A statement list as the basic blocks see it: a block, or a try block followed by the blocks
      guarded by it. Handlers are plain statements after the try. */
  datatype Stmt = Plain | TryStmt(body: seq<Stmt>)

  /** What matters of a block here: is it a try block, and which try block guards it. */
  datatype Mark = Mark(isTry: bool, btry: Option<nat>)

  /** The marks of a statement list whose first block has position `base` and guard `outer`. */
  function Marks(items: seq<Stmt>, base: nat, outer: Option<nat>): (ms: seq<Mark>)
    decreases items
  {
    if items == [] then []
    else
      var h := MarksOf(items[0], base, outer);
      h + Marks(items[1..], base + |h|, outer)
  }

  function MarksOf(item: Stmt, base: nat, outer: Option<nat>): (ms: seq<Mark>)
    ensures |ms| > 0 && ms[0].btry == outer
    decreases item
  {
    match item
    case Plain => [Mark(false, outer)]
    case TryStmt(body) => [Mark(true, outer)] + Marks(body, base + 1, Some(base))
  }

  /** Something follows every try in its own list: a catch or finally block always does. */
  predicate TriesHandled(items: seq<Stmt>)
    decreases items
  {
    items == [] || (ItemHandled(items[0]) && (items[0].TryStmt? ==> |items| > 1) && TriesHandled(items[1..]))
  }

  predicate ItemHandled(item: Stmt)
    decreases item
  {
    item.TryStmt? ==> TriesHandled(item.body)
  }

  // ----- the shape of the marks -----

  /** Guards are `outer` or lie inside the list itself. */
  predicate GuardedWithin(ms: seq<Mark>, base: nat, outer: Option<nat>) {
    forall r :: 0 <= r < |ms| ==> MarkWithin(ms, base, outer, r)
  }

  predicate MarkWithin(ms: seq<Mark>, base: nat, outer: Option<nat>, r: nat)
    requires r < |ms|
  {
    var b := ms[r].btry;
    b == outer || (b.Some? && base <= b.value < base + r && ms[b.value - base].isTry)
  }

  /** q ends the range of the try block p: everything between is guarded from p on, nothing else by p. */
  predicate Ends(ms: seq<Mark>, base: nat, p: nat, q: nat) {
    && p < q < |ms| && ms[q].btry == ms[p].btry
    && (forall r :: p < r < q ==> ms[r].btry.Some? && base + p <= ms[r].btry.value)
    && (forall r :: 0 <= r < |ms| && !(p < r < q) ==> ms[r].btry != Some(base + p))
  }

  ghost predicate AllEnd(ms: seq<Mark>, base: nat) {
    forall p :: 0 <= p < |ms| && ms[p].isTry ==> exists q: nat :: Ends(ms, base, p, q)
  }

  /** No mark is guarded by a block at positions lo .. hi. */
  predicate Avoids(ms: seq<Mark>, lo: nat, hi: nat) {
    forall r :: 0 <= r < |ms| ==> ms[r].btry.Some? ==> !(lo <= ms[r].btry.value < hi)
  }

  lemma EndsInContext(pre: seq<Mark>, ms: seq<Mark>, post: seq<Mark>, base: nat, p: nat, q: nat)
    requires Ends(ms, base + |pre|, p, q)
    requires Avoids(pre, base + |pre|, base + |pre| + |ms|) && Avoids(post, base + |pre|, base + |pre| + |ms|)
    ensures Ends(pre + ms + post, base, |pre| + p, |pre| + q)
  {
    var all, n := pre + ms + post, |pre|;
    forall r | n + p < r < n + q ensures all[r].btry.Some? && base + (n + p) <= all[r].btry.value {
      assert all[r] == ms[r - n];
    }
    forall r | 0 <= r < |all| && !(n + p < r < n + q) ensures all[r].btry != Some(base + (n + p)) {
      if r < n {
        assert all[r] == pre[r];
      } else if r < n + |ms| {
        assert all[r] == ms[r - n];
      } else {
        assert all[r] == post[r - n - |ms|];
      }
    }
  }

  lemma AvoidsAbove(ms: seq<Mark>, base: nat, outer: Option<nat>, lo: nat, hi: nat)
    requires GuardedWithin(ms, base, outer) && (outer.Some? ==> outer.value < base) && base + |ms| <= lo
    ensures Avoids(ms, lo, hi)
  {
    forall r | 0 <= r < |ms| && ms[r].btry.Some? ensures !(lo <= ms[r].btry.value < hi) {
      assert MarkWithin(ms, base, outer, r);
    }
  }

  lemma AvoidsBelow(ms: seq<Mark>, base: nat, outer: Option<nat>, lo: nat, hi: nat)
    requires GuardedWithin(ms, base, outer) && (outer.Some? ==> outer.value < lo) && hi <= base
    ensures Avoids(ms, lo, hi)
  {
    forall r | 0 <= r < |ms| && ms[r].btry.Some? ensures !(lo <= ms[r].btry.value < hi) {
      assert MarkWithin(ms, base, outer, r);
    }
  }

  lemma GuardedConcat(h: seq<Mark>, t: seq<Mark>, base: nat, outer: Option<nat>)
    requires GuardedWithin(h, base, outer) && GuardedWithin(t, base + |h|, outer)
    ensures GuardedWithin(h + t, base, outer)
  {
    forall r | 0 <= r < |h + t| ensures MarkWithin(h + t, base, outer, r) {
      if r < |h| {
        assert MarkWithin(h, base, outer, r) && (h + t)[r] == h[r];
      } else {
        assert MarkWithin(t, base + |h|, outer, r - |h|) && (h + t)[r] == t[r - |h|];
      }
    }
  }

  lemma {:induction false} MarksGuarded(items: seq<Stmt>, base: nat, outer: Option<nat>)
    requires outer.Some? ==> outer.value < base
    ensures GuardedWithin(Marks(items, base, outer), base, outer)
    decreases items
  {
    if items != [] {
      var h := MarksOf(items[0], base, outer);
      ItemGuarded(items[0], base, outer);
      MarksGuarded(items[1..], base + |h|, outer);
      GuardedConcat(h, Marks(items[1..], base + |h|, outer), base, outer);
    }
  }

  lemma {:induction false} ItemGuarded(item: Stmt, base: nat, outer: Option<nat>)
    requires outer.Some? ==> outer.value < base
    ensures GuardedWithin(MarksOf(item, base, outer), base, outer)
    decreases item
  {
    if item.TryStmt? {
      var body, ms := Marks(item.body, base + 1, Some(base)), MarksOf(item, base, outer);
      MarksGuarded(item.body, base + 1, Some(base));
      forall r | 1 <= r < |ms| ensures MarkWithin(ms, base, outer, r) {
        assert MarkWithin(body, base + 1, Some(base), r - 1) && ms[r] == body[r - 1];
      }
    }
  }

  lemma {:induction false} MarksEnd(items: seq<Stmt>, base: nat, outer: Option<nat>)
    requires TriesHandled(items) && (outer.Some? ==> outer.value < base)
    ensures AllEnd(Marks(items, base, outer), base)
    decreases items
  {
    if items != [] {
      var h := MarksOf(items[0], base, outer);
      var t := Marks(items[1..], base + |h|, outer);
      ItemGuarded(items[0], base, outer);
      MarksEnd(items[1..], base + |h|, outer);
      AvoidsAbove(h, base, outer, base + |h|, base + |h| + |t|);
      var all: seq<Mark> := h + t;
      forall p | 0 <= p < |all| && all[p].isTry ensures exists q: nat :: Ends(all, base, p, q) {
        if p >= |h| {
          assert t[p - |h|].isTry;
          var q: nat :| Ends(t, base + |h|, p - |h|, q);
          EndsInContext(h, t, [], base, p - |h|, q);
          assert h + t + [] == all;
        } else {
          EndsInItem(items, base, outer, p);
        }
      }
    }
  }

  lemma {:induction false} EndsInItem(items: seq<Stmt>, base: nat, outer: Option<nat>, p: nat)
    requires TriesHandled(items) && (outer.Some? ==> outer.value < base) && items != []
    requires p < |MarksOf(items[0], base, outer)| && MarksOf(items[0], base, outer)[p].isTry
    ensures exists q: nat :: Ends(Marks(items, base, outer), base, p, q)
    decreases items, 0
  {
    var body := Marks(items[0].body, base + 1, Some(base));
    var t := Marks(items[1..], base + 1 + |body|, outer);
    MarksGuarded(items[1..], base + 1 + |body|, outer);
    MarksGuarded(items[0].body, base + 1, Some(base));
    TryMarks(items, base, outer);
    MarksEnd(items[0].body, base + 1, Some(base));
    assert items[1..] != [] && t[0].btry == outer;
    TryEnds(body, t, base, outer, p);
  }

  lemma TryMarks(items: seq<Stmt>, base: nat, outer: Option<nat>)
    requires items != [] && items[0].TryStmt?
    ensures var body := Marks(items[0].body, base + 1, Some(base));
      && MarksOf(items[0], base, outer) == [Mark(true, outer)] + body
      && Marks(items, base, outer) == [Mark(true, outer)] + body + Marks(items[1..], base + 1 + |body|, outer)
  {
  }

  lemma TryEnds(body: seq<Mark>, t: seq<Mark>, base: nat, outer: Option<nat>, p: nat)
    requires t != [] && t[0].btry == outer && (outer.Some? ==> outer.value < base)
    requires GuardedWithin(body, base + 1, Some(base)) && GuardedWithin(t, base + 1 + |body|, outer)
    requires AllEnd(body, base + 1) && p <= |body| && (p > 0 ==> body[p - 1].isTry)
    ensures var all: seq<Mark> := [Mark(true, outer)] + body + t; exists q: nat :: Ends(all, base, p, q)
  {
    if p == 0 {
      HeaderEnds(body, t, base, outer);
    } else {
      BodyEnds(body, t, base, outer, p);
    }
  }

  lemma BodyEnds(body: seq<Mark>, t: seq<Mark>, base: nat, outer: Option<nat>, p: nat)
    requires 0 < p <= |body| && body[p - 1].isTry && AllEnd(body, base + 1)
    requires (outer.Some? ==> outer.value < base) && GuardedWithin(t, base + 1 + |body|, outer)
    ensures var all: seq<Mark> := [Mark(true, outer)] + body + t; exists q: nat :: Ends(all, base, p, q)
  {
    var q: nat :| Ends(body, base + 1, p - 1, q);
    AvoidsBelow(t, base + 1 + |body|, outer, base + 1, base + 1 + |body|);
    EndsInContext([Mark(true, outer)], body, t, base, p - 1, q);
  }

  lemma HeaderEnds(body: seq<Mark>, t: seq<Mark>, base: nat, outer: Option<nat>)
    requires t != [] && t[0].btry == outer && (outer.Some? ==> outer.value < base)
    requires GuardedWithin(body, base + 1, Some(base)) && GuardedWithin(t, base + 1 + |body|, outer)
    ensures Ends([Mark(true, outer)] + body + t, base, 0, 1 + |body|)
  {
    var all, q: nat := [Mark(true, outer)] + body + t, 1 + |body|;
    assert all[q] == t[0];
    forall r | 0 < r < q ensures all[r].btry.Some? && base <= all[r].btry.value {
      assert MarkWithin(body, base + 1, Some(base), r - 1) && all[r] == body[r - 1];
    }
    forall r | q <= r < |all| ensures all[r].btry != Some(base) {
      assert MarkWithin(t, base + 1 + |body|, outer, r - q) && all[r] == t[r - q];
    }
  }

  // ----- the guard ranges -----

  /** The block list has the marks of a statement list, try blocks record the scope index of the one
      around them, and blocks follow each other in the code. */
  predicate Serialises(blocks: seq<Block>, items: seq<Stmt>) {
    var ms := Marks(items, 0, None);
    && |blocks| == |ms| && TriesHandled(items)
    && (forall r :: 0 <= r < |blocks| ==> IsTry(blocks[r]) == ms[r].isTry && blocks[r].btry == ms[r].btry)
    && (forall r :: 0 <= r < |blocks| && IsTry(blocks[r]) ==>
          blocks[r].lastIndex ==
            (if ms[r].btry.Some? && ms[r].btry.value < |blocks| then blocks[ms[r].btry.value].scopeIndex else -1))
    && (forall r, s :: 0 <= r <= s < |blocks| ==> blocks[r].offset <= blocks[s].offset)
  }

  lemma {:induction false} EndIsEnd(blocks: seq<Block>, items: seq<Stmt>, p: nat)
    requires Serialises(blocks, items) && p < |blocks| && IsTry(blocks[p])
    ensures EndBlock(blocks, p, p + 1).Some? && Ends(Marks(items, 0, None), 0, p, EndBlock(blocks, p, p + 1).value)
  {
    var ms := Marks(items, 0, None);
    MarksEnd(items, 0, None);
    MarksGuarded(items, 0, None);
    assert ms[p].isTry;
    var q: nat :| Ends(ms, 0, p, q);
    assert MarkWithin(ms, 0, None, p);
    forall r | p < r < q ensures blocks[r].btry != blocks[p].btry {
      assert ms[r].btry.Some? && p <= ms[r].btry.value;
    }
    assert blocks[q].btry == blocks[p].btry;
  }

  /** Where the guarded range of block p ends in the list. */
  function End(blocks: seq<Block>, p: nat): nat
    requires p < |blocks|
  {
    var e := EndBlock(blocks, p, p + 1);
    if e.Some? then e.value else |blocks|
  }

  /** Ranges nest or are disjoint, and lie inside the range of the try block around them. */
  lemma {:induction false} RangesNest(blocks: seq<Block>, items: seq<Stmt>, p: nat, r: nat)
    requires Serialises(blocks, items) && p < r < |blocks| && IsTry(blocks[p]) && IsTry(blocks[r])
    ensures End(blocks, p) <= r || End(blocks, r) <= End(blocks, p)
    ensures blocks[r].btry == Some(p) ==> End(blocks, r) <= End(blocks, p)
  {
    var ms, q := Marks(items, 0, None), End(blocks, p);
    EndIsEnd(blocks, items, p);
    EndIsEnd(blocks, items, r);
    MarksGuarded(items, 0, None);
    assert MarkWithin(ms, 0, None, p);
    assert ms[q].btry == ms[p].btry;
    assert ms[r].btry == blocks[r].btry;
  }

  // ----- as the reader sees it -----

  lemma RangeOf(out: seq<Cell>, blocks: seq<Block>, items: seq<Stmt>, ptr: Ptr, spoff: int, retoffset: int, p: nat)
    requires Fits(blocks) && Sized(blocks, ptr) && Layout(out, blocks, ptr, spoff, retoffset)
    requires Serialises(blocks, items) && p < |blocks| && IsTry(blocks[p])
    ensures var g := ReadGuard(out, ptr, blocks[p].scopeIndex);
      !g.Gap? && g.start == Offset(blocks, p) && End(blocks, p) < |blocks| && g.end == Offset(blocks, End(blocks, p))
      && g.parent == blocks[p].lastIndex
  {
    RoundTrip(out, blocks, ptr, spoff, retoffset);
  }

  /** Any two guard ranges of the table are nested or disjoint. */
  lemma TableRangesLaminar(
      out: seq<Cell>, blocks: seq<Block>, items: seq<Stmt>, ptr: Ptr, spoff: int, retoffset: int, p: nat, r: nat)
    requires Fits(blocks) && Sized(blocks, ptr) && Layout(out, blocks, ptr, spoff, retoffset)
    requires Serialises(blocks, items) && p < r < |blocks| && IsTry(blocks[p]) && IsTry(blocks[r])
    ensures var g, h := ReadGuard(out, ptr, blocks[p].scopeIndex), ReadGuard(out, ptr, blocks[r].scopeIndex);
      !g.Gap? && !h.Gap? && (g.end <= h.start || (g.start <= h.start && h.end <= g.end))
  {
    RangeOf(out, blocks, items, ptr, spoff, retoffset, p);
    RangeOf(out, blocks, items, ptr, spoff, retoffset, r);
    RangesNest(blocks, items, p, r);
  }

  /** The parent index of a guard is -1, or that of a guard whose range contains its own. */
  lemma TableParentContains(
      out: seq<Cell>, blocks: seq<Block>, items: seq<Stmt>, ptr: Ptr, spoff: int, retoffset: int, r: nat)
    requires Fits(blocks) && Sized(blocks, ptr) && Layout(out, blocks, ptr, spoff, retoffset)
    requires Serialises(blocks, items) && r < |blocks| && IsTry(blocks[r])
    ensures var h := ReadGuard(out, ptr, blocks[r].scopeIndex);
      !h.Gap? && (h.parent == -1 <==> blocks[r].btry == None)
    ensures var h := ReadGuard(out, ptr, blocks[r].scopeIndex);
      h.parent >= 0 ==>
        var g := ReadGuard(out, ptr, h.parent);
        !g.Gap? && g.start <= h.start && h.end <= g.end
  {
    RangeOf(out, blocks, items, ptr, spoff, retoffset, r);
    MarksGuarded(items, 0, None);
    assert MarkWithin(Marks(items, 0, None), 0, None, r);
    if blocks[r].btry.Some? {
      var t := blocks[r].btry.value;
      assert IsTry(blocks[t]) && TryFits(blocks, t);
      RangeOf(out, blocks, items, ptr, spoff, retoffset, t);
      RangesNest(blocks, items, t, r);
    }
  }
}
