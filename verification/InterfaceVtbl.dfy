/** class.c: how an interface's vtbl[] is put together from those of its bases
    (`InterfaceDeclaration::semantic`), and why a shared slot serves all interfaces of a chain. */
module InterfaceVtbl {
  import opened Wrappers
  import opened Root
  import opened ClassLayout
  import opened ClassCasts

  /** Slot 0 of a non-COM interface is the interface itself; everything else is a function. */
  datatype Entry = Info(d: nat) | Func(id: nat)

  /** `own[d]` are the functions interface d adds; `iunknown` the interfaces that are COM by name. */
  datatype Interfaces = Interfaces(prog: Program, own: seq<seq<nat>>, iunknown: set<nat>)

  ghost predicate Fits(w: Interfaces) {
    Acyclic(w.prog) && |w.own| == |w.prog|
  }

  /** COM is inherited from any base (interfaceSemantic). */
  function IsCom(w: Interfaces, d: nat, j: nat := 0): bool
    requires Fits(w) && d < |w.prog| && j <= |w.prog[d].interfaces|
    decreases d, |w.prog[d].interfaces| - j
  {
    assert WellBased(w.prog, d);
    if j == |w.prog[d].interfaces| then d in w.iunknown
    else IsCom(w, w.prog[d].interfaces[j]) || IsCom(w, d, j + 1)
  }

  /** `vtblOffset`. */
  function VtblOffset(w: Interfaces, d: nat): nat
    requires Fits(w) && d < |w.prog|
  {
    if IsCom(w, d) then 0 else 1
  }

  /** What the bases from j on contribute: all of a COM vtbl, all but slot 0 of another. */
  function FromBases(w: Interfaces, d: nat, j: nat): seq<Entry>
    requires Fits(w) && d < |w.prog| && j <= |w.prog[d].interfaces|
    decreases d, 0, |w.prog[d].interfaces| - j
  {
    assert WellBased(w.prog, d);
    if j == |w.prog[d].interfaces| then []
    else
      var b := w.prog[d].interfaces[j];
      Vtbl(w, b)[VtblOffset(w, b)..] + FromBases(w, d, j + 1)
  }

  function Funcs(ids: seq<nat>): seq<Entry> {
    seq(|ids|, i requires 0 <= i < |ids| => Func(ids[i]))
  }

  function Vtbl(w: Interfaces, d: nat): (v: seq<Entry>)
    requires Fits(w) && d < |w.prog|
    ensures |v| >= VtblOffset(w, d)
    decreases d, 1
  {
    (if IsCom(w, d) then [] else [Info(d)]) + FromBases(w, d, 0) + Funcs(w.own[d])
  }

  /** The vtbl[] of interface d, given those of its bases; the members come last. */
  method BuildVtbl(w: Interfaces, d: nat) returns (vtbl: seq<Entry>)
    requires Fits(w) && d < |w.prog|
    ensures vtbl == Vtbl(w, d)
    decreases d
  {
    assert WellBased(w.prog, d);
    vtbl := [];
    if VtblOffset(w, d) != 0 {
      vtbl := vtbl + [Info(d)];
    }
    ghost var slot0 := vtbl;
    for i := 0 to |w.prog[d].interfaces|
      invariant vtbl + FromBases(w, d, i) == slot0 + FromBases(w, d, 0)
    {
      var b := w.prog[d].interfaces[i];
      var base := BuildVtbl(w, b);
      ghost var before := vtbl;
      if VtblOffset(w, b) != 0 {
        for j := 1 to |base|
          invariant vtbl == before + base[1..j]
        {
          vtbl := vtbl + [base[j]];
        }
      } else {
        vtbl := vtbl + base;
      }
      assert base[..] == base;
      assert vtbl == before + base[VtblOffset(w, b)..];
      Append2(before, base[VtblOffset(w, b)..], FromBases(w, d, i + 1));
    }
    assert vtbl + [] == vtbl;
    vtbl := vtbl + Funcs(w.own[d]);
  }

  /** How many functions the bases before j have. */
  function FunctionsBefore(w: Interfaces, d: nat, j: nat): nat
    requires Fits(w) && d < |w.prog| && j <= |w.prog[d].interfaces|
  {
    if j == 0 then 0
    else
      assert WellBased(w.prog, d);
      var b := w.prog[d].interfaces[j - 1];
      FunctionsBefore(w, d, j - 1) + (|Vtbl(w, b)| - VtblOffset(w, b))
  }

  lemma {:induction false} BasesFrom(w: Interfaces, d: nat, j: nat, k: nat)
    requires Fits(w) && d < |w.prog| && j <= k <= |w.prog[d].interfaces|
    ensures FunctionsBefore(w, d, j) + |FromBases(w, d, j)| == FunctionsBefore(w, d, k) + |FromBases(w, d, k)|
    ensures var n := FunctionsBefore(w, d, k) - FunctionsBefore(w, d, j);
      0 <= n <= |FromBases(w, d, j)| && FromBases(w, d, j)[n..] == FromBases(w, d, k)
    decreases k - j
  {
    if j < k {
      assert WellBased(w.prog, d);
      BasesFrom(w, d, j + 1, k);
      var b := w.prog[d].interfaces[j];
      var part, rest := Vtbl(w, b)[VtblOffset(w, b)..], FromBases(w, d, j + 1);
      var n := FunctionsBefore(w, d, k) - FunctionsBefore(w, d, j + 1);
      assert (part + rest)[|part| + n..] == rest[n..];
    }
  }

  /** Every function of every base is there, behind those of the bases before it. */
  lemma {:induction false} BaseSlots(w: Interfaces, d: nat, j: nat, k: nat)
    requires Fits(w) && d < |w.prog| && j < |w.prog[d].interfaces|
    requires var b := w.prog[d].interfaces[j]; b < |w.prog| && VtblOffset(w, b) <= k < |Vtbl(w, b)|
    ensures var b := w.prog[d].interfaces[j];
      var s := VtblOffset(w, d) + FunctionsBefore(w, d, j) + (k - VtblOffset(w, b));
      s < |Vtbl(w, d)| && Vtbl(w, d)[s] == Vtbl(w, b)[k]
  {
    assert WellBased(w.prog, d);
    var b := w.prog[d].interfaces[j];
    var n, i, all := FunctionsBefore(w, d, j), k - VtblOffset(w, b), FromBases(w, d, 0);
    BasesFrom(w, d, 0, j);
    assert all[n..][i] == FromBases(w, d, j)[i] == Vtbl(w, b)[VtblOffset(w, b)..][i];
    InMiddle(if IsCom(w, d) then [] else [Info(d)], all, Funcs(w.own[d]), n + i);
  }

  lemma InMiddle<T>(a: seq<T>, b: seq<T>, c: seq<T>, i: nat)
    requires i < |b|
    ensures (a + b + c)[|a| + i] == b[i]
  {
  }

  /** The interface itself comes first unless it is COM, its own functions come last, in order, and there
      is nothing else. */
  lemma {:induction false} OwnSlots(w: Interfaces, d: nat)
    requires Fits(w) && d < |w.prog|
    ensures var first := VtblOffset(w, d) + FunctionsBefore(w, d, |w.prog[d].interfaces|);
      && |Vtbl(w, d)| == first + |w.own[d]|
      && (forall i :: 0 <= i < |w.own[d]| ==> Vtbl(w, d)[first + i] == Func(w.own[d][i]))
    ensures VtblOffset(w, d) == (if IsCom(w, d) then 0 else 1) && (!IsCom(w, d) ==> Vtbl(w, d)[0] == Info(d))
  {
    BasesFrom(w, d, 0, |w.prog[d].interfaces|);
  }

  /** The first base's functions come first: in the same slots when both or neither are COM, one slot
      earlier when only the derived interface is. */
  lemma {:induction false} FirstBaseSlots(w: Interfaces, d: nat, k: nat)
    requires Fits(w) && d < |w.prog| && w.prog[d].interfaces != []
    requires var b := w.prog[d].interfaces[0]; b < |w.prog| && VtblOffset(w, b) <= k < |Vtbl(w, b)|
    ensures var b := w.prog[d].interfaces[0];
      var s := k + VtblOffset(w, d) - VtblOffset(w, b);
      0 <= s < |Vtbl(w, d)| && Vtbl(w, d)[s] == Vtbl(w, b)[k]
  {
    BaseSlots(w, d, 0, k);
  }

  /** An interface is COM exactly if it or something above it is COM by name, through any of its bases. */
  lemma {:induction false} ComExactly(w: Interfaces, d: nat, j: nat)
    requires Fits(w) && d < |w.prog| && w.prog[d].isInterface && j <= |w.prog[d].interfaces|
    ensures IsCom(w, d, j) <==> d in w.iunknown || exists t :: t in w.iunknown && Reaches(w.prog, t, d, j)
    decreases d, |w.prog[d].interfaces| - j
  {
    assert WellBased(w.prog, d);
    if j < |w.prog[d].interfaces| {
      ComExactly(w, w.prog[d].interfaces[j], 0);
      ComExactly(w, d, j + 1);
    }
  }

  lemma {:induction false} FirstReachesInterfaces(prog: Program, target: nat, d: nat)
    requires Acyclic(prog) && d < |prog| && FirstReaches(prog, target, d)
    ensures target < d && prog[target].isInterface
  {
    assert WellBased(prog, d);
    if prog[d].interfaces[0] != target {
      FirstReachesInterfaces(prog, target, prog[d].interfaces[0]);
    }
  }

  lemma {:induction false} ComIsInherited(w: Interfaces, target: nat, d: nat)
    requires Fits(w) && d < |w.prog| && target < |w.prog| && FirstReaches(w.prog, target, d) && IsCom(w, target)
    ensures IsCom(w, d)
  {
    assert WellBased(w.prog, d);
    if w.prog[d].interfaces[0] != target {
      ComIsInherited(w, target, w.prog[d].interfaces[0]);
    }
  }

  /** A function of the target is in the vtbl[] of every interface the target is reached from along
      first bases, moved by the difference of the reserved slots. */
  lemma {:induction false} ChainSlots(w: Interfaces, target: nat, d: nat, k: nat)
    requires Fits(w) && d < |w.prog| && target < |w.prog| && FirstReaches(w.prog, target, d)
    requires VtblOffset(w, target) <= k < |Vtbl(w, target)|
    ensures var s := k + VtblOffset(w, d) - VtblOffset(w, target);
      VtblOffset(w, d) <= s < |Vtbl(w, d)| && Vtbl(w, d)[s] == Vtbl(w, target)[k]
  {
    assert WellBased(w.prog, d);
    var b := w.prog[d].interfaces[0];
    if b == target {
      FirstBaseSlots(w, d, k);
    } else {
      ChainSlots(w, target, b, k);
      FirstBaseSlots(w, d, k + VtblOffset(w, b) - VtblOffset(w, target));
    }
  }

  /** A call through the vtbl[] of d finds the function that slot k of the target's holds. */
  predicate SlotShared(w: Interfaces, target: nat, d: nat, k: nat)
    requires Fits(w) && d < |w.prog| && target < |w.prog| && k < |Vtbl(w, target)|
  {
    k < |Vtbl(w, d)| && Vtbl(w, d)[k] == Vtbl(w, target)[k]
  }

  predicate Once(v: seq<Entry>, e: Entry) {
    forall i, j :: 0 <= i < j < |v| ==> v[i] != e || v[j] != e
  }

  /** One vtbl pointer serves a whole chain: a function that d has once is in the same slot in the
      target and in d exactly if both or neither are COM. */
  lemma {:induction false} ChainSharesVtbl(w: Interfaces, target: nat, d: nat, k: nat)
    requires Fits(w) && d < |w.prog| && target < |w.prog| && FirstReaches(w.prog, target, d)
    requires VtblOffset(w, target) <= k < |Vtbl(w, target)|
    ensures IsCom(w, d) == IsCom(w, target) ==> SlotShared(w, target, d, k)
    ensures Once(Vtbl(w, d), Vtbl(w, target)[k]) ==>
      (SlotShared(w, target, d, k) <==> IsCom(w, d) == IsCom(w, target))
  {
    ChainSlots(w, target, d, k);
  }

  /** Where functions may occur more than once, two different ones at the start of the target's vtbl[]
      tell: all its functions are in the same slots exactly if both or neither are COM. */
  lemma {:induction false} WholeChainSharesVtbl(w: Interfaces, target: nat, d: nat)
    requires Fits(w) && d < |w.prog| && target < |w.prog| && FirstReaches(w.prog, target, d)
    requires var v, o := Vtbl(w, target), VtblOffset(w, target); o + 1 < |v| && v[o] != v[o + 1]
    ensures (forall k :: VtblOffset(w, target) <= k < |Vtbl(w, target)| ==> SlotShared(w, target, d, k)) <==>
      IsCom(w, d) == IsCom(w, target)
  {
    var o := VtblOffset(w, target);
    ChainSlots(w, target, d, o);
    ChainSlots(w, target, d, o + 1);
    if IsCom(w, d) == IsCom(w, target) {
      forall k | o <= k < |Vtbl(w, target)| ensures SlotShared(w, target, d, k) {
        ChainSharesVtbl(w, target, d, k);
      }
    } else {
      if IsCom(w, target) {
        ComIsInherited(w, target, d);
      }
      assert !SlotShared(w, target, d, o);
    }
  }

  /** A plain interface 0 with the functions 10 and 11, IUnknown as interface 1, and an interface that
      inherits from both. */
  function PlainBeforeUnknown(): Interfaces {
    var plain, unknown := Decl(true, None, []), Decl(true, None, []);
    Interfaces([plain, unknown, Decl(true, None, [0, 1])], [[10, 11], [], []], {1})
  }

  /** The vtbl[] that serves both interface 2 and its first base has function 11 where a call through
      the first base expects function 10: COM-ness came from the second base. */
  lemma {:induction false} SecondBaseMovesSlots(w: Interfaces)
    requires w == PlainBeforeUnknown()
    ensures Fits(w) && FirstReaches(w.prog, 0, 2) && !IsCom(w, 0) && IsCom(w, 2)
    ensures Vtbl(w, 0) == [Info(0), Func(10), Func(11)] && Vtbl(w, 2) == [Func(10), Func(11)]
    ensures !SlotShared(w, 0, 2, 1)
  {
    forall d | 0 <= d < |w.prog| ensures WellBased(w.prog, d) {
    }
    assert WellBased(w.prog, 0) && WellBased(w.prog, 1) && WellBased(w.prog, 2);
    assert !IsCom(w, 0) && IsCom(w, 1);
    assert IsCom(w, 2, 1) && IsCom(w, 2);
    assert FromBases(w, 0, 0) == [] && FromBases(w, 1, 0) == [];
    assert Funcs([10, 11]) == [Func(10), Func(11)] && Funcs([]) == [];
    assert Vtbl(w, 0) == [Info(0)] + [] + Funcs([10, 11]);
    assert [Info(0)] + [] + [Func(10), Func(11)] == [Info(0), Func(10), Func(11)];
    assert Vtbl(w, 1) == [] + [] + Funcs([]);
    assert FromBases(w, 2, 2) == [];
    assert FromBases(w, 2, 1) == [] + [];
    assert FromBases(w, 2, 0) == [Func(10), Func(11)] + [];
    assert Vtbl(w, 2) == [] + FromBases(w, 2, 0) + Funcs([]);
  }
}
