/** class.c: `InterfaceDeclaration::isBaseOf`, and why the cast that e2ir.c makes from its answer is
    right. */
module ClassCasts {
  import opened Wrappers
  import opened ClassLayout

  // ----- what the slots are worth -----

  lemma {:induction false} HeadsHead(nodes: seq<BaseClass>, places: seq<Place>, x: nat)
    requires Chained(nodes, places) && x < |nodes|
    ensures places[x].head in Heads(places, 0, |nodes|)
    decreases x
  {
    assert PlaceFits(nodes, places, x);
    if places[x].level > 0 {
      HeadsHead(nodes, places, places[x].above);
    }
  }

  /** After slot allocation every node has an aligned pointer slot of its own chain above what was laid
      out before and inside the instance; two nodes share a slot exactly when they share a chain, and
      otherwise their slots do not overlap. */
  lemma SlotsSeparate(
      nodes: seq<BaseClass>, places: seq<Place>, chains: seq<nat>, offset: nat, ptr: Ptr,
      structsize: nat, x: nat, y: nat)
    requires Chained(nodes, places) && Lists(chains, Heads(places, 0, |nodes|)) && x < |nodes| && y < |nodes|
    requires SlotsAssigned(nodes, places, chains, |chains|, offset, ptr)
    requires structsize == if chains == [] then offset else Slot(offset, ptr, |chains|)
    ensures nodes[x].offset % ptr == 0 && offset <= nodes[x].offset && nodes[x].offset + ptr <= structsize
    ensures nodes[x].offset == nodes[y].offset <==> places[x].head == places[y].head
    ensures nodes[x].offset != nodes[y].offset ==>
      nodes[x].offset + ptr <= nodes[y].offset || nodes[y].offset + ptr <= nodes[x].offset
    ensures nodes[x].dim > 0 ==> nodes[x].first < |nodes| && nodes[nodes[x].first].offset == nodes[x].offset
  {
    var k := ChainOf(nodes, places, chains, offset, ptr, x);
    var l := ChainOf(nodes, places, chains, offset, ptr, y);
    SlotAligned(offset, ptr, k);
    assert k < l || k == l || l < k;
    assert PlaceFits(nodes, places, x);
    if nodes[x].dim > 0 {
      var f := ChainOf(nodes, places, chains, offset, ptr, nodes[x].first);
    }
  }

  lemma ChainOf(nodes: seq<BaseClass>, places: seq<Place>, chains: seq<nat>, offset: nat, ptr: Ptr,
      x: nat) returns (k: nat)
    requires Chained(nodes, places) && Lists(chains, Heads(places, 0, |nodes|)) && x < |nodes|
    requires SlotsAssigned(nodes, places, chains, |chains|, offset, ptr)
    ensures k < |chains| && chains[k] == places[x].head && nodes[x].offset == Slot(offset, ptr, k)
  {
    HeadsHead(nodes, places, x);
    k :| k < |chains| && chains[k] == places[x].head;
    assert SlotFits(nodes, places, chains, |chains|, offset, ptr, x);
  }

  // ----- the search -----

  const OFFSET_RUNTIME := 0x76543210

  /** Every declaration has unfolded its interfaces, first children share the offset of the node above,
      and interfaces, which have no instances, have given no offsets. */
  ghost predicate LaidOut(prog: Program, world: World) {
    Acyclic(prog) && |world| == |prog| && forall d :: 0 <= d < |prog| ==> LaidOutAt(prog, world[d], d)
  }

  ghost predicate LaidOutAt(prog: Program, nodes: seq<BaseClass>, d: nat)
    requires Acyclic(prog) && d < |prog|
  {
    Unfolded(prog, nodes, d) && SharesDown(nodes) && (prog[d].isInterface ==> NoOffsets(nodes))
  }

  predicate SharesDown(nodes: seq<BaseClass>) {
    forall x :: 0 <= x < |nodes| && nodes[x].dim > 0 ==>
      nodes[x].first < |nodes| && nodes[nodes[x].first].offset == nodes[x].offset
  }

  /** What the search makes of an offset found through base j of an interface. */
  function Through(j: nat, isInterface: bool, offset: int): int {
    if j > 0 && isInterface then OFFSET_RUNTIME else offset
  }

  /** `isBaseOf` on a node, from its child j on. */
  function Search(prog: Program, nodes: seq<BaseClass>, target: nat, x: nat, j: nat): Option<int>
    requires Acyclic(prog) && x < |nodes| && Copied(prog, nodes, x, 0) && j <= nodes[x].dim
    decreases nodes[x].base, nodes[x].dim - j
  {
    if j == nodes[x].dim then None
    else
      assert CopiedChild(prog, nodes, x, 0, j) && WellBased(prog, nodes[x].base);
      var c, inter := nodes[x].first + j, prog[nodes[x].base].isInterface;
      if nodes[c].base == target then Some(Through(j, inter, nodes[c].offset))
      else
        match Search(prog, nodes, target, c, 0)
        case Some(o) => Some(Through(j, inter, o))
        case None => Search(prog, nodes, target, x, j + 1)
  }

  /** `isBaseOf` on a declaration, from its interface j on; then its base class. */
  function SearchDecl(prog: Program, world: World, target: nat, d: nat, j: nat): Option<int>
    requires LaidOut(prog, world) && d < |prog| && j <= |prog[d].interfaces|
    decreases d, |prog[d].interfaces| - j
  {
    assert WellBased(prog, d) && LaidOutAt(prog, world[d], d);
    if j == |prog[d].interfaces| then
      if prog[d].baseClass.Some? then SearchDecl(prog, world, target, prog[d].baseClass.value, 0) else None
    else if world[d][j].base == target then Some(Through(j, prog[d].isInterface, world[d][j].offset))
    else
      match Search(prog, world[d], target, j, 0)
      case Some(o) => Some(Through(j, prog[d].isInterface, o))
      case None => SearchDecl(prog, world, target, d, j + 1)
  }

  /** The result and `*poffset` of a search. */
  predicate Answers(found: bool, poffset: int, r: Option<int>) {
    found == r.Some? && poffset == if r.Some? then r.value else 0
  }

  method IsBaseOfNode(prog: Program, nodes: seq<BaseClass>, target: nat, bc: nat) returns (found: bool, poffset: int)
    requires Acyclic(prog) && bc < |nodes| && Copied(prog, nodes, bc, 0)
    ensures Answers(found, poffset, Search(prog, nodes, target, bc, 0))
    decreases nodes[bc].base
  {
    for j := 0 to nodes[bc].dim
      invariant Search(prog, nodes, target, bc, j) == Search(prog, nodes, target, bc, 0)
    {
      assert CopiedChild(prog, nodes, bc, 0, j) && WellBased(prog, nodes[bc].base);
      var b := nodes[bc].first + j;
      if target == nodes[b].base {
        poffset := nodes[b].offset;
        if j != 0 && prog[nodes[bc].base].isInterface {
          poffset := OFFSET_RUNTIME;
        }
        return true, poffset;
      }
      found, poffset := IsBaseOfNode(prog, nodes, target, b);
      if found {
        if j != 0 && prog[nodes[bc].base].isInterface {
          poffset := OFFSET_RUNTIME;
        }
        return true, poffset;
      }
    }
    return false, 0;
  }

  method IsBaseOf(prog: Program, world: World, target: nat, cd: nat) returns (found: bool, poffset: int)
    requires LaidOut(prog, world) && cd < |prog|
    ensures Answers(found, poffset, SearchDecl(prog, world, target, cd, 0))
    decreases cd
  {
    assert WellBased(prog, cd) && LaidOutAt(prog, world[cd], cd);
    for j := 0 to |prog[cd].interfaces|
      invariant SearchDecl(prog, world, target, cd, j) == SearchDecl(prog, world, target, cd, 0)
    {
      if target == world[cd][j].base {
        poffset := world[cd][j].offset;
        if j != 0 && prog[cd].isInterface {
          poffset := OFFSET_RUNTIME;
        }
        return true, poffset;
      }
      found, poffset := IsBaseOfNode(prog, world[cd], target, j);
      if found {
        if j != 0 && prog[cd].isInterface {
          poffset := OFFSET_RUNTIME;
        }
        return true, poffset;
      }
    }
    if prog[cd].baseClass.Some? {
      found, poffset := IsBaseOf(prog, world, target, prog[cd].baseClass.value);
      if found {
        return true, poffset;
      }
    }
    return false, 0;
  }

  // ----- what it finds -----

  /** `target` is an interface strictly above declaration d, from its interface j on. */
  predicate Reaches(prog: Program, target: nat, d: nat, j: nat)
    requires Acyclic(prog) && d < |prog| && j <= |prog[d].interfaces|
    decreases d, |prog[d].interfaces| - j
  {
    assert WellBased(prog, d);
    if j == |prog[d].interfaces| then
      prog[d].baseClass.Some? && Reaches(prog, target, prog[d].baseClass.value, 0)
    else
      prog[d].interfaces[j] ==
        target || Reaches(prog, target, prog[d].interfaces[j], 0) || Reaches(prog, target, d, j + 1)
  }

  /** `target` lies above interface d along first bases only. */
  predicate FirstReaches(prog: Program, target: nat, d: nat)
    requires Acyclic(prog) && d < |prog|
  {
    assert WellBased(prog, d);
    prog[d].interfaces != [] && (prog[d].interfaces[0] == target || FirstReaches(prog, target, prog[d].interfaces[0]))
  }

  lemma {:induction false} SearchReaches(prog: Program, nodes: seq<BaseClass>, target: nat, x: nat, j: nat)
    requires Acyclic(prog) && x < |nodes| && Copied(prog, nodes, x, 0) && j <= nodes[x].dim &&
      prog[nodes[x].base].isInterface
    ensures Search(prog, nodes, target, x, j).Some? <==> Reaches(prog, target, nodes[x].base, j)
    decreases nodes[x].base, nodes[x].dim - j
  {
    assert WellBased(prog, nodes[x].base);
    if j < nodes[x].dim {
      assert CopiedChild(prog, nodes, x, 0, j);
      SearchReaches(prog, nodes, target, nodes[x].first + j, 0);
      SearchReaches(prog, nodes, target, x, j + 1);
    }
  }

  /** A search succeeds exactly when the target is strictly above the source. */
  lemma {:induction false} FoundExactly(prog: Program, world: World, target: nat, d: nat, j: nat)
    requires LaidOut(prog, world) && d < |prog| && j <= |prog[d].interfaces|
    ensures SearchDecl(prog, world, target, d, j).Some? <==> Reaches(prog, target, d, j)
    decreases d, |prog[d].interfaces| - j
  {
    assert WellBased(prog, d) && LaidOutAt(prog, world[d], d);
    if j == |prog[d].interfaces| {
      if prog[d].baseClass.Some? {
        FoundExactly(prog, world, target, prog[d].baseClass.value, 0);
      }
    } else {
      SearchReaches(prog, world[d], target, j, 0);
      FoundExactly(prog, world, target, d, j + 1);
    }
  }

  /** Below an interface the search answers with an offset only if the target is on the first-child
      chain, and then the offset is that of the node the search started from. */
  lemma {:induction false} SearchFirst(prog: Program, nodes: seq<BaseClass>, target: nat, x: nat, j: nat)
    requires Acyclic(prog) && x < |nodes| && Copied(prog, nodes, x, 0) && j <= nodes[x].dim &&
      prog[nodes[x].base].isInterface
    requires SharesDown(nodes)
    ensures var r, first := Search(prog, nodes, target, x, j), j == 0 && FirstReaches(prog, target, nodes[x].base);
      (first ==> r == Some(nodes[x].offset as int)) && (!first && r.Some? ==> r.value == OFFSET_RUNTIME)
    decreases nodes[x].base, nodes[x].dim - j
  {
    assert WellBased(prog, nodes[x].base);
    if j < nodes[x].dim {
      assert CopiedChild(prog, nodes, x, 0, j);
      var c := nodes[x].first + j;
      if j == 0 {
        SearchFirst(prog, nodes, target, c, 0);
      }
      SearchFirst(prog, nodes, target, x, j + 1);
    }
  }

  /** The node for `target` on the first-child chain of x. */
  lemma {:induction false} OnChain(prog: Program, nodes: seq<BaseClass>, target: nat, x: nat) returns (y: nat)
    requires Acyclic(prog) && x < |nodes| && Copied(prog, nodes, x, 0) && FirstReaches(prog, target, nodes[x].base)
    requires SharesDown(nodes)
    ensures y < |nodes| && nodes[y].base == target && nodes[y].offset == nodes[x].offset &&
      ChainedBelow(prog, nodes, x, y)
    decreases nodes[x].base
  {
    assert CopiedChild(prog, nodes, x, 0, 0) && WellBased(prog, nodes[x].base);
    y := nodes[x].first;
    if nodes[y].base != target {
      y := OnChain(prog, nodes, target, y);
    }
  }

  /** y is reached from x by taking first children, at least once. */
  ghost predicate ChainedBelow(prog: Program, nodes: seq<BaseClass>, x: nat, y: nat)
    requires Acyclic(prog) && x < |nodes| && Copied(prog, nodes, x, 0)
    decreases nodes[x].base
  {
    nodes[x].dim > 0 &&
      (assert CopiedChild(prog, nodes, x, 0, 0) && WellBased(prog, nodes[x].base);
       nodes[x].first == y || ChainedBelow(prog, nodes, nodes[x].first, y))
  }

  // ----- the cast -----

  /** A node for `target` lies below x on its first-child chain and has the slot of x. */
  ghost predicate SharedSlot(prog: Program, nodes: seq<BaseClass>, target: nat, x: nat)
    requires Acyclic(prog) && x < |nodes| && Copied(prog, nodes, x, 0)
  {
    exists y: nat :: y < |nodes| && ChainedBelow(prog, nodes, x, y) && nodes[y].base == target &&
      nodes[y].offset == nodes[x].offset
  }

  lemma {:induction false} InterfaceSearch(prog: Program, world: World, target: nat, d: nat, j: nat)
    requires LaidOut(prog, world) && d < |prog| && prog[d].isInterface && j <= |prog[d].interfaces|
    ensures var r, first := SearchDecl(prog, world, target, d, j), j == 0 && FirstReaches(prog, target, d);
      (first ==> r == Some(0)) && (!first && r.Some? ==> r.value == OFFSET_RUNTIME)
    decreases |prog[d].interfaces| - j
  {
    assert WellBased(prog, d) && LaidOutAt(prog, world[d], d);
    if j < |prog[d].interfaces| {
      SearchFirst(prog, world[d], target, j, 0);
      InterfaceSearch(prog, world, target, d, j + 1);
    }
  }

  /** A cast from interface d to `target` has an offset known at compile time exactly when the target is
      above d along first bases; the offset is then 0, and rightly so: wherever a class holds a copy of
      d, the copy of the target on its first-child chain has the same slot. */
  lemma {:induction false} CastFromInterface(prog: Program, world: World, target: nat, d: nat)
    requires LaidOut(prog, world) && d < |prog| && prog[d].isInterface
    ensures var r := SearchDecl(prog, world, target, d, 0);
      && (r.Some? && r.value != OFFSET_RUNTIME <==> FirstReaches(prog, target, d))
      && (r.Some? && r.value != OFFSET_RUNTIME ==> r.value == 0)
    ensures FirstReaches(prog, target, d) ==>
      forall c: nat, x: nat :: c < |prog| && x < |world[c]| && world[c][x].base == d && Copied(prog, world[c], x, 0) ==>
        SharedSlot(prog, world[c], target, x)
  {
    InterfaceSearch(prog, world, target, d, 0);
    if FirstReaches(prog, target, d) {
      forall c: nat, x: nat | c < |prog| && x < |world[c]| && world[c][x].base == d && Copied(prog, world[c], x, 0)
        ensures SharedSlot(prog, world[c], target, x)
      {
        var y := OnChain(prog, world[c], target, x);
      }
    }
  }

  /** c is d or a class above it. */
  predicate AncestorClass(prog: Program, c: nat, d: nat)
    requires Acyclic(prog) && d < |prog|
  {
    assert WellBased(prog, d);
    c == d || (prog[d].baseClass.Some? && AncestorClass(prog, c, prog[d].baseClass.value))
  }

  /** A compile-time offset from class d to `target` is the slot of a node for the target, in the layout
      of d or of a base class, with which every instance of d begins. */
  lemma {:induction false} CastFromClass(prog: Program, world: World, target: nat, d: nat, j: nat) returns (c: nat,
      y: nat)
    requires LaidOut(prog, world) && d < |prog| && !prog[d].isInterface && j <= |prog[d].interfaces|
    requires var r := SearchDecl(prog, world, target, d, j); r.Some? && r.value != OFFSET_RUNTIME
    ensures AncestorClass(prog, c, d) && c < |prog| && y < |world[c]|
    ensures world[c][y].base == target && world[c][y].offset == SearchDecl(prog, world, target, d, j).value
    decreases d, |prog[d].interfaces| - j
  {
    assert WellBased(prog, d) && LaidOutAt(prog, world[d], d);
    if j == |prog[d].interfaces| {
      c, y := CastFromClass(prog, world, target, prog[d].baseClass.value, 0);
    } else if world[d][j].base == target {
      c, y := d, j;
    } else if Search(prog, world[d], target, j, 0).Some? {
      SearchFirst(prog, world[d], target, j, 0);
      c := d;
      y := OnChain(prog, world[d], target, j);
    } else {
      c, y := CastFromClass(prog, world, target, d, j + 1);
    }
  }

  /** The target is interface i, or above it; or at least above it along first bases. */
  predicate Under(prog: Program, target: nat, i: nat)
    requires Acyclic(prog) && i < |prog|
  {
    i == target || Reaches(prog, target, i, 0)
  }

  predicate FirstUnder(prog: Program, target: nat, i: nat)
    requires Acyclic(prog) && i < |prog|
  {
    i == target || FirstReaches(prog, target, i)
  }

  predicate DeclaresUnder(prog: Program, target: nat, c: nat, y: nat)
    requires Acyclic(prog) && c < |prog| && y < |prog[c].interfaces|
  {
    assert WellBased(prog, c);
    Under(prog, target, prog[c].interfaces[y])
  }

  /** Interface y of c, which is class d or one above it, is the first from d upwards that has the target. */
  ghost predicate FirstHolder(prog: Program, target: nat, d: nat, c: nat, y: nat)
    requires Acyclic(prog) && d < |prog|
  {
    && AncestorClass(prog, c, d) && c < |prog| && y < |prog[c].interfaces| && DeclaresUnder(prog, target, c, y)
    && (forall i: nat :: i < y ==> !DeclaresUnder(prog, target, c, i))
    && (forall e: nat, i: nat :: e < |prog| && Between(prog, c, e, d) && i < |prog[e].interfaces| ==>
          !DeclaresUnder(prog, target, e, i))
  }

  /** Class e is d or above it, and below c. */
  predicate Between(prog: Program, c: nat, e: nat, d: nat)
    requires Acyclic(prog) && d < |prog| && e < |prog|
  {
    e != c && AncestorClass(prog, e, d) && AncestorClass(prog, c, e)
  }

  lemma {:induction false} HolderExists(prog: Program, target: nat, d: nat, j: nat) returns (c: nat, y: nat)
    requires Acyclic(prog) && d < |prog| && j <= |prog[d].interfaces| && Reaches(prog, target, d, j)
    requires forall i: nat :: i < j ==> !DeclaresUnder(prog, target, d, i)
    ensures FirstHolder(prog, target, d, c, y)
    decreases d, |prog[d].interfaces| - j
  {
    assert WellBased(prog, d);
    if j == |prog[d].interfaces| {
      var b := prog[d].baseClass.value;
      c, y := HolderExists(prog, target, b, 0);
      AncestorsAreBelow(prog, c, b);
      forall e: nat, i: nat | e < |prog| && Between(prog, c, e, d) && i < |prog[e].interfaces|
        ensures !DeclaresUnder(prog, target, e, i)
      {
        assert e == d || Between(prog, c, e, b);
      }
    } else if DeclaresUnder(prog, target, d, j) {
      c, y := d, j;
      forall e: nat | e < |prog| && AncestorClass(prog, e, d) && AncestorClass(prog, d, e)
        ensures !Between(prog, d, e, d)
      {
        AncestorsAreBelow(prog, e, d);
        AncestorsAreBelow(prog, d, e);
      }
    } else {
      c, y := HolderExists(prog, target, d, j + 1);
    }
  }

  lemma {:induction false} AncestorsAreBelow(prog: Program, c: nat, d: nat)
    requires Acyclic(prog) && d < |prog| && AncestorClass(prog, c, d)
    ensures c <= d
  {
    assert WellBased(prog, d);
    if c != d {
      AncestorsAreBelow(prog, c, prog[d].baseClass.value);
    }
  }

  lemma {:induction false} HolderInBase(prog: Program, target: nat, d: nat, c: nat, y: nat)
    requires Acyclic(prog) && d < |prog| && FirstHolder(prog, target, d, c, y) && c != d
    ensures prog[d].baseClass.Some? && prog[d].baseClass.value < d
    ensures FirstHolder(prog, target, prog[d].baseClass.value, c, y)
    ensures forall i: nat :: i < |prog[d].interfaces| ==> !DeclaresUnder(prog, target, d, i)
  {
    assert WellBased(prog, d);
    var b := prog[d].baseClass.value;
    assert Between(prog, c, d, d);
    forall e: nat | e < |prog| && Between(prog, c, e, b) ensures Between(prog, c, e, d) {
    }
  }

  /** The search through interface j of class d. */
  lemma {:induction false} InterfaceExactly(prog: Program, world: World, target: nat, d: nat, j: nat)
    requires LaidOut(prog, world) && d < |prog| && !prog[d].isInterface && j < |prog[d].interfaces|
    ensures j < |world[d]| && world[d][j].base == prog[d].interfaces[j] < d
    ensures SearchDecl(prog, world, target, d, j) ==
      if !DeclaresUnder(prog, target, d, j) then SearchDecl(prog, world, target, d, j + 1)
      else if FirstUnder(prog, target, prog[d].interfaces[j]) then Some(world[d][j].offset)
      else Some(OFFSET_RUNTIME)
  {
    assert WellBased(prog, d) && LaidOutAt(prog, world[d], d);
    SearchReaches(prog, world[d], target, j, 0);
    SearchFirst(prog, world[d], target, j, 0);
  }

  /** From a class the offset is known exactly if the first interface that has the target has it along
      first bases, and is then the slot of that interface. */
  lemma {:induction false} CastExactly(prog: Program, world: World, target: nat, d: nat, j: nat, c: nat, y: nat)
    requires LaidOut(prog, world) && d < |prog| && !prog[d].isInterface && j <= |prog[d].interfaces|
    requires FirstHolder(prog, target, d, c, y) && (c == d ==> j <= y)
    ensures y < |world[c]| && world[c][y].base == prog[c].interfaces[y] < |prog|
    ensures SearchDecl(prog, world, target, d, j) ==
      Some(if FirstUnder(prog, target, prog[c].interfaces[y]) then world[c][y].offset else OFFSET_RUNTIME)
    decreases d, |prog[d].interfaces| - j
  {
    if c != d {
      HolderInBase(prog, target, d, c, y);
    }
    if j == |prog[d].interfaces| {
      assert WellBased(prog, d);
      CastExactly(prog, world, target, prog[d].baseClass.value, 0, c, y);
    } else {
      InterfaceExactly(prog, world, target, d, j);
      if c != d || j < y {
        CastExactly(prog, world, target, d, j + 1, c, y);
      }
    }
  }

  // ----- the layouts the passes produce are such -----

  lemma {:induction false} CopiedIgnoresOffsets(prog: Program, before: seq<BaseClass>, after: seq<BaseClass>,
      x: nat, lo: nat)
    requires Acyclic(prog) && x < |before| == |after| && Copied(prog, before, x, lo)
    requires forall y :: 0 <= y < |before| ==> after[y] == before[y].(offset := after[y].offset)
    ensures Copied(prog, after, x, lo)
    decreases before[x].base
  {
    forall j | 0 <= j < after[x].dim ensures CopiedChild(prog, after, x, lo, j) {
      assert CopiedChild(prog, before, x, lo, j) && WellBased(prog, before[x].base);
      CopiedIgnoresOffsets(prog, before, after, before[x].first + j, lo);
    }
  }

  /** Class d: what interfaceSemantic and slot allocation leave is what `LaidOut` asks for. */
  lemma AllocationLaysOut(
      prog: Program, d: nat, before: seq<BaseClass>, nodes: seq<BaseClass>, places: seq<Place>, chains: seq<nat>,
      offset: nat, ptr: Ptr)
    requires Acyclic(prog) && d < |prog| && Unfolded(prog, before, d) && |nodes| == |before|
    requires forall x :: 0 <= x < |nodes| ==> nodes[x] == before[x].(offset := nodes[x].offset)
    requires Chained(nodes, places) && Lists(chains, Heads(places, 0, |nodes|))
    requires SlotsAssigned(nodes, places, chains, |chains|, offset, ptr)
    ensures Unfolded(prog, nodes, d) && SharesDown(nodes)
  {
    forall i: nat | i < |prog[d].interfaces| ensures Copied(prog, nodes, i, 0) {
      CopiedIgnoresOffsets(prog, before, nodes, i, 0);
    }
    forall x | 0 <= x < |nodes| && nodes[x].dim > 0
      ensures nodes[x].first < |nodes| && nodes[nodes[x].first].offset == nodes[x].offset
    {
      var structsize := if chains == [] then offset else Slot(offset, ptr, |chains|);
      SlotsSeparate(nodes, places, chains, offset, ptr, structsize, x, x);
    }
  }

  /** Interface d: its nodes keep offset 0. */
  lemma InterfaceLaidOut(nodes: seq<BaseClass>, places: seq<Place>)
    requires Chained(nodes, places) && forall x :: 0 <= x < |nodes| ==> nodes[x].offset == 0
    ensures NoOffsets(nodes) && SharesDown(nodes)
  {
    forall x | 0 <= x < |nodes| && nodes[x].dim > 0
      ensures nodes[x].first < |nodes| && nodes[nodes[x].first].offset == nodes[x].offset
    {
      assert PlaceFits(nodes, places, x);
    }
  }

  // ----- instances -----

  /** Where the fields of class d begin: after the base class, or after the vtbl[] pointer and the
      monitor. */
  function Start(prog: Program, sizes: seq<nat>, ptr: Ptr, d: nat): nat
    requires Acyclic(prog) && d < |prog| && d <= |sizes|
  {
    assert WellBased(prog, d);
    if prog[d].baseClass.Some? then sizes[prog[d].baseClass.value] else 2 * ptr
  }

  /** The slots of class d lie after its fields and inside its instances; one for every chain. */
  ghost predicate Separate(nodes: seq<BaseClass>, places: seq<Place>, lo: nat, hi: nat, ptr: Ptr) {
    && Chained(nodes, places) && lo <= hi
    && (forall x :: 0 <= x < |nodes| ==> lo <= nodes[x].offset && nodes[x].offset + ptr <= hi)
    && (forall x, y :: 0 <= x < |nodes| && 0 <= y < |nodes| ==> OneSlotAChain(nodes, places, ptr, x, y))
    && hi == (if nodes == [] then lo else Slot(lo, ptr, |Heads(places, 0, |nodes|)|))
  }

  predicate OneSlotAChain(nodes: seq<BaseClass>, places: seq<Place>, ptr: Ptr, x: nat, y: nat)
    requires x < |nodes| == |places| && y < |nodes|
  {
    if places[x].head == places[y].head then nodes[x].offset == nodes[y].offset
    else nodes[x].offset + ptr <= nodes[y].offset || nodes[y].offset + ptr <= nodes[x].offset
  }

  /** Classes and their instances; `fields[d]` is how far the fields of d carry the offset. */
  ghost predicate Sized(
    prog: Program, fields: seq<nat>, world: World, chains: seq<seq<Place>>, sizes: seq<nat>, ptr: Ptr)
    requires Acyclic(prog)
  {
    && |sizes| == |world| == |chains| <= |prog| == |fields|
    && (forall d :: 0 <= d < |sizes| ==> |chains[d]| == |world[d]|)
    && (forall d :: 0 <= d < |sizes| && !prog[d].isInterface ==>
          Separate(world[d], chains[d], Start(prog, sizes, ptr, d) + fields[d], sizes[d], ptr))
  }

  /** A class is larger than the classes above it. */
  lemma {:induction false} AncestorsAreSmaller(
      prog: Program, fields: seq<nat>, world: World, chains: seq<seq<Place>>, sizes: seq<nat>, ptr: Ptr, c: nat, d: nat)
    requires Acyclic(prog) && Sized(prog, fields, world, chains, sizes, ptr)
    requires d < |sizes| && !prog[d].isInterface && AncestorClass(prog, c, d)
    ensures c <= d && !prog[c].isInterface && 2 * ptr <= Start(prog, sizes, ptr, c) <= sizes[c] <= sizes[d]
    ensures c != d ==> sizes[c] <= Start(prog, sizes, ptr, d)
    ensures prog[d].baseClass.None? ==> Start(prog, sizes, ptr, d) == ptr + ptr
    ensures prog[d].baseClass == Some(c) ==> Start(prog, sizes, ptr, d) == sizes[c]
  {
    assert WellBased(prog, d);
    if prog[d].baseClass.Some? {
      var b := prog[d].baseClass.value;
      AncestorsAreSmaller(prog, fields, world, chains, sizes, ptr, if c == d then b else c, b);
    }
  }

  lemma {:induction false} AncestorsAreOrdered(prog: Program, c: nat, e: nat, d: nat)
    requires Acyclic(prog) && d < |prog| && AncestorClass(prog, c, d) && AncestorClass(prog, e, d)
    ensures c <= d && e <= d && (AncestorClass(prog, c, e) || AncestorClass(prog, e, c))
    decreases d
  {
    assert WellBased(prog, d);
    if c != d && e != d {
      AncestorsAreOrdered(prog, c, e, prog[d].baseClass.value);
    } else if prog[d].baseClass.Some? && (c != d || e != d) {
      var other, b := if c == d then e else c, prog[d].baseClass.value;
      AncestorsAreOrdered(prog, other, other, b);
    }
  }

  /** In an instance of class d, no two slots overlap except those of one chain, whichever classes above
      d they come from, and no slot overlaps the fields of any of these classes. */
  lemma {:induction false} InstanceSlots(
      prog: Program, fields: seq<nat>, world: World, chains: seq<seq<Place>>, sizes: seq<nat>, ptr: Ptr,
      d: nat, c: nat, x: nat, e: nat, y: nat)
    requires Acyclic(prog) && Sized(prog, fields, world, chains, sizes, ptr) && d < |sizes| && !prog[d].isInterface
    requires AncestorClass(prog, c, d) && c < |world| && x < |world[c]|
    requires AncestorClass(prog, e, d) && e < |world|
    ensures 2 * ptr <= world[c][x].offset && world[c][x].offset + ptr <= sizes[d]
    ensures y < |world[e]| ==>
      var same := c == e && chains[c][x].head == chains[e][y].head;
      (same ==> world[c][x].offset == world[e][y].offset) &&
      (!same ==> Disjoint(world[c][x].offset, ptr, world[e][y].offset, ptr))
    ensures Disjoint(world[c][x].offset, ptr, Start(prog, sizes, ptr, e), fields[e])
  {
    AncestorsAreOrdered(prog, c, e, d);
    AncestorsAreSmaller(prog, fields, world, chains, sizes, ptr, c, d);
    AncestorsAreSmaller(prog, fields, world, chains, sizes, ptr, e, d);
    if AncestorClass(prog, c, e) {
      AncestorsAreSmaller(prog, fields, world, chains, sizes, ptr, c, e);
    } else {
      AncestorsAreSmaller(prog, fields, world, chains, sizes, ptr, e, c);
    }
    if c == e && y < |world[e]| {
      assert OneSlotAChain(world[c], chains[c], ptr, x, y);
    }
  }

  predicate Disjoint(a: nat, n: nat, b: nat, m: nat) {
    a + n <= b || b + m <= a
  }

  // ----- all declarations -----

  /** What is left of a declaration once its semantic pass is through: its nodes, and for a class the
      slots after `offset` bytes of base class and fields. */
  method Declare(prog: Program, world: World, offset: nat, ptr: Ptr)
      returns (nodes: seq<BaseClass>, structsize: nat, ghost places: seq<Place>)
    requires Acyclic(prog) && |world| < |prog| && offset > 0
    requires forall d :: 0 <= d < |world| ==> LaidOutAt(prog, world[d], d)
    ensures LaidOutAt(prog, nodes, |world|) && structsize >= offset && |places| == |nodes|
    ensures !prog[|world|].isInterface ==> Separate(nodes, places, offset, structsize, ptr)
  {
    var d := |world|;
    forall k | 0 <= k < d && prog[k].isInterface ensures OwnNodes(prog, world[k], k) {
      assert LaidOutAt(prog, world[k], k);
    }
    var layout := new Layout(prog, world, d);
    layout.InterfaceSemantic(d);
    structsize := offset;
    if prog[d].isInterface {
      InterfaceLaidOut(layout.nodes, layout.places);
    } else {
      ghost var before := layout.nodes;
      structsize := layout.AllocateSlots(offset, ptr);
      AllocationLaysOut(prog, d, before, layout.nodes, layout.places, layout.vtblInterfaces, offset, ptr);
      AllocationSeparates(layout.nodes, layout.places, layout.vtblInterfaces, offset, structsize, ptr);
    }
    nodes, places := layout.nodes, layout.places;
  }

  lemma {:induction false} ListLength(list: seq<nat>, s: set<nat>)
    requires Lists(list, s)
    ensures |list| == |s|
  {
    if list == [] {
      assert s == {};
    } else {
      var x, rest := list[|list| - 1], list[..|list| - 1];
      assert list == rest + [x];
      ListLength(rest, s - {x});
    }
  }

  lemma AllocationSeparates(
      nodes: seq<BaseClass>, places: seq<Place>, chains: seq<nat>, offset: nat, structsize: nat, ptr: Ptr)
    requires Chained(nodes, places) && Lists(chains, Heads(places, 0, |nodes|))
    requires SlotsAssigned(nodes, places, chains, |chains|, offset, ptr)
    requires structsize == if chains == [] then offset else Slot(offset, ptr, |chains|)
    ensures Separate(nodes, places, offset, structsize, ptr)
  {
    SlotAligned(offset, ptr, |chains|);
    ListLength(chains, Heads(places, 0, |nodes|));
    assert nodes == [] ==> Heads(places, 0, |nodes|) == {};
    if nodes != [] {
      HeadsHead(nodes, places, 0);
    }
    forall x | 0 <= x < |nodes| ensures offset <= nodes[x].offset && nodes[x].offset + ptr <= structsize {
      SlotsSeparate(nodes, places, chains, offset, ptr, structsize, x, x);
    }
    forall x, y | 0 <= x < |nodes| && 0 <= y < |nodes| ensures OneSlotAChain(nodes, places, ptr, x, y) {
      SlotsSeparate(nodes, places, chains, offset, ptr, structsize, x, y);
    }
  }

  /** All declarations of a program, in order: the searches of `isBaseOf` always run over such a world,
      and instances are laid out as `InstanceSlots` asks for. */
  method DeclareAll(prog: Program, fields: seq<nat>, ptr: Ptr)
      returns (world: World, sizes: seq<nat>, ghost chains: seq<seq<Place>>)
    requires Acyclic(prog) && |fields| == |prog|
    ensures LaidOut(prog, world) && |sizes| == |prog| && Sized(prog, fields, world, chains, sizes, ptr)
  {
    world, sizes, chains := [], [], [];
    for d := 0 to |prog|
      invariant |world| == |sizes| == d
      invariant forall k :: 0 <= k < d ==> LaidOutAt(prog, world[k], k)
      invariant Sized(prog, fields, world, chains, sizes, ptr)
      invariant forall k :: 0 <= k < d ==> sizes[k] > 0
    {
      assert WellBased(prog, d);
      var start := 2 * ptr;
      if prog[d].baseClass.Some? {
        start := sizes[prog[d].baseClass.value];
      }
      ghost var wasSizes := sizes;
      var nodes, structsize, places := Declare(prog, world, start + fields[d], ptr);
      world, sizes, chains := world + [nodes], sizes + [structsize], chains + [places];
      forall k | 0 <= k < d ensures Start(prog, sizes, ptr, k) == Start(prog, wasSizes, ptr, k) {
        assert WellBased(prog, k);
      }
    }
  }
}
