/** class.c: the copies of the interface graph that every class holds, and the pointer slots that
    instances have for them. Declarations are numbered, bases before the declarations derived from
    them; the `BaseClass` objects of one declaration live in one list and point to each other by
    position. */
module ClassLayout {
  import opened Wrappers

  datatype Decl = Decl(isInterface: bool, baseClass: Option<nat>, interfaces: seq<nat>)

  type Program = seq<Decl>

  /** No circular inheritance, interfaces only inherit from interfaces, classes from one class. */
  predicate Acyclic(prog: Program) {
    forall d :: 0 <= d < |prog| ==> WellBased(prog, d)
  }

  predicate WellBased(prog: Program, d: nat)
    requires d < |prog|
  {
    && (forall j :: 0 <= j < |prog[d].interfaces| ==>
          prog[d].interfaces[j] < d && prog[prog[d].interfaces[j]].isInterface)
    && (prog[d].baseClass.Some? ==>
          !prog[d].isInterface && prog[d].baseClass.value < d && !prog[prog[d].baseClass.value].isInterface)
  }

  /** A `BaseClass`: its copies of the interfaces of `base` are nodes first .. first + dim. */
  datatype BaseClass = BaseClass(base: nat, offset: nat, first: nat, dim: nat)

  /** The list of nodes of every declaration. */
  type World = seq<seq<BaseClass>>

  /** The declarations before |world| have their nodes; those of interfaces, which have no instances,
      have no offsets. */
  ghost predicate Declared(prog: Program, world: World) {
    |world| <= |prog| && forall d :: 0 <= d < |world| && prog[d].isInterface ==> OwnNodes(prog, world[d], d)
  }

  ghost predicate OwnNodes(prog: Program, nodes: seq<BaseClass>, d: nat)
    requires d < |prog|
  {
    |nodes| >= |prog[d].interfaces| && NoOffsets(nodes) &&
    forall i :: 0 <= i < |prog[d].interfaces| ==> nodes[i].base == prog[d].interfaces[i]
  }

  predicate NoOffsets(nodes: seq<BaseClass>) {
    forall x :: 0 <= x < |nodes| ==> nodes[x].offset == 0
  }

  /** Where a node lies on its first-child chain: the node the chain starts at, how far down, and the
      node above. */
  datatype Place = Place(head: nat, level: nat, above: nat)

  /** Every node has its place: heads start their own chains, the others are the first child of the
      node above them. No two nodes share a place. */
  ghost predicate Chained(nodes: seq<BaseClass>, places: seq<Place>) {
    && |places| == |nodes|
    && (forall x :: 0 <= x < |nodes| ==> PlaceFits(nodes, places, x))
    && (forall x, y :: 0 <= x < y < |nodes| ==> places[x].head != places[y].head || places[x].level != places[y].level)
  }

  ghost predicate PlaceFits(nodes: seq<BaseClass>, places: seq<Place>, x: nat)
    requires x < |nodes| == |places|
  {
    var p := places[x];
    && (p.level == 0 <==> p.head == x)
    && p.head <= x
    && (p.level > 0 ==>
          p.above < x && nodes[p.above].dim > 0 && nodes[p.above].first == x
          && places[p.above].head == p.head && places[p.above].level == p.level - 1)
    && (nodes[x].dim > 0 ==>
          x < nodes[x].first < |nodes|
          && places[nodes[x].first] == Place(p.head, p.level + 1, x))
  }

  /** The nodes among lo .. hi that start a chain. */
  ghost function Heads(places: seq<Place>, lo: nat, hi: nat): set<nat> {
    set x: nat | lo <= x < hi && x < |places| && places[x].head == x
  }

  /** The list has exactly the elements of `s`, each once. */
  ghost predicate Lists(list: seq<nat>, s: set<nat>) {
    (forall x: nat :: x in list <==> x in s) && forall k, l :: 0 <= k < l < |list| ==> list[k] != list[l]
  }

  lemma ListsJoin(a: seq<nat>, s: set<nat>, b: seq<nat>, t: set<nat>)
    requires Lists(a, s) && Lists(b, t) && s !! t
    ensures Lists(a + b, s + t)
  {
    forall k, l | 0 <= k < l < |a + b| ensures (a + b)[k] != (a + b)[l] {
      if k < |a| <= l {
        assert a[k] in s && b[l - |a|] in t;
      }
    }
  }

  lemma HeadsSplit(places: seq<Place>, more: seq<Place>, lo: nat, mid: nat, hi: nat)
    requires lo <= mid <= hi && mid <= |places| && places <= more
    ensures Heads(more, lo, hi) == Heads(places, lo, mid) + Heads(more, mid, hi)
    ensures Heads(places, lo, mid) !! Heads(more, mid, hi)
  {
  }

  /** Node x is a full copy of the interface graph below its base, made of nodes from lo on. */
  ghost predicate Copied(prog: Program, nodes: seq<BaseClass>, x: nat, lo: nat)
    requires Acyclic(prog) && x < |nodes|
    decreases nodes[x].base
  {
    var n := nodes[x];
    && n.base < |prog| && n.dim == |prog[n.base].interfaces| && lo <= n.first && n.first + n.dim <= |nodes|
    && forall j :: 0 <= j < n.dim ==> CopiedChild(prog, nodes, x, lo, j)
  }

  ghost predicate CopiedChild(prog: Program, nodes: seq<BaseClass>, x: nat, lo: nat, j: nat)
    requires Acyclic(prog) && x < |nodes| && nodes[x].base < |prog|
    requires j < nodes[x].dim == |prog[nodes[x].base].interfaces| && nodes[x].first + nodes[x].dim <= |nodes|
    decreases nodes[x].base, 0
  {
    assert WellBased(prog, nodes[x].base);
    nodes[nodes[x].first + j].base == prog[nodes[x].base].interfaces[j] && Copied(prog, nodes, nodes[x].first + j, lo)
  }

  /** A copy is not disturbed by changes below lo, nor by more nodes. */
  lemma {:induction false} CopiedStays(
      prog: Program, before: seq<BaseClass>, after: seq<BaseClass>, y: nat, lo: nat, lower: nat)
    requires Acyclic(prog) && y < |before| && Copied(prog, before, y, lo) && lower <= lo
    requires |before| <= |after| && after[y] == before[y] && forall z :: lo <= z < |before| ==> after[z] == before[z]
    ensures Copied(prog, after, y, lower)
    decreases before[y].base
  {
    var n := before[y];
    forall j | 0 <= j < n.dim ensures CopiedChild(prog, after, y, lower, j) {
      assert CopiedChild(prog, before, y, lo, j);
      assert WellBased(prog, n.base);
      CopiedStays(prog, before, after, n.first + j, lo, lower);
    }
  }

  // ----- making the copies -----

  /** The list with `dim` zeroed nodes as the children of b. */
  function Allocate(nodes: seq<BaseClass>, b: nat, dim: nat): seq<BaseClass>
    requires b < |nodes|
  {
    nodes[b := nodes[b].(first := |nodes|, dim := dim)] + seq(dim, _ => BaseClass(0, 0, 0, 0))
  }

  /** The first child continues the chain of b, the others start chains of their own. */
  ghost function AllocatePlaces(places: seq<Place>, b: nat, dim: nat): seq<Place>
    requires b < |places|
  {
    places + seq(dim, j requires j >= 0 =>
      if j == 0 then Place(places[b].head, places[b].level + 1, b) else Place(|places| + j, 0, |places| + j))
  }

  lemma AllocateChained(nodes: seq<BaseClass>, places: seq<Place>, b: nat, dim: nat)
    requires Chained(nodes, places) && b < |nodes| && nodes[b].dim == 0
    ensures Chained(Allocate(nodes, b, dim), AllocatePlaces(places, b, dim))
  {
    var after, ps, n := Allocate(nodes, b, dim), AllocatePlaces(places, b, dim), |nodes|;
    forall x | 0 <= x < |after| ensures PlaceFits(after, ps, x) {
      if x < n {
        assert PlaceFits(nodes, places, x);
        if nodes[x].dim > 0 {
          assert ps[nodes[x].first] == places[nodes[x].first];
        }
      } else {
        assert PlaceFits(nodes, places, b);
      }
    }
    forall x, y | 0 <= x < y < |after| ensures ps[x].head != ps[y].head || ps[x].level != ps[y].level {
      if y == n && x < n {
        // a node with this place would be the first child of b, which has none
        assert PlaceFits(nodes, places, x);
        if places[x].level > 0 {
          assert places[x].above != b;
        }
      } else if x < n {
        assert PlaceFits(nodes, places, x);
      } else {
        assert PlaceFits(nodes, places, b);
      }
    }
  }

  /** A declaration while its base interfaces are copied and its instance is laid out. */
  class Layout {
    const prog: Program
    const world: World
    var nodes: seq<BaseClass>
    var vtblInterfaces: seq<nat>
    ghost var places: seq<Place>

    ghost predicate Valid()
      reads this
    {
      Acyclic(prog) && Declared(prog, world) && Chained(nodes, places)
    }

    /** Child i of a node for interface d: a copy of the node that d has itself, listed unless it
        continues the chain above, and the copies below it in place of those that d has. */
    method CopyChild(c: nat, d: nat, i: nat, ghost base: nat)
      requires Valid() && c < |nodes| && nodes[c] == BaseClass(0, 0, 0, 0)
      requires d < |world| && prog[d].isInterface && i < |prog[d].interfaces| && base == prog[d].interfaces[i]
      requires i > 0 <==> places[c].head == c
      modifies this
      ensures Valid() && |nodes| >= old(|nodes|) && places[..old(|nodes|)] == old(places)
      ensures Copied(prog, nodes, c, old(|nodes|)) && nodes[c].base == base && nodes[c].offset == 0
      ensures forall y :: 0 <= y < old(|nodes|) && y != c ==> nodes[y] == old(nodes[y])
      ensures forall y :: old(|nodes|) <= y < |nodes| ==> nodes[y].offset == 0
      ensures old(vtblInterfaces) <= vtblInterfaces
      ensures Lists(vtblInterfaces[old(|vtblInterfaces|)..],
                    Heads(places, c, c + 1) + Heads(places, old(|nodes|), |nodes|))
      decreases base, 1
    {
      ghost var before, listed, ps := nodes, |vtblInterfaces|, places;
      assert WellBased(prog, d) && OwnNodes(prog, world[d], d);
      nodes := nodes[c := world[d][i].(first := 0, dim := 0)];
      StaysChained(before, nodes, places);
      ghost var one: seq<nat> := if i > 0 then [c] else [];
      if i > 0 {
        vtblInterfaces := vtblInterfaces + [c];
      }
      CopyBaseInterfaces(c);
      assert places[..|ps|][c] == places[c];
      ListsJoin(one, Heads(places, c, c + 1), vtblInterfaces[listed + |one|..], Heads(places, |before|, |nodes|));
      assert vtblInterfaces[listed..] == one + vtblInterfaces[listed + |one|..];
    }

    /** `BaseClass::copyBaseInterfaces`: unfolds the interface graph below node b, and adds every node
        that is not the first base of the node above it to `vtblInterfaces`. */
    method CopyBaseInterfaces(b: nat)
      requires Valid() && b < |nodes| && nodes[b].base < |world| && prog[nodes[b].base].isInterface
      requires nodes[b].dim == 0
      modifies this
      ensures Valid() && |nodes| >= old(|nodes|) && places[..old(|nodes|)] == old(places)
      ensures Copied(prog, nodes, b, old(|nodes|))
      ensures nodes[b].base == old(nodes[b].base) && nodes[b].offset == old(nodes[b].offset)
      ensures forall y :: 0 <= y < old(|nodes|) && y != b ==> nodes[y] == old(nodes[y])
      ensures forall y :: old(|nodes|) <= y < |nodes| ==> nodes[y].offset == 0
      ensures old(vtblInterfaces) <= vtblInterfaces
      ensures Lists(vtblInterfaces[old(|vtblInterfaces|)..], Heads(places, old(|nodes|), |nodes|))
      decreases nodes[b].base, 0, 1
    {
      assert WellBased(prog, nodes[b].base);
      var interfaces := prog[nodes[b].base].interfaces;
      var dim, first := |interfaces|, |nodes|;
      AllocateChained(nodes, places, b, dim);
      assert PlaceFits(nodes, places, b);
      nodes, places := Allocate(nodes, b, dim), AllocatePlaces(places, b, dim);
      ghost var start, top := nodes, first + dim;
      ghost var added := CopyChildren(b, interfaces, first, old(places));
      HalfCopiedDone(prog, start, nodes, b, top, interfaces);
      assert vtblInterfaces[old(|vtblInterfaces|)..] == added;
      HeadsSplit(places[..top], places, first, top, |nodes|);
      assert Heads(places[..top], first, top) == Heads(places, first, top);
    }

    /** The loop of `copyBaseInterfaces` over the new children first, first + 1, … of node b. */
    method CopyChildren(b: nat, interfaces: seq<nat>, first: nat, ghost was: seq<Place>) returns (ghost added: seq<nat>)
      requires Valid() && b < first == |was| && first + |interfaces| == |nodes| && was[b].head <= b
      requires places == AllocatePlaces(was, b, |interfaces|)
      requires nodes[b].base < |world| && prog[nodes[b].base].isInterface
      requires interfaces == prog[nodes[b].base].interfaces
      requires HalfCopied(prog, nodes, nodes, first, |nodes|, interfaces, 0)
      requires forall y :: first <= y < |nodes| ==> nodes[y] == BaseClass(0, 0, 0, 0)
      modifies this
      ensures Valid() && |nodes| >= old(|nodes|) && places[..old(|nodes|)] == old(places)
      ensures HalfCopied(prog, old(nodes), nodes, first, old(|nodes|), interfaces, |interfaces|)
      ensures vtblInterfaces == old(vtblInterfaces) + added
      ensures Lists(added, Heads(places, first, old(|nodes|)) + Heads(places, old(|nodes|), |nodes|))
      decreases nodes[b].base, 0, 0
    {
      ghost var start, startPlaces, top := nodes, places, first + |interfaces|;
      added := [];
      for i := 0 to |interfaces|
        invariant Valid() && HalfCopied(prog, start, nodes, first, top, interfaces, i)
        invariant |places| >= top && places[..top] == startPlaces
        invariant vtblInterfaces == old(vtblInterfaces) + added
        invariant Lists(added, Heads(places, first, first + i) + Heads(places, top, |nodes|))
      {
        ghost var before, ps, listed := nodes, places, |vtblInterfaces|;
        FirstContinues(was, places, b, |interfaces|, i);
        assert WellBased(prog, nodes[b].base);
        CopyChild(first + i, nodes[b].base, i, interfaces[i]);
        AddHeads(ps, places, first, first + i, top, added, vtblInterfaces[listed..]);
        added := added + vtblInterfaces[listed..];
        HalfCopiedStep(prog, start, before, nodes, first, top, interfaces, i);
        assert places[..top] == places[..|ps|][..top];
      }
    }

    /** The nodes of the declared interfaces, before anything is copied. */
    constructor (prog: Program, world: World, d: nat)
      requires Acyclic(prog) && Declared(prog, world) && d == |world| < |prog|
      ensures this.prog == prog && this.world == world && Valid()
      ensures vtblInterfaces == [] && |nodes| == |prog[d].interfaces|
      ensures forall i :: 0 <= i < |nodes| ==>
        nodes[i] == BaseClass(prog[d].interfaces[i], 0, 0, 0) && places[i] == Place(i, 0, i)
    {
      this.prog := prog;
      this.world := world;
      var bases := prog[d].interfaces;
      nodes := seq(|bases|, i requires 0 <= i < |bases| => BaseClass(bases[i], 0, 0, 0));
      places := seq(|prog[d].interfaces|, i requires i >= 0 => Place(i, 0, i));
      vtblInterfaces := [];
    }

    /** `ClassDeclaration::interfaceSemantic` for declaration d. */
    method InterfaceSemantic(d: nat)
      requires Valid() && d == |world| < |prog| && |nodes| == |prog[d].interfaces| && vtblInterfaces == []
      requires forall i :: 0 <= i < |nodes| ==>
        nodes[i] == BaseClass(prog[d].interfaces[i], 0, 0, 0) && places[i] == Place(i, 0, i)
      modifies this
      ensures Valid() && Unfolded(prog, nodes, d)
      ensures Lists(vtblInterfaces, Heads(places, 0, |nodes|))
      ensures forall x :: 0 <= x < |nodes| ==> nodes[x].offset == 0
    {
      ghost var start, startPlaces, n := nodes, places, |nodes|;
      assert WellBased(prog, d);
      for i := 0 to |prog[d].interfaces|
        invariant Valid() && HalfCopied(prog, start, nodes, 0, n, prog[d].interfaces, i)
        invariant |places| >= n && places[..n] == startPlaces
        invariant Lists(vtblInterfaces, Heads(places, 0, i) + Heads(places, n, |nodes|))
      {
        ghost var before, ps, listed := nodes, places, vtblInterfaces;
        vtblInterfaces := vtblInterfaces + [i];
        CopyBaseInterfaces(i);
        HalfCopiedStep(prog, start, before, nodes, 0, n, prog[d].interfaces, i);
        assert places[..n] == places[..|ps|][..n] && places[i] == startPlaces[i];
        ghost var more := vtblInterfaces[|listed| + 1..];
        ListsJoin([i], Heads(places, i, i + 1), more, Heads(places, |ps|, |places|));
        AddHeads(ps, places, 0, i, n, listed, [i] + more);
        assert vtblInterfaces == listed + ([i] + more);
      }
      assert Heads(places, 0, n) + Heads(places, n, |nodes|) == Heads(places, 0, |nodes|);
      forall i: nat | i < n ensures Copied(prog, nodes, i, 0) {
        CopiedStays(prog, nodes, nodes, i, n, 0);
      }
    }

    /** Gives the chain that starts at node b the offset o. */
    method AssignChain(head: nat, o: nat)
      requires Valid() && head < |nodes| && places[head].level == 0
      modifies this`nodes
      ensures Valid() && |nodes| == old(|nodes|)
      ensures forall x :: 0 <= x < |nodes| ==>
        nodes[x] == if places[x].head == head then old(nodes[x]).(offset := o) else old(nodes[x])
    {
      assert PlaceFits(nodes, places, head);
      var b := head;
      nodes := nodes[b := nodes[b].(offset := o)];
      StaysChained(old(nodes), nodes, places);
      OnlyHead(old(nodes), places, head);
      while nodes[b].dim != 0
        invariant b < |nodes| == |old(nodes)| && Valid() && places[b].head == head
        invariant OffsetsDownTo(old(nodes), nodes, places, b, o)
        decreases |nodes| - b
      {
        ghost var now, above := nodes, b;
        assert PlaceFits(nodes, places, b);
        OneFurther(old(nodes), nodes, places, b, o);
        b := nodes[b].first;
        nodes := nodes[b := nodes[b].(offset := o)];
        StaysChained(now, nodes, places);
      }
      WholeChain(old(nodes), nodes, places, b, o);
    }

    /** The end of `ClassDeclaration::semantic`: one pointer slot for every chain, from `offset` on,
        after the base class and the fields. */
    method AllocateSlots(offset: nat, ptr: Ptr) returns (structsize: nat)
      requires Valid() && Lists(vtblInterfaces, Heads(places, 0, |nodes|)) && offset > 0
      requires forall x :: 0 <= x < |nodes| ==> nodes[x].offset == 0
      modifies this`nodes
      ensures Valid() && |nodes| == old(|nodes|)
      ensures forall x :: 0 <= x < |nodes| ==> nodes[x] == old(nodes[x]).(offset := nodes[x].offset)
      ensures SlotsAssigned(nodes, places, vtblInterfaces, |vtblInterfaces|, offset, ptr)
      ensures structsize == if vtblInterfaces == [] then offset else Slot(offset, ptr, |vtblInterfaces|)
    {
      structsize := offset;
      for i := 0 to |vtblInterfaces|
        invariant Valid() && |nodes| == old(|nodes|)
        invariant forall x :: 0 <= x < |nodes| ==> nodes[x] == old(nodes[x]).(offset := nodes[x].offset)
        invariant SlotsAssigned(nodes, places, vtblInterfaces, i, offset, ptr)
        invariant structsize == if i == 0 then offset else Slot(offset, ptr, i)
      {
        var b := vtblInterfaces[i];
        structsize := AlignMember(8, ptr, structsize);
        SlotAligned(offset, ptr, i);
        assert b in Heads(places, 0, |nodes|);
        assert PlaceFits(nodes, places, b) && b !in vtblInterfaces[..i];
        assert SlotFits(nodes, places, vtblInterfaces, i, offset, ptr, b);
        assert nodes[b].offset == 0;
        ghost var before := nodes;
        AssignChain(b, structsize);
        ChainAssigned(before, nodes, places, vtblInterfaces, i, offset, ptr);
        structsize := structsize + ptr;
      }
    }
  }

  type Ptr = p: nat | p == 4 || p == 8 witness 4

  /** `alignmember`: rounds up to the smaller of the alignments, if any is in effect. */
  function AlignMember(salign: nat, size: nat, offset: nat): (r: nat)
    requires size != 3
  {
    if salign > 1 then
      var sa := if size == 0 || salign < size then salign else size;
      offset + (sa - offset % sa) % sa
    else offset
  }

  /** The slot of chain k: consecutive pointers from the first aligned position on. */
  function Slot(offset: nat, ptr: Ptr, k: nat): nat {
    AlignMember(8, ptr, offset) + (if ptr == 8 then 8 * k else 4 * k)
  }

  lemma SlotAligned(offset: nat, ptr: Ptr, k: nat)
    ensures Slot(offset, ptr, k) % ptr == 0 && Slot(offset, ptr, k) >= offset && Slot(offset, ptr, 0) < offset + ptr
    ensures AlignMember(8, ptr, Slot(offset, ptr, k)) == Slot(offset, ptr, k)
    ensures Slot(offset, ptr, k + 1) == Slot(offset, ptr, k) + ptr
  {
    if ptr == 8 {
      var q := AlignedUp8(offset);
      Multiple8(q + k);
    } else {
      var q := AlignedUp4(offset);
      Multiple4(q + k);
    }
  }

  lemma AlignedUp8(offset: nat) returns (q: nat)
    ensures AlignMember(8, 8, offset) == 8 * q >= offset
  {
    q := (offset + 7) / 8;
  }

  lemma AlignedUp4(offset: nat) returns (q: nat)
    ensures AlignMember(8, 4, offset) == 4 * q >= offset
  {
    q := (offset + 3) / 4;
  }

  lemma Multiple8(q: nat)
    ensures (8 * q) % 8 == 0 && AlignMember(8, 8, 8 * q) == 8 * q
  {
  }

  lemma Multiple4(q: nat)
    ensures (4 * q) % 4 == 0 && AlignMember(8, 4, 4 * q) == 4 * q
  {
  }

  /** Nodes on the first i chains have the slot of their chain, all others none yet. */
  predicate SlotsAssigned(nodes: seq<BaseClass>, places: seq<Place>, chains: seq<nat>, i: nat, offset: nat, ptr: Ptr)
    requires i <= |chains|
  {
    |places| == |nodes| && forall x :: 0 <= x < |nodes| ==> SlotFits(nodes, places, chains, i, offset, ptr, x)
  }

  predicate SlotFits(
    nodes: seq<BaseClass>, places: seq<Place>, chains: seq<nat>, i: nat, offset: nat, ptr: Ptr, x: nat)
    requires i <= |chains| && x < |nodes| == |places|
  {
    && (forall k :: 0 <= k < i && chains[k] == places[x].head ==> nodes[x].offset == Slot(offset, ptr, k))
    && (places[x].head !in chains[..i] ==> nodes[x].offset == 0)
  }

  /** `after` differs from `before` in the offsets on the chain of b down to b, which are all o. */
  predicate OffsetsDownTo(before: seq<BaseClass>, after: seq<BaseClass>, places: seq<Place>, b: nat, o: nat)
    requires b < |before| == |after| == |places|
  {
    forall x :: 0 <= x < |before| ==>
      after[x] == if places[x].head == places[b].head && places[x].level <= places[b].level
                  then before[x].(offset := o) else before[x]
  }

  lemma OneFurther(before: seq<BaseClass>, now: seq<BaseClass>, places: seq<Place>, b: nat, o: nat)
    requires Chained(now, places) && b < |now| == |before| && now[b].dim > 0 && OffsetsDownTo(before, now, places, b, o)
    ensures var c := now[b].first;
      c < |now| && OffsetsDownTo(before, now[c := now[c].(offset := o)], places, c, o)
  {
    var c := now[b].first;
    assert PlaceFits(now, places, b);
    forall x | 0 <= x < |now| && x != c && places[x].head == places[b].head
      ensures places[x].level != places[b].level + 1
    {
      assert if x < c then places[x].level != places[c].level else places[c].level != places[x].level;
    }
  }

  lemma {:induction false} NothingDeeper(nodes: seq<BaseClass>, places: seq<Place>, b: nat, x: nat)
    requires Chained(nodes, places) && b < |nodes| && x < |nodes| && nodes[b].dim == 0
    requires places[x].head == places[b].head
    ensures places[x].level <= places[b].level
    decreases x
  {
    assert PlaceFits(nodes, places, x);
    if places[x].level > places[b].level + 1 {
      NothingDeeper(nodes, places, b, places[x].above);
    } else if places[x].level == places[b].level + 1 {
      PlaceUnique(nodes, places, places[x].above, b);
    }
  }

  lemma OnlyHead(nodes: seq<BaseClass>, places: seq<Place>, b: nat)
    requires Chained(nodes, places) && b < |nodes| && places[b].level == 0
    ensures forall x :: 0 <= x < |nodes| && places[x].head == places[b].head && places[x].level == 0 ==> x == b
  {
  }

  lemma PlaceUnique(nodes: seq<BaseClass>, places: seq<Place>, x: nat, y: nat)
    requires Chained(nodes, places) && x < |nodes| && y < |nodes|
    requires places[x].head == places[y].head && places[x].level == places[y].level
    ensures x == y
  {
  }

  lemma WholeChain(before: seq<BaseClass>, nodes: seq<BaseClass>, places: seq<Place>, b: nat, o: nat)
    requires Chained(nodes, places) && b < |nodes| == |before| && nodes[b].dim == 0
    requires OffsetsDownTo(before, nodes, places, b, o)
    ensures forall x :: 0 <= x < |nodes| ==>
      nodes[x] == if places[x].head == places[b].head then before[x].(offset := o) else before[x]
  {
    forall x | 0 <= x < |nodes| && places[x].head == places[b].head ensures places[x].level <= places[b].level {
      NothingDeeper(nodes, places, b, x);
    }
  }

  lemma ChainAssigned(
      before: seq<BaseClass>, nodes: seq<BaseClass>, places: seq<Place>, chains: seq<nat>, i: nat, offset: nat,
      ptr: Ptr)
    requires i < |chains| && SlotsAssigned(before, places, chains, i, offset, ptr) && |nodes| == |before|
    requires forall k, l :: 0 <= k < l < |chains| ==> chains[k] != chains[l]
    requires forall x :: 0 <= x < |nodes| ==>
      nodes[x] == if places[x].head == chains[i] then before[x].(offset := Slot(offset, ptr, i)) else before[x]
    ensures SlotsAssigned(nodes, places, chains, i + 1, offset, ptr)
  {
    var next := i + 1;
    assert chains[..next] == chains[..i] + [chains[i]];
    forall x | 0 <= x < |nodes| ensures SlotFits(nodes, places, chains, next, offset, ptr, x) {
      assert SlotFits(before, places, chains, i, offset, ptr, x);
    }
  }

  /** The first nodes of a declaration are full copies of its interfaces. */
  ghost predicate Unfolded(prog: Program, nodes: seq<BaseClass>, d: nat)
    requires Acyclic(prog) && d < |prog|
  {
    && |prog[d].interfaces| <= |nodes|
    && forall i: nat :: i < |prog[d].interfaces| ==> nodes[i].base == prog[d].interfaces[i] && Copied(prog, nodes, i, 0)
  }

  /** The first i of the nodes first .. top are copies now, and nothing else below top has changed. */
  ghost predicate HalfCopied(
    prog: Program, start: seq<BaseClass>, nodes: seq<BaseClass>, first: nat, top: nat, interfaces: seq<nat>, i: nat)
    requires Acyclic(prog) && first + |interfaces| == top == |start|
  {
    && top <= |nodes|
    && (forall y :: 0 <= y < first ==> nodes[y] == start[y])
    && (forall y :: first <= y < |nodes| ==> nodes[y].offset == 0)
    && (forall y :: first + i <= y < top ==> nodes[y] == start[y])
    && (forall y: nat :: first <= y < first + i && y < top ==>
          nodes[y].base == interfaces[y - first] && Copied(prog, nodes, y, top))
  }

  lemma HalfCopiedStep(
      prog: Program, start: seq<BaseClass>, before: seq<BaseClass>, after: seq<BaseClass>,
      first: nat, top: nat, interfaces: seq<nat>, i: nat)
    requires Acyclic(prog) && first + |interfaces| == top == |start| && i < |interfaces|
    requires HalfCopied(prog, start, before, first, top, interfaces, i) && |before| <= |after|
    requires forall y :: 0 <= y < |before| && y != first + i ==> after[y] == before[y]
    requires forall y :: |before| <= y < |after| ==> after[y].offset == 0
    requires after[first + i].base == interfaces[i] && after[first + i].offset == 0
    requires Copied(prog, after, first + i, |before|)
    ensures HalfCopied(prog, start, after, first, top, interfaces, i + 1)
  {
    forall y: nat | first <= y < first + i ensures Copied(prog, after, y, top) {
      CopiedStays(prog, before, after, y, top, top);
    }
    CopiedStays(prog, after, after, first + i, |before|, top);
  }

  lemma {:induction false} HalfCopiedDone(
      prog: Program, start: seq<BaseClass>, nodes: seq<BaseClass>, b: nat, top: nat, interfaces: seq<nat>)
    requires Acyclic(prog) && b < |start| && start[b].first + |interfaces| == top == |start| && b < start[b].first
    requires start[b].base < |prog| && interfaces == prog[start[b].base].interfaces && start[b].dim == |interfaces|
    requires HalfCopied(prog, start, nodes, start[b].first, top, interfaces, |interfaces|)
    ensures Copied(prog, nodes, b, start[b].first)
  {
    forall y: nat | start[b].first <= y < top ensures Copied(prog, nodes, y, start[b].first) {
      CopiedStays(prog, nodes, nodes, y, top, start[b].first);
    }
    CopiedFromChildren(prog, nodes, b, start[b].first);
  }

  lemma FirstContinues(was: seq<Place>, places: seq<Place>, b: nat, dim: nat, i: nat)
    requires b < |was| && i < dim && |was| + dim <= |places| && places[..|was| + dim] == AllocatePlaces(was, b, dim)
    requires was[b].head <= b
    ensures i > 0 <==> places[|was| + i].head == |was| + i
  {
    assert places[|was| + i] == places[..|was| + dim][|was| + i];
  }

  lemma AddHeads(ps: seq<Place>, qs: seq<Place>, first: nat, c: nat, top: nat, added: seq<nat>, more: seq<nat>)
    requires first <= c < top <= |ps| && ps <= qs
    requires Lists(added, Heads(ps, first, c) + Heads(ps, top, |ps|))
    requires Lists(more, Heads(qs, c, c + 1) + Heads(qs, |ps|, |qs|))
    ensures Lists(added + more, Heads(qs, first, c + 1) + Heads(qs, top, |qs|))
  {
    var s, t := Heads(ps, first, c) + Heads(ps, top, |ps|), Heads(qs, c, c + 1) + Heads(qs, |ps|, |qs|);
    ListsJoin(added, s, more, t);
    assert Heads(qs, first, c + 1) + Heads(qs, top, |qs|) == s + t;
  }

  lemma {:induction false} CopiedFromChildren(prog: Program, nodes: seq<BaseClass>, b: nat, lo: nat)
    requires Acyclic(prog) && b < |nodes| && nodes[b].base < |prog|
    requires nodes[b].dim == |prog[nodes[b].base].interfaces| && lo <= nodes[b].first &&
      nodes[b].first + nodes[b].dim <= |nodes|
    requires forall y: nat :: nodes[b].first <= y < nodes[b].first + nodes[b].dim ==>
      nodes[y].base == prog[nodes[b].base].interfaces[y - nodes[b].first] && Copied(prog, nodes, y, lo)
    ensures Copied(prog, nodes, b, lo)
  {
    forall j | 0 <= j < nodes[b].dim ensures CopiedChild(prog, nodes, b, lo, j) {
      var y := nodes[b].first + j;
      assert nodes[y].base == prog[nodes[b].base].interfaces[y - nodes[b].first] && Copied(prog, nodes, y, lo);
    }
  }

  /** Bases and offsets do not matter to the chains. */
  lemma StaysChained(before: seq<BaseClass>, after: seq<BaseClass>, places: seq<Place>)
    requires Chained(before, places) && |before| == |after|
    requires forall x :: 0 <= x < |before| ==>
      after[x].dim == before[x].dim && (before[x].dim > 0 ==> after[x].first == before[x].first)
    ensures Chained(after, places)
  {
    forall x | 0 <= x < |after| ensures PlaceFits(after, places, x) {
      assert PlaceFits(before, places, x);
    }
  }
}
