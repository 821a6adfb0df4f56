/** access.c: how accessible a member is through a class, and whether a function may use it. */
module MemberAccess {

  /** `enum PROT`: undefined, none, private, package, protected, public, export. */
  newtype Prot = x: int | 0 <= x <= 6

  const NONE: Prot := 1
  const PRIVATE: Prot := 2
  const PACKAGE: Prot := 3
  const PROTECTED: Prot := 4
  const PUBLIC: Prot := 5

  /** From the narrowest to the loosest. */
  lemma {:induction false} ProtectionOrder()
    ensures 0 < NONE < PRIVATE < PACKAGE < PROTECTED < PUBLIC
  {
  }

  /** `BaseClass`: the class inherited from and the protection it is inherited with. */
  datatype Base = Base(cls: nat, protection: Prot)

  /** The classes by number, each with its base classes; structs have none. Circular inheritance is
      an error before any access check, so bases can be numbered first. */
  type Program = p: seq<seq<Base>> | Acyclic(p) witness []

  predicate Acyclic(p: seq<seq<Base>>) {
    forall c, i :: 0 <= c < |p| && 0 <= i < |p[c]| ==> p[c][i].cls < c
  }

  /** A member: the class it is declared in, its own protection, and whether it is static. */
  datatype Member = Member(parent: nat, prot: Prot, isStatic: bool)

  // ----- getAccess -----

  /** What is left of an access when it is inherited. */
  function Hop(access: Prot, protection: Prot): Prot {
    if access <= PRIVATE then NONE else if protection < access then protection else access
  }

  function Looser(a: Prot, b: Prot): Prot {
    if a > b then a else b
  }

  function Access(p: Program, c: nat, m: Member): Prot
    requires c < |p|
    decreases c, |p[c]| + 1
  {
    if m.parent == c then m.prot else Inherited(p, c, |p[c]|, m)
  }

  /** The loosest access through the first `n` base classes. */
  function Inherited(p: Program, c: nat, n: nat, m: Member): Prot
    requires c < |p| && n <= |p[c]|
    decreases c, n
  {
    if n == 0 then (if m.isStatic then m.prot else NONE)
    else
      var b := p[c][n - 1];
      Looser(Inherited(p, c, n - 1, m), Hop(Access(p, b.cls, m), b.protection))
  }

  method GetAccess(p: Program, c: nat, m: Member) returns (accessRet: Prot)
    requires c < |p| && m.prot >= NONE
    ensures accessRet == Access(p, c, m)
    decreases c
  {
    accessRet := NONE;
    if m.parent == c {
      accessRet := m.prot;
    } else {
      if m.isStatic {
        accessRet := m.prot;
      }
      for i := 0 to |p[c]|
        invariant accessRet == Inherited(p, c, i, m)
      {
        var b := p[c][i];
        var access := GetAccess(p, b.cls, m);
        InheritedRange(p, c, i, m);
        if access == NONE {
        } else if access == PRIVATE {
          access := NONE;
        } else {
          AccessRange(p, b.cls, m);
          if b.protection < access {
            access := b.protection;
          }
          if access > accessRet {
            accessRet := access;
          }
        }
      }
    }
  }

  /** Inheriting never makes a member more accessible than it is declared, and the result is never
      PROTundefined, which the callers' switch has no case for. */
  lemma {:induction false} AccessRange(p: Program, c: nat, m: Member)
    requires c < |p| && m.prot >= NONE
    ensures NONE <= Access(p, c, m) <= m.prot
    decreases c, |p[c]| + 1
  {
    if m.parent != c {
      InheritedRange(p, c, |p[c]|, m);
    }
  }

  lemma {:induction false} InheritedRange(p: Program, c: nat, n: nat, m: Member)
    requires c < |p| && n <= |p[c]| && m.prot >= NONE
    ensures NONE <= Inherited(p, c, n, m) <= m.prot
    ensures m.isStatic ==> Inherited(p, c, n, m) == m.prot
    decreases c, n
  {
    if n > 0 {
      InheritedRange(p, c, n - 1, m);
      AccessRange(p, p[c][n - 1].cls, m);
    }
  }

  /** A static member is as accessible through any class as it is declared. */
  lemma {:induction false} StaticAccess(p: Program, c: nat, m: Member)
    requires c < |p| && m.prot >= NONE && m.isStatic
    ensures Access(p, c, m) == m.prot
  {
    if m.parent != c {
      InheritedRange(p, c, |p[c]|, m);
    }
  }

  // ----- inheritance paths -----

  /** A path lists the base class taken at each step. */
  predicate IsPath(p: Program, c: nat, path: seq<nat>)
    requires c < |p|
    decreases |path|
  {
    path == [] || (path[0] < |p[c]| && IsPath(p, p[c][path[0]].cls, path[1..]))
  }

  function End(p: Program, c: nat, path: seq<nat>): (e: nat)
    requires c < |p| && IsPath(p, c, path)
    ensures e <= c && (path != [] ==> e < c)
    decreases |path|
  {
    if path == [] then c else End(p, p[c][path[0]].cls, path[1..])
  }

  /** The access after all the hops of a path to the class that declares the member. */
  function PathAccess(p: Program, c: nat, path: seq<nat>, m: Member): Prot
    requires c < |p| && IsPath(p, c, path)
    decreases |path|
  {
    if path == [] then m.prot
    else Hop(PathAccess(p, p[c][path[0]].cls, path[1..], m), p[c][path[0]].protection)
  }

  /** The narrowest protection met on a path, the member's own included. */
  function Narrowest(p: Program, c: nat, path: seq<nat>, m: Member): Prot
    requires c < |p| && IsPath(p, c, path)
    decreases |path|
  {
    if path == [] then m.prot
    else
      var rest := Narrowest(p, p[c][path[0]].cls, path[1..], m);
      if p[c][path[0]].protection < rest then p[c][path[0]].protection else rest
  }

  /** Taken as a whole, a path gives the narrowest protection on it, or nothing at all if the part
      after the first hop is private somewhere. */
  lemma {:induction false} PathIsNarrowest(p: Program, c: nat, path: seq<nat>, m: Member)
    requires c < |p| && IsPath(p, c, path) && path != [] && m.prot >= NONE
    ensures PathAccess(p, c, path, m) ==
      if Narrowest(p, p[c][path[0]].cls, path[1..], m) > PRIVATE then Narrowest(p, c, path, m) else NONE
    decreases |path|
  {
    if |path| > 1 {
      PathIsNarrowest(p, p[c][path[0]].cls, path[1..], m);
    }
  }

  ghost predicate Reaches(p: Program, c: nat, path: seq<nat>, m: Member) {
    c < |p| && IsPath(p, c, path) && End(p, c, path) == m.parent
  }

  /** No path to the declaring class gives more than `getAccess`. */
  lemma {:induction false} AccessBound(p: Program, c: nat, m: Member, path: seq<nat>)
    requires Reaches(p, c, path, m) && m.prot >= NONE
    ensures PathAccess(p, c, path, m) <= Access(p, c, m)
    decreases |path|
  {
    if path != [] {
      var b := p[c][path[0]];
      AccessBound(p, b.cls, m, path[1..]);
      InheritedBound(p, c, |p[c]|, m, path[0]);
    }
  }

  lemma {:induction false} InheritedBound(p: Program, c: nat, n: nat, m: Member, i: nat)
    requires c < |p| && i < n <= |p[c]| && m.prot >= NONE
    ensures Inherited(p, c, n, m) >= Hop(Access(p, p[c][i].cls, m), p[c][i].protection)
    ensures Inherited(p, c, n, m) >= NONE
    decreases n
  {
    InheritedRange(p, c, n, m);
    if i < n - 1 {
      InheritedBound(p, c, n - 1, m, i);
    }
  }

  /** Some path to the declaring class gives as much as `getAccess`, unless it gives nothing. */
  lemma {:induction false} AccessAttained(p: Program, c: nat, m: Member) returns (path: seq<nat>)
    requires c < |p| && !m.isStatic && m.prot >= NONE
    ensures Access(p, c, m) > NONE ==> Reaches(p, c, path, m) && PathAccess(p, c, path, m) == Access(p, c, m)
    decreases c, |p[c]| + 1
  {
    path := [];
    if m.parent != c {
      path := InheritedAttained(p, c, |p[c]|, m);
    }
  }

  lemma {:induction false} InheritedAttained(p: Program, c: nat, n: nat, m: Member) returns (path: seq<nat>)
    requires c < |p| && n <= |p[c]| && !m.isStatic && m.prot >= NONE
    ensures Inherited(p, c, n, m) > NONE ==>
      Reaches(p, c, path, m) && PathAccess(p, c, path, m) == Inherited(p, c, n, m)
    decreases c, n
  {
    path := [];
    if n > 0 {
      var b := p[c][n - 1];
      if Hop(Access(p, b.cls, m), b.protection) > Inherited(p, c, n - 1, m) {
        InheritedRange(p, c, n - 1, m);
        var rest := AccessAttained(p, b.cls, m);
        path := [n - 1] + rest;
        assert path[1..] == rest;
      } else {
        path := InheritedAttained(p, c, n - 1, m);
      }
    }
  }

  /** For an instance member `getAccess` is the best that any inheritance path gives. */
  lemma {:induction false} AccessIsBestPath(p: Program, c: nat, m: Member)
    requires c < |p| && !m.isStatic && m.prot >= NONE
    ensures forall path :: Reaches(p, c, path, m) ==> PathAccess(p, c, path, m) <= Access(p, c, m)
    ensures Access(p, c, m) == NONE ||
      exists path :: Reaches(p, c, path, m) && PathAccess(p, c, path, m) == Access(p, c, m)
  {
    forall path | Reaches(p, c, path, m)
      ensures PathAccess(p, c, path, m) <= Access(p, c, m)
    {
      AccessBound(p, c, m, path);
    }
    AccessRange(p, c, m);
    var path := AccessAttained(p, c, m);
  }

  // ----- accessCheckX -----

  /** `grants` are the classes that give the function private access or count it as a friend. */
  predicate Check(p: Program, grants: set<nat>, c: nat, m: Member)
    requires c < |p|
    decreases c, |p[c]| + 1
  {
    if m.parent == c then c in grants else CheckBases(p, grants, c, 0, m)
  }

  predicate CheckBases(p: Program, grants: set<nat>, c: nat, i: nat, m: Member)
    requires c < |p| && i <= |p[c]|
    decreases c, |p[c]| - i
  {
    i < |p[c]| &&
    ((c in grants && Access(p, p[c][i].cls, m) >= PROTECTED) || Check(p, grants, p[c][i].cls, m) ||
     CheckBases(p, grants, c, i + 1, m))
  }

  method AccessCheckX(p: Program, grants: set<nat>, dthis: nat, m: Member) returns (result: bool)
    requires dthis < |p| && m.prot >= NONE
    ensures result == Check(p, grants, dthis, m)
    decreases dthis
  {
    if dthis in grants {
      if m.parent == dthis {
        return true;
      } else {
        for i := 0 to |p[dthis]|
          invariant Check(p, grants, dthis, m) == CheckBases(p, grants, dthis, i, m)
        {
          var b := p[dthis][i];
          var access := GetAccess(p, b.cls, m);
          var inBase := false;
          if access < PROTECTED {
            inBase := AccessCheckX(p, grants, b.cls, m);
          }
          if access >= PROTECTED || inBase {
            return true;
          }
        }
      }
    } else {
      if m.parent != dthis {
        for i := 0 to |p[dthis]|
          invariant Check(p, grants, dthis, m) == CheckBases(p, grants, dthis, i, m)
        {
          var inBase := AccessCheckX(p, grants, p[dthis][i].cls, m);
          if inBase {
            return true;
          }
        }
      }
    }
    return false;
  }

  /** A class at which the search may end with success. */
  ghost predicate Admits(p: Program, grants: set<nat>, e: nat, m: Member) {
    e < |p| && e in grants &&
    (m.parent == e || exists i :: 0 <= i < |p[e]| && Access(p, p[e][i].cls, m) >= PROTECTED)
  }

  /** Some inheritance path leads to a class that admits the member. */
  ghost predicate PathAdmits(p: Program, grants: set<nat>, c: nat, m: Member)
    requires c < |p|
  {
    exists path :: IsPath(p, c, path) && Admits(p, grants, End(p, c, path), m)
  }

  /** The same by a path that does not continue past the declaring class. */
  ghost predicate Stops(p: Program, c: nat, path: seq<nat>, m: Member)
    requires c < |p| && IsPath(p, c, path)
    decreases |path|
  {
    path == [] || (c != m.parent && Stops(p, p[c][path[0]].cls, path[1..], m))
  }

  ghost predicate Admitting(p: Program, grants: set<nat>, c: nat, m: Member, path: seq<nat>) {
    c < |p| && IsPath(p, c, path) && Stops(p, c, path, m) && Admits(p, grants, End(p, c, path), m)
  }

  lemma {:induction false} CheckFindsPath(p: Program, grants: set<nat>, c: nat, m: Member) returns (path: seq<nat>)
    requires c < |p| && Check(p, grants, c, m)
    ensures Admitting(p, grants, c, m, path)
    decreases c, |p[c]| + 1
  {
    path := [];
    if m.parent != c {
      path := CheckBasesFindsPath(p, grants, c, 0, m);
    }
  }

  lemma {:induction false} CheckBasesFindsPath(p: Program, grants: set<nat>, c: nat, i: nat, m: Member)
      returns (path: seq<nat>)
    requires c < |p| && i <= |p[c]| && m.parent != c && CheckBases(p, grants, c, i, m)
    ensures Admitting(p, grants, c, m, path)
    decreases c, |p[c]| - i
  {
    path := [];
    if c in grants && Access(p, p[c][i].cls, m) >= PROTECTED {
    } else if Check(p, grants, p[c][i].cls, m) {
      var rest := CheckFindsPath(p, grants, p[c][i].cls, m);
      path := [i] + rest;
      assert path[1..] == rest;
    } else {
      path := CheckBasesFindsPath(p, grants, c, i + 1, m);
    }
  }

  lemma {:induction false} CheckBasesAny(p: Program, grants: set<nat>, c: nat, i: nat, k: nat, m: Member)
    requires c < |p| && i <= k < |p[c]|
    requires (c in grants && Access(p, p[c][k].cls, m) >= PROTECTED) || Check(p, grants, p[c][k].cls, m)
    ensures CheckBases(p, grants, c, i, m)
    decreases k - i
  {
    if i < k {
      CheckBasesAny(p, grants, c, i + 1, k, m);
    }
  }

  lemma {:induction false} PathChecks(p: Program, grants: set<nat>, c: nat, m: Member, path: seq<nat>)
    requires Admitting(p, grants, c, m, path)
    ensures Check(p, grants, c, m)
    decreases |path|
  {
    if path == [] {
      if m.parent != c {
        var k: nat :| k < |p[c]| && Access(p, p[c][k].cls, m) >= PROTECTED;
        CheckBasesAny(p, grants, c, 0, k, m);
      }
    } else {
      PathChecks(p, grants, p[c][path[0]].cls, m, path[1..]);
      CheckBasesAny(p, grants, c, 0, path[0], m);
    }
  }

  /** `accessCheckX` succeeds exactly if a path that does not continue past the declaring class leads
      to a class that admits the member. */
  lemma {:induction false} CheckIsPath(p: Program, grants: set<nat>, c: nat, m: Member)
    requires c < |p|
    ensures Check(p, grants, c, m) <==>
      exists path :: Admitting(p, grants, c, m, path)
  {
    if Check(p, grants, c, m) {
      var path := CheckFindsPath(p, grants, c, m);
    }
    forall path | Admitting(p, grants, c, m, path)
      ensures Check(p, grants, c, m)
    {
      PathChecks(p, grants, c, m, path);
    }
  }

  /** Where a path that continues past the declaring class enters it. */
  lemma {:induction false} Continue(p: Program, c: nat, path: seq<nat>, m: Member) returns (rest: seq<nat>)
    requires c < |p| && IsPath(p, c, path) && !Stops(p, c, path, m)
    ensures m.parent <= c && IsPath(p, m.parent, rest) && End(p, m.parent, rest) == End(p, c, path) && rest != []
    decreases |path|
  {
    if c == m.parent {
      rest := path;
    } else {
      rest := Continue(p, p[c][path[0]].cls, path[1..], m);
    }
  }

  lemma {:induction false} ToDeclaring(p: Program, c: nat, path: seq<nat>, m: Member) returns (first: seq<nat>)
    requires c < |p| && IsPath(p, c, path) && !Stops(p, c, path, m)
    ensures IsPath(p, c, first) && Stops(p, c, first, m) && End(p, c, first) == m.parent
    decreases |path|
  {
    first := [];
    if c != m.parent {
      var rest := ToDeclaring(p, p[c][path[0]].cls, path[1..], m);
      first := [path[0]] + rest;
      assert first[1..] == rest;
    }
  }

  /** For every class the search finds what a search along all paths finds. */
  ghost predicate SearchIsComplete(p: Program, grants: set<nat>, m: Member) {
    forall c :: 0 <= c < |p| ==> (Check(p, grants, c, m) <==> PathAdmits(p, grants, c, m))
  }

  /** The declaring class, where the search stops, is all that can be in the way. */
  lemma {:induction false} CompleteAtDeclaring(p: Program, grants: set<nat>, m: Member)
    requires m.parent < |p|
    ensures SearchIsComplete(p, grants, m) <==> m.parent in grants || !PathAdmits(p, grants, m.parent, m)
  {
    if m.parent in grants || !PathAdmits(p, grants, m.parent, m) {
      forall c: nat | c < |p|
        ensures Check(p, grants, c, m) <==> PathAdmits(p, grants, c, m)
      {
        if Check(p, grants, c, m) {
          var path := CheckFindsPath(p, grants, c, m);
          assert IsPath(p, c, path) && Admits(p, grants, End(p, c, path), m);
        } else if path :| IsPath(p, c, path) && Admits(p, grants, End(p, c, path), m) {
          if Stops(p, c, path, m) {
            PathChecks(p, grants, c, m, path);
          } else {
            var rest := Continue(p, c, path, m);
            assert m.parent in grants;
            var first := ToDeclaring(p, c, path, m);
            PathChecks(p, grants, c, m, first);
          }
        }
      }
    } else {
      assert !Check(p, grants, m.parent, m) && PathAdmits(p, grants, m.parent, m);
    }
  }

  /** An access above none is inherited from the declaring class. */
  lemma {:induction false} AccessOnlyAbove(p: Program, c: nat, m: Member)
    requires c < |p| && !m.isStatic && m.prot >= NONE && Access(p, c, m) > NONE
    ensures m.parent <= c
  {
    var path := AccessAttained(p, c, m);
  }

  /** For an instance member the search is the search along all inheritance paths. */
  lemma {:induction false} InstanceCheck(p: Program, grants: set<nat>, c: nat, m: Member)
    requires c < |p| && m.parent < |p| && !m.isStatic && m.prot >= NONE
    ensures Check(p, grants, c, m) <==> PathAdmits(p, grants, c, m)
  {
    if m.parent !in grants {
      forall path | IsPath(p, m.parent, path)
        ensures !Admits(p, grants, End(p, m.parent, path), m)
      {
        var e := End(p, m.parent, path);
        forall i | 0 <= i < |p[e]|
          ensures Access(p, p[e][i].cls, m) < PROTECTED
        {
          if Access(p, p[e][i].cls, m) >= PROTECTED {
            AccessOnlyAbove(p, p[e][i].cls, m);
          }
        }
      }
    }
    CompleteAtDeclaring(p, grants, m);
  }

  /** A class strictly above c is in `grants` and has a base class itself. */
  predicate GrantAbove(p: Program, grants: set<nat>, c: nat)
    requires c < |p|
  {
    exists i {:trigger p[c][i]} :: 0 <= i < |p[c]| &&
      var b := p[c][i].cls;
      (b in grants && p[b] != []) || GrantAbove(p, grants, b)
  }

  lemma {:induction false} GrantAbovePath(p: Program, grants: set<nat>, c: nat) returns (path: seq<nat>)
    requires c < |p| && GrantAbove(p, grants, c)
    ensures path != [] && IsPath(p, c, path) && End(p, c, path) in grants && p[End(p, c, path)] != []
  {
    var i: nat :| i < |p[c]| && ((p[c][i].cls in grants && p[p[c][i].cls] != []) || GrantAbove(p, grants, p[c][i].cls));
    path := [i];
    assert path[1..] == [];
    if GrantAbove(p, grants, p[c][i].cls) {
      var rest := GrantAbovePath(p, grants, p[c][i].cls);
      path := [i] + rest;
      assert path[1..] == rest;
    }
  }

  lemma {:induction false} PathGrantAbove(p: Program, grants: set<nat>, c: nat, path: seq<nat>)
    requires c < |p| && path != [] && IsPath(p, c, path) && End(p, c, path) in grants && p[End(p, c, path)] != []
    ensures GrantAbove(p, grants, c)
    decreases |path|
  {
    var b := p[c][path[0]].cls;
    if path[1..] != [] {
      PathGrantAbove(p, grants, b, path[1..]);
    }
  }

  /** From the declaring class of a static member, which gives no access itself, a class that admits the
      member is one strictly above it that is in `grants` and has a base class. */
  lemma {:induction false} StaticAdmits(p: Program, grants: set<nat>, m: Member)
    requires m.parent < |p| && m.parent !in grants && m.isStatic && m.prot >= NONE
    ensures PathAdmits(p, grants, m.parent, m) <==> m.prot >= PROTECTED && GrantAbove(p, grants, m.parent)
  {
    var c := m.parent;
    forall e | 0 <= e < |p| ensures Admits(p, grants, e, m) <==> e in grants && p[e] != [] && m.prot >= PROTECTED {
      forall i | 0 <= i < |p[e]| ensures Access(p, p[e][i].cls, m) == m.prot {
        StaticAccess(p, p[e][i].cls, m);
      }
      if p[e] != [] {
        assert Access(p, p[e][0].cls, m) == m.prot;
      }
    }
    if m.prot >= PROTECTED && GrantAbove(p, grants, c) {
      var path := GrantAbovePath(p, grants, c);
      assert IsPath(p, c, path) && Admits(p, grants, End(p, c, path), m);
    }
    if path :| IsPath(p, c, path) && Admits(p, grants, End(p, c, path), m) {
      PathGrantAbove(p, grants, c, path);
    }
  }

  /** The search finds what a search along all paths finds, for every class, exactly if the declaring
      class gives access itself, or the member is no static one, or it is less than protected, or no class
      above the declaring class gives access and has a base class. */
  lemma {:induction false} CheckExactly(p: Program, grants: set<nat>, m: Member)
    requires m.parent < |p| && m.prot >= NONE
    ensures SearchIsComplete(p, grants, m) <==>
      m.parent in grants || !m.isStatic || m.prot < PROTECTED || !GrantAbove(p, grants, m.parent)
  {
    CompleteAtDeclaring(p, grants, m);
    if !m.isStatic {
      forall c | 0 <= c < |p| ensures Check(p, grants, c, m) <==> PathAdmits(p, grants, c, m) {
        InstanceCheck(p, grants, c, m);
      }
    } else if m.parent !in grants {
      StaticAdmits(p, grants, m);
    }
  }

  /** Class 3 inherits from class 2, which declares a protected static member, 2 from 1 and 1 from 0. */
  function FourInLine(): Program {
    [[], [Base(0, PUBLIC)], [Base(1, PUBLIC)], [Base(2, PUBLIC)]]
  }

  /** A friend of class 1 may not use the member through class 3: the search gives up at class 2, one
      step before the class that would admit it. */
  lemma {:induction false} StaticCheckGivesUp(p: Program, m: Member, samePackage: bool)
    requires p == FourInLine() && m == Member(2, PROTECTED, true)
    ensures GrantAbove(p, {1}, 2) && PathAdmits(p, {1}, 3, m)
    ensures !Check(p, {1}, 3, m) && !Allowed(p, {1}, 3, m, samePackage)
  {
    StaticAccess(p, 0, m);
    StaticAccess(p, 3, m);
    assert p[1][0].cls == 0 && p[2][0].cls == 1 && p[3][0].cls == 2;
    assert Admits(p, {1}, 1, m);
    assert [0, 0][1..] == [0] && [0][1..] == [];
    assert IsPath(p, 1, []) && IsPath(p, 2, [0]) && IsPath(p, 3, [0, 0]);
    assert End(p, 2, [0]) == End(p, 1, []) && End(p, 3, [0, 0]) == End(p, 2, [0]);
    assert !Check(p, {1}, 2, m);
    assert !CheckBases(p, {1}, 3, 1, m) && !CheckBases(p, {1}, 3, 0, m);
  }

  // ----- accessCheck -----

  /** The decision of `accessCheck` for the member of an aggregate; `samePackage` is the outcome of
      `hasPackageAccess`. */
  method AccessCheck(p: Program, grants: set<nat>, c: nat, m: Member, samePackage: bool) returns (result: bool)
    requires c < |p| && m.prot >= NONE
    ensures result == Allowed(p, grants, c, m, samePackage)
  {
    var access: Prot;
    if m.parent == c {
      access := m.prot;
      result := access >= PUBLIC || c in grants || (access == PACKAGE && samePackage);
    } else {
      access := GetAccess(p, c, m);
      if access >= PUBLIC {
        result := true;
      } else if access == PACKAGE && samePackage {
        result := true;
      } else {
        result := AccessCheckX(p, grants, c, m);
      }
    }
  }

  predicate Allowed(p: Program, grants: set<nat>, c: nat, m: Member, samePackage: bool)
    requires c < |p|
  {
    Access(p, c, m) >= PUBLIC || (Access(p, c, m) == PACKAGE && samePackage) || Check(p, grants, c, m)
  }

  /** An instance member may be used exactly if a path makes it public, the best path makes it package
      and the package is the same, or a path leads to a class that admits it. */
  lemma {:induction false} AllowedByPath(p: Program, grants: set<nat>, c: nat, m: Member, samePackage: bool)
    requires c < |p| && m.parent < |p| && !m.isStatic && m.prot >= NONE
    ensures Allowed(p, grants, c, m, samePackage) <==>
      (exists path :: Reaches(p, c, path, m) && PathAccess(p, c, path, m) >= PUBLIC) ||
      (Access(p, c, m) == PACKAGE && samePackage) || PathAdmits(p, grants, c, m)
  {
    AccessIsBestPath(p, c, m);
    InstanceCheck(p, grants, c, m);
  }

  /** A class at which the search for a static member may end: the declaring class, or for a member that
      is at least protected any class with a base class. */
  ghost predicate StaticEnd(p: Program, grants: set<nat>, c: nat, m: Member, path: seq<nat>)
    requires c < |p|
  {
    && IsPath(p, c, path) && Stops(p, c, path, m) && End(p, c, path) in grants
    && (End(p, c, path) == m.parent || (m.prot >= PROTECTED && p[End(p, c, path)] != []))
  }

  /** A static member may be used through any class exactly if it is public, or package in the same
      package, or a path that does not continue past the declaring class ends at a class that gives
      access: that class itself, or, if the member is at least protected, one with a base class. */
  lemma {:induction false} StaticAllowed(p: Program, grants: set<nat>, c: nat, m: Member, samePackage: bool)
    requires c < |p| && m.isStatic && m.prot >= NONE
    ensures Allowed(p, grants, c, m, samePackage) <==>
      m.prot >= PUBLIC || (m.prot == PACKAGE && samePackage) || exists path :: StaticEnd(p, grants, c, m, path)
  {
    StaticAccess(p, c, m);
    CheckIsPath(p, grants, c, m);
    forall e, i | 0 <= e < |p| && 0 <= i < |p[e]| ensures Access(p, p[e][i].cls, m) == m.prot {
      StaticAccess(p, p[e][i].cls, m);
    }
    forall path ensures Admitting(p, grants, c, m, path) <==> StaticEnd(p, grants, c, m, path) {
      if IsPath(p, c, path) && p[End(p, c, path)] != [] {
        assert Access(p, p[End(p, c, path)][0].cls, m) == m.prot;
      }
    }
  }

  /** Giving more classes' access to a function never takes a member away from it. */
  lemma {:induction false} GrantsMonotone(p: Program, grants: set<nat>, more: set<nat>, c: nat, m: Member)
    requires c < |p| && grants <= more && Check(p, grants, c, m)
    ensures Check(p, more, c, m)
  {
    var path := CheckFindsPath(p, grants, c, m);
    PathChecks(p, more, c, m, path);
  }
}
