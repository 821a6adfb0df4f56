/** dsymbol.c: the members of a scope by number, seen through the attribute declarations around them. */
module NestedMembers {

  import opened Wrappers

  /** A member list as a declaration holds it: possibly a null pointer. */
  datatype Members = Null | Members(data: seq<Symbol>)

  /** An attribute declaration wraps a list of its own; anything else is a symbol, known by its number. */
  datatype Symbol = Plain(id: nat) | Attrib(decl: Members)

  /** The symbols in order, without the nesting. */
  function Flat(ms: Members): seq<nat>
    decreases ms, 1
  {
    if ms.Null? then [] else FlatList(ms, |ms.data|)
  }

  /** Those of the first `n` members. */
  function FlatList(ms: Members, n: nat): seq<nat>
    requires ms.Members? && n <= |ms.data|
    decreases ms, 0, n
  {
    if n == 0 then [] else FlatList(ms, n - 1) + FlatSymbol(ms.data[n - 1])
  }

  function FlatSymbol(s: Symbol): seq<nat> {
    if s.Plain? then [s.id] else Flat(s.decl)
  }

  method Dim(members: Members) returns (n: nat)
    ensures n == |Flat(members)|
    decreases members
  {
    n := 0;
    if members.Members? {
      for i := 0 to |members.data|
        invariant n == |FlatList(members, i)|
      {
        var s := members.data[i];
        if s.Attrib? {
          var inner := Dim(s.decl);
          n := n + inner;
        } else {
          n := n + 1;
        }
      }
    }
  }

  /** The counter that `pn` points to. */
  class Counter {
    var n: nat

    constructor ()
      ensures n == 0
    {
      n := 0;
    }
  }

  /** The symbol at `nth` of the flattened list; if there is none, the counter moves on by exactly the
      number of symbols, and otherwise it is left alone. */
  method GetNth(members: Members, nth: nat, pn: Counter?) returns (s: Option<nat>)
    modifies if pn == null then {} else {pn}
    ensures s == (if nth < |Flat(members)| then Some(Flat(members)[nth]) else None)
    ensures pn != null ==> pn.n == old(pn.n) + if s.None? then |Flat(members)| else 0
    decreases members
  {
    if members.Null? {
      return None;
    }
    var n := new Counter();
    for i := 0 to |members.data|
      invariant fresh(n) && n.n == |FlatList(members, i)| <= nth
      invariant pn != null ==> pn.n == old(pn.n)
    {
      FlatPrefix(members, i + 1, |members.data|);
      var symbol := members.data[i];
      if symbol.Attrib? {
        s := GetNth(symbol.decl, nth - n.n, n);
        if s.Some? {
          return s;
        }
      } else if n.n == nth {
        return Some(symbol.id);
      } else {
        n.n := n.n + 1;
      }
    }
    if pn != null {
      pn.n := pn.n + n.n;
    }
    return None;
  }

  lemma {:induction false} FlatPrefix(ms: Members, m: nat, n: nat)
    requires ms.Members? && m <= n <= |ms.data|
    ensures FlatList(ms, m) <= FlatList(ms, n)
    decreases n
  {
    if m < n {
      FlatPrefix(ms, m, n - 1);
    }
  }

  lemma {:induction false} FlatConcat(a: seq<Symbol>, b: seq<Symbol>, n: nat)
    requires n <= |b|
    ensures FlatList(Members(a + b), |a| + n) == Flat(Members(a)) + FlatList(Members(b), n)
  {
    if n == 0 {
      FlatHead(a, b, |a|);
    } else {
      FlatConcat(a, b, n - 1);
      assert (a + b)[|a| + n - 1] == b[n - 1];
    }
  }

  lemma {:induction false} FlatHead(a: seq<Symbol>, b: seq<Symbol>, n: nat)
    requires n <= |a|
    ensures FlatList(Members(a + b), n) == FlatList(Members(a), n)
  {
    if n > 0 {
      FlatHead(a, b, n - 1);
    }
  }

  function Plains(ids: seq<nat>): seq<Symbol> {
    seq(|ids|, i requires 0 <= i < |ids| => Plain(ids[i]))
  }

  /** Without attributes the numbers are the positions, and a null list is an empty one. With
      `WrappingIsInvisible` that says what every list flattens to. */
  lemma {:induction false} PlainMembers(ids: seq<nat>)
    ensures Flat(Members(Plains(ids))) == ids && Flat(Null) == []
  {
    PlainPrefix(ids, |ids|);
    assert ids[..|ids|] == ids;
  }

  lemma {:induction false} PlainPrefix(ids: seq<nat>, n: nat)
    requires n <= |ids|
    ensures FlatList(Members(Plains(ids)), n) == ids[..n]
  {
    if n > 0 {
      PlainPrefix(ids, n - 1);
      assert ids[..n] == ids[..n - 1] + [ids[n - 1]];
    }
  }

  /** Wrapping part of a list in an attribute changes no number. */
  lemma WrappingIsInvisible(before: seq<Symbol>, wrapped: seq<Symbol>, after: seq<Symbol>)
    ensures Flat(Members(before + [Attrib(Members(wrapped))] + after)) == Flat(Members(before + wrapped + after))
  {
    var a := [Attrib(Members(wrapped))];
    FlatConcat(before + a, after, |after|);
    FlatConcat(before + wrapped, after, |after|);
    FlatConcat(before, a, 1);
    FlatConcat(before, wrapped, |wrapped|);
    assert FlatList(Members(a), 0) == [] && FlatList(Members(a), 1) == [] + Flat(Members(wrapped));
  }
}
