/** e2ir.c: `StringExp::toElem` for dynamic arrays, which shares the symbols of recent string literals. */
module StringCache {

  const STSIZE := 16

  /** A string literal as the table compares it: the module it occurs in, its length in units, the size
      of a unit and its bytes. The data emitted for it is determined by these. */
  datatype Key = Key(m: nat, len: nat, sz: nat, bytes: seq<nat>)

  /** `StringTab`; `si` is the number of the symbol, which is a null pointer in an unused entry. */
  datatype Entry = Unused | Used(key: Key, si: nat)

  class StringTab {
    var tab: array<Entry>
    var stidx: nat
    /** The symbols emitted so far, by number, each with the literal it holds. */
    var symbols: seq<Key>

    ghost predicate Holds(p: nat)
      requires p < STSIZE && tab.Length == STSIZE && stidx < STSIZE
      reads this, tab
    {
      var age := Age(stidx, p);
      tab[p] == if age < |symbols| then Used(symbols[|symbols| - 1 - age], |symbols| - 1 - age) else Unused
    }

    /** The table holds the last 16 symbols, the newest at `stidx`. */
    ghost predicate Valid()
      reads this, tab
    {
      tab.Length == STSIZE && stidx < STSIZE && (forall p: nat :: p < STSIZE ==> Holds(p)) && Spread(symbols)
    }

    /** `clearStringTab`. */
    constructor ()
      ensures Valid() && fresh(tab) && symbols == []
    {
      tab := new Entry[STSIZE](_ => Unused);
      stidx := 0;
      symbols := [];
    }

    /** The symbol holds exactly this literal; a new one is emitted only if none of the last 16 does. */
    method ToElem(key: Key) returns (si: nat)
      requires Valid()
      modifies this`stidx, this`symbols, tab
      ensures Valid() && tab == old(tab)
      ensures si < |symbols| && symbols[si] == key
      ensures symbols == if Recent(old(symbols), key) then old(symbols) else old(symbols) + [key]
      ensures |symbols| - 16 <= si
    {
      var hit := Search(key);
      if hit < STSIZE {
        assert Holds(hit);
        return tab[hit].si;
      }
      NotRecent(key);
      ghost var was := symbols;
      stidx := Slot(stidx, 1);
      si := |symbols|;
      symbols := symbols + [key];
      tab[stidx] := Used(key, si);
      forall p: nat | p < STSIZE
        ensures Holds(p)
      {
        assert p != stidx ==> old(Holds(p));
      }
      SpreadGrows(was, key);
    }

    /** The loop of `ToElem`: the entries from the newest slot upwards. */
    method Search(key: Key) returns (p: nat)
      requires Valid()
      ensures p < STSIZE ==> Matches(tab[p], key)
      ensures p >= STSIZE ==> forall q: nat :: q < STSIZE ==> !Matches(tab[q], key)
    {
      for i := 0 to STSIZE
        invariant forall j: nat :: j < i ==> !Matches(tab[Slot(stidx, j)], key)
      {
        p := Slot(stidx, i);
        if Matches(tab[p], key) {
          return;
        }
      }
      forall q: nat | q < STSIZE
        ensures !Matches(tab[q], key)
      {
        var j: nat := if q >= stidx then q - stidx else q + STSIZE - stidx;
        assert Slot(stidx, j) == q;
      }
      p := STSIZE;
    }

    lemma NotRecent(key: Key)
      requires Valid() && forall q: nat :: q < STSIZE ==> !Matches(tab[q], key)
      ensures !Recent(symbols, key)
    {
      forall k: nat | k < |symbols| <= k + STSIZE
        ensures symbols[k] != key
      {
        var age := |symbols| - 1 - k;
        var p: nat := if age <= stidx then stidx - age else stidx + STSIZE - age;
        assert Holds(p) && Age(stidx, p) == age;
      }
    }
  }

  function Slot(stidx: nat, i: nat): (p: nat)
    ensures p < STSIZE
  {
    (stidx + i) % STSIZE
  }

  /** How many entries ago slot `p` was filled. */
  function Age(stidx: nat, p: nat): nat
    requires stidx < STSIZE && p < STSIZE
  {
    if p <= stidx then stidx - p else stidx + STSIZE - p
  }

  /** The test of the search loop. */
  predicate Matches(st: Entry, key: Key) {
    st.Used? && st.key.m == key.m && st.key.len == key.len && st.key.sz == key.sz && st.key.bytes == key.bytes
  }

  /** Whether one of the last 16 symbols holds the literal. */
  ghost predicate Recent(symbols: seq<Key>, key: Key) {
    exists k: nat :: k < |symbols| <= k + 16 && symbols[k] == key
  }

  /** No literal is emitted again before 16 others have been. */
  ghost predicate Spread(symbols: seq<Key>) {
    forall i: nat, j: nat :: i < j < |symbols| && j <= i + 16 ==> symbols[i] != symbols[j]
  }

  lemma SpreadGrows(symbols: seq<Key>, key: Key)
    requires Spread(symbols)
    ensures Spread(symbols + [key]) <==> !Recent(symbols, key)
  {
    var s := symbols + [key];
    if k: nat :| k < |symbols| <= k + STSIZE && symbols[k] == key {
      assert s[k] == s[|symbols|];
    } else {
      forall i: nat, j: nat | i < j < |s| && j <= i + STSIZE
        ensures s[i] != s[j]
      {
        assert s[i] == symbols[i];
      }
    }
  }
}
