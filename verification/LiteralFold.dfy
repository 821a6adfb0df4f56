/** constfold.c: length, indexing, slicing and concatenation of string and array literals. */
module LiteralFold {

  import opened Root

  newtype byte = x: int | 0 <= x < 256

  /** `StringExp`, its characters as bytes, and `ArrayLiteralExp`, its elements by number. `pure` if they
      have no side effects. */
  datatype Literal =
    | Text(data: seq<byte>, len: nat, sz: nat, postfix: byte, committed: bool)
    | Elems(elements: seq<nat>, pure: bool)

  /** What folding yields; an index or slice out of bounds is reported as an error. */
  datatype Fold<+T> = Value(value: T) | OutOfBounds | CantInterpret

  /** The byte offset of unit `i`. */
  function At(i: nat, sz: nat): nat {
    match sz
    case 2 => 2 * i
    case 4 => 4 * i
    case _ => i
  }

  predicate IsSize(sz: nat) {
    sz == 1 || sz == 2 || sz == 4
  }

  function Zeros(n: nat): (z: seq<byte>)
    ensures |z| == n && forall i :: 0 <= i < n ==> z[i] == 0
  {
    seq(n, i => 0)
  }

  /** A string literal holds its units and one more, which is zero. */
  predicate Valid(e: Literal) {
    e.Text? ==> IsSize(e.sz) && |e.data| == At(e.len + 1, e.sz) && e.data[At(e.len, e.sz)..] == Zeros(e.sz)
  }

  function Content(e: Literal): seq<byte>
    requires e.Text? && Valid(e)
  {
    e.data[..At(e.len, e.sz)]
  }

  /** The number in the first `n` bytes, the low byte first. */
  function ReadLow(b: seq<byte>, n: nat): nat
    requires n <= |b|
    decreases n
  {
    if n == 0 then 0 else b[0] as nat + 0x100 * ReadLow(b[1..], n - 1)
  }

  function CharAt(data: seq<byte>, sz: nat, i: nat): nat
    requires IsSize(sz) && At(i + 1, sz) <= |data|
  {
    ReadLow(data[At(i, sz)..], sz)
  }

  /** The units that bytes hold. */
  function Decode(b: seq<byte>, sz: nat): seq<nat>
    requires IsSize(sz)
    decreases |b|
  {
    if |b| < sz then [] else [ReadLow(b, sz)] + Decode(b[sz..], sz)
  }

  lemma {:induction false} DecodeLength(b: seq<byte>, sz: nat, n: nat)
    requires IsSize(sz) && |b| == At(n, sz)
    ensures |Decode(b, sz)| == n
    decreases n
  {
    if n > 0 {
      DecodeLength(b[sz..], sz, n - 1);
    }
  }

  /** The elements a literal stands for. */
  function Elements(e: Literal): (s: seq<nat>)
    requires Valid(e)
    ensures e.Text? ==> |s| == e.len
  {
    if e.Text? then
      DecodeLength(Content(e), e.sz, e.len);
      Decode(Content(e), e.sz)
    else e.elements
  }

  function Terminated(content: seq<byte>, len: nat, sz: nat, postfix: byte, committed: bool): (e: Literal)
    requires IsSize(sz) && |content| == At(len, sz)
    ensures e.Text? && e.len == len && e.sz == sz && e.postfix == postfix && e.committed == committed
    ensures Valid(e) && Content(e) == content
  {
    Text(content + Zeros(sz), len, sz, postfix, committed)
  }

  // ----- the operations -----

  method ArrayLength(e1: Literal) returns (n: nat)
    requires Valid(e1)
    ensures n == |Elements(e1)|
  {
    n := if e1.Text? then e1.len else |e1.elements|;
  }

  /** An array literal with side effects is left alone, but the length of a static array (`fixed`) is
      checked first. */
  method Index(e1: Literal, fixed: bool, i: nat) returns (e: Fold<nat>)
    requires Valid(e1)
    ensures e.Value? ==> i < |Elements(e1)| && e.value == Elements(e1)[i]
    ensures e.OutOfBounds? <==> i >= |Elements(e1)| && (e1.Text? || fixed || e1.pure)
    ensures e.CantInterpret? <==> e1.Elems? && !e1.pure && (fixed ==> i < |Elements(e1)|)
  {
    e := CantInterpret;
    if e1.Text? {
      if i >= e1.len {
        e := OutOfBounds;
      } else {
        CharIsElement(e1, i);
        e := Value(CharAt(e1.data, e1.sz, i));
      }
    } else if fixed {
      if i >= |e1.elements| {
        e := OutOfBounds;
      } else if e1.pure {
        e := Value(e1.elements[i]);
      }
    } else {
      if e1.pure {
        if i >= |e1.elements| {
          e := OutOfBounds;
        } else {
          e := Value(e1.elements[i]);
        }
      }
    }
  }

  function Put(s: seq<byte>, at: nat, src: seq<byte>): (r: seq<byte>)
    requires at + |src| <= |s|
    ensures |r| == |s|
  {
    s[..at] + src + s[at + |src|..]
  }

  method MemCpy(s: array<byte>, at: nat, src: seq<byte>)
    requires at + |src| <= s.Length
    modifies s
    ensures s[..] == Put(old(s[..]), at, src)
  {
    for k := 0 to |src|
      invariant forall j :: 0 <= j < k ==> s[at + j] == src[j]
      invariant s[..at] == old(s[..at]) && s[at + |src|..] == old(s[at + |src|..])
    {
      s[at + k] := src[k];
    }
    assert s[at..at + |src|] == src;
    assert s[..] == s[..at] + s[at..at + |src|] + s[at + |src|..];
  }

  lemma PutThree(s: seq<byte>, a: seq<byte>, b: seq<byte>, c: seq<byte>)
    requires |s| == |a| + |b| + |c|
    ensures Put(Put(Put(s, 0, a), |a|, b), |a| + |b|, c) == a + b + c
  {
    var s1 := Put(s, 0, a);
    assert s1[..|a|] == a;
    var s2 := Put(s1, |a|, b);
    assert s2[..|a| + |b|] == a + b;
  }

  /** A new buffer with both parts and a zero unit behind them. */
  method Buffer(a: seq<byte>, b: seq<byte>, sz: nat) returns (s: array<byte>)
    ensures fresh(s) && s[..] == a + b + Zeros(sz)
  {
    s := new byte[|a| + |b| + sz];
    ghost var s0 := s[..];
    MemCpy(s, 0, a);
    MemCpy(s, |a|, b);
    MemCpy(s, |a| + |b|, Zeros(sz));
    PutThree(s0, a, b, Zeros(sz));
  }

  /** The slice of a string gets a buffer and a terminator of its own. */
  method Slice(e1: Literal, lwr: nat, upr: nat) returns (e: Fold<Literal>)
    requires Valid(e1)
    ensures e.CantInterpret? <==> e1.Elems? && !e1.pure
    ensures e.OutOfBounds? <==> (e1.Text? || e1.pure) && !(lwr <= upr <= |Elements(e1)|)
    ensures e.Value? ==> e.value == Sliced(e1, lwr, upr)
  {
    e := CantInterpret;
    if e1.Text? {
      if upr > e1.len || lwr > upr {
        e := OutOfBounds;
      } else {
        var len := upr - lwr;
        var s := Buffer(e1.data[At(lwr, e1.sz)..At(upr, e1.sz)], [], e1.sz);
        e := Value(Text(s[..], len, e1.sz, e1.postfix, true));
      }
    } else if e1.pure {
      if upr > |e1.elements| || lwr > upr {
        e := OutOfBounds;
      } else {
        e := Value(Elems(e1.elements[lwr..upr], true));
      }
    }
  }

  function Sliced(e: Literal, lwr: nat, upr: nat): (r: Literal)
    requires Valid(e) && lwr <= upr <= |Elements(e)|
    ensures Valid(r) && (e.Text? <==> r.Text?) && (r.Text? ==> r.committed && r.postfix == e.postfix)
  {
    if e.Text? then Terminated(e.data[At(lwr, e.sz)..At(upr, e.sz)], upr - lwr, e.sz, e.postfix, true)
    else Elems(e.elements[lwr..upr], true)
  }

  /** Two strings are concatenated if their units have the same size; two arrays always, the front end
      having checked their types. */
  method Cat(e1: Literal, e2: Literal) returns (e: Fold<Literal>)
    requires Valid(e1) && Valid(e2)
    ensures e.Value? <==> Joinable(e1, e2)
    ensures e.Value? ==> e.value == Joined(e1, e2)
  {
    e := CantInterpret;
    if e1.Text? && e2.Text? {
      var len, sz := e1.len + e2.len, e1.sz;
      if sz != e2.sz {
        return;
      }
      var s := Buffer(e1.data[..At(e1.len, sz)], e2.data[..At(e2.len, sz)], sz);
      e := Value(Text(s[..], len, sz, 0, e1.committed || e2.committed));
    } else if e1.Elems? && e2.Elems? {
      e := Value(Elems(e1.elements + e2.elements, e1.pure && e2.pure));
    }
  }

  predicate Joinable(e1: Literal, e2: Literal) {
    (e1.Text? && e2.Text? && e1.sz == e2.sz) || (e1.Elems? && e2.Elems?)
  }

  function Joined(e1: Literal, e2: Literal): (r: Literal)
    requires Valid(e1) && Valid(e2) && Joinable(e1, e2)
    ensures Valid(r)
  {
    if e1.Text? then
      Terminated(Content(e1) + Content(e2), e1.len + e2.len, e1.sz, 0, e1.committed || e2.committed)
    else Elems(e1.elements + e2.elements, e1.pure && e2.pure)
  }

  /** A character in front of a string is copied as the low bytes of its value. */
  method CatFront(v: nat, e2: Literal) returns (e: Literal)
    requires e2.Text? && Valid(e2)
    ensures e == Joined(Char(v, e2), e2)
  {
    var sz := e2.sz;
    var s := Buffer(LowBytes(v, sz), e2.data[..At(e2.len, sz)], sz);
    e := Text(s[..], 1 + e2.len, sz, 0, e2.committed);
  }

  function LowBytes(v: nat, sz: nat): (b: seq<byte>)
    ensures |b| == sz
    decreases sz
  {
    if sz == 0 then [] else [(v % 0x100) as byte] + LowBytes(v / 0x100, sz - 1)
  }

  /** The character as a literal by itself. */
  function Char(v: nat, like: Literal): (e: Literal)
    requires like.Text? && Valid(like)
    ensures e.Text? && e.sz == like.sz && Valid(e)
  {
    Terminated(LowBytes(v, like.sz), 1, like.sz, 0, like.committed)
  }

  // ----- what the operations mean -----

  lemma {:induction false} ReadLowPrefix(a: seq<byte>, b: seq<byte>, n: nat)
    requires n <= |a|
    ensures ReadLow(a + b, n) == ReadLow(a, n)
    decreases n
  {
    if n > 0 {
      assert (a + b)[1..] == a[1..] + b;
      ReadLowPrefix(a[1..], b, n - 1);
    }
  }

  lemma {:induction false} DecodeConcat(a: seq<byte>, b: seq<byte>, sz: nat, n: nat)
    requires IsSize(sz) && |a| == At(n, sz)
    ensures Decode(a + b, sz) == Decode(a, sz) + Decode(b, sz)
    decreases n
  {
    if n == 0 {
      assert a + b == b;
    } else {
      assert (a + b)[sz..] == a[sz..] + b;
      DecodeConcat(a[sz..], b, sz, n - 1);
      ReadLowPrefix(a, b, sz);
    }
  }

  lemma CharIsElement(e: Literal, i: nat)
    requires Valid(e) && e.Text? && i < e.len
    ensures CharAt(e.data, e.sz, i) == Elements(e)[i]
  {
    var c, k := Content(e), At(i, e.sz);
    assert c == c[..k] + c[k..];
    DecodeConcat(c[..k], c[k..], e.sz, i);
    DecodeLength(c[..k], e.sz, i);
    Parts(e.data, k, At(e.len, e.sz));
    ReadLowPrefix(c[k..], e.data[At(e.len, e.sz)..], e.sz);
  }

  /** Concatenation of literals is concatenation of what they stand for. */
  lemma JoinedElements(e1: Literal, e2: Literal)
    requires Valid(e1) && Valid(e2) && Joinable(e1, e2)
    ensures Elements(Joined(e1, e2)) == Elements(e1) + Elements(e2)
  {
    if e1.Text? {
      DecodeConcat(Content(e1), Content(e2), e1.sz, e1.len);
    }
  }

  lemma {:induction false} DecodeMiddle(a: seq<byte>, b: seq<byte>, c: seq<byte>, sz: nat, m: nat, n: nat)
    requires IsSize(sz) && |a| == At(m, sz) && |b| == At(n, sz)
    ensures m + n <= |Decode(a + (b + c), sz)| && Decode(a + (b + c), sz)[m..m + n] == Decode(b, sz)
  {
    DecodeConcat(a, b + c, sz, m);
    DecodeConcat(b, c, sz, n);
    DecodeLength(a, sz, m);
    DecodeLength(b, sz, n);
    SliceMiddle(Decode(a, sz), Decode(b, sz), Decode(c, sz));
  }

  lemma {:induction false} DecodeSlice(c: seq<byte>, sz: nat, lwr: nat, upr: nat, n: nat)
    requires IsSize(sz) && |c| == At(n, sz) && lwr <= upr <= n
    ensures |Decode(c, sz)| == n && Decode(c[At(lwr, sz)..At(upr, sz)], sz) == Decode(c, sz)[lwr..upr]
  {
    var l, u := At(lwr, sz), At(upr, sz);
    DecodeLength(c, sz, n);
    DecodeMiddle(c[..l], c[l..u], c[u..], sz, lwr, upr - lwr);
    Parts(c, l, u);
  }

  lemma Parts<T>(c: seq<T>, l: nat, u: nat)
    requires l <= u <= |c|
    ensures c == c[..l] + (c[l..u] + c[u..]) && c[l..] == c[..u][l..] + c[u..] && c[..u][l..] == c[l..u]
  {
  }

  /** Slicing a literal is slicing what it stands for. */
  lemma SlicedElements(e: Literal, lwr: nat, upr: nat)
    requires Valid(e) && lwr <= upr <= |Elements(e)|
    ensures Elements(Sliced(e, lwr, upr)) == Elements(e)[lwr..upr]
  {
    if e.Text? {
      var c := Content(e);
      DecodeSlice(c, e.sz, lwr, upr, e.len);
      TakeSlice(e.data, At(e.len, e.sz), At(lwr, e.sz), At(upr, e.sz));
      assert Content(Sliced(e, lwr, upr)) == c[At(lwr, e.sz)..At(upr, e.sz)];
    }
  }

  lemma TakeSlice<T>(d: seq<T>, n: nat, l: nat, u: nat)
    requires l <= u <= n <= |d|
    ensures d[..n][l..u] == d[l..u]
  {
  }

  lemma SliceMiddle<T>(a: seq<T>, b: seq<T>, c: seq<T>)
    ensures (a + (b + c))[|a|..|a| + |b|] == b
  {
  }

  /** Cutting a concatenation at the seam gives back both literals, their buffers included. */
  lemma SliceOfJoined(e1: Literal, e2: Literal)
    requires Valid(e1) && Valid(e2) && Joinable(e1, e2)
    ensures var r, n := Joined(e1, e2), |Elements(e1)|;
      |Elements(r)| == n + |Elements(e2)| && Same(Sliced(r, 0, n), e1) && Same(Sliced(r, n, |Elements(r)|), e2)
  {
    JoinedElements(e1, e2);
    if e1.Text? {
      var a, b, z := Content(e1), Content(e2), Zeros(e1.sz);
      SliceMiddle([], a, b + z);
      SliceMiddle(a, b, z);
      Append2(a, b, z);
      Append2([], a, b + z);
      Refill(e1);
      Refill(e2);
    }
  }

  lemma Refill(e: Literal)
    requires Valid(e) && e.Text?
    ensures e.data == Content(e) + Zeros(e.sz)
  {
  }

  /** The same characters in the same bytes, or the same elements. */
  predicate Same(a: Literal, b: Literal) {
    if a.Text? then b.Text? && a.data == b.data && a.len == b.len && a.sz == b.sz
    else b.Elems? && a.elements == b.elements
  }

  /** Which of two concatenations is folded first makes no difference at all. */
  lemma JoinAssociative(a: Literal, b: Literal, c: Literal)
    requires Valid(a) && Valid(b) && Valid(c) && Joinable(a, b) && Joinable(b, c)
    ensures Joinable(Joined(a, b), c) && Joinable(a, Joined(b, c))
    ensures Joined(Joined(a, b), c) == Joined(a, Joined(b, c))
  {
    if a.Text? {
      Append2(Content(a), Content(b), Content(c));
    } else {
      Append2(a.elements, b.elements, c.elements);
    }
  }

  /** Literals that can be concatenated one after the other. */
  predicate Chain(es: seq<Literal>) {
    es != [] && forall i :: 0 <= i < |es| ==> Valid(es[i]) && Joinable(es[0], es[i])
  }

  /** `es[0] ~ es[1] ~ ...`, folded from the left. */
  function JoinAll(es: seq<Literal>): (r: Literal)
    requires Chain(es)
    ensures Valid(r) && Joinable(es[0], r)
  {
    if |es| == 1 then es[0] else Joined(JoinAll(es[..|es| - 1]), es[|es| - 1])
  }

  /** A chain of strings is committed to its type if one of them is, and a chain of arrays has no side
      effects if none of them has. */
  lemma {:induction false} ChainIsAsItsParts(es: seq<Literal>)
    requires Chain(es)
    ensures es[0].Text? ==>
      JoinAll(es).Text? && (JoinAll(es).committed <==> exists e :: e in es && e.Text? && e.committed)
    ensures es[0].Elems? ==>
      JoinAll(es).Elems? && (JoinAll(es).pure <==> forall e :: e in es ==> e.Elems? && e.pure)
  {
    if |es| > 1 {
      ChainIsAsItsParts(es[..|es| - 1]);
      assert es == es[..|es| - 1] + [es[|es| - 1]];
    }
  }

  /** A slice of a slice is one slice. */
  lemma SliceOfSlice(e: Literal, lwr: nat, upr: nat, lwr2: nat, upr2: nat)
    requires Valid(e) && lwr <= upr <= |Elements(e)| && lwr2 <= upr2 <= upr - lwr
    ensures |Elements(Sliced(e, lwr, upr))| == upr - lwr
    ensures Sliced(Sliced(e, lwr, upr), lwr2, upr2) == Sliced(e, lwr + lwr2, lwr + upr2)
  {
    if e.Text? {
      BytesOfSlice(e.data, e.sz, e.len, lwr, upr, lwr2, upr2);
    } else {
      SliceTwice(e.elements, [], lwr, upr, lwr2, upr2);
    }
  }

  lemma BytesOfSlice(d: seq<byte>, sz: nat, n: nat, lwr: nat, upr: nat, lwr2: nat, upr2: nat)
    requires IsSize(sz) && |d| == At(n + 1, sz) && lwr <= upr <= n && lwr2 <= upr2 <= upr - lwr
    ensures (d[At(lwr, sz)..At(upr, sz)] + Zeros(sz))[At(lwr2, sz)..At(upr2, sz)] ==
      d[At(lwr + lwr2, sz)..At(lwr + upr2, sz)]
  {
    SliceTwice(d, Zeros(sz), At(lwr, sz), At(upr, sz), At(lwr2, sz), At(upr2, sz));
    AtAdd(lwr, lwr2, sz);
    AtAdd(lwr, upr2, sz);
  }

  lemma AtAdd(m: nat, n: nat, sz: nat)
    ensures At(m + n, sz) == At(m, sz) + At(n, sz)
  {
  }

  lemma SliceTwice<T>(d: seq<T>, z: seq<T>, lwr: nat, upr: nat, lwr2: nat, upr2: nat)
    requires lwr <= upr <= |d| && lwr2 <= upr2 <= upr - lwr
    ensures (d[lwr..upr] + z)[lwr2..upr2] == d[lwr + lwr2..lwr + upr2]
    ensures d[lwr..upr][lwr2..upr2] == d[lwr + lwr2..lwr + upr2]
  {
    var m, w := d[lwr..upr], d[lwr + lwr2..lwr + upr2];
    forall i | 0 <= i < upr2 - lwr2
      ensures m[lwr2..upr2][i] == w[i]
    {
      assert m[lwr2 + i] == d[lwr + (lwr2 + i)];
    }
    assert (m + z)[lwr2..upr2] == m[lwr2..upr2];
  }

  /** The character put in front is read back, reduced to the width of a unit. */
  lemma CharInFront(v: nat, e2: Literal)
    requires e2.Text? && Valid(e2)
    ensures Elements(Joined(Char(v, e2), e2)) == [v % Width(e2.sz)] + Elements(e2)
  {
    JoinedElements(Char(v, e2), e2);
    LowBytesValue(v, e2.sz);
    var b := LowBytes(v, e2.sz);
    assert Content(Char(v, e2)) == b && b[e2.sz..] == [];
    assert Width(1) == 0x100 && Width(2) == 0x1_0000;
  }

  /** How many values `n` bytes have. */
  function Width(n: nat): nat
    ensures Width(n) > 0
  {
    if n == 0 then 1 else 0x100 * Width(n - 1)
  }

  lemma {:induction false} LowBytesValue(v: nat, n: nat)
    ensures ReadLow(LowBytes(v, n), n) == v % Width(n)
    decreases n
  {
    if n > 0 {
      LowBytesValue(v / 0x100, n - 1);
      assert LowBytes(v, n)[1..] == LowBytes(v / 0x100, n - 1);
      ModSplit(v, Width(n - 1));
    } else {
      assert Width(0) == 1;
    }
  }

  lemma ModSplit(v: nat, m: nat)
    requires m > 0
    ensures v % (0x100 * m) == v % 0x100 + 0x100 * ((v / 0x100) % m)
  {
    var q, r := v / 0x100 / m, v / 0x100 % m;
    assert v / 0x100 == m * q + r;
    var s := v % 0x100 + 0x100 * r;
    assert v == 0x100 * (m * q + r) + v % 0x100;
    assert v == (0x100 * m) * q + s;
    assert 0 <= s < 0x100 * m;
    ModUnique(v, 0x100 * m, q, s);
  }

  lemma ModUnique(v: nat, m: nat, q: nat, s: nat)
    requires 0 <= s < m && v == m * q + s
    ensures v % m == s
  {
    var d := v / m - q;
    assert v == m * (v / m) + v % m;
    assert m * (v / m) == m * q + m * d;
    assert m * d == s - v % m;
    Multiple(m, d);
  }

  lemma Multiple(m: nat, d: int)
    ensures d > 0 ==> m * d >= m
    ensures d < 0 ==> m * d <= -(m as int)
  {
  }
}
