/** doc.c: repair of stray parentheses in a documentation comment, so that macro expansion cannot
    run past the comment. */
module DdocParens {

  import opened Root

  const LPAREN := "$(LPAREN)"
  const RPAREN := "$(RPAREN)"

  // ----- parentheses and their partners -----

  /** Opening minus closing parentheses among the first `k` characters. */
  function Height(t: string, k: nat): int
    requires k <= |t|
  {
    if k == 0 then 0
    else Height(t, k - 1) + (if t[k - 1] == '(' then 1 else if t[k - 1] == ')' then -1 else 0)
  }

  ghost predicate Balanced(t: string) {
    Height(t, |t|) == 0 && forall k :: 0 <= k <= |t| ==> Height(t, k) >= 0
  }

  /** The parentheses at `i` and `j` enclose a balanced text. */
  ghost predicate Partners(t: string, i: nat, j: nat) {
    i < j < |t| && t[i] == '(' && t[j] == ')' && Height(t, j) == Height(t, i + 1) &&
    forall k :: i < k <= j ==> Height(t, k) >= Height(t, i + 1)
  }

  ghost predicate StrayClose(t: string, j: nat) {
    j < |t| && t[j] == ')' && forall i: nat :: !Partners(t, i, j)
  }

  ghost predicate StrayOpen(t: string, i: nat) {
    i < |t| && t[i] == '(' && forall j: nat :: !Partners(t, i, j)
  }

  ghost function StrayCloses(t: string): set<nat> {
    set j: nat | j < |t| && StrayClose(t, j)
  }

  ghost function Strays(t: string): set<nat> {
    set j: nat | j < |t| && (StrayClose(t, j) || StrayOpen(t, j))
  }

  // ----- the text with some parentheses replaced -----

  function Macro(c: char): string {
    if c == '(' then LPAREN else RPAREN
  }

  function Piece(c: char, replace: bool, m: char -> string): string {
    if replace then m(c) else [c]
  }

  /** Characters `i` up to `j` of `t`, those at the positions in `s` replaced by what `m` gives. */
  function Replaced(t: string, i: nat, j: nat, s: set<nat>, m: char -> string): string
    requires i <= j <= |t|
    decreases j - i
  {
    if i == j then "" else Piece(t[i], i in s, m) + Replaced(t, i + 1, j, s, m)
  }

  lemma {:induction false} ReplacedSnoc(t: string, i: nat, j: nat, s: set<nat>, m: char -> string)
    requires i <= j < |t|
    ensures Replaced(t, i, j + 1, s, m) == Replaced(t, i, j, s, m) + Piece(t[j], j in s, m)
    decreases j - i
  {
    if i < j {
      ReplacedSnoc(t, i + 1, j, s, m);
      Append2(Piece(t[i], i in s, m), Replaced(t, i + 1, j, s, m), Piece(t[j], j in s, m));
    } else {
      assert Replaced(t, i + 1, j + 1, s, m) == "";
      assert Piece(t[i], i in s, m) + "" == "" + Piece(t[j], j in s, m);
    }
  }

  lemma {:induction false} ReplacedSame(t: string, i: nat, j: nat, s: set<nat>, s': set<nat>, m: char -> string)
    requires i <= j <= |t| && forall k: nat :: i <= k < j ==> (k in s <==> k in s')
    ensures Replaced(t, i, j, s, m) == Replaced(t, i, j, s', m)
    decreases j - i
  {
    if i < j {
      assert i in s <==> i in s';
      ReplacedSame(t, i + 1, j, s, s', m);
      assert Replaced(t, i, j, s, m) == Piece(t[i], i in s, m) + Replaced(t, i + 1, j, s, m);
      assert Replaced(t, i, j, s', m) == Piece(t[i], i in s', m) + Replaced(t, i + 1, j, s', m);
    }
  }

  lemma {:induction false} ReplacedSplit(t: string, i: nat, j: nat, s: set<nat>, m: char -> string)
    requires i <= j <= |t| && forall k: nat :: i <= k < j ==> k !in s
    ensures Replaced(t, i, |t|, s, m) == t[i..j] + Replaced(t, j, |t|, s, m)
    decreases j - i
  {
    if i < j {
      ReplacedSplit(t, i + 1, j, s, m);
      Append2([t[i]], t[i + 1..j], Replaced(t, j, |t|, s, m));
      assert [t[i]] + t[i + 1..j] == t[i..j];
    }
  }

  lemma {:induction false} ReplacedNone(t: string, s: set<nat>, m: char -> string)
    requires forall k: nat :: k < |t| ==> k !in s
    ensures Replaced(t, 0, |t|, s, m) == t
  {
    ReplacedSplit(t, 0, |t|, s, m);
  }

  /** The length grows for each replacement. */
  lemma {:induction false} ReplacedLength(t: string, k: nat, s: set<nat>, m: char -> string)
    requires k <= |t| && (forall i :: i in s ==> i < k) && forall c :: |m(c)| == 9
    ensures |Replaced(t, 0, k, s, m)| == k + 8 * |s|
    decreases k
  {
    if k == 0 {
      assert s == {};
    } else {
      ReplacedSnoc(t, 0, k - 1, s, m);
      if k - 1 in s {
        ReplacedLength(t, k - 1, s - {k - 1}, m);
        ReplacedSame(t, 0, k - 1, s, s - {k - 1}, m);
      } else {
        assert forall i :: i in s ==> i < k - 1;
        ReplacedLength(t, k - 1, s, m);
      }
    }
  }

  // ----- what the two counters hold -----

  /** The lowest height up to `k`. */
  function Low(t: string, k: nat): (m: int)
    requires k <= |t|
    ensures m <= Height(t, k)
  {
    if k == 0 then 0 else if Low(t, k - 1) < Height(t, k) then Low(t, k - 1) else Height(t, k)
  }

  /** How many parentheses are open after `k` characters, stray closing ones not counting. */
  function Open(t: string, k: nat): nat
    requires k <= |t|
  {
    Height(t, k) - Low(t, k)
  }

  /** The fewest that are open anywhere from `k` on: those are never closed. */
  function Unclosed(t: string, k: nat): (m: nat)
    requires k <= |t|
    ensures m <= Open(t, k)
    decreases |t| - k
  {
    if k == |t| || Open(t, k) < Unclosed(t, k + 1) then Open(t, k) else Unclosed(t, k + 1)
  }

  /** How many of the closing parentheses from `k` on have their partner before `k`. */
  function Pending(t: string, k: nat): nat
    requires k <= |t|
  {
    Open(t, k) - Unclosed(t, k)
  }

  lemma {:induction false} LowIsLowest(t: string, k: nat, m: nat) returns (at: nat)
    requires k <= |t|
    ensures m <= k ==> Low(t, k) <= Height(t, m)
    ensures at <= k && Height(t, at) == Low(t, k)
  {
    if k == 0 {
      at := 0;
    } else {
      at := LowIsLowest(t, k - 1, m);
      if Low(t, k) == Height(t, k) {
        at := k;
      }
    }
  }

  /** The last position before `j` that is lower. */
  lemma {:induction false} OpenerOf(t: string, j: nat, m: nat, k: nat) returns (i: nat)
    requires m <= k <= j < |t| && Height(t, m) < Height(t, j)
    requires forall x :: k <= x <= j ==> Height(t, x) >= Height(t, j)
    ensures m <= i < k && Height(t, i) == Height(t, j) - 1 && t[i] == '('
    ensures forall x :: i < x <= j ==> Height(t, x) >= Height(t, j)
    decreases k
  {
    assert Height(t, k) >= Height(t, j);
    if Height(t, k - 1) < Height(t, j) {
      i := k - 1;
    } else {
      i := OpenerOf(t, j, m, k - 1);
    }
  }

  /** A closing parenthesis is stray exactly if none are open before it. */
  lemma StrayCloseOpen(t: string, j: nat)
    requires j < |t| && t[j] == ')'
    ensures StrayClose(t, j) <==> Open(t, j) == 0
  {
    var at := LowIsLowest(t, j, 0);
    if Open(t, j) > 0 {
      var i := OpenerOf(t, j, at, j);
      assert Partners(t, i, j);
    } else {
      forall i: nat | i < j && t[i] == '('
        ensures !Partners(t, i, j)
      {
        var _ := LowIsLowest(t, j, i);
        assert Height(t, i + 1) == Height(t, i) + 1;
      }
    }
  }

  /** The first position after `i` that is not higher. */
  lemma {:induction false} CloserOf(t: string, i: nat, m: nat, k: nat) returns (j: nat)
    requires i < k <= m <= |t| && Height(t, m) <= Height(t, i)
    requires forall x :: i < x < k ==> Height(t, x) > Height(t, i)
    ensures k <= j <= m && Height(t, j) <= Height(t, i)
    ensures forall x :: i < x < j ==> Height(t, x) > Height(t, i)
    decreases m - k
  {
    if Height(t, k) <= Height(t, i) {
      j := k;
    } else {
      j := CloserOf(t, i, m, k + 1);
    }
  }

  ghost predicate Rises(t: string, i: nat)
    requires i < |t|
  {
    forall k :: i < k <= |t| ==> Height(t, k) > Height(t, i)
  }

  lemma StrayOpenRises(t: string, i: nat)
    requires i < |t| && t[i] == '('
    ensures StrayOpen(t, i) <==> Rises(t, i)
  {
    if Rises(t, i) {
      forall j: nat | i < j < |t| && t[j] == ')'
        ensures !Partners(t, i, j)
      {
        assert Height(t, j + 1) == Height(t, j) - 1;
      }
    } else {
      var m: nat :| i < m <= |t| && Height(t, m) <= Height(t, i);
      var j := CloserOf(t, i, m, i + 1);
      assert Height(t, i + 1) == Height(t, i) + 1;
      assert Height(t, j - 1) > Height(t, i);
      assert Partners(t, i, j - 1);
    }
  }

  lemma {:induction false} UnclosedIsLeast(t: string, k: nat, m: nat) returns (at: nat)
    requires k <= m <= |t|
    ensures Unclosed(t, k) <= Open(t, m)
    ensures k <= at <= |t| && Open(t, at) == Unclosed(t, k)
    decreases |t| - k
  {
    at := k;
    if k < |t| {
      if k < m {
        at := UnclosedIsLeast(t, k + 1, m);
      } else {
        at := UnclosedIsLeast(t, k + 1, k + 1);
      }
      if Unclosed(t, k) == Open(t, k) {
        at := k;
      }
    }
  }

  /** While the text stays above a height it has no new lowest point. */
  lemma {:induction false} LowStays(t: string, i: nat, k: nat)
    requires i <= k <= |t| && forall x :: i <= x <= k ==> Height(t, x) >= Height(t, i)
    ensures Low(t, k) == Low(t, i)
    decreases k
  {
    if i < k {
      LowStays(t, i, k - 1);
    }
  }

  /** An opening parenthesis is stray exactly if no closing one is pending after it. */
  lemma StrayOpenPending(t: string, i: nat)
    requires i < |t| && t[i] == '('
    ensures StrayOpen(t, i) <==> Pending(t, i + 1) == 0
  {
    StrayOpenRises(t, i);
    LowStays(t, i, i + 1);
    if Rises(t, i) {
      var at := UnclosedIsLeast(t, i + 1, i + 1);
      LowStays(t, i, at);
    } else {
      var m: nat :| i < m <= |t| && Height(t, m) <= Height(t, i);
      var j := CloserOf(t, i, m, i + 1);
      assert Height(t, j - 1) > Height(t, i);
      LowStays(t, i, j);
      var _ := UnclosedIsLeast(t, i + 1, j);
    }
  }

  // ----- the two passes -----

  /** `remove` and `insert` at the same place. */
  method Replace(buf: OutBuffer, u: nat, macro: string)
    requires u < |buf.data|
    modifies buf
    ensures buf.data == old(buf.data[..u]) + macro + old(buf.data[u + 1..])
  {
    buf.Remove(u, 1);
    buf.Insert(u, macro);
  }

  lemma ReplaceMiddle(pre: string, done: string, c: char, rest: string, macro: string)
    ensures var d := pre + done + ([c] + rest); var u := |pre| + |done|;
      d[u] == c && d[..u] + macro + d[u + 1..] == pre + (done + macro) + rest && d == pre + (done + [c]) + rest
  {
  }

  /** Left to right: the state after `k` characters of the text. */
  ghost predicate Forward(data: string, u: nat, pre: string, t: string, k: nat, s: set<nat>) {
    k <= |t| && u == |pre| + |Replaced(t, 0, k, s, Macro)| && data == pre + Replaced(t, 0, k, s, Macro) + t[k..]
  }

  lemma ForwardStep(data: string, u: nat, pre: string, t: string, k: nat, s: set<nat>)
    requires Forward(data, u, pre, t, k, s) && u < |data|
    ensures k < |t| && data[u] == t[k]
    ensures k !in s ==> Forward(data, u + 1, pre, t, k + 1, s)
    ensures k in s ==> Forward(data[..u] + Macro(t[k]) + data[u + 1..], u + 9, pre, t, k + 1, s)
  {
    assert |data| == u + |t[k..]|;
    assert t[k..] == [t[k]] + t[k + 1..];
    ReplacedSnoc(t, 0, k, s, Macro);
    ReplaceMiddle(pre, Replaced(t, 0, k, s, Macro), t[k], t[k + 1..], Macro(t[k]));
  }

  lemma OpenStep(t: string, k: nat)
    requires k < |t|
    ensures t[k] == '(' ==> Open(t, k + 1) == Open(t, k) + 1
    ensures t[k] == ')' ==> Open(t, k + 1) == if Open(t, k) == 0 then 0 else Open(t, k) - 1
    ensures t[k] != '(' && t[k] != ')' ==> Open(t, k + 1) == Open(t, k)
    ensures k in StrayCloses(t) <==> t[k] == ')' && Open(t, k) == 0
  {
    if t[k] == ')' {
      StrayCloseOpen(t, k);
    }
  }

  /** The first loop of `escapeStrayParenthesis`. */
  method EscapeCloses(buf: OutBuffer, start: nat) returns (parOpen: nat)
    requires start <= |buf.data|
    modifies buf
    ensures var t := old(buf.data)[start..];
      buf.data == old(buf.data)[..start] + Replaced(t, 0, |t|, StrayCloses(t), Macro) && parOpen == Open(t, |t|)
  {
    parOpen := 0;
    ghost var pre, t := buf.data[..start], buf.data[start..];
    ghost var s, k: nat := StrayCloses(t), 0;
    var u := start;
    assert buf.data == pre + "" + t[0..];
    while u < |buf.data|
      invariant Forward(buf.data, u, pre, t, k, s) && parOpen == Open(t, k)
      decreases |t| - k
    {
      ForwardStep(buf.data, u, pre, t, k, s);
      OpenStep(t, k);
      var c := buf.data[u];
      if c == '(' {
        parOpen := parOpen + 1;
      } else if c == ')' {
        if parOpen == 0 {
          Replace(buf, u, RPAREN);
          u := u + 8;
        } else {
          parOpen := parOpen - 1;
        }
      }
      u := u + 1;
      k := k + 1;
    }
    assert k == |t| by {
      assert |t[k..]| == 0;
    }
    assert buf.data == pre + Replaced(t, 0, k, s, Macro);
  }

  /** Right to left: the text from `k` on is finished, and `r` bytes of the macro before it are read. */
  ghost predicate Backward(data: string, u: nat, pre: string, t: string, k: nat, r: nat, closes: set<nat>,
      s: set<nat>) {
    k <= |t| && u + r == |pre| + |Replaced(t, 0, k, closes, Macro)| &&
    r <= 8 && (r > 0 ==> k > 0 && k - 1 in closes) &&
    data == pre + Replaced(t, 0, k, closes, Macro) + Replaced(t, k, |t|, s, Macro)
  }

  lemma PendingStep(t: string, k: nat)
    requires 0 < k <= |t|
    ensures t[k - 1] == '(' ==> Pending(t, k - 1) == if Pending(t, k) == 0 then 0 else Pending(t, k) - 1
    ensures t[k - 1] == ')' ==>
      Pending(t, k - 1) == if k - 1 in StrayCloses(t) then Pending(t, k) else Pending(t, k) + 1
    ensures t[k - 1] != '(' && t[k - 1] != ')' ==> Pending(t, k - 1) == Pending(t, k)
    ensures k - 1 in Strays(t) <==> k - 1 in StrayCloses(t) || (t[k - 1] == '(' && Pending(t, k) == 0)
  {
    OpenStep(t, k - 1);
    if t[k - 1] == '(' {
      StrayOpenPending(t, k - 1);
    }
  }

  lemma BackwardStep(data: string, u: nat, pre: string, t: string, k: nat, r: nat, closes: set<nat>, s: set<nat>)
    requires Backward(data, u, pre, t, k, r, closes, s) && u > |pre|
    requires forall i :: i in closes ==> i in s && i < |t| && t[i] == ')'
    ensures k > 0 && u <= |data|
    ensures k - 1 in closes ==> data[u - 1] == RPAREN[8 - r]
    ensures k - 1 in closes && r == 8 ==> Backward(data, u - 1, pre, t, k - 1, 0, closes, s)
    ensures k - 1 !in closes ==> r == 0 && data[u - 1] == t[k - 1]
    ensures k - 1 !in s ==> Backward(data, u - 1, pre, t, k - 1, 0, closes, s)
    ensures k - 1 !in closes && k - 1 in s ==>
      Backward(data[..u - 1] + Macro(t[k - 1]) + data[u..], u - 1, pre, t, k - 1, 0, closes, s)
  {
    ReplacedSnoc(t, 0, k - 1, closes, Macro);
    var done, tail := Replaced(t, 0, k - 1, closes, Macro), Replaced(t, k, |t|, s, Macro);
    var p := Piece(t[k - 1], k - 1 in closes, Macro);
    assert data == pre + (done + p) + tail;
    Append2(pre, done, p);
    Append2(pre + done, p, tail);
    if k - 1 in closes {
      assert data[|pre + done|..][..9] == RPAREN;
      assert data[|pre + done| + (8 - r)] == RPAREN[8 - r];
      assert data == pre + done + Replaced(t, k - 1, |t|, s, Macro);
    } else {
      Append2(pre, done, Macro(t[k - 1]));
      Append2(pre + done, Macro(t[k - 1]), tail);
      ReplaceMiddle(pre, done, t[k - 1], tail, Macro(t[k - 1]));
    }
  }

  /** Whether the closing parenthesis of a macro is counted and its opening one is not yet. */
  function InMacro(r: nat): nat {
    if 1 <= r <= 7 then 1 else 0
  }

  ghost predicate Counted(data: string, u: nat, pre: string, t: string, k: nat, r: nat, closes: set<nat>, s: set<nat>,
                          parOpen: nat) {
    Backward(data, u, pre, t, k, r, closes, s) && parOpen == Pending(t, k) + InMacro(r)
  }

  /** One iteration: the parenthesis read is counted, or replaced if none is pending. */
  lemma CountedStep(data: string, u: nat, pre: string, t: string, k: nat, r: nat, closes: set<nat>, s: set<nat>,
                    parOpen: nat)
      returns (k': nat, r': nat)
    requires Counted(data, u, pre, t, k, r, closes, s, parOpen) && u > |pre|
    requires closes == StrayCloses(t) && s == Strays(t)
    ensures u <= |data|
    ensures data[u - 1] == '(' && parOpen == 0 ==>
      Counted(data[..u - 1] + LPAREN + data[u..], u - 1, pre, t, k', r', closes, s, 0)
    ensures data[u - 1] == '(' && parOpen > 0 ==> Counted(data, u - 1, pre, t, k', r', closes, s, parOpen - 1)
    ensures data[u - 1] == ')' ==> Counted(data, u - 1, pre, t, k', r', closes, s, parOpen + 1)
    ensures data[u - 1] != '(' && data[u - 1] != ')' ==> Counted(data, u - 1, pre, t, k', r', closes, s, parOpen)
  {
    BackwardStep(data, u, pre, t, k, r, closes, s);
    PendingStep(t, k);
    if k - 1 in closes && r < 8 {
      k', r' := k, r + 1;
    } else {
      k', r' := k - 1, 0;
    }
  }

  lemma {:induction false} CountedStart(data: string, pre: string, t: string, closes: set<nat>, s: set<nat>)
    requires |pre| <= |data| && data[..|pre|] == pre && data[|pre|..] == Replaced(t, 0, |t|, closes, Macro)
    ensures Counted(data, |data|, pre, t, |t|, 0, closes, s, 0)
  {
    assert data == pre + Replaced(t, 0, |t|, closes, Macro) + "";
  }

  lemma {:induction false} CountedDone(data: string, u: nat, pre: string, t: string, k: nat, r: nat,
      closes: set<nat>, s: set<nat>,
                    parOpen: nat)
    requires Counted(data, u, pre, t, k, r, closes, s, parOpen) && u == |pre|
    ensures data == pre + Replaced(t, 0, |t|, s, Macro)
  {
    if k > 0 {
      ReplacedSnoc(t, 0, k - 1, closes, Macro);
    }
    assert k == 0;
    assert pre + "" == pre;
  }

  /** The second loop of `escapeStrayParenthesis`. */
  method EscapeOpens(buf: OutBuffer, start: nat, ghost t: string)
    requires start <= |buf.data| && buf.data[start..] == Replaced(t, 0, |t|, StrayCloses(t), Macro)
    modifies buf
    ensures buf.data == old(buf.data)[..start] + Replaced(t, 0, |t|, Strays(t), Macro)
  {
    var parOpen := 0;
    var u := |buf.data|;
    ghost var pre, closes, s := buf.data[..start], StrayCloses(t), Strays(t);
    ghost var k: nat, r: nat := |t|, 0;
    CountedStart(buf.data, pre, t, closes, s);
    while u > start
      invariant start <= u && Counted(buf.data, u, pre, t, k, r, closes, s, parOpen)
    {
      k, r := CountedStep(buf.data, u, pre, t, k, r, closes, s, parOpen);
      u := u - 1;
      var c := buf.data[u];
      if c == ')' {
        parOpen := parOpen + 1;
      } else if c == '(' {
        if parOpen == 0 {
          Replace(buf, u, LPAREN);
        } else {
          parOpen := parOpen - 1;
        }
      }
    }
    CountedDone(buf.data, u, pre, t, k, r, closes, s, parOpen);
  }

  /** Exactly the parentheses without a partner are replaced, and nothing before `start` changes. */
  method EscapeStrayParenthesis(buf: OutBuffer, start: nat)
    requires start <= |buf.data|
    modifies buf
    ensures var t := old(buf.data)[start..];
      buf.data == old(buf.data)[..start] + Replaced(t, 0, |t|, Strays(t), Macro)
  {
    ghost var t := buf.data[start..];
    var parOpen := EscapeCloses(buf, start);
    if parOpen > 0 {
      EscapeOpens(buf, start, t);
    } else {
      NoneOpen(t);
    }
  }

  lemma {:induction false} NoneOpen(t: string)
    requires Open(t, |t|) == 0
    ensures Replaced(t, 0, |t|, Strays(t), Macro) == Replaced(t, 0, |t|, StrayCloses(t), Macro)
  {
    forall i: nat | i < |t|
      ensures !StrayOpen(t, i)
    {
      if t[i] == '(' {
        StrayOpenPending(t, i);
        LowStays(t, i, i + 1);
        var _ := UnclosedIsLeast(t, i + 1, |t|);
      }
    }
    ReplacedSame(t, 0, |t|, Strays(t), StrayCloses(t), Macro);
  }

  /** The sibling that makes text literal: every parenthesis is replaced. */
  method EscapeDdocString(buf: OutBuffer, start: nat)
    requires start <= |buf.data|
    modifies buf
    ensures var t := old(buf.data)[start..];
      buf.data == old(buf.data)[..start] + Replaced(t, 0, |t|, Parens(t), Macro)
  {
    ghost var pre, t := buf.data[..start], buf.data[start..];
    ghost var k: nat := 0;
    var u := start;
    assert buf.data == pre + "" + t[0..];
    while u < |buf.data|
      invariant Forward(buf.data, u, pre, t, k, Parens(t))
      decreases |t| - k
    {
      ForwardStep(buf.data, u, pre, t, k, Parens(t));
      var c := buf.data[u];
      if c == '(' {
        Replace(buf, u, LPAREN);
        u := u + 8;
      } else if c == ')' {
        Replace(buf, u, RPAREN);
        u := u + 8;
      }
      u := u + 1;
      k := k + 1;
    }
    assert k == |t| by {
      assert |t[k..]| == 0;
    }
    assert buf.data == pre + Replaced(t, 0, k, Parens(t), Macro);
  }

  function Parens(t: string): set<nat> {
    set i: nat | i < |t| && (t[i] == '(' || t[i] == ')')
  }

  // ----- what the repair achieves -----

  /** The repaired text. */
  ghost function Repaired(t: string): string {
    Replaced(t, 0, |t|, Strays(t), Macro)
  }

  lemma {:induction false} HeightConcat(a: string, b: string, m: nat)
    requires m <= |b|
    ensures Height(a + b, |a| + m) == Height(a, |a|) + Height(b, m)
  {
    if m == 0 {
      HeightPrefix(a, b, |a|);
    } else {
      HeightConcat(a, b, m - 1);
      assert (a + b)[|a| + m - 1] == b[m - 1];
    }
  }

  lemma {:induction false} HeightPrefix(a: string, b: string, m: nat)
    requires m <= |a|
    ensures Height(a + b, m) == Height(a, m)
  {
    if m > 0 {
      HeightPrefix(a, b, m - 1);
      assert (a + b)[m - 1] == a[m - 1];
    }
  }

  ghost predicate NeverNegative(t: string) {
    forall k :: 0 <= k <= |t| ==> Height(t, k) >= 0
  }

  lemma {:induction false} NonNegativeConcat(a: string, b: string)
    requires NeverNegative(a) && forall m :: 0 <= m <= |b| ==> Height(a, |a|) + Height(b, m) >= 0
    ensures NeverNegative(a + b)
  {
    forall k | 0 <= k <= |a + b|
      ensures Height(a + b, k) >= 0
    {
      if k <= |a| {
        HeightPrefix(a, b, k);
      } else {
        HeightConcat(a, b, k - |a|);
      }
    }
  }

  lemma MacroHeights(c: char)
    ensures NeverNegative(Macro(c)) && Height(Macro(c), 9) == 0
  {
    var m := Macro(c);
    assert Height(m, 1) == 0 && Height(m, 2) == 1 && Height(m, 3) == 1;
    assert Height(m, 4) == 1 && Height(m, 5) == 1 && Height(m, 6) == 1;
    assert Height(m, 7) == 1 && Height(m, 8) == 1;
  }

  lemma PieceHeight(c: char, replace: bool)
    ensures var p := Piece(c, replace, Macro);
      var h := if replace then 0 else if c == '(' then 1 else if c == ')' then -1 else 0;
      Height(p, |p|) == h && forall m :: 0 <= m <= |p| ==> Height(p, m) >= 0 || Height(p, m) >= h
  {
    MacroHeights(c);
    assert !replace ==> Height([c], 1) == Height([c], 0) + (if c == '(' then 1 else if c == ')' then -1 else 0);
  }

  /** The repaired text has at each point the height of the partnered parentheses alone. */
  lemma {:induction false} RepairedHeight(t: string, k: nat)
    requires k <= |t|
    ensures var e := Replaced(t, 0, k, Strays(t), Macro); NeverNegative(e) && Height(e, |e|) == Pending(t, k)
  {
    if k == 0 {
      var _ := UnclosedIsLeast(t, 0, 0);
    } else {
      RepairedHeight(t, k - 1);
      PendingStep(t, k);
      ReplacedSnoc(t, 0, k - 1, Strays(t), Macro);
      var e, p := Replaced(t, 0, k - 1, Strays(t), Macro), Piece(t[k - 1], k - 1 in Strays(t), Macro);
      PieceHeight(t[k - 1], k - 1 in Strays(t));
      assert Replaced(t, 0, k, Strays(t), Macro) == e + p;
      HeightConcat(e, p, |p|);
      NonNegativeConcat(e, p);
    }
  }

  /** Whatever the comment was, afterwards it is balanced. */
  lemma RepairBalances(t: string)
    ensures Balanced(Repaired(t))
  {
    RepairedHeight(t, |t|);
  }

  lemma BalancedHasNoStrays(t: string)
    ensures Balanced(t) <==> Strays(t) == {}
  {
    if Balanced(t) {
      forall i: nat | i < |t|
        ensures i !in Strays(t)
      {
        if t[i] == ')' {
          StrayCloseOpen(t, i);
          var at := LowIsLowest(t, i, 0);
          assert Height(t, i + 1) == Height(t, i) - 1;
        } else if t[i] == '(' {
          StrayOpenRises(t, i);
        }
      }
    } else if Strays(t) == {} {
      ReplacedNone(t, {}, Macro);
      RepairBalances(t);
    }
  }

  /** A second run changes nothing; nor does the first if the text is balanced. */
  lemma RepairTwice(t: string)
    ensures Repaired(Repaired(t)) == Repaired(t)
    ensures Balanced(t) <==> Repaired(t) == t
  {
    RepairBalances(t);
    BalancedHasNoStrays(Repaired(t));
    ReplacedNone(Repaired(t), Strays(Repaired(t)), Macro);
    BalancedHasNoStrays(t);
    if Balanced(t) {
      ReplacedNone(t, Strays(t), Macro);
    }
  }

  /** Every replacement makes the text 8 longer. */
  lemma RepairLength(t: string)
    ensures |Repaired(t)| == |t| + 8 * |Strays(t)|
  {
    ReplacedLength(t, |t|, Strays(t), Macro);
  }

  // ----- expanding the macros -----

  /** The definitions of the two macros that every documentation starts with. */
  const DEFINED: map<string, string> := map["LPAREN" := "(", "RPAREN" := ")"]

  function Call(name: string): string {
    "$(" + name + ")"
  }

  /** The text with calls of the two macros replaced by what they are defined as, as Ddoc does later. */
  function Expand(t: string): string {
    if t == "" then ""
    else if Call("LPAREN") <= t then DEFINED["LPAREN"] + Expand(t[9..])
    else if Call("RPAREN") <= t then DEFINED["RPAREN"] + Expand(t[9..])
    else [t[0]] + Expand(t[1..])
  }

  /** The passes write calls of these macros. */
  lemma MacrosAreCalls()
    ensures LPAREN == Call("LPAREN") && RPAREN == Call("RPAREN")
  {
  }

  /** The positions in `s` are parentheses, and not those of a macro that stands in the text. */
  ghost predicate KeepsMacros(t: string, s: set<nat>) {
    s <= Parens(t) && forall i: nat :: i <= |t| && (LPAREN <= t[i..] || RPAREN <= t[i..]) ==> i + 1 !in s && i + 8 !in s
  }

  lemma StraysKeepMacros(t: string)
    ensures KeepsMacros(t, Strays(t))
  {
    forall i: nat | i <= |t| && (LPAREN <= t[i..] || RPAREN <= t[i..])
      ensures i + 1 !in Strays(t) && i + 8 !in Strays(t)
    {
      MacroPartners(t, i, if LPAREN <= t[i..] then '(' else ')');
    }
  }

  lemma MacroPartners(t: string, i: nat, c: char)
    requires i <= |t| && Macro(c) <= t[i..]
    ensures Partners(t, i + 1, i + 8)
  {
    assert forall k :: 0 <= k < 9 ==> t[i..][k] == Macro(c)[k];
    assert t[i + 1] == '(' && t[i + 8] == ')';
    assert Height(t, i + 3) == Height(t, i + 2) && Height(t, i + 4) == Height(t, i + 3);
    assert Height(t, i + 5) == Height(t, i + 4) && Height(t, i + 6) == Height(t, i + 5);
    assert Height(t, i + 7) == Height(t, i + 6) && Height(t, i + 8) == Height(t, i + 7);
  }

  /** A piece of the escaped text without a dollar sign stands in the original. */
  lemma {:induction false} NoNewText(t: string, i: nat, s: set<nat>, w: string)
    requires i <= |t| && w <= Replaced(t, i, |t|, s, Macro) && '$' !in w
    ensures w <= t[i..]
    decreases |w|
  {
    if w != "" {
      var e := Replaced(t, i, |t|, s, Macro);
      assert e[0] == w[0];
      assert i !in s;
      assert e[1..] == Replaced(t, i + 1, |t|, s, Macro) && w[1..] <= e[1..];
      NoNewText(t, i + 1, s, w[1..]);
      assert w == [t[i]] + w[1..] && t[i..] == [t[i]] + t[i + 1..];
    }
  }

  lemma PrefixCons(c: char, w: string, d: char, rest: string)
    ensures [c] + w <= [d] + rest <==> c == d && w <= rest
  {
    assert ([c] + w)[1..] == w && ([d] + rest)[1..] == rest;
    assert ([c] + w)[0] == c && ([d] + rest)[0] == d;
    if c == d && w <= rest {
      assert rest == w + rest[|w|..];
      assert [d] + rest == [c] + w + rest[|w|..];
    }
  }

  lemma MacroTail(c: char) returns (w: string)
    ensures Macro(c) == ['$'] + w && '$' !in w
  {
    w := if c == '(' then "(LPAREN)" else "(RPAREN)";
  }

  lemma {:induction false} NoNewMacro(t: string, i: nat, s: set<nat>, w: string)
    requires i < |t| && i !in s && '$' !in w && ['$'] + w <= [t[i]] + Replaced(t, i + 1, |t|, s, Macro)
    ensures ['$'] + w <= [t[i]] + t[i + 1..]
  {
    PrefixCons('$', w, t[i], Replaced(t, i + 1, |t|, s, Macro));
    NoNewText(t, i + 1, s, w);
    PrefixCons('$', w, t[i], t[i + 1..]);
  }

  lemma {:induction false} ExpandMacro(c: char, rest: string)
    ensures Expand(Macro(c) + rest) == [if c == '(' then '(' else ')'] + Expand(rest)
  {
    MacrosAreCalls();
    var e := Macro(c) + rest;
    assert e[9..] == rest;
    assert e[2] == Macro(c)[2];
  }

  lemma {:induction false} ExpandChar(c: char, rest: string)
    requires !(LPAREN <= [c] + rest) && !(RPAREN <= [c] + rest)
    ensures Expand([c] + rest) == [c] + Expand(rest)
  {
    MacrosAreCalls();
    assert ([c] + rest)[1..] == rest;
  }

  /** A character that starts no macro of the original, replaced or not, expands to itself. */
  lemma ExpandHead(t: string, i: nat, s: set<nat>)
    requires i < |t| && KeepsMacros(t, s)
    requires !(LPAREN <= [t[i]] + t[i + 1..]) && !(RPAREN <= [t[i]] + t[i + 1..])
    ensures Expand(Replaced(t, i, |t|, s, Macro)) == [t[i]] + Expand(Replaced(t, i + 1, |t|, s, Macro))
  {
    var rest := Replaced(t, i + 1, |t|, s, Macro);
    if i in s {
      ExpandMacro(t[i], rest);
    } else {
      if LPAREN <= [t[i]] + rest {
        var w := MacroTail('(');
        NoNewMacro(t, i, s, w);
      }
      if RPAREN <= [t[i]] + rest {
        var w := MacroTail(')');
        NoNewMacro(t, i, s, w);
      }
      ExpandChar(t[i], rest);
    }
  }

  lemma MacroKept(t: string, i: nat, s: set<nat>, c: char)
    requires i <= |t| && KeepsMacros(t, s) && Macro(c) <= t[i..]
    ensures i + 9 <= |t| && t[i..] == Macro(c) + t[i + 9..]
    ensures Replaced(t, i, |t|, s, Macro) == Macro(c) + Replaced(t, i + 9, |t|, s, Macro)
  {
    assert i + 1 !in s && i + 8 !in s;
    forall k: nat | i <= k < i + 9
      ensures k !in s && t[k] == Macro(c)[k - i]
    {
      assert t[i..][k - i] == Macro(c)[k - i];
      assert t[k] == '(' || t[k] == ')' ==> k == i + 1 || k == i + 8;
    }
    assert t[i..i + 9] == Macro(c);
    ReplacedSplit(t, i, i + 9, s, Macro);
  }

  lemma {:induction false} ExpandReplaced(t: string, i: nat, s: set<nat>)
    requires i <= |t| && KeepsMacros(t, s)
    ensures Expand(Replaced(t, i, |t|, s, Macro)) == Expand(t[i..])
    decreases |t| - i
  {
    if i == |t| {
    } else if LPAREN <= t[i..] || RPAREN <= t[i..] {
      var c := if LPAREN <= t[i..] then '(' else ')';
      MacroKept(t, i, s, c);
      ExpandReplaced(t, i + 9, s);
      ExpandMacro(c, t[i + 9..]);
      ExpandMacro(c, Replaced(t, i + 9, |t|, s, Macro));
    } else {
      ExpandReplaced(t, i + 1, s);
      assert t[i..] == [t[i]] + t[i + 1..];
      ExpandChar(t[i], t[i + 1..]);
      ExpandHead(t, i, s);
    }
  }

  /** Expanding the macros of the repaired text gives what expanding those of the original gives: the
      original itself, if it has none. */
  lemma {:induction false} RepairExpands(t: string)
    ensures Expand(Repaired(t)) == Expand(t)
  {
    StraysKeepMacros(t);
    ExpandReplaced(t, 0, Strays(t));
    assert t[0..] == t;
  }

  /** Text made literal always comes back as it was. */
  lemma {:induction false} LiteralExpands(t: string, i: nat)
    requires i <= |t|
    ensures Expand(Replaced(t, i, |t|, Parens(t), Macro)) == t[i..]
    decreases |t| - i
  {
    if i < |t| {
      var rest := Replaced(t, i + 1, |t|, Parens(t), Macro);
      LiteralExpands(t, i + 1);
      if i in Parens(t) {
        ExpandMacro(t[i], rest);
      } else {
        assert i + 1 < |t| ==> rest[0] != '(';
        assert LPAREN[1] == '(' && RPAREN[1] == '(';
        ExpandChar(t[i], rest);
      }
    }
  }
}
