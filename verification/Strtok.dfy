/** strtok and strchr on a string in memory. */
module Strtok {
  import opened Bytes
  import opened Names

  /** Index of the first byte of `s` from `i` on that is (or is not) in `delim`, or the length. */
  function Until(s: seq<byte>, delim: seq<byte>, i: nat, inside: bool): (j: nat)
    requires i <= |s|
    ensures i <= j <= |s|
    decreases |s| - i
  {
    if i == |s| || ((s[i] in delim) == inside) then i else Until(s, delim, i + 1, inside)
  }

  lemma {:induction false} UntilStops(s: seq<byte>, delim: seq<byte>, i: nat, inside: bool)
    requires i <= |s|
    ensures var j := Until(s, delim, i, inside);
            && (forall k :: i <= k < j ==> ((s[k] in delim) != inside))
            && (j < |s| ==> ((s[j] in delim) == inside))
    decreases |s| - i
  {
    if i < |s| && (s[i] in delim) != inside { UntilStops(s, delim, i + 1, inside); }
  }

  /** Start and end of the token that strtok finds from `i` on; empty at the end when there is none. */
  function Start(s: seq<byte>, delim: seq<byte>, i: nat): (a: nat)
    requires i <= |s|
    ensures i <= a <= |s|
  {
    Until(s, delim, i, false)
  }

  function End(s: seq<byte>, delim: seq<byte>, i: nat): (b: nat)
    requires i <= |s|
    ensures Start(s, delim, i) <= b <= |s|
  {
    Until(s, delim, Start(s, delim, i), true)
  }

  /** Delimiters, then a token that is as long as possible. */
  lemma TokenBounds(s: seq<byte>, delim: seq<byte>, i: nat)
    requires i <= |s|
    ensures var a, b := Start(s, delim, i), End(s, delim, i);
            && i <= a <= b <= |s|
            && (forall k :: i <= k < a ==> s[k] in delim)
            && (forall k :: a <= k < b ==> s[k] !in delim)
            && (a < |s| ==> a < b) && (b < |s| ==> s[b] in delim)
  {
    UntilStops(s, delim, i, false);
    UntilStops(s, delim, Start(s, delim, i), true);
  }

  lemma TokenNonempty(s: seq<byte>, delim: seq<byte>, i: nat)
    requires i <= |s|
    ensures Start(s, delim, i) < |s| ==> Start(s, delim, i) < End(s, delim, i)
    ensures End(s, delim, i) < |s| ==> s[End(s, delim, i)] in delim
  {
    TokenBounds(s, delim, i);
  }

  /** A token, as the indices where it starts and ends. */
  datatype Token = Token(from: nat, to: nat)

  /** What successive calls return from `i` on. */
  function Tokens(s: seq<byte>, delim: seq<byte>, i: nat): (r: seq<Token>)
    requires i <= |s|
    decreases |s| - i
  {
    var a := Start(s, delim, i);
    if a == |s| then []
    else
      var b := End(s, delim, i);
      [Token(a, b)] + if b < |s| then Tokens(s, delim, b + 1) else []
  }

  /** A run of non-delimiters that cannot be made longer. */
  ghost predicate MaximalRun(s: seq<byte>, delim: seq<byte>, t: Token) {
    && t.from < t.to <= |s|
    && (forall k :: t.from <= k < t.to ==> s[k] !in delim)
    && (t.from == 0 || s[t.from - 1] in delim)
    && (t.to == |s| || s[t.to] in delim)
  }

  /** A maximal run from `i` on is the first token, or starts beyond the delimiter after it. */
  lemma FirstRun(s: seq<byte>, delim: seq<byte>, i: nat, t: Token)
    requires i <= |s| && (i == 0 || s[i - 1] in delim)
    ensures var a, b := Start(s, delim, i), End(s, delim, i);
            && (a < |s| ==> MaximalRun(s, delim, Token(a, b)))
            && (MaximalRun(s, delim, t) && i <= t.from ==>
                  a < |s| && (t == Token(a, b) || (b < |s| && b + 1 <= t.from)))
  {
    TokenBounds(s, delim, i);
    hide Start, End;
    if MaximalRun(s, delim, t) && i <= t.from {
      assert s[t.from] !in delim;
    }
  }

  lemma {:induction false} TokensAreRunsFrom(s: seq<byte>, delim: seq<byte>, i: nat, t: Token)
    requires i <= |s| && (i == 0 || s[i - 1] in delim)
    ensures t in Tokens(s, delim, i) <==> MaximalRun(s, delim, t) && i <= t.from
    decreases |s| - i
  {
    hide Start, End, MaximalRun, Tokens;
    FirstRun(s, delim, i, t);
    TokenNonempty(s, delim, i);
    TokensMember(s, delim, i, t);
    if End(s, delim, i) < |s| { TokensAreRunsFrom(s, delim, End(s, delim, i) + 1, t); }
  }

  lemma TokensMember(s: seq<byte>, delim: seq<byte>, i: nat, t: Token)
    requires i <= |s|
    ensures var a, b := Start(s, delim, i), End(s, delim, i);
            t in Tokens(s, delim, i) <==> a < |s| && (t == Token(a, b) || (b < |s| && t in Tokens(s, delim, b + 1)))
  {
    hide Start, End;
  }

  /** The tokens are exactly the maximal delimiter-free runs, in order and apart. */
  lemma TokensAreRuns(s: seq<byte>, delim: seq<byte>)
    ensures forall t: Token :: t in Tokens(s, delim, 0) <==> MaximalRun(s, delim, t)
    ensures var r := Tokens(s, delim, 0);
            forall i, j :: 0 <= i < j < |r| ==> r[i].to < r[j].from
  {
    forall t: Token ensures t in Tokens(s, delim, 0) <==> MaximalRun(s, delim, t) {
      TokensAreRunsFrom(s, delim, 0, t);
    }
    var r := Tokens(s, delim, 0);
    forall i, j | 0 <= i < j < |r| ensures r[i].to < r[j].from { TokensInOrder(s, delim, 0, i, j); }
  }

  lemma {:induction false} TokenWithin(s: seq<byte>, delim: seq<byte>, i: nat, k: nat)
    requires i <= |s| && k < |Tokens(s, delim, i)|
    ensures var t := Tokens(s, delim, i)[k]; i <= t.from < t.to <= |s|
    decreases |s| - i
  {
    hide Start, End;
    TokenNonempty(s, delim, i);
    if k > 0 { TokenWithin(s, delim, End(s, delim, i) + 1, k - 1); }
  }

  lemma {:induction false} TokensInOrder(s: seq<byte>, delim: seq<byte>, i: nat, j: nat, k: nat)
    requires i <= |s| && j < k < |Tokens(s, delim, i)|
    ensures var r := Tokens(s, delim, i); r[j].to < r[k].from
    decreases |s| - i
  {
    hide Start, End;
    var b := End(s, delim, i);
    if j > 0 {
      TokensInOrder(s, delim, b + 1, j - 1, k - 1);
    } else {
      TokenWithin(s, delim, b + 1, k - 1);
    }
  }

  // ---------------------------------------------------------------------
  // The functions in place
  // ---------------------------------------------------------------------

  const NULL: int := -1

  /** strchr: where a character other than NUL first occurs in a string. */
  method Strchr(s: seq<byte>, c: byte) returns (at: int)
    ensures at == NULL <==> c !in s
    ensures at != NULL ==> 0 <= at < |s| && s[at] == c && c !in s[..at]
  {
    at := 0;
    while at < |s|
      invariant 0 <= at <= |s| && c !in s[..at]
    {
      if s[at] == c { return; }
      at := at + 1;
    }
    return NULL;
  }

  class Tokenizer {
    const memory: array<byte>
    /** Static variable of strtok: where to continue, or NULL. */
    var last: int

    constructor (memory: array<byte>)
      ensures this.memory == memory && last == NULL
    {
      this.memory, this.last := memory, NULL;
    }

    /** A NUL-terminated string starts at `p`. */
    ghost predicate StringAt(p: int)
      reads this, memory
    {
      0 <= p <= memory.Length && |CString(memory[p..])| < memory.Length - p
    }

    /** The loops of strtok: advance from `p` while the character is (or is not) a delimiter. */
    method Advance(p: nat, delim: seq<byte>, skip: bool, ghost s: seq<byte>, ghost base: nat) returns (q: nat)
      requires base <= p <= base + |s| && base + |s| < memory.Length
      requires NoNul(s) && memory[base..base + |s|] == s && memory[base + |s|] == NUL
      ensures q == base + Until(s, delim, p - base, !skip)
    {
      q := p;
      while true
        invariant p <= q <= base + |s|
        invariant Until(s, delim, q - base, !skip) == Until(s, delim, p - base, !skip)
        decreases base + |s| - q
      {
        if q < base + |s| { assert memory[q] == memory[base..base + |s|][q - base] == s[q - base]; }
        if memory[q] == NUL { return; }
        var at := Strchr(delim, memory[q]);
        if (at != NULL) != skip { return; }
        q := q + 1;
      }
    }

    /** strtok. With NULL it goes on where the last call stopped; if that call stored NULL, it would
        follow a null pointer. */
    method Next(str: int, delim: seq<byte>) returns (token: int)
      requires str == NULL ==> last != NULL
      requires StringAt(if str == NULL then last else str)
      modifies this, memory
      ensures var p := if str == NULL then old(last) else str;
              var s := old(CString(memory[p..]));
              var a, b := Start(s, delim, 0), End(s, delim, 0);
              if a == |s| then token == NULL && last == NULL && memory[..] == old(memory[..])
              else
                && token == p + a
                && last == (if b < |s| then p + b + 1 else NULL)
                && memory[..] == if b < |s| then old(memory[..])[p + b := NUL] else old(memory[..])
    {
      var p := if str == NULL then last else str;
      ghost var s := CString(memory[p..]);
      assert memory[p..][..|s|] == memory[p..p + |s|];
      assert memory[p + |s|] == memory[p..][|s|];
      var q := Advance(p, delim, true, s, p);
      AtEnd(s, memory[p..], q - p);
      if memory[q] == NUL {
        last := NULL;
        return NULL;
      }
      token := q;
      q := Advance(q, delim, false, s, p);
      AtEnd(s, memory[p..], q - p);
      if memory[q] != NUL {
        memory[q] := NUL;
        last := q + 1;
      } else {
        last := NULL;
      }
    }
  }

  lemma AtEnd(s: seq<byte>, b: seq<byte>, i: nat)
    requires s == CString(b) && |s| < |b| && i <= |s|
    ensures b[i] == NUL <==> i == |s|
  {
    if i < |s| { assert s[i] == b[i]; }
  }

  // ---------------------------------------------------------------------
  // Successive calls
  // ---------------------------------------------------------------------

  lemma {:induction false} UntilSuffix(s: seq<byte>, delim: seq<byte>, i: nat, k: nat, inside: bool)
    requires i <= k <= |s|
    ensures i + Until(s[i..], delim, k - i, inside) == Until(s, delim, k, inside)
    decreases |s| - k
  {
    if k < |s| { UntilSuffix(s, delim, i, k + 1, inside); }
  }

  lemma TokenSuffix(s: seq<byte>, delim: seq<byte>, i: nat)
    requires i <= |s|
    ensures i + Start(s[i..], delim, 0) == Start(s, delim, i)
    ensures i + End(s[i..], delim, 0) == End(s, delim, i)
  {
    UntilSuffix(s, delim, i, i, false);
    UntilSuffix(s, delim, i, Start(s, delim, i), true);
  }

  /** Position `b` got a NUL: it is the delimiter right after one of the tokens. */
  ghost predicate IsCut(r: seq<Token>, n: nat, b: int) {
    b < n && exists i :: 0 <= i < |r| && r[i].to == b
  }

  /** Memory `m` is `before` with the string at `str` cut after the tokens `r`. */
  ghost predicate CutAfter(m: seq<byte>, before: seq<byte>, str: nat, n: nat, r: seq<Token>) {
    |m| == |before| &&
    forall k :: 0 <= k < |m| ==> m[k] == if IsCut(r, n, k - str) then NUL else before[k]
  }

  /** The calls so far have returned `r` and the next one starts at offset `i` of the string. */
  ghost predicate Midway(m: seq<byte>, before: seq<byte>, str: nat, s: seq<byte>, delim: seq<byte>, r: seq<Token>,
                         i: nat)
  {
    && str + |s| < |before| == |m| && s == CString(before[str..])
    && i <= |s| && r + Tokens(s, delim, i) == Tokens(s, delim, 0)
    && CutAfter(m, before, str, |s|, r)
    && forall j :: 0 <= j < |r| ==> r[j].to < i
  }

  /** What is left of the string is still in memory. */
  lemma MidwayString(m: seq<byte>, before: seq<byte>, str: nat, s: seq<byte>, delim: seq<byte>, r: seq<Token>, i: nat)
    requires Midway(m, before, str, s, delim, r, i)
    ensures CString(m[str + i..]) == s[i..] && str + |s| < |m| && i <= |s|
  {
    var u := m[str + i..];
    forall k | i <= k <= |s| ensures m[str + k] == before[str..][k] { }
    hide Tokens, CutAfter;
    assert forall k :: 0 <= k < |s| - i ==> u[k] == m[str + (i + k)] == s[i + k];
    CStringIs(u, |s| - i);
    assert u[..|s| - i] == s[i..];
  }

  /** A call that finds another token. */
  lemma MidwayToken(m: seq<byte>, before: seq<byte>, str: nat, s: seq<byte>, delim: seq<byte>, r: seq<Token>, i: nat,
                    a: nat, b: nat)
    requires Midway(m, before, str, s, delim, r, i) && a == Start(s, delim, i) < |s| && b == End(s, delim, i)
    ensures a < b <= |s|
    ensures var m', r' := if b < |s| then m[str + b := NUL] else m, r + [Token(a, b)];
            && CString(m'[str + a..]) == s[a..b]
            && CutAfter(m', before, str, |s|, r')
            && (b < |s| ==> Midway(m', before, str, s, delim, r', b + 1))
            && (b == |s| ==> r' == Tokens(s, delim, 0))
  {
    hide CutAfter, CString, Until, Tokens, Start, End;
    TokenBounds(s, delim, i);
    CutMore(m, before, str, |s|, r, Token(a, b));
    TokenString(m, before, str, s, r, i, a, b);
    TokensStep(s, delim, r, i);
    EmptyTail(r + [Token(a, b)]);
  }

  lemma EmptyTail(r: seq<Token>)
    ensures r + [] == r
  {
  }

  lemma TokensStep(s: seq<byte>, delim: seq<byte>, r: seq<Token>, i: nat)
    requires i <= |s| && Start(s, delim, i) < |s|
    ensures var b := End(s, delim, i);
            r + Tokens(s, delim, i) ==
              (r + [Token(Start(s, delim, i), b)]) + if b < |s| then Tokens(s, delim, b + 1) else []
  {
    hide Start, End;
  }

  lemma MidwayDone(m: seq<byte>, before: seq<byte>, str: nat, s: seq<byte>, delim: seq<byte>, r: seq<Token>, i: nat)
    requires Midway(m, before, str, s, delim, r, i) && Start(s, delim, i) == |s|
    ensures r == Tokens(s, delim, 0) && CutAfter(m, before, str, |s|, r)
  {
    hide CutAfter;
    assert r + [] == r;
  }

  lemma CutMore(m: seq<byte>, before: seq<byte>, str: nat, n: nat, r: seq<Token>, t: Token)
    requires CutAfter(m, before, str, n, r) && str + n < |m| && t.to <= n
    ensures CutAfter(if t.to < n then m[str + t.to := NUL] else m, before, str, n, r + [t])
  {
    var m', r' := if t.to < n then m[str + t.to := NUL] else m, r + [t];
    forall k | 0 <= k < |m| ensures m'[k] == if IsCut(r', n, k - str) then NUL else before[k] {
      if IsCut(r, n, k - str) {
        var j :| 0 <= j < |r| && r[j].to == k - str;
        assert r'[j].to == k - str;
      }
      if k == str + t.to && t.to < n { assert r'[|r|].to == k - str; }
      if IsCut(r', n, k - str) {
        var j :| 0 <= j < |r'| && r'[j].to == k - str;
        assert j < |r| ==> r[j].to == k - str;
      }
    }
  }

  lemma TokenString(m: seq<byte>, before: seq<byte>, str: nat, s: seq<byte>, r: seq<Token>, i: nat, a: nat, b: nat)
    requires str + |s| < |before| && s == CString(before[str..]) && i <= a <= b <= |s|
    requires CutAfter(m, before, str, |s|, r) && forall j :: 0 <= j < |r| ==> r[j].to < i
    ensures CString((if b < |s| then m[str + b := NUL] else m)[str + a..]) == s[a..b]
  {
    hide CutAfter, CString;
    CutLeaves(m, before, str, |s|, r, i, b);
    var m' := if b < |s| then m[str + b := NUL] else m;
    StringBytes(before, str, s, b);
    var u := m'[str + a..];
    forall k | 0 <= k < b - a ensures u[k] == s[a + k] != NUL {
      CutLeaves(m, before, str, |s|, r, i, a + k);
      StringBytes(before, str, s, a + k);
    }
    assert u[b - a] == m'[str + b];
    CStringIs(u, b - a);
    assert u[..b - a] == s[a..b];
  }

  /** Beyond the tokens so far nothing has been overwritten. */
  lemma CutLeaves(m: seq<byte>, before: seq<byte>, str: nat, n: nat, r: seq<Token>, i: nat, k: nat)
    requires CutAfter(m, before, str, n, r) && str + n < |before| && i <= k <= n
    requires forall j :: 0 <= j < |r| ==> r[j].to < i
    ensures |m| == |before| && m[str + k] == before[str + k]
  {
  }

  lemma StringBytes(before: seq<byte>, str: nat, s: seq<byte>, k: nat)
    requires str + |s| < |before| && s == CString(before[str..]) && k <= |s|
    ensures if k < |s| then before[str + k] == s[k] != NUL else before[str + k] == NUL
  {
    hide CString;
    assert before[str + k] == before[str..][k];
    if k < |s| { assert s[k] == before[str..][..|s|][k]; }
  }

  method Strlen(memory: array<byte>, p: nat) returns (n: nat)
    requires p <= memory.Length && |CString(memory[p..])| < memory.Length - p
    ensures n == |CString(memory[p..])|
  {
    ghost var s := CString(memory[p..]);
    n := 0;
    while memory[p + n] != NUL
      invariant n <= |s|
      decreases |s| - n
    {
      AtEnd(s, memory[p..], n);
      n := n + 1;
    }
    AtEnd(s, memory[p..], n);
  }

  /** A call of strtok, and the length of the token it returns. */
  method NextWithLength(t: Tokenizer, arg: int, delim: seq<byte>) returns (token: int, length: nat)
    requires arg == NULL ==> t.last != NULL
    requires t.StringAt(if arg == NULL then t.last else arg)
    modifies t, t.memory
    ensures var p := if arg == NULL then old(t.last) else arg;
            var s := old(CString(t.memory[p..]));
            var a, b := Start(s, delim, 0), End(s, delim, 0);
            if a == |s| then token == NULL && t.last == NULL && t.memory[..] == old(t.memory[..])
            else
              && token == p + a && length == b - a
              && t.last == (if b < |s| then p + b + 1 else NULL)
              && t.memory[..] == if b < |s| then old(t.memory[..])[p + b := NUL] else old(t.memory[..])
  {
    hide Start, End, CString, CutAfter;
    ghost var m, p := t.memory[..], if arg == NULL then t.last else arg;
    ghost var s := CString(t.memory[p..]);
    assert t.memory[p..] == m[p..];
    ghost var a, b := Start(s, delim, 0), End(s, delim, 0);
    CutNothing(m, p, |s|);
    TokenString(m, m, p, s, [], 0, a, b);
    token := t.Next(arg, delim);
    length := 0;
    if token == NULL { return; }
    assert t.memory[token..] == t.memory[..][token..];
    length := Strlen(t.memory, token);
  }

  lemma CutNothing(m: seq<byte>, str: nat, n: nat)
    ensures CutAfter(m, m, str, n, [])
  {
  }

  /** One call, and what a caller records of its result. */
  method TokenizeOne(t: Tokenizer, arg: int, str: nat, delim: seq<byte>, ghost before: seq<byte>, ghost s: seq<byte>,
                     r: seq<Token>, ghost i: nat)
    returns (more: bool, r': seq<Token>, ghost i': nat)
    requires Midway(t.memory[..], before, str, s, delim, r, i)
    requires (if arg == NULL then t.last else arg) == str + i
    modifies t, t.memory
    ensures more ==> Midway(t.memory[..], before, str, s, delim, r', i') && t.last == str + i' && i < i'
    ensures !more ==> t.last == NULL && r' == Tokens(s, delim, 0) && CutAfter(t.memory[..], before, str, |s|, r')
  {
    hide CutAfter, Until, CString, Midway, Tokens, Start, End;
    ghost var m := t.memory[..];
    MidwayString(m, before, str, s, delim, r, i);
    assert t.memory[str + i..] == m[str + i..];
    TokenSuffix(s, delim, i);
    ghost var a, b := Start(s, delim, i), End(s, delim, i);
    if a < |s| {
      MidwayToken(m, before, str, s, delim, r, i, a, b);
    } else {
      MidwayDone(m, before, str, s, delim, r, i);
    }
    var token, length := NextWithLength(t, arg, delim);
    i' := i;
    if token == NULL { return false, r, i; }
    r' := r + [Token(token - str, token - str + length)];
    more := t.last != NULL;
    i' := if b < |s| then b + 1 else i;
  }

  /** Successive calls on one string, until strtok stores NULL. They return exactly its tokens, each a
      string of its own, and overwrite only the first delimiter after each. */
  method TokenizeAll(t: Tokenizer, str: nat, delim: seq<byte>) returns (r: seq<Token>)
    requires t.StringAt(str)
    modifies t, t.memory
    ensures var s := old(CString(t.memory[str..]));
            r == Tokens(s, delim, 0) && CutAfter(t.memory[..], old(t.memory[..]), str, |s|, r)
    ensures t.last == NULL
  {
    ghost var before, s := t.memory[..], CString(t.memory[str..]);
    assert before[str..] == t.memory[str..];
    r := [];
    assert r + Tokens(s, delim, 0) == Tokens(s, delim, 0);
    assert Midway(before, before, str, s, delim, r, 0);
    hide Midway, Tokens, CutAfter;
    var more;
    ghost var at := 0;
    more, r, at := TokenizeOne(t, str, str, delim, before, s, r, at);
    while more
      invariant more ==> Midway(t.memory[..], before, str, s, delim, r, at) && t.last == str + at
      invariant !more ==> t.last == NULL && r == Tokens(s, delim, 0) && CutAfter(t.memory[..], before, str, |s|, r)
      decreases more, |s| - at
    {
      more, r, at := TokenizeOne(t, NULL, str, delim, before, s, r, at);
    }
  }
}
