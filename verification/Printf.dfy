/** printf of the C library: characters, strings, line breaks and per cent signs. */
module Printf {
  import opened Bytes

  const PERCENT: byte := 0x25
  const LETTER_C: byte := 0x63
  const LETTER_N: byte := 0x6E
  const LETTER_S: byte := 0x73
  const INT_MAX: int := 0x7FFF_FFFF

  datatype Arg = Char(c: byte) | Str(s: seq<byte>)

  /** What reaches the terminal: a character, or a call of terminal_newline. */
  datatype Event = Out(c: byte) | Newline

  function Outs(s: seq<byte>): (r: seq<Event>)
    ensures |r| == |s|
  {
    seq(|s|, i requires 0 <= i < |s| => Out(s[i]))
  }

  lemma OutsConcat(a: seq<byte>, b: seq<byte>)
    ensures Outs(a + b) == Outs(a) + Outs(b)
  {
  }

  lemma OutsOne(c: byte)
    ensures Outs([c]) == [Out(c)]
  {
  }

  lemma Concat3(a: seq<Event>, b: seq<Event>, c: seq<Event>)
    ensures a + (b + c) == (a + b) + c
  {
  }

  /** The arguments are those that the format asks for. */
  predicate Matches(f: seq<byte>, args: seq<Arg>)
    decreases |f|
  {
    if |f| == 0 then true
    else if f[0] != PERCENT then Matches(f[1..], args)
    else if |f| == 1 then true
    else if f[1] == PERCENT || f[1] == LETTER_N then Matches(f[2..], args)
    else if f[1] == LETTER_C then |args| > 0 && args[0].Char? && Matches(f[2..], args[1..])
    else if f[1] == LETTER_S then |args| > 0 && args[0].Str? && Matches(f[2..], args[1..])
    else true
  }

  /** One character of the format at a time. An unknown conversion prints the rest as it stands. */
  function Expand(f: seq<byte>, args: seq<Arg>): (r: seq<Event>)
    requires Matches(f, args)
    decreases |f|
  {
    if |f| == 0 then []
    else if f[0] != PERCENT then [Out(f[0])] + Expand(f[1..], args)
    else if |f| == 1 then Outs(f)
    else if f[1] == PERCENT then [Out(PERCENT)] + Expand(f[2..], args)
    else if f[1] == LETTER_N then [Newline] + Expand(f[2..], args)
    else if f[1] == LETTER_C then [Out(args[0].c)] + Expand(f[2..], args[1..])
    else if f[1] == LETTER_S then Outs(args[0].s) + Expand(f[2..], args[1..])
    else Outs(f)
  }

  /** A stretch without per cent signs expands to itself. */
  lemma {:induction false} ExpandPlain(f: seq<byte>, args: seq<Arg>, k: nat)
    requires Matches(f, args) && k <= |f| && forall i :: 0 <= i < k ==> f[i] != PERCENT
    ensures Matches(f[k..], args)
    ensures Expand(f, args) == Outs(f[..k]) + Expand(f[k..], args)
    decreases k
  {
    if k == 0 {
      assert f[..0] == [] && f[0..] == f;
    } else {
      var g := f[1..];
      ExpandPlain(g, args, k - 1);
      assert Expand(f, args) == [Out(f[0])] + Expand(g, args);
      hide Expand, Matches, Outs;
      assert g[k - 1..] == f[k..] && f[..k] == [f[0]] + g[..k - 1];
      OutsConcat([f[0]], g[..k - 1]);
      OutsOne(f[0]);
      Concat3([Out(f[0])], Outs(g[..k - 1]), Expand(f[k..], args));
    }
  }

  /** print: every byte through putchar, which never fails in the kernel. */
  method Print(data: seq<byte>) returns (r: seq<Event>)
    ensures r == Outs(data)
  {
    r := [];
    for i := 0 to |data|
      invariant r == Outs(data[..i])
    {
      r := r + [Out(data[i])];
      assert data[..i + 1] == data[..i] + [data[i]];
      OutsConcat(data[..i], [data[i]]);
      OutsOne(data[i]);
    }
    assert data[..|data|] == data;
  }

  /** The literal stretch at the front: a per cent sign written twice counts once, and everything up
      to the next per cent sign goes with it. */
  lemma ExpandLiteral(f: seq<byte>, args: seq<Arg>, amount: nat)
    requires Matches(f, args) && |f| > 0
    requires f[0] != PERCENT || (|f| > 1 && f[1] == PERCENT)
    requires var g := if f[0] == PERCENT then f[1..] else f;
             1 <= amount <= |g| && forall i :: 1 <= i < amount ==> g[i] != PERCENT
    ensures var g := if f[0] == PERCENT then f[1..] else f;
            Matches(g[amount..], args) && Expand(f, args) == Outs(g[..amount]) + Expand(g[amount..], args)
  {
    if f[0] != PERCENT {
      ExpandPlain(f, args, amount);
    } else {
      var g, rest := f[1..], f[2..];
      assert Expand(f, args) == [Out(PERCENT)] + Expand(rest, args);
      hide Expand, Outs;
      forall i | 0 <= i < amount - 1 ensures rest[i] != PERCENT { assert rest[i] == g[i + 1]; }
      ExpandPlain(rest, args, amount - 1);
      hide Matches;
      assert rest[amount - 1..] == g[amount..] && g[..amount] == [PERCENT] + rest[..amount - 1];
      OutsConcat([PERCENT], rest[..amount - 1]);
      OutsOne(PERCENT);
      Concat3([Out(PERCENT)], Outs(rest[..amount - 1]), Expand(g[amount..], args));
    }
  }

  /** The rest of the format fits, or holds no line break, for which the count is not checked. */
  ghost predicate Countable(f: seq<byte>, args: seq<Arg>, room: int)
    requires Matches(f, args)
  {
    |Expand(f, args)| <= room || Newline !in Expand(f, args)
  }

  /** The first branch of the loop: print a literal stretch. */
  method Literal(f: seq<byte>, args: seq<Arg>, room: nat) returns (full: bool, step: seq<Event>, rest: seq<byte>)
    requires Matches(f, args) && |f| > 0
    requires f[0] != PERCENT || (|f| > 1 && f[1] == PERCENT)
    ensures full ==> |Expand(f, args)| > room
    ensures !full ==> |step| <= room && |rest| < |f|
    ensures !full ==> Matches(rest, args) && Expand(f, args) == step + Expand(rest, args)
  {
    var g := if f[0] == PERCENT then f[1..] else f;
    var amount := 1;
    while amount < |g| && g[amount] != PERCENT
      invariant 1 <= amount <= |g|
      invariant forall i :: 1 <= i < amount ==> g[i] != PERCENT
    {
      amount := amount + 1;
    }
    ExpandLiteral(f, args, amount);
    hide Expand, Matches;
    if room < amount { return true, [], g; }
    step := Print(g[..amount]);
    return false, step, g[amount..];
  }

  lemma ExpandChar(f: seq<byte>, args: seq<Arg>)
    requires Matches(f, args) && |f| > 1 && f[0] == PERCENT && f[1] == LETTER_C
    ensures |args| > 0 && args[0].Char? && Matches(f[2..], args[1..])
    ensures Expand(f, args) == Outs([args[0].c]) + Expand(f[2..], args[1..])
  {
    OutsOne(args[0].c);
  }

  lemma ExpandNewline(f: seq<byte>, args: seq<Arg>)
    requires Matches(f, args) && |f| > 1 && f[0] == PERCENT && f[1] == LETTER_N
    ensures Matches(f[2..], args) && Expand(f, args) == [Newline] + Expand(f[2..], args)
    ensures Newline in Expand(f, args)
  {
  }

  lemma ExpandString(f: seq<byte>, args: seq<Arg>)
    requires Matches(f, args) && |f| > 1 && f[0] == PERCENT && f[1] == LETTER_S
    ensures |args| > 0 && args[0].Str? && Matches(f[2..], args[1..])
    ensures Expand(f, args) == Outs(args[0].s) + Expand(f[2..], args[1..])
  {
  }

  lemma ExpandRest(f: seq<byte>, args: seq<Arg>)
    requires Matches(f, args) && |f| > 0 && f[0] == PERCENT
    requires |f| > 1 ==> f[1] !in {PERCENT, LETTER_C, LETTER_N, LETTER_S}
    ensures Matches([], args) && Expand(f, args) == Outs(f) + Expand([], args)
  {
    assert Outs(f) + [] == Outs(f);
  }

  /** One turn of the loop. */
  method Convert(f: seq<byte>, args: seq<Arg>, room: nat)
    returns (full: bool, step: seq<Event>, rest: seq<byte>, args': seq<Arg>)
    requires Matches(f, args) && |f| > 0 && Countable(f, args, room)
    ensures full ==> |Expand(f, args)| > room
    ensures !full ==> |step| <= room && |rest| < |f|
    ensures !full ==> Matches(rest, args') && Expand(f, args) == step + Expand(rest, args')
  {
    hide Expand, Matches, Outs;
    args' := args;
    if f[0] != PERCENT || (|f| > 1 && f[1] == PERCENT) {
      full, step, rest := Literal(f, args, room);
      return;
    }
    if |f| > 1 && f[1] == LETTER_C {
      ExpandChar(f, args);
      if room == 0 { return true, [], f, args; }
      step := Print([args[0].c]);
      return false, step, f[2..], args[1..];
    }
    if |f| > 1 && f[1] == LETTER_N {
      ExpandNewline(f, args);
      return false, [Newline], f[2..], args;
    }
    if |f| > 1 && f[1] == LETTER_S {
      ExpandString(f, args);
      if room < |args[0].s| { return true, [], f, args; }
      step := Print(args[0].s);
      return false, step, f[2..], args[1..];
    }
    ExpandRest(f, args);
    if room < |f| { return true, [], f, args; }
    step := Print(f);
    return false, step, [], args;
  }

  /** What is out, and the rest of format and arguments, make up the whole. */
  ghost predicate Progress(all: seq<Event>, out: seq<Event>, f: seq<byte>, args: seq<Arg>) {
    Matches(f, args) && out + Expand(f, args) == all
  }

  lemma ProgressCountable(all: seq<Event>, out: seq<Event>, f: seq<byte>, args: seq<Arg>)
    requires Progress(all, out, f, args)
    requires |all| <= INT_MAX || Newline !in all
    ensures Countable(f, args, INT_MAX - |out|)
  {
    hide Expand;
    if |all| > INT_MAX {
      forall i | 0 <= i < |Expand(f, args)| ensures Expand(f, args)[i] != Newline {
        assert all[|out| + i] == Expand(f, args)[i];
      }
    }
  }

  lemma ProgressStep(all: seq<Event>, out: seq<Event>, step: seq<Event>, f: seq<byte>, args: seq<Arg>,
                     f': seq<byte>, args': seq<Arg>)
    requires Progress(all, out, f, args)
    requires Matches(f', args') && Expand(f, args) == step + Expand(f', args')
    ensures Progress(all, out + step, f', args')
  {
    hide Expand, Matches;
    assert out + (step + Expand(f', args')) == (out + step) + Expand(f', args');
  }

  lemma ProgressEnds(all: seq<Event>, out: seq<Event>, args: seq<Arg>)
    requires Progress(all, out, [], args)
    ensures out == all
  {
    assert out + [] == out;
  }

  /** printf. The output is collected in `out`; the result is -1 when the count would pass INT_MAX. */
  method Printf(format: seq<byte>, args: seq<Arg>) returns (r: int, out: seq<Event>)
    requires Matches(format, args)
    requires |Expand(format, args)| < 0x8000_0000 || Newline !in Expand(format, args)
    ensures |Expand(format, args)| < 0x8000_0000 ==> out == Expand(format, args) && r == |out|
    ensures |Expand(format, args)| >= 0x8000_0000 ==> out <= Expand(format, args) && r == -1
  {
    hide Expand, Matches;
    ghost var all := Expand(format, args);
    var f, a := format, args;
    out := [];
    assert [] + all == all;
    var written := 0;
    while f != []
      invariant Progress(all, out, f, a)
      invariant written == |out| <= INT_MAX
      decreases |f|
    {
      ProgressCountable(all, out, f, a);
      var full, step, rest, a' := Convert(f, a, INT_MAX - written);
      if full { return -1, out; }
      ProgressStep(all, out, step, f, a, rest, a');
      out, f, a := out + step, rest, a';
      written := written + |step|;
    }
    ProgressEnds(all, out, a);
    return written, out;
  }

  // ---------------------------------------------------------------------
  // Printing text as it is
  // ---------------------------------------------------------------------

  /** Every per cent sign written twice. */
  function Doubled(s: seq<byte>): seq<byte> {
    if |s| == 0 then []
    else (if s[0] == PERCENT then [PERCENT, PERCENT] else [s[0]]) + Doubled(s[1..])
  }

  /** Doubling the per cent signs makes any text print as it is. */
  lemma {:induction false} DoubledPrintsItself(s: seq<byte>, args: seq<Arg>)
    ensures Matches(Doubled(s), args) && Expand(Doubled(s), args) == Outs(s)
    decreases |s|
  {
    if |s| > 0 {
      DoubledPrintsItself(s[1..], args);
      var d := Doubled(s);
      if s[0] == PERCENT { assert d[2..] == Doubled(s[1..]); } else { assert d[1..] == Doubled(s[1..]); }
      assert s == [s[0]] + s[1..];
      OutsConcat([s[0]], s[1..]);
      OutsOne(s[0]);
    }
  }

  function PercentAt(s: seq<byte>): (k: nat)
    ensures k <= |s|
    ensures forall i :: 0 <= i < k ==> s[i] != PERCENT
    ensures k < |s| ==> s[k] == PERCENT
  {
    if |s| == 0 || s[0] == PERCENT then 0 else 1 + PercentAt(s[1..])
  }

  lemma {:induction false} ExpandNoLonger(f: seq<byte>)
    requires Matches(f, [])
    ensures |Expand(f, [])| <= |f|
    decreases |f|
  {
    if |f| > 0 && f[0] != PERCENT { ExpandNoLonger(f[1..]); }
    if |f| > 1 && f[0] == PERCENT && (f[1] == PERCENT || f[1] == LETTER_N) { ExpandNoLonger(f[2..]); }
  }

  /** Text used as a format prints as it is exactly when its first per cent sign, if there is one, is
      not followed by another one or by an 'n'. The shell prints unknown commands this way. */
  lemma PrintsItselfIff(s: seq<byte>)
    requires Matches(s, [])
    ensures var k := PercentAt(s);
            Expand(s, []) == Outs(s) <==> k + 1 >= |s| || s[k + 1] !in {PERCENT, LETTER_N}
  {
    hide Expand, Outs, Matches, PercentAt;
    var k := PercentAt(s);
    ExpandPlain(s, [], k);
    var rest := s[k..];
    assert s == s[..k] + rest;
    OutsConcat(s[..k], rest);
    PercentFirstIff(rest);
    TailEqual(Outs(s[..k]), Expand(rest, []), Outs(rest));
  }

  lemma PercentFirstIff(f: seq<byte>)
    requires Matches(f, []) && (|f| > 0 ==> f[0] == PERCENT)
    ensures Expand(f, []) == Outs(f) <==> |f| <= 1 || f[1] !in {PERCENT, LETTER_N}
  {
    if |f| > 1 && f[1] in {PERCENT, LETTER_N} {
      ExpandNoLonger(f[2..]);
      assert |Expand(f, [])| < |Outs(f)|;
    }
  }

  lemma TailEqual(a: seq<Event>, b: seq<Event>, c: seq<Event>)
    ensures a + b == a + c <==> b == c
  {
    if a + b == a + c { assert b == (a + b)[|a|..] && c == (a + c)[|a|..]; }
  }

  // ---------------------------------------------------------------------
  // Conversions
  // ---------------------------------------------------------------------

  /** A format of plain characters and known conversions that uses up its arguments. */
  predicate Whole(f: seq<byte>, args: seq<Arg>)
    decreases |f|
  {
    if |f| == 0 then args == []
    else if f[0] != PERCENT then Whole(f[1..], args)
    else
      && |f| > 1
      && if f[1] == PERCENT || f[1] == LETTER_N then Whole(f[2..], args)
         else if f[1] == LETTER_C then |args| > 0 && args[0].Char? && Whole(f[2..], args[1..])
         else f[1] == LETTER_S && |args| > 0 && args[0].Str? && Whole(f[2..], args[1..])
  }

  /** Formats in a row print one after the other. */
  lemma {:induction false} ExpandConcat(f: seq<byte>, a: seq<Arg>, g: seq<byte>, b: seq<Arg>)
    requires Whole(f, a) && Matches(g, b)
    ensures Concatenates(f, a, g, b)
    decreases |f|
  {
    hide Concatenates, Expand, Matches;
    if |f| == 0 {
      ConcatNothing(g, b);
    } else if f[0] != PERCENT {
      ExpandConcat(f[1..], a, g, b);
      ConcatPlain(f, a, g, b);
    } else if f[1] == PERCENT || f[1] == LETTER_N {
      ExpandConcat(f[2..], a, g, b);
      ConcatFixed(f, a, g, b);
    } else {
      ExpandConcat(f[2..], a[1..], g, b);
      ConcatArgument(f, a, g, b);
    }
  }

  ghost predicate Concatenates(f: seq<byte>, a: seq<Arg>, g: seq<byte>, b: seq<Arg>) {
    && Matches(f, a) && Matches(g, b) && Matches(f + g, a + b)
    && Expand(f + g, a + b) == Expand(f, a) + Expand(g, b)
  }

  lemma ConcatNothing(g: seq<byte>, b: seq<Arg>)
    requires Matches(g, b)
    ensures Concatenates([], [], g, b)
  {
    assert [] + g == g && [] + b == b;
  }

  lemma ConcatPlain(f: seq<byte>, a: seq<Arg>, g: seq<byte>, b: seq<Arg>)
    requires |f| > 0 && f[0] != PERCENT && Concatenates(f[1..], a, g, b)
    ensures Concatenates(f, a, g, b)
  {
    assert (f + g)[1..] == f[1..] + g;
    Concat3([Out(f[0])], Expand(f[1..], a), Expand(g, b));
  }

  lemma ConcatFixed(f: seq<byte>, a: seq<Arg>, g: seq<byte>, b: seq<Arg>)
    requires |f| > 1 && f[0] == PERCENT && f[1] in {PERCENT, LETTER_N} && Concatenates(f[2..], a, g, b)
    ensures Concatenates(f, a, g, b)
  {
    assert (f + g)[2..] == f[2..] + g;
    Concat3([if f[1] == PERCENT then Out(PERCENT) else Newline], Expand(f[2..], a), Expand(g, b));
  }

  lemma ConcatArgument(f: seq<byte>, a: seq<Arg>, g: seq<byte>, b: seq<Arg>)
    requires |f| > 1 && f[0] == PERCENT && |a| > 0 && Concatenates(f[2..], a[1..], g, b)
    requires (f[1] == LETTER_C && a[0].Char?) || (f[1] == LETTER_S && a[0].Str?)
    ensures Concatenates(f, a, g, b)
  {
    assert (f + g)[2..] == f[2..] + g && (a + b)[1..] == a[1..] + b;
    Concat3(if a[0].Char? then [Out(a[0].c)] else Outs(a[0].s), Expand(f[2..], a[1..]), Expand(g, b));
  }

  /** What each conversion prints. */
  lemma Conversions(c: byte, s: seq<byte>)
    ensures Whole(Text("%c"), [Char(c)]) && Whole(Text("%s"), [Str(s)]) && Whole(Text("%n"), [])
    ensures Whole(Text("%%"), [])
    ensures Matches(Text("%c"), [Char(c)]) && Expand(Text("%c"), [Char(c)]) == [Out(c)]
    ensures Matches(Text("%s"), [Str(s)]) && Expand(Text("%s"), [Str(s)]) == Outs(s)
    ensures Matches(Text("%n"), []) && Expand(Text("%n"), []) == [Newline]
    ensures Matches(Text("%%"), []) && Expand(Text("%%"), []) == Outs(Text("%"))
  {
    assert Text("%c")[2..] == [] && Text("%s")[2..] == [] && Text("%n")[2..] == [] && Text("%%")[2..] == [];
    assert [Char(c)][1..] == [] && [Str(s)][1..] == [];
    assert Expand([], []) == [];
    assert Outs(Text("%")) == [Out(PERCENT)];
  }

  /** A string prints the same as an argument and, with its per cent signs doubled, as a format. */
  lemma ArgumentOrFormat(s: seq<byte>)
    ensures Matches(Text("%s"), [Str(s)]) && Matches(Doubled(s), [])
    ensures Expand(Text("%s"), [Str(s)]) == Expand(Doubled(s), [])
  {
    Conversions(0, s);
    DoubledPrintsItself(s, []);
  }
}
