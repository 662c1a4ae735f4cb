/** 8.3 names: the 11 bytes of a directory entry, and the dotted form users type. */
module Names {
  import opened Bytes

  const DOT: byte := 0x2E

  /** Flags of testIfFATFormat. */
  const LOWERCASE_ISSUE: bv8 := 0x01
  const BAD_CHARACTER: bv8 := 0x02
  const NOT_CONVERTED_YET: bv8 := 0x08
  const TOO_MANY_DOTS: bv8 := 0x10

  predicate IsLower(b: byte) {
    0x61 <= b <= 0x7A
  }

  function Upper(b: byte): byte {
    if IsLower(b) then b - 0x20 else b
  }

  function UpperAll(s: seq<byte>): (r: seq<byte>)
    ensures |r| == |s|
    ensures forall i :: 0 <= i < |s| ==> r[i] == Upper(s[i])
  {
    seq(|s|, i requires 0 <= i < |s| => Upper(s[i]))
  }

  /** `char` is signed: bytes from 0x80 on are negative and count as control characters. */
  predicate IsControl(b: byte) {
    (b < 0x20 || b >= 0x80) && b != 0x05
  }

  predicate IsReserved(b: byte) {
    b in {0x22, 0x2A, 0x2B, 0x2C, 0x2F, 0x3A, 0x3B, 0x3C, 0x3D, 0x3E, 0x3F, 0x5B, 0x5C, 0x5D, 0x7C}
  }

  predicate Legal(b: byte) {
    !IsControl(b) && !IsReserved(b) && b != DOT && !IsLower(b)
  }

  /** A name that testIfFATFormat finds nothing wrong with. */
  predicate Accepted(name: seq<byte>) {
    forall i :: 0 <= i < |name| ==> Legal(name[i])
  }

  /** testIfFATFormat. A second dot clears the flag of the first one, but sets another. */
  method TestIfFatFormat(input: seq<byte>) returns (flags: bv8)
    requires |input| >= 11
    ensures flags == 0 <==> Accepted(input[..11])
  {
    flags := 0;
    for i := 0 to 11
      invariant flags == 0 <==> Accepted(input[..i])
    {
      ghost var before := flags;
      if IsControl(input[i]) { flags := flags | BAD_CHARACTER; }
      if input[i] == DOT {
        if flags & NOT_CONVERTED_YET == NOT_CONVERTED_YET { flags := flags | TOO_MANY_DOTS; }
        flags := flags ^ NOT_CONVERTED_YET;
      } else if IsReserved(input[i]) {
        flags := flags | BAD_CHARACTER;
      }
      if IsLower(input[i]) { flags := flags | LOWERCASE_ISSUE; }
      assert flags == 0 <==> before == 0 && Legal(input[i]);
      assert input[..i + 1] == input[..i] + [input[i]];
    }
  }

  // ---------------------------------------------------------------------
  // From the dotted form
  // ---------------------------------------------------------------------

  predicate NoNul(s: seq<byte>) {
    forall i :: 0 <= i < |s| ==> s[i] != NUL
  }

  /** A string in a cleared 13-byte buffer, as directorySearch holds it. */
  function Buffer13(s: seq<byte>): (r: seq<byte>)
    requires |s| <= 12
    ensures |r| == 13
    ensures forall i :: 0 <= i < 13 ==> r[i] == if i < |s| then s[i] else NUL
  {
    s + seq(13 - |s|, _ => NUL)
  }

  /** Index of the first dot, or the length. */
  function DotAt(s: seq<byte>): (k: nat)
    ensures k <= |s|
    ensures forall i :: 0 <= i < k ==> s[i] != DOT
    ensures k < |s| ==> s[k] == DOT
  {
    if |s| == 0 || s[0] == DOT then 0 else 1 + DotAt(s[1..])
  }

  /** The upper-cased byte at `j`, or a space past the end. */
  function UpperAt(s: seq<byte>, j: nat): byte {
    if j < |s| then Upper(s[j]) else SPACE
  }

  /** Where convertToFATFormat takes the extension from. */
  function ExtensionAt(s: seq<byte>): nat {
    if DotAt(s) <= 8 then DotAt(s) + 1 else 9
  }

  function ShapeByte(s: seq<byte>, i: nat): byte {
    if i >= 8 then UpperAt(s, ExtensionAt(s) + (i - 8))
    else if i < DotAt(s) <= 8 then UpperAt(s, i)
    else SPACE
  }

  /** What convertToFATFormat makes of a string: base and extension split at the dot and filled with
      spaces; a base that is too long is blanked and the extension taken from index 9. */
  function Shape(s: seq<byte>): (r: seq<byte>)
    ensures |r| == 11
    ensures forall i :: 0 <= i < 11 ==> r[i] == ShapeByte(s, i)
  {
    seq(11, i requires 0 <= i < 11 => ShapeByte(s, i))
  }

  /** uppercase_str on a buffer holding a string. */
  method UppercaseBuffer(input: array<byte>, len: nat)
    requires len <= input.Length
    modifies input
    ensures input[..] == UpperAll(old(input[..len])) + old(input[len..])
  {
    for i := 0 to len
      invariant forall j :: 0 <= j < input.Length ==>
                  input[j] == if j < i then Upper(old(input[j])) else old(input[j])
    {
      if 97 <= input[i] <= 122 { input[i] := input[i] - 32; }
    }
  }

  lemma UpperKeeps(b: byte)
    ensures Upper(b) == DOT <==> b == DOT
    ensures Upper(b) == NUL <==> b == NUL
  {
  }

  /** The string upper-cased, in its buffer. */
  ghost predicate HoldsUpper(b: seq<byte>, s: seq<byte>) {
    |b| == 13 && |s| <= 12 && NoNul(s) && forall i :: 0 <= i < 13 ==> b[i] == if i < |s| then Upper(s[i]) else NUL
  }

  /** First loop of convertToFATFormat: copy up to a dot, the end, or nine characters. */
  method CopyBase(input: array<byte>, name: array<byte>, ghost s: seq<byte>) returns (dotPos: nat, counter: nat)
    requires HoldsUpper(input[..], s) && name.Length == 13 && name != input
    requires forall i :: 0 <= i < 13 ==> name[i] == NUL
    modifies name
    ensures if DotAt(s) <= 8 then dotPos == DotAt(s) && counter == dotPos + 1 else dotPos == 0 && counter == 9
    ensures forall i :: 0 <= i < 9 && i < DotAt(s) ==> name[i] == UpperAt(s, i)
    ensures forall i :: 9 <= i < 13 ==> name[i] == NUL
  {
    dotPos, counter := 0, 0;
    while counter <= 8
      invariant counter <= 9 && counter <= DotAt(s) && dotPos == 0
      invariant forall i :: 0 <= i < counter ==> name[i] == UpperAt(s, i)
      invariant forall i :: counter <= i < 13 ==> name[i] == NUL
      decreases 9 - counter
    {
      assert input[..][counter] == if counter < |s| then Upper(s[counter]) else NUL;
      if counter < |s| { UpperKeeps(s[counter]); }
      if input[counter] == DOT || input[counter] == NUL {
        return counter, counter + 1;
      }
      name[counter] := input[counter];
      counter := counter + 1;
    }
  }

  /** Second loop: three bytes of extension, spaces past the end. */
  method CopyExtension(input: array<byte>, name: array<byte>, from: nat, ghost s: seq<byte>)
    requires HoldsUpper(input[..], s) && name.Length == 13 && name != input && from <= 9
    modifies name
    ensures forall i :: 0 <= i < 13 && !(8 <= i < 11) ==> name[i] == old(name[i])
    ensures forall i :: 8 <= i < 11 ==> name[i] == UpperAt(s, from + (i - 8))
  {
    var counter := from;
    for ext := 8 to 11
      invariant counter == from + (ext - 8)
      invariant forall i :: 0 <= i < 13 && !(8 <= i < ext) ==> name[i] == old(name[i])
      invariant forall i :: 8 <= i < ext ==> name[i] == UpperAt(s, from + (i - 8))
    {
      assert input[..][counter] == if counter < |s| then Upper(s[counter]) else NUL;
      if counter < |s| { UpperKeeps(s[counter]); }
      name[ext] := if input[counter] != NUL then input[counter] else SPACE;
      counter := counter + 1;
    }
  }

  method StringLength(input: array<byte>, ghost s: seq<byte>) returns (len: nat)
    requires |s| <= 12 && NoNul(s)
    requires input.Length == 13 && input[..] == Buffer13(s)
    ensures len == |s|
  {
    len := 0;
    while input[..][len] != NUL
      invariant len <= |s|
      decreases |s| - len
    {
      len := len + 1;
    }
  }

  /** convertToFATFormat, in place. */
  method ConvertToFat(input: array<byte>, ghost s: seq<byte>)
    requires |s| <= 12 && NoNul(s)
    requires input.Length == 13 && input[..] == Buffer13(s)
    modifies input
    ensures input[..11] == Shape(s) && input[11] == NUL
  {
    var len := StringLength(input, s);
    UppercaseBuffer(input, len);
    assert HoldsUpper(input[..], s);
    var name := new byte[13](_ => NUL);
    var dotPos, counter := CopyBase(input, name, s);
    // The sanity check for a long name without a dot tests for more than 9, which never holds.
    if counter > 9 { assert false; }
    CopyExtension(input, name, counter, s);
    ghost var front := name[..];
    counter := dotPos;
    while counter < 8
      invariant dotPos <= counter
      invariant forall i :: 0 <= i < 13 ==> name[i] == if dotPos <= i < counter && i < 8 then SPACE else front[i]
    {
      name[counter] := SPACE;
      counter := counter + 1;
    }
    forall i | 0 <= i <= 11 { input[i] := name[i]; }
    assert forall i :: 0 <= i < 11 ==> input[i] == ShapeByte(s, i);
  }

  // ---------------------------------------------------------------------
  // What the shape is
  // ---------------------------------------------------------------------

  function Down(b: byte): byte {
    if 0x41 <= b <= 0x5A then b + 0x20 else b
  }

  /** `t` is `s` with its capitals in lower case. */
  predicate InLowerCase(t: seq<byte>, s: seq<byte>) {
    |t| == |s| && forall i :: 0 <= i < |s| ==> t[i] == Down(s[i])
  }

  lemma {:induction false} SameDot(t: seq<byte>, s: seq<byte>)
    requires InLowerCase(t, s)
    ensures DotAt(t) == DotAt(s)
    decreases |s|
  {
    if |s| > 0 { SameDot(t[1..], s[1..]); }
  }

  /** Case does not matter. */
  lemma ShapeIgnoresCase(t: seq<byte>, s: seq<byte>)
    requires InLowerCase(t, s)
    ensures Shape(t) == Shape(s)
  {
    SameDot(t, s);
    forall j: nat ensures UpperAt(t, j) == UpperAt(s, j) {
      if j < |s| { assert Upper(Down(s[j])) == Upper(s[j]); }
    }
    hide DotAt, UpperAt;
  }

  /** A text filled with spaces, or cut, to a width. */
  function Padded(s: seq<byte>, width: nat): (r: seq<byte>)
    ensures |r| == width
  {
    seq(width, i requires 0 <= i < width => if i < |s| then s[i] else SPACE)
  }

  lemma {:induction false} DotIs(s: seq<byte>, k: nat)
    requires k <= |s| && (k < |s| ==> s[k] == DOT) && forall i :: 0 <= i < k ==> s[i] != DOT
    ensures DotAt(s) == k
    decreases k
  {
    if k > 0 { DotIs(s[1..], k - 1); }
  }

  /** Base and extension go to their columns, in capitals. */
  lemma ShapeOfParts(base: seq<byte>, ext: seq<byte>)
    requires |base| <= 8 && |ext| <= 3 && DOT !in base
    ensures Shape(base + Text(".") + ext) == Padded(UpperAll(base), 8) + Padded(UpperAll(ext), 3)
  {
    hide DotAt, Upper, ShapeByte, Padded;
    var s := base + Text(".") + ext;
    DotIs(s, |base|);
    var r := Padded(UpperAll(base), 8) + Padded(UpperAll(ext), 3);
    forall i | 0 <= i < 8 ensures ShapeByte(s, i) == r[i] { BaseColumn(s, base, i); }
    forall i | 8 <= i < 11 ensures ShapeByte(s, i) == r[i] { ExtensionColumn(s, base, ext, i); }
  }

  lemma BaseColumn(s: seq<byte>, base: seq<byte>, i: nat)
    requires |base| <= 8 && base <= s && DotAt(s) == |base| && i < 8
    ensures ShapeByte(s, i) == Padded(UpperAll(base), 8)[i]
  {
    hide DotAt, Upper;
  }

  lemma ExtensionColumn(s: seq<byte>, base: seq<byte>, ext: seq<byte>, i: nat)
    requires |base| <= 8 && s == base + Text(".") + ext && DotAt(s) == |base| && 8 <= i < 11
    ensures ShapeByte(s, i) == Padded(UpperAll(ext), 3)[i - 8]
  {
    hide DotAt, Upper;
    var at := |base| + 1 + (i - 8);
    if i - 8 < |ext| { assert s[at] == ext[i - 8]; }
  }

  /** A name without a dot is a base, if it is short enough; otherwise its base is blanked, and its tenth
      to twelfth characters become the extension. */
  lemma ShapeWithoutDot(s: seq<byte>)
    requires |s| <= 12 && DOT !in s
    ensures |s| <= 8 ==> Shape(s) == Padded(UpperAll(s), 11)
    ensures |s| > 8 ==> Shape(s) == Padded([], 8) + Padded(UpperAll(s[9..]), 3)
  {
    DotIs(s, |s|);
    hide DotAt, Upper;
  }

  /** The characters that are accepted, as bytes: those of the FAT specification, and 0x7F. */
  lemma LegalCharacters(b: byte)
    ensures Legal(b) <==>
              || 'A' as int <= b <= 'Z' as int || '0' as int <= b <= '9' as int
              || b in Text("!#$%&'()-@^_`{}~ ") || b == 0x05 || b == 0x7F
  {
    var t := Text("!#$%&'()-@^_`{}~ ");
    assert b in t <==> b in {0x21, 0x23, 0x24, 0x25, 0x26, 0x27, 0x28, 0x29, 0x2D, 0x40, 0x5E, 0x5F, 0x60, 0x7B,
                             0x7D, 0x7E, 0x20} by {
      assert t == [0x21, 0x23, 0x24, 0x25, 0x26, 0x27, 0x28, 0x29, 0x2D, 0x40, 0x5E, 0x5F, 0x60, 0x7B, 0x7D, 0x7E,
                   0x20];
    }
  }

  /** The name directorySearch looks for. */
  function Normal(s: seq<byte>): (r: seq<byte>)
    requires |s| <= 12
    ensures |r| == 11
  {
    if Accepted(Buffer13(s)[..11]) then Buffer13(s)[..11] else Shape(s)
  }

  lemma NormalHasNoNul(s: seq<byte>)
    requires |s| <= 12 && NoNul(s)
    ensures NoNul(Normal(s))
  {
    forall i | 0 <= i < 11 ensures ShapeByte(s, i) != NUL {
      forall j: nat | j < |s| ensures Upper(s[j]) != NUL { UpperKeeps(s[j]); }
    }
  }

  // ---------------------------------------------------------------------
  // To the dotted form
  // ---------------------------------------------------------------------

  /** Index of the first space at or after `i`, but no more than `end`. */
  function SpaceFrom(name: seq<byte>, i: nat, end: nat): (k: nat)
    requires i <= end <= |name|
    ensures i <= k <= end
    ensures forall j :: i <= j < k ==> name[j] != SPACE
    ensures k < end ==> name[k] == SPACE
    decreases end - i
  {
    if i == end || name[i] == SPACE then i else SpaceFrom(name, i + 1, end)
  }

  function BaseLength(name: seq<byte>): nat
    requires |name| == 11
  {
    SpaceFrom(name, 0, 8)
  }

  function ExtensionLength(name: seq<byte>): nat
    requires |name| == 11
  {
    SpaceFrom(name, 8, 11) - 8
  }

  /** Byte `i` of what convertFromFATFormat leaves in the output buffer. With an extension of one or
      two characters it skips the byte after the extension. */
  function ShownByte(name: seq<byte>, before: seq<byte>, i: nat): byte
    requires |name| == 11 && |before| == 13 && i < 13
  {
    var b, e := BaseLength(name), ExtensionLength(name);
    if i == 12 then NUL
    else if i < b then name[i]
    else if e == 0 then SPACE
    else if i == b then DOT
    else if i <= b + e then name[i + 7 - b]
    else if e < 3 && i == b + e + 1 then before[i]
    else SPACE
  }

  function Shown(name: seq<byte>, before: seq<byte>): (r: seq<byte>)
    requires |name| == 11 && |before| == 13
    ensures |r| == 13
  {
    if name[0] == DOT then
      (if name[1] == DOT then [DOT, DOT, NUL] + before[3..] else [DOT, NUL] + before[2..])
    else
      seq(13, i requires 0 <= i < 13 => ShownByte(name, before, i))
  }

  /** The buffer with the base and a dot. */
  function WithBase(name: seq<byte>, o: seq<byte>): (r: seq<byte>)
    requires |name| == 11 && |o| == 13
    ensures |r| == 13
  {
    var b := BaseLength(name);
    seq(13, i requires 0 <= i < 13 => if i < b then name[i] else if i == b then DOT else o[i])
  }

  /** The buffer with the extension after a base of the given length. */
  function WithExtension(name: seq<byte>, o: seq<byte>, base: nat): (r: seq<byte>)
    requires |name| == 11 && |o| == 13 && base <= 8
    ensures |r| == 13
  {
    var e := ExtensionLength(name);
    seq(13, i requires 0 <= i < 13 => if base < i <= base + e then name[i + 7 - base] else o[i])
  }

  /** The buffer with spaces up to its last byte. */
  function WithSpaces(o: seq<byte>, from: nat): (r: seq<byte>)
    requires |o| == 13
    ensures |r| == 13
  {
    seq(13, i requires 0 <= i < 13 => if from <= i < 12 then SPACE else o[i])
  }

  /** First loop of convertFromFATFormat: the base and a dot after it. */
  method ShowBase(input: seq<byte>, output: array<byte>) returns (counter: nat)
    requires |input| == 11 && output.Length == 13
    modifies output
    ensures counter == BaseLength(input) && output[..] == WithBase(input, old(output[..]))
  {
    counter := 0;
    while counter < 8
      invariant counter <= BaseLength(input)
      invariant forall i :: 0 <= i < 13 ==> output[i] == if i < counter then input[i] else old(output[i])
    {
      if input[counter] == SPACE {
        output[counter] := DOT;
        return;
      }
      output[counter] := input[counter];
      counter := counter + 1;
    }
    output[counter] := DOT;
  }

  /** Second loop: the extension. `counter` is a 16-bit unsigned variable; without an extension it
      steps back over the dot. */
  method ShowExtension(input: seq<byte>, output: array<byte>, base: nat) returns (counter: nat)
    requires |input| == 11 && output.Length == 13 && base <= 8
    modifies output
    ensures output[..] == WithExtension(input, old(output[..]), base)
    ensures var e := ExtensionLength(input);
            counter == if e == 0 then (base + 0x1_0000 - 1) % 0x1_0000 else if e == 3 then base + 3 else base + e + 1
  {
    counter := base;
    var counter2 := 8;
    while counter2 < 11
      invariant 8 <= counter2 <= 8 + ExtensionLength(input) && counter == base + (counter2 - 8)
      invariant forall i :: 0 <= i < 13 ==>
                  output[i] == if base < i <= counter then input[i + 7 - base] else old(output[i])
    {
      counter := counter + 1;
      if input[counter2] == SPACE {
        if counter2 == 8 { counter := (counter + 0x1_0000 - 2) % 0x1_0000; }
        return;
      }
      output[counter] := input[counter2];
      counter2 := counter2 + 1;
    }
  }

  method FillSpaces(output: array<byte>, from: nat)
    requires output.Length == 13 && from <= 12
    modifies output
    ensures output[..] == WithSpaces(old(output[..]), from)
  {
    for i := from to 12
      invariant forall j :: 0 <= j < 13 ==> output[j] == if from <= j < i then SPACE else old(output[j])
    {
      output[i] := SPACE;
    }
  }

  /** convertFromFATFormat. */
  method ConvertFromFat(input: seq<byte>, output: array<byte>)
    requires |input| == 11 && output.Length == 13
    modifies output
    ensures output[..] == Shown(input, old(output[..]))
  {
    if input[0] == DOT {
      output[0] := DOT;
      if input[1] == DOT {
        output[1], output[2] := DOT, NUL;
        return;
      }
      output[1] := NUL;
      return;
    }
    ShowName(input, output);
  }

  /** The name without a leading dot: base, extension, spaces. */
  method ShowName(input: seq<byte>, output: array<byte>)
    requires |input| == 11 && output.Length == 13 && input[0] != DOT
    modifies output
    ensures output[..] == Shown(input, old(output[..]))
  {
    hide Shown, BaseLength, ExtensionLength, WithBase, WithExtension, WithSpaces;
    PartLengths(input);
    ghost var before := output[..];
    var base := ShowBase(input, output);
    var counter := ShowExtension(input, output, base);
    var from := (counter + 1) % 0x1_0000;
    FillSpaces(output, from);
    ghost var filled := output[..];
    output[12] := NUL;
    assert output[..] == filled[12 := NUL];
    ShownLayers(input, before, base, from);
  }

  /** The three layers make the shown name. */
  lemma ShownLayers(input: seq<byte>, before: seq<byte>, base: nat, from: nat)
    requires |input| == 11 && |before| == 13 && input[0] != DOT && base == BaseLength(input) <= 8
    requires var e := ExtensionLength(input); from == if e == 0 then base else if e == 3 then base + 4 else base + e + 2
    ensures WithSpaces(WithExtension(input, WithBase(input, before), base), from)[12 := NUL] == Shown(input, before)
  {
    PartLengths(input);
    hide BaseLength, ExtensionLength;
  }

  lemma PartLengths(name: seq<byte>)
    requires |name| == 11
    ensures BaseLength(name) <= 8 && ExtensionLength(name) <= 3
  {
  }

  /** The string in a buffer, up to its first NUL. */
  function CString(b: seq<byte>): (s: seq<byte>)
    ensures |s| <= |b| && NoNul(s) && s == b[..|s|]
    ensures |s| < |b| ==> b[|s|] == NUL
  {
    if |b| == 0 || b[0] == NUL then [] else [b[0]] + CString(b[1..])
  }

  /** No space before a character, in the base and in the extension. */
  predicate LeftJustified(name: seq<byte>)
    requires |name| == 11
  {
    && (forall i :: BaseLength(name) <= i < 8 ==> name[i] == SPACE)
    && (forall i :: 8 + ExtensionLength(name) <= i < 11 ==> name[i] == SPACE)
  }

  /** The byte of the output buffer that convertFromFATFormat skips. */
  function Skipped(name: seq<byte>): nat
    requires |name| == 11
  {
    BaseLength(name) + ExtensionLength(name) + 1
  }

  lemma {:induction false} CStringIs(b: seq<byte>, n: nat)
    requires n < |b| && b[n] == NUL && forall i :: 0 <= i < n ==> b[i] != NUL
    ensures CString(b) == b[..n]
    decreases n
  {
    if n > 0 {
      CStringIs(b[1..], n - 1);
      assert b[..n] == [b[0]] + b[1..][..n - 1];
    }
  }

  /** Length of the string in the output buffer. */
  function ShownLength(name: seq<byte>, before: seq<byte>): (n: nat)
    requires |name| == 11 && |before| == 13
    ensures n <= 12
  {
    if 1 <= ExtensionLength(name) < 3 && before[Skipped(name)] == NUL then Skipped(name) else 12
  }

  lemma ShownIs(name: seq<byte>, before: seq<byte>, i: nat)
    requires |name| == 11 && Accepted(name) && |before| == 13 && i < 13
    ensures Shown(name, before)[i] == ShownByte(name, before, i)
  {
    hide ShownByte;
    assert Legal(name[0]);
  }

  /** The shown string ends where its length says. */
  lemma ShownEnds(name: seq<byte>, before: seq<byte>, i: nat)
    requires |name| == 11 && Accepted(name) && |before| == 13 && i <= ShownLength(name, before)
    ensures ShownByte(name, before, i) == NUL <==> i == ShownLength(name, before)
  {
    assert forall j :: 0 <= j < 11 ==> Legal(name[j]);
    hide Accepted;
  }

  lemma ShownString(name: seq<byte>, before: seq<byte>)
    requires |name| == 11 && Accepted(name) && |before| == 13
    ensures var s := CString(Shown(name, before));
            && |s| == ShownLength(name, before)
            && forall i :: 0 <= i < |s| ==> s[i] == ShownByte(name, before, i)
  {
    hide ShownByte, Shown, ShownLength, Accepted, CString;
    var r, n := Shown(name, before), ShownLength(name, before);
    forall i | 0 <= i <= n ensures r[i] == ShownByte(name, before, i) && (r[i] == NUL <==> i == n) {
      ShownIs(name, before, i);
      ShownEnds(name, before, i);
    }
    CStringIs(r, n);
  }

  lemma ExtensionlessRoundTrip(name: seq<byte>, before: seq<byte>)
    requires |name| == 11 && Accepted(name) && LeftJustified(name) && |before| == 13
    requires ExtensionLength(name) == 0
    ensures |CString(Shown(name, before))| == 12 && Normal(CString(Shown(name, before))) == name
  {
    ShownString(name, before);
    assert Buffer13(CString(Shown(name, before)))[..11] == name;
  }

  /** The string splits at the dot that was put after the base. */
  lemma ShownSplits(name: seq<byte>, before: seq<byte>)
    requires |name| == 11 && Accepted(name) && |before| == 13 && ExtensionLength(name) > 0
    ensures var s := CString(Shown(name, before));
            && |s| == ShownLength(name, before) && DotAt(s) == BaseLength(name)
            && Normal(s) == Shape(s)
  {
    ShownString(name, before);
    var s, b := CString(Shown(name, before)), BaseLength(name);
    assert s[b] == DOT;
    forall i | 0 <= i < b ensures s[i] != DOT { assert Legal(name[i]); }
    assert Buffer13(s)[..11][b] == DOT;
  }

  lemma BaseRoundTrip(name: seq<byte>, before: seq<byte>, i: nat)
    requires |name| == 11 && Accepted(name) && LeftJustified(name) && |before| == 13
    requires ExtensionLength(name) > 0 && i < 8
    ensures ShapeByte(CString(Shown(name, before)), i) == name[i]
  {
    hide SpaceFrom, CString, Shown, DotAt, Normal, Shape;
    ShownSplits(name, before);
    ShownAt(name, before, i);
    assert Legal(name[i]);
  }

  lemma ShownAt(name: seq<byte>, before: seq<byte>, j: nat)
    requires |name| == 11 && Accepted(name) && |before| == 13
    ensures var s := CString(Shown(name, before));
            |s| == ShownLength(name, before) && (j < |s| ==> s[j] == ShownByte(name, before, j))
  {
    ShownString(name, before);
  }

  /** Byte `i` of the extension is taken from the byte after the dot that is as far in. */
  lemma ExtensionSource(name: seq<byte>, before: seq<byte>, i: nat)
    requires |name| == 11 && Accepted(name) && |before| == 13
    requires ExtensionLength(name) > 0 && 8 <= i < 11
    ensures var s := CString(Shown(name, before));
            ShapeByte(s, i) == UpperAt(s, BaseLength(name) + i - 7)
  {
    hide SpaceFrom, CString, Shown, DotAt, Normal, Shape, UpperAt, Accepted, ShownLength;
    ShownSplits(name, before);
  }

  lemma ExtensionKept(name: seq<byte>, before: seq<byte>, i: nat)
    requires |name| == 11 && Accepted(name) && |before| == 13
    requires 8 <= i < 8 + ExtensionLength(name)
    ensures ShapeByte(CString(Shown(name, before)), i) == name[i]
  {
    assert Legal(name[i]);
    hide SpaceFrom, ShapeByte, CString, Shown, Accepted;
    ExtensionSource(name, before, i);
    ShownAt(name, before, BaseLength(name) + i - 7);
  }

  lemma ExtensionFilled(name: seq<byte>, before: seq<byte>, i: nat)
    requires |name| == 11 && Accepted(name) && |before| == 13
    requires ExtensionLength(name) > 0 && 8 + ExtensionLength(name) < i < 11
    ensures ShapeByte(CString(Shown(name, before)), i) == SPACE
  {
    hide SpaceFrom, ShapeByte, CString, Shown, Accepted;
    ExtensionSource(name, before, i);
    ShownAt(name, before, BaseLength(name) + i - 7);
  }

  lemma ExtensionSkipped(name: seq<byte>, before: seq<byte>)
    requires |name| == 11 && Accepted(name) && |before| == 13
    requires 0 < ExtensionLength(name) < 3
    ensures ShapeByte(CString(Shown(name, before)), 8 + ExtensionLength(name)) == SPACE <==>
              before[Skipped(name)] in {SPACE, NUL}
  {
    hide SpaceFrom, ShapeByte, CString, Shown, Accepted;
    ExtensionSource(name, before, 8 + ExtensionLength(name));
    ShownAt(name, before, Skipped(name));
  }

  lemma ExtensionRoundTrip(name: seq<byte>, before: seq<byte>, i: nat)
    requires |name| == 11 && Accepted(name) && LeftJustified(name) && |before| == 13
    requires ExtensionLength(name) > 0 && 8 <= i < 11
    ensures ShapeByte(CString(Shown(name, before)), i) == name[i] <==>
              (i != 8 + ExtensionLength(name) || before[Skipped(name)] in {SPACE, NUL})
  {
    hide SpaceFrom, ShapeByte, CString, Shown;
    var e := ExtensionLength(name);
    if i < 8 + e {
      ExtensionKept(name, before, i);
    } else if i == 8 + e {
      ExtensionSkipped(name, before);
    } else {
      ExtensionFilled(name, before, i);
    }
  }

  /** Dotted form and back. For an accepted name the lookup finds the name it started from, except
      that with an extension of one or two characters it depends on what the output buffer held. */
  lemma RoundTripIff(name: seq<byte>, before: seq<byte>)
    requires |name| == 11 && Accepted(name) && LeftJustified(name) && |before| == 13
    ensures |CString(Shown(name, before))| <= 12
    ensures Normal(CString(Shown(name, before))) == name <==>
              (ExtensionLength(name) in {0, 3} || before[Skipped(name)] in {SPACE, NUL})
  {
    var e := ExtensionLength(name);
    if e == 0 {
      ExtensionlessRoundTrip(name, before);
    } else {
      ShownSplits(name, before);
      forall i: nat | i < 11
        ensures Shape(CString(Shown(name, before)))[i] == name[i] <==>
                  (i != 8 + e || before[Skipped(name)] in {SPACE, NUL})
      {
        if i < 8 { BaseRoundTrip(name, before, i); } else { ExtensionRoundTrip(name, before, i); }
      }
    }
  }

  /** A name that cannot be taken for one in FAT form is looked for whatever its case. */
  lemma NormalIgnoresCase(t: seq<byte>, s: seq<byte>)
    requires InLowerCase(t, s) && |s| <= 12 && (|s| < 11 || DOT in s[..11])
    ensures Normal(t) == Normal(s)
  {
    ShapeIgnoresCase(t, s);
    NotInForm(s);
    if |s| >= 11 {
      var k :| 0 <= k < 11 && s[..11][k] == DOT;
      assert t[..11][k] == DOT;
    }
    NotInForm(t);
  }

  lemma NotInForm(s: seq<byte>)
    requires |s| <= 12 && (|s| < 11 || DOT in s[..11])
    ensures Normal(s) == Shape(s)
  {
    var b := Buffer13(s)[..11];
    if |s| < 11 {
      assert b[|s|] == NUL && !Legal(b[|s|]);
    } else {
      var k :| 0 <= k < 11 && s[..11][k] == DOT;
      assert b[k] == DOT && !Legal(b[k]);
    }
  }

  /** The entries "." and ".." are shown as they are. */
  lemma DotEntriesShown(name: seq<byte>, before: seq<byte>)
    requires |name| == 11 && |before| == 13 && name[0] == DOT
    ensures CString(Shown(name, before)) == if name[1] == DOT then Text("..") else Text(".")
  {
    if name[1] == DOT { CStringIs(Shown(name, before), 2); } else { CStringIs(Shown(name, before), 1); }
  }

  /** The name without the spaces that fill it: the base, and with an extension a dot and the extension. */
  function Dotted(name: seq<byte>): (s: seq<byte>)
    requires |name| == 11
  {
    var b, e := BaseLength(name), ExtensionLength(name);
    PartLengths(name);
    if e == 0 then name[..b] else name[..b] + Text(".") + name[8..8 + e]
  }

  /** How a name is shown: as its dotted form, filled with spaces to twelve characters. With an extension of one
      or two characters the byte after it is what the buffer held before, which may end the string there. */
  lemma ShownReads(name: seq<byte>, before: seq<byte>)
    requires |name| == 11 && Accepted(name) && |before| == 13
    ensures var s, d := CString(Shown(name, before)), Dotted(name);
            && |d| <= 12
            && (ExtensionLength(name) in {0, 3} ==> s == Padded(d, 12))
            && (0 < ExtensionLength(name) < 3 ==>
                  |d| == Skipped(name)
                  && s == if before[|d|] == NUL then d else Padded(d, 12)[|d| := before[|d|]])
  {
    hide CString, Shown, BaseLength, ExtensionLength, ShownByte;
    PartLengths(name);
    ShownString(name, before);
    var s, d := CString(Shown(name, before)), Dotted(name);
    forall i | 0 <= i < |s|
      ensures s[i] == if i < |d| then d[i]
                      else if 0 < ExtensionLength(name) < 3 && i == |d| then before[i] else SPACE
    {
      ShownReadsAt(name, before, i);
    }
    assert 0 < ExtensionLength(name) < 3 ==> |d| == Skipped(name);
  }

  lemma ShownReadsAt(name: seq<byte>, before: seq<byte>, i: nat)
    requires |name| == 11 && |before| == 13 && i < 12
    ensures var d := Dotted(name);
            ShownByte(name, before, i) ==
              if i < |d| then d[i]
              else if 0 < ExtensionLength(name) < 3 && i == |d| then before[i] else SPACE
  {
    hide BaseLength, ExtensionLength;
    PartLengths(name);
    var b, e, d := BaseLength(name), ExtensionLength(name), Dotted(name);
    if e > 0 && b < i <= b + e { assert d[i] == name[8..8 + e][i - b - 1]; }
  }
}
