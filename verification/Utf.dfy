/**
 UTF-8 and UTF-16: the stream decoders and encoders, against the grammar of section 4 of RFC 3629 and the pairs of
 section 2 of RFC 2781.  Shifts and masks of disjoint bits are written as arithmetic.
 */
module Utf {

  type Byte = n: int | 0 <= n < 0x100

  type Unit = n: int | 0 <= n < 0x10000

  /** A Unicode scalar value: not a surrogate. */
  predicate IsScalar(c: nat) {
    c < 0xD800 || 0xE000 <= c <= 0x10FFFF
  }

  // ---- the grammar ---------------------------------------------------------------------

  predicate Tail(b: Byte) {
    0x80 <= b <= 0xBF
  }

  /** The second byte a first byte allows: narrower after E0, ED, F0 and F4. */
  predicate Second(b0: Byte, b1: Byte) {
    if b0 == 0xE0 then 0xA0 <= b1 <= 0xBF
    else if b0 == 0xED then 0x80 <= b1 <= 0x9F
    else if b0 == 0xF0 then 0x90 <= b1 <= 0xBF
    else if b0 == 0xF4 then 0x80 <= b1 <= 0x8F
    else Tail(b1)
  }

  /** The length of the character that starts the string, by the grammar; 0 if there is none. */
  function CharLength(s: seq<Byte>): (n: nat)
    ensures n <= 4 && n <= |s|
  {
    if |s| >= 1 && s[0] <= 0x7F then 1
    else if |s| >= 2 && 0xC2 <= s[0] <= 0xDF && Tail(s[1]) then 2
    else if |s| >= 3 && 0xE0 <= s[0] <= 0xEF && Second(s[0], s[1]) && Tail(s[2]) then 3
    else if |s| >= 4 && 0xF0 <= s[0] <= 0xF4 && Second(s[0], s[1]) && Tail(s[2]) && Tail(s[3]) then 4
    else 0
  }

  /** Six more bits of payload. */
  function Push(high: nat, b: nat): nat {
    high * 64 + b % 64
  }

  /** The scalar value of a character, from its payload bits. */
  function Value(s: seq<Byte>): nat
    requires CharLength(s) > 0
  {
    match CharLength(s)
    case 1 => s[0]
    case 2 => Push(s[0] % 32, s[1])
    case 3 => Push(Push(s[0] % 16, s[1]), s[2])
    case _ => Push(Push(Push(s[0] % 8, s[1]), s[2]), s[3])
  }

  // ---- streams -------------------------------------------------------------------------

  /** What is left after taking `n` bytes. */
  function After<T>(s: seq<T>, n: nat): seq<T> {
    if n <= |s| then s[n..] else []
  }

  /** A memory stream: at its end it yields zero and stays. */
  class InStream<T> {
    const end: T
    var rest: seq<T>

    constructor (s: seq<T>, end: T)
      ensures rest == s && this.end == end
    {
      rest, this.end := s, end;
    }

    method Take() returns (c: T)
      modifies this
      ensures c == if old(rest) == [] then end else old(rest[0])
      ensures rest == After(old(rest), 1)
    {
      if rest == [] {
        return end;
      }
      c := rest[0];
      rest := rest[1..];
    }
  }

  class OutStream<T> {
    var text: seq<T>

    constructor ()
      ensures text == []
    {
      text := [];
    }

    method Put(c: T)
      modifies this
      ensures text == old(text) + [c]
    {
      text := text + [c];
    }
  }

  // ---- UTF-8 ---------------------------------------------------------------------------

  /** The class of a byte, as in the decoder's table. */
  function GetRange(b: Byte): nat {
    if b <= 0x7F then 0
    else if b <= 0x8F then 0x10
    else if b <= 0x9F then 0x40
    else if b <= 0xBF then 0x20
    else if b <= 0xC1 then 8
    else if b <= 0xDF then 2
    else if b == 0xE0 then 10
    else if b <= 0xEC then 3
    else if b == 0xED then 4
    else if b <= 0xEF then 3
    else if b == 0xF0 then 11
    else if b <= 0xF3 then 6
    else if b == 0xF4 then 5
    else 8
  }

  /** `GetRange(b) & mask` is not zero, for masks without low bits: every class has one bit above the low four, or
      none. */
  predicate Allowed(b: Byte, mask: nat) {
    match GetRange(b)
    case 0x10 => mask / 0x10 % 2 == 1
    case 0x20 => mask / 0x20 % 2 == 1
    case 0x40 => mask / 0x40 % 2 == 1
    case _ => false
  }

  /** `(0xFF >> type) & b`. */
  function Payload(kind: nat, b: Byte): nat {
    match kind
    case 2 => b % 64
    case 3 => b % 32
    case 4 => b % 16
    case 5 => b % 8
    case 6 => b % 4
    case _ => 0
  }

  /** How many continuation bytes a first byte makes the decoder take, whether or not they are right. */
  function Tails(b: Byte): nat {
    match GetRange(b)
    case 2 => 1
    case 3 => 2
    case 4 => 2
    case 10 => 2
    case 5 => 3
    case 6 => 3
    case 11 => 3
    case _ => 0
  }

  function SecondMask(kind: nat): nat {
    match kind
    case 4 => 0x50
    case 5 => 0x10
    case 10 => 0x20
    case 11 => 0x60
    case _ => 0x70
  }

  lemma AfterAfter<T>(s: seq<T>, n: nat)
    ensures After(After(s, n), 1) == After(s, n + 1)
  {
  }

  function ByteAt(s: seq<Byte>, n: nat): Byte {
    if n < |s| then s[n] else 0
  }

  /** What the decoder tests of the bytes after the first. */
  predicate TailsAllowed(s: seq<Byte>, kind: nat) {
    && kind in {2, 3, 4, 5, 6, 10, 11}
    && Allowed(ByteAt(s, 1), SecondMask(kind))
    && (kind != 2 ==> Allowed(ByteAt(s, 2), 0x70))
    && (kind in {5, 6, 11} ==> Allowed(ByteAt(s, 3), 0x70))
  }

  lemma AllowedIsTail(b: Byte)
    ensures Allowed(b, 0x70) <==> Tail(b)
  {
  }

  lemma AllowedIsSecond(b0: Byte, b1: Byte)
    requires GetRange(b0) in {3, 4, 5, 6, 10, 11}
    ensures Allowed(b1, SecondMask(GetRange(b0))) <==> Second(b0, b1)
  {
  }

  /** The table and its masks are the grammar. */
  lemma TableIsGrammar(s: seq<Byte>)
    requires s != [] && s[0] > 0x7F
    ensures CharLength(s) > 0 <==> TailsAllowed(s, GetRange(s[0]))
    ensures CharLength(s) > 0 ==> CharLength(s) == 1 + Tails(s[0])
  {
    var kind := GetRange(s[0]);
    if kind in {3, 4, 5, 6, 10, 11} {
      AllowedIsSecond(s[0], ByteAt(s, 1));
      AllowedIsTail(ByteAt(s, 2));
      AllowedIsTail(ByteAt(s, 3));
      assert !Second(s[0], 0) && !Tail(0);
    } else if kind == 2 {
      AllowedIsTail(ByteAt(s, 1));
    }
  }

  lemma PayloadIsValue(s: seq<Byte>)
    requires s != [] && s[0] > 0x7F && CharLength(s) > 0
    ensures Value(s) ==
            var v := Push(Payload(GetRange(s[0]), s[0]), s[1]);
            if CharLength(s) == 2 then v
            else if CharLength(s) == 3 then Push(v, s[2])
            else Push(Push(v, s[2]), s[3])
  {
    hide Push;
    assert Payload(GetRange(s[0]), s[0]) ==
           if CharLength(s) == 2 then s[0] % 32 else if CharLength(s) == 3 then s[0] % 16 else s[0] % 8;
  }

  /** Accepts exactly the characters of the grammar and computes their value; a stream at its end gives the
      character zero.  Accepted or not, it takes the first byte and as many more as that announces. */
  method Decode8(input: InStream<Byte>) returns (ok: bool, codepoint: nat)
    requires input.end == 0
    modifies input
    ensures old(input.rest) != [] ==> (ok <==> CharLength(old(input.rest)) > 0)
    ensures old(input.rest) == [] ==> ok && codepoint == 0
    ensures old(input.rest) != [] && ok ==> codepoint == Value(old(input.rest))
    ensures input.rest == After(old(input.rest), 1 + Tails(ByteAt(old(input.rest), 0)))
  {
    ghost var s := input.rest;
    hide Push, After, Allowed, SecondMask;
    var c := input.Take();
    if c <= 0x7F {
      return true, c;
    }
    hide CharLength, Value, Payload;
    TableIsGrammar(s);
    if CharLength(s) > 0 {
      PayloadIsValue(s);
    }
    var kind := GetRange(c);
    codepoint := if kind >= 32 then 0 else Payload(kind, c);
    if kind !in {2, 3, 4, 5, 6, 10, 11} {
      return false, codepoint;
    }
    hide GetRange;
    AfterAfter(s, 1);
    c := input.Take();
    codepoint := Push(codepoint, c);
    ok := Allowed(c, SecondMask(kind));
    if kind != 2 {
      AfterAfter(s, 2);
      c := input.Take();
      codepoint := Push(codepoint, c);
      ok := ok && Allowed(c, 0x70);
    }
    if kind in {5, 6, 11} {
      AfterAfter(s, 3);
      c := input.Take();
      codepoint := Push(codepoint, c);
      ok := ok && Allowed(c, 0x70);
    }
  }

  /** Takes a byte and puts it; `n` bytes of `s` have been taken and put before. */
  method CopyByte(input: InStream<Byte>, output: OutStream<Byte>, ghost s: seq<Byte>, ghost t: seq<Byte>, ghost n: nat)
    returns (c: Byte)
    requires input.end == 0 && input.rest == After(s, n) && output.text == t + Taken(s, n)
    modifies input, output
    ensures c == ByteAt(s, n) && input.rest == After(s, n + 1) && output.text == t + Taken(s, n + 1)
  {
    AfterAfter(s, n);
    TakenStep(t, s, n);
    c := input.Take();
    output.Put(c);
  }

  /** Accepts what `Decode8` accepts, takes the same bytes, and puts every byte it takes. */
  method Validate8(input: InStream<Byte>, output: OutStream<Byte>) returns (ok: bool)
    requires input.end == 0
    modifies input, output
    ensures old(input.rest) != [] ==> (ok <==> CharLength(old(input.rest)) > 0)
    ensures old(input.rest) == [] ==> ok
    ensures var n := 1 + Tails(ByteAt(old(input.rest), 0));
            input.rest == After(old(input.rest), n) && output.text == old(output.text) + Taken(old(input.rest), n)
  {
    ghost var s, t := input.rest, output.text;
    assert t + Taken(s, 0) == t && After(s, 0) == s;
    hide After, Allowed, SecondMask, Taken;
    var c := CopyByte(input, output, s, t, 0);
    if c <= 0x7F {
      return true;
    }
    hide CharLength;
    TableIsGrammar(s);
    var kind := GetRange(c);
    if kind !in {2, 3, 4, 5, 6, 10, 11} {
      return false;
    }
    hide GetRange;
    c := CopyByte(input, output, s, t, 1);
    ok := Allowed(c, SecondMask(kind));
    if kind != 2 {
      c := CopyByte(input, output, s, t, 2);
      ok := ok && Allowed(c, 0x70);
    }
    if kind in {5, 6, 11} {
      c := CopyByte(input, output, s, t, 3);
      ok := ok && Allowed(c, 0x70);
    }
  }

  lemma TakenStep(t: seq<Byte>, s: seq<Byte>, n: nat)
    ensures t + Taken(s, n) + [ByteAt(s, n)] == t + Taken(s, n + 1)
  {
    assert Taken(s, n) + [ByteAt(s, n)] == Taken(s, n + 1);
    assert t + Taken(s, n) + [ByteAt(s, n)] == t + (Taken(s, n) + [ByteAt(s, n)]);
  }

  /** `n` bytes taken, with zeros past the end. */
  function Taken(s: seq<Byte>, n: nat): seq<Byte> {
    seq(n, i requires 0 <= i < n => ByteAt(s, i))
  }

  /** The bytes of a code point. */
  function Utf8(c: nat): seq<Byte>
    requires c <= 0x10FFFF
  {
    if c <= 0x7F then [c]
    else if c <= 0x7FF then [0xC0 + c / 64, 0x80 + c % 64]
    else if c <= 0xFFFF then [0xE0 + c / 4096, 0x80 + c / 64 % 64, 0x80 + c % 64]
    else [0xF0 + c / 262144, 0x80 + c / 4096 % 64, 0x80 + c / 64 % 64, 0x80 + c % 64]
  }

  method Encode8(output: OutStream<Byte>, codepoint: nat)
    requires codepoint <= 0x10FFFF
    modifies output
    ensures output.text == old(output.text) + Utf8(codepoint)
  {
    if codepoint <= 0x7F {
      output.Put(codepoint);
    } else if codepoint <= 0x7FF {
      output.Put(0xC0 + codepoint / 64);
      output.Put(0x80 + codepoint % 64);
    } else if codepoint <= 0xFFFF {
      output.Put(0xE0 + codepoint / 4096);
      output.Put(0x80 + codepoint / 64 % 64);
      output.Put(0x80 + codepoint % 64);
    } else {
      output.Put(0xF0 + codepoint / 262144);
      output.Put(0x80 + codepoint / 4096 % 64);
      output.Put(0x80 + codepoint / 64 % 64);
      output.Put(0x80 + codepoint % 64);
    }
  }

  /** The bytes of a scalar value are one character of the grammar with that value, whatever follows; the bytes of a
      surrogate are none. */
  lemma EncodedIsChar(c: nat, rest: seq<Byte>)
    requires c <= 0x10FFFF
    ensures IsScalar(c) ==> CharLength(Utf8(c) + rest) == |Utf8(c)| && Value(Utf8(c) + rest) == c
    ensures !IsScalar(c) ==> CharLength(Utf8(c) + rest) == 0
  {
    if c <= 0x7FF {
      EncodedShort(c, rest);
    } else if c <= 0xFFFF {
      EncodedThree(c, rest);
    } else {
      EncodedFour(c, rest);
    }
  }

  lemma EncodedShort(c: nat, rest: seq<Byte>)
    requires c <= 0x7FF
    ensures CharLength(Utf8(c) + rest) == |Utf8(c)| && Value(Utf8(c) + rest) == c
  {
  }

  lemma EncodedThree(c: nat, rest: seq<Byte>)
    requires 0x7FF < c <= 0xFFFF
    ensures IsScalar(c) ==> CharLength(Utf8(c) + rest) == 3 && Value(Utf8(c) + rest) == c
    ensures !IsScalar(c) ==> CharLength(Utf8(c) + rest) == 0
  {
    var x, y, z := c / 4096, c / 64 % 64, c % 64;
    assert c == (x * 64 + y) * 64 + z;
    ThreeIsRead(x, y, z, rest);
    assert x == 13 && y >= 32 <==> !IsScalar(c);
  }

  lemma ThreeIsRead(x: nat, y: nat, z: nat, rest: seq<Byte>)
    requires x < 16 && y < 64 && z < 64 && (x == 0 ==> y >= 32)
    ensures var s: seq<Byte> := [0xE0 + x, 0x80 + y, 0x80 + z] + rest;
            if x == 13 && y >= 32 then CharLength(s) == 0 else CharLength(s) == 3 && Value(s) == (x * 64 + y) * 64 + z
  {
  }

  lemma Digits(c: nat)
    ensures c == ((c / 262144 * 64 + c / 4096 % 64) * 64 + c / 64 % 64) * 64 + c % 64
  {
    assert c / 64 / 64 == c / 4096 && c / 4096 / 64 == c / 262144;
  }

  lemma EncodedFour(c: nat, rest: seq<Byte>)
    requires 0xFFFF < c <= 0x10FFFF
    ensures CharLength(Utf8(c) + rest) == 4 && Value(Utf8(c) + rest) == c
  {
    var w, x, y, z := c / 262144, c / 4096 % 64, c / 64 % 64, c % 64;
    Digits(c);
    FourIsRead(w, x, y, z, rest);
    hide CharLength, Value;
  }

  lemma FourIsRead(w: nat, x: nat, y: nat, z: nat, rest: seq<Byte>)
    requires w <= 4 && x < 64 && y < 64 && z < 64 && (w == 0 ==> x >= 16) && (w == 4 ==> x < 16)
    ensures var s: seq<Byte> := [0xF0 + w, 0x80 + x, 0x80 + y, 0x80 + z] + rest;
            CharLength(s) == 4 && Value(s) == ((w * 64 + x) * 64 + y) * 64 + z
  {
    var s: seq<Byte> := [0xF0 + w, 0x80 + x, 0x80 + y, 0x80 + z] + rest;
    FourIsChar(s, w, x, y, z);
  }

  lemma FourIsChar(s: seq<Byte>, w: nat, x: nat, y: nat, z: nat)
    requires w <= 4 && x < 64 && y < 64 && z < 64 && (w == 0 ==> x >= 16) && (w == 4 ==> x < 16)
    requires |s| >= 4 && s[0] == 0xF0 + w && s[1] == 0x80 + x && s[2] == 0x80 + y && s[3] == 0x80 + z
    ensures CharLength(s) == 4 && Value(s) == ((w * 64 + x) * 64 + y) * 64 + z
  {
    assert CharLength(s) == 4;
    hide CharLength, Second, Tail;
    assert s[0] % 8 == w && s[1] % 64 == x && s[2] % 64 == y && s[3] % 64 == z;
  }

  /** Every character of the grammar is the encoding of its value, a scalar value. */
  lemma CharIsEncoded(s: seq<Byte>)
    requires CharLength(s) > 0
    ensures IsScalar(Value(s)) && Utf8(Value(s)) == s[..CharLength(s)]
  {
    if CharLength(s) == 1 {
      assert Value(s) == s[0];
    } else if CharLength(s) == 2 {
      TwoBytes(s);
    } else if CharLength(s) == 3 {
      ThreeBytes(s);
    } else {
      FourBytes(s);
    }
  }

  lemma TwoBytes(s: seq<Byte>)
    requires CharLength(s) == 2
    ensures IsScalar(Value(s)) && Utf8(Value(s)) == s[..2]
  {
    var x, y: int := s[0] % 32, s[1] % 64;
    assert s[..2] == [0xC0 + x, 0x80 + y] && Value(s) == x * 64 + y && 2 <= x < 32;
    hide CharLength, Value, Push;
    DivMod3(0, x, y);
  }

  lemma ThreeBytes(s: seq<Byte>)
    requires CharLength(s) == 3
    ensures IsScalar(Value(s)) && Utf8(Value(s)) == s[..3]
  {
    var x, y, z: int := s[0] % 16, s[1] % 64, s[2] % 64;
    assert s[..3] == [0xE0 + x, 0x80 + y, 0x80 + z] && Value(s) == (x * 64 + y) * 64 + z;
    assert (x == 0 ==> y >= 32) && (x == 13 ==> y < 32);
    hide CharLength, Value, Push, Utf8;
    ThreeIsEncoded(x, y, z);
  }

  lemma FourBytes(s: seq<Byte>)
    requires CharLength(s) == 4
    ensures IsScalar(Value(s)) && Utf8(Value(s)) == s[..4]
  {
    var w, x, y, z: int := s[0] % 8, s[1] % 64, s[2] % 64, s[3] % 64;
    assert s[..4] == [0xF0 + w, 0x80 + x, 0x80 + y, 0x80 + z] && Value(s) == ((w * 64 + x) * 64 + y) * 64 + z;
    assert w <= 4 && (w == 0 ==> x >= 16) && (w == 4 ==> x < 16);
    hide CharLength, Value, Push, Utf8;
    FourIsEncoded(w, x, y, z);
  }

  lemma ThreeIsEncoded(x: int, y: int, z: int)
    requires 0 <= x < 16 && 0 <= y < 64 && 0 <= z < 64
    requires x == 0 ==> y >= 32
    ensures var c := (x * 64 + y) * 64 + z;
            0x7FF < c <= 0xFFFF && Utf8(c) == [0xE0 + x, 0x80 + y, 0x80 + z]
    ensures IsScalar((x * 64 + y) * 64 + z) <==> !(x == 13 && y >= 32)
  {
    DivMod3(x, y, z);
  }

  lemma FourIsEncoded(w: int, x: int, y: int, z: int)
    requires 0 <= w <= 4 && 0 <= x < 64 && 0 <= y < 64 && 0 <= z < 64
    requires (w == 0 ==> x >= 16) && (w == 4 ==> x < 16)
    ensures var c := ((w * 64 + x) * 64 + y) * 64 + z;
            0xFFFF < c <= 0x10FFFF && IsScalar(c) && Utf8(c) == [0xF0 + w, 0x80 + x, 0x80 + y, 0x80 + z]
  {
    DivMod4(w, x, y, z);
  }

  lemma DivMod3(x: int, y: int, z: int)
    requires 0 <= y < 64 && 0 <= z < 64 && x >= 0
    ensures var c := (x * 64 + y) * 64 + z; c / 4096 == x && c / 64 % 64 == y && c % 64 == z
  {
  }

  lemma DivMod4(w: int, x: int, y: int, z: int)
    requires 0 <= x < 64 && 0 <= y < 64 && 0 <= z < 64 && w >= 0
    ensures var c := ((w * 64 + x) * 64 + y) * 64 + z;
            c / 262144 == w && c / 4096 % 64 == x && c / 64 % 64 == y && c % 64 == z
  {
    DivMod3(w * 64 + x, y, z);
  }

  // ---- order ---------------------------------------------------------------------------

  /** Byte by byte, a front part coming first. */
  predicate Less(s: seq<Byte>, t: seq<Byte>) {
    t != [] && (s == [] || s[0] < t[0] || (s[0] == t[0] && Less(s[1..], t[1..])))
  }

  lemma LessTwo(s: seq<Byte>, t: seq<Byte>)
    requires |s| == |t| == 2
    ensures Less(s, t) <==> s[0] < t[0] || (s[0] == t[0] && s[1] < t[1])
  {
    assert Less(s[1..], t[1..]) <==> s[1] < t[1] by {
      assert !Less(s[1..][1..], t[1..][1..]);
    }
  }

  lemma LessThree(s: seq<Byte>, t: seq<Byte>)
    requires |s| == |t| == 3
    ensures Less(s, t) <==> s[0] < t[0] || (s[0] == t[0] && (s[1] < t[1] || (s[1] == t[1] && s[2] < t[2])))
  {
    LessTwo(s[1..], t[1..]);
  }

  lemma LessFour(s: seq<Byte>, t: seq<Byte>)
    requires |s| == |t| == 4
    ensures Less(s, t) <==>
            || s[0] < t[0]
            || (s[0] == t[0] && (s[1] < t[1]
                || (s[1] == t[1] && (s[2] < t[2] || (s[2] == t[2] && s[3] < t[3])))))
  {
    LessThree(s[1..], t[1..]);
  }

  /** The bytes of characters come in the order of their code points.  With the grammar this leaves no other way to
      encode them. */
  lemma CodePointOrder(c: nat, d: nat)
    requires c < d <= 0x10FFFF
    ensures Less(Utf8(c), Utf8(d))
  {
    var s, t := Utf8(c), Utf8(d);
    LengthsGrow(c, d);
    if |s| == |t| == 2 {
      LessTwo(s, t);
    } else if |s| == |t| == 3 {
      LessThree(s, t);
      OrderOfThree(c, d);
    } else if |s| == |t| == 4 {
      LessFour(s, t);
      OrderOfFour(c, d);
    }
  }

  lemma LengthsGrow(c: nat, d: nat)
    requires c < d <= 0x10FFFF
    ensures |Utf8(c)| <= |Utf8(d)| && (|Utf8(c)| < |Utf8(d)| ==> Utf8(c)[0] < Utf8(d)[0])
  {
  }

  lemma OrderOfThree(c: nat, d: nat)
    requires c < d
    ensures c / 4096 < d / 4096
         || (c / 4096 == d / 4096 && (c / 64 % 64 < d / 64 % 64 || (c / 64 % 64 == d / 64 % 64 && c % 64 < d % 64)))
  {
    Digits(c);
    Digits(d);
    assert c / 64 / 64 == c / 4096 && d / 64 / 64 == d / 4096;
    assert c / 64 <= d / 64;
  }

  lemma OrderOfFour(c: nat, d: nat)
    requires c < d
    ensures c / 262144 < d / 262144 || (c / 262144 == d / 262144 && (c / 4096 % 64 < d / 4096 % 64
         || (c / 4096 % 64 == d / 4096 % 64
             && (c / 64 % 64 < d / 64 % 64 || (c / 64 % 64 == d / 64 % 64 && c % 64 < d % 64)))))
  {
    OrderOfThree(c, d);
    assert c / 4096 / 64 == c / 262144 && d / 4096 / 64 == d / 262144;
  }

  // ---- UTF-16 --------------------------------------------------------------------------

  predicate HighSurrogate(u: Unit) {
    0xD800 <= u <= 0xDBFF
  }

  predicate LowSurrogate(u: Unit) {
    0xDC00 <= u <= 0xDFFF
  }

  /** The length of the character that starts the string; 0 if there is none. */
  function CharLength16(u: seq<Unit>): (n: nat)
    ensures n <= 2 && n <= |u|
  {
    if |u| >= 1 && !HighSurrogate(u[0]) && !LowSurrogate(u[0]) then 1
    else if |u| >= 2 && HighSurrogate(u[0]) && LowSurrogate(u[1]) then 2
    else 0
  }

  /** The value of a surrogate pair: ten bits of each, above 0x10000. */
  function PairValue(high: nat, low: nat): nat {
    high % 1024 * 1024 + low % 1024 + 0x10000
  }

  function Value16(u: seq<Unit>): nat
    requires CharLength16(u) > 0
  {
    if CharLength16(u) == 1 then u[0] else PairValue(u[0], u[1])
  }

  /** Accepts exactly the characters: a unit that is no surrogate, or a high and then a low one. */
  method Decode16(input: InStream<Unit>) returns (ok: bool, codepoint: nat)
    requires input.end == 0
    modifies input
    ensures old(input.rest) != [] ==> (ok <==> CharLength16(old(input.rest)) > 0)
    ensures old(input.rest) == [] ==> ok && codepoint == 0
    ensures old(input.rest) != [] && ok ==>
              codepoint == Value16(old(input.rest)) && input.rest == old(input.rest)[CharLength16(old(input.rest))..]
  {
    var c := input.Take();
    if c < 0xD800 || c > 0xDFFF {
      return true, c;
    }
    if c <= 0xDBFF {
      codepoint := c;
      codepoint := codepoint % 1024 * 1024;
      c := input.Take();
      codepoint := codepoint + c % 1024;
      codepoint := codepoint + 0x10000;
      return c >= 0xDC00 && c <= 0xDFFF, codepoint;
    }
    return false, 0;
  }

  function Utf16(c: nat): seq<Unit>
    requires IsScalar(c)
  {
    if c <= 0xFFFF then [c] else [0xD800 + (c - 0x10000) / 1024, 0xDC00 + (c - 0x10000) % 1024]
  }

  method Encode16(output: OutStream<Unit>, codepoint: nat)
    requires IsScalar(codepoint)
    modifies output
    ensures output.text == old(output.text) + Utf16(codepoint)
  {
    if codepoint <= 0xFFFF {
      output.Put(codepoint);
    } else {
      var v := codepoint - 0x10000;
      output.Put(0xD800 + v / 1024);
      output.Put(0xDC00 + v % 1024);
    }
  }

  /** Section 2.1 of RFC 2781: below 0x10000 the code point itself, above it a high and a low surrogate with ten bits
      each. */
  lemma UnitsAre(c: nat)
    requires IsScalar(c)
    ensures c < 0x10000 ==> Utf16(c) == [c]
    ensures c >= 0x10000 ==>
              var u := Utf16(c);
              && |u| == 2 && 0xD800 <= u[0] <= 0xDBFF && 0xDC00 <= u[1] <= 0xDFFF
              && c == 0x10000 + (u[0] as int - 0xD800) * 0x400 + (u[1] as int - 0xDC00)
  {
  }

  lemma EncodedIsChar16(c: nat, rest: seq<Unit>)
    requires IsScalar(c)
    ensures CharLength16(Utf16(c) + rest) == |Utf16(c)| && Value16(Utf16(c) + rest) == c
  {
    if c > 0xFFFF {
      var v := c - 0x10000;
      assert Utf16(c) + rest == [0xD800 + v / 1024, 0xDC00 + v % 1024] + rest;
      assert v == v / 1024 * 1024 + v % 1024 && v / 1024 < 1024;
    }
  }

  lemma CharIsEncoded16(u: seq<Unit>)
    requires CharLength16(u) > 0
    ensures IsScalar(Value16(u)) && Utf16(Value16(u)) == u[..CharLength16(u)]
  {
    if CharLength16(u) == 2 {
      var x, y: int := u[0] % 1024, u[1] % 1024;
      assert u[..2] == [0xD800 + x, 0xDC00 + y];
      assert (x * 1024 + y) / 1024 == x && (x * 1024 + y) % 1024 == y;
    }
  }

  // ---- transcoding ---------------------------------------------------------------------

  predicate WellFormed8(s: seq<Byte>) {
    s == [] || (CharLength(s) > 0 && WellFormed8(s[CharLength(s)..]))
  }

  predicate WellFormed16(u: seq<Unit>) {
    u == [] || (CharLength16(u) > 0 && WellFormed16(u[CharLength16(u)..]))
  }

  /** `Transcode`: one character, or nothing put if there is none. */
  method Transcode(input: InStream<Byte>, output: OutStream<Unit>) returns (ok: bool)
    requires input.end == 0 && input.rest != []
    modifies input, output
    ensures ok <==> CharLength(old(input.rest)) > 0
    ensures ok ==> IsScalar(Value(old(input.rest))) && output.text == old(output.text) + Utf16(Value(old(input.rest)))
    ensures ok ==> input.rest == old(input.rest)[CharLength(old(input.rest))..]
    ensures !ok ==> output.text == old(output.text)
  {
    ghost var s := input.rest;
    var codepoint;
    ok, codepoint := Decode8(input);
    if ok {
      CharIsEncoded(s);
      CharLengthIsTails(s);
      hide CharLength, Value, Utf16;
      Encode16(output, codepoint);
    }
  }

  lemma CharLengthIsTails(s: seq<Byte>)
    requires CharLength(s) > 0
    ensures CharLength(s) == 1 + Tails(s[0])
  {
    if s[0] > 0x7F {
      TableIsGrammar(s);
    }
  }

  /** The same from UTF-16 to UTF-8. */
  method Transcode16(input: InStream<Unit>, output: OutStream<Byte>) returns (ok: bool)
    requires input.end == 0 && input.rest != []
    modifies input, output
    ensures ok <==> CharLength16(old(input.rest)) > 0
    ensures ok ==> IsScalar(Value16(old(input.rest)))
    ensures ok ==> output.text == old(output.text) + Utf8(Value16(old(input.rest)))
    ensures ok ==> input.rest == old(input.rest)[CharLength16(old(input.rest))..]
    ensures !ok ==> output.text == old(output.text)
  {
    ghost var u := input.rest;
    var codepoint;
    ok, codepoint := Decode16(input);
    if ok {
      CharIsEncoded16(u);
      hide CharLength16, Value16, Utf8;
      Encode8(output, codepoint);
    }
  }

  /** A whole string, character by character. */
  function Utf16Of(s: seq<Byte>): seq<Unit>
    requires WellFormed8(s)
  {
    if s == [] then []
    else
      CharIsEncoded(s);
      Utf16(Value(s)) + Utf16Of(s[CharLength(s)..])
  }

  function Utf8Of(u: seq<Unit>): seq<Byte>
    requires WellFormed16(u)
  {
    if u == [] then []
    else
      CharIsEncoded16(u);
      Utf8(Value16(u)) + Utf8Of(u[CharLength16(u)..])
  }

  /** The loop of the reader and the writer over the characters of a string that need no escape: it succeeds
      exactly on well-formed strings and then has put the whole string in the other encoding. */
  method TranscodeAll(input: InStream<Byte>, output: OutStream<Unit>) returns (ok: bool)
    requires input.end == 0
    modifies input, output
    ensures ok <==> WellFormed8(old(input.rest))
    ensures ok ==> input.rest == [] && output.text == old(output.text) + Utf16Of(old(input.rest))
  {
    hide CharLength, Value, Utf16;
    while input.rest != []
      invariant WellFormed8(old(input.rest)) <==> WellFormed8(input.rest)
      invariant WellFormed8(input.rest) ==>
          output.text + Utf16Of(input.rest) == old(output.text) + Utf16Of(old(input.rest))
      decreases |input.rest|
    {
      ghost var s := input.rest;
      ghost var text := output.text;
      ok := Transcode(input, output);
      if !ok {
        return;
      }
      if WellFormed8(s) {
        assert text + (Utf16(Value(s)) + Utf16Of(input.rest)) == output.text + Utf16Of(input.rest);
      }
    }
    ok := true;
  }

  method TranscodeAll16(input: InStream<Unit>, output: OutStream<Byte>) returns (ok: bool)
    requires input.end == 0
    modifies input, output
    ensures ok <==> WellFormed16(old(input.rest))
    ensures ok ==> input.rest == [] && output.text == old(output.text) + Utf8Of(old(input.rest))
  {
    hide CharLength16, Value16, Utf8;
    while input.rest != []
      invariant WellFormed16(old(input.rest)) <==> WellFormed16(input.rest)
      invariant WellFormed16(input.rest) ==>
          output.text + Utf8Of(input.rest) == old(output.text) + Utf8Of(old(input.rest))
      decreases |input.rest|
    {
      ghost var u := input.rest;
      ghost var text := output.text;
      ok := Transcode16(input, output);
      if !ok {
        return;
      }
      if WellFormed16(u) {
        assert text + (Utf8(Value16(u)) + Utf8Of(input.rest)) == output.text + Utf8Of(input.rest);
      }
    }
    ok := true;
  }

  /** Every well-formed UTF-8 string survives the way to UTF-16 and back. */
  lemma {:induction false} ThereAndBack8(s: seq<Byte>)
    requires WellFormed8(s)
    ensures WellFormed16(Utf16Of(s)) && Utf8Of(Utf16Of(s)) == s
  {
    if s != [] {
      var c, rest := Value(s), s[CharLength(s)..];
      CharIsEncoded(s);
      ThereAndBack8(rest);
      hide CharLength, Value, Utf8, Utf16, CharLength16, Value16, IsScalar;
      var tail := Utf16Of(rest);
      EncodedIsChar16(c, tail);
      assert (Utf16(c) + tail)[|Utf16(c)|..] == tail;
      Utf16NotEmpty(c);
      assert s[..CharLength(s)] + rest == s;
    }
  }

  lemma Utf16NotEmpty(c: nat)
    requires IsScalar(c)
    ensures Utf16(c) != []
  {
  }

  lemma Utf8NotEmpty(c: nat)
    requires c <= 0x10FFFF
    ensures Utf8(c) != []
  {
  }

  /** ... and every well-formed UTF-16 string the way to UTF-8 and back. */
  lemma {:induction false} ThereAndBack16(u: seq<Unit>)
    requires WellFormed16(u)
    ensures WellFormed8(Utf8Of(u)) && Utf16Of(Utf8Of(u)) == u
  {
    if u != [] {
      var c, rest := Value16(u), u[CharLength16(u)..];
      CharIsEncoded16(u);
      assert c <= 0x10FFFF;
      ThereAndBack16(rest);
      hide CharLength, Value, Utf8, Utf16, CharLength16, Value16;
      var tail := Utf8Of(rest);
      EncodedIsChar(c, tail);
      assert (Utf8(c) + tail)[|Utf8(c)|..] == tail;
      Utf8NotEmpty(c);
      assert u[..CharLength16(u)] + rest == u;
    }
  }
}
