/** Base64 of section 4 of RFC 4648, as the Go standard encoding writes it and reads it back:
    the reader skips carriage returns and newlines, demands padding and ignores trailing bits. */
module Base64 {
  import opened Bytes

  type Sextet = d: int | 0 <= d < 64

  const PAD: Byte := 0x3d
  const CR: Byte := 0x0d
  const LF: Byte := 0x0a

  /** Table 1 of RFC 4648: A-Z, a-z, 0-9, + and /. */
  function Digit(d: Sextet): Byte {
    if d < 26 then 0x41 + d
    else if d < 52 then 0x61 + (d - 26)
    else if d < 62 then 0x30 + (d - 52)
    else if d == 62 then 0x2b
    else 0x2f
  }

  function Value(c: Byte): Option<Sextet> {
    if 0x41 <= c <= 0x5a then Some(c - 0x41)
    else if 0x61 <= c <= 0x7a then Some(c - 0x61 + 26)
    else if 0x30 <= c <= 0x39 then Some(c - 0x30 + 52)
    else if c == 0x2b then Some(62)
    else if c == 0x2f then Some(63)
    else None
  }

  // The 24 bits of a group of three bytes, cut into four sextets and joined again.
  function Digit0(x: Byte): Sextet { x / 4 }
  function Digit1(x: Byte, y: Byte): Sextet { x % 4 * 16 + y / 16 }
  function Digit2(y: Byte, z: Byte): Sextet { y % 16 * 4 + z / 64 }
  function Digit3(z: Byte): Sextet { z % 64 }

  function Byte0(a: Sextet, b: Sextet): Byte { a * 4 + b / 16 }
  function Byte1(b: Sextet, c: Sextet): Byte { b % 16 * 16 + c / 4 }
  function Byte2(c: Sextet, d: Sextet): Byte { c % 4 * 64 + d }

  function Encode(s: seq<Byte>): seq<Byte>
    decreases |s|
  {
    if |s| == 0 then []
    else if |s| == 1 then [Digit(Digit0(s[0])), Digit(Digit1(s[0], 0)), PAD, PAD]
    else if |s| == 2 then [Digit(Digit0(s[0])), Digit(Digit1(s[0], s[1])), Digit(Digit2(s[1], 0)), PAD]
    else
      [Digit(Digit0(s[0])), Digit(Digit1(s[0], s[1])), Digit(Digit2(s[1], s[2])), Digit(Digit3(s[2]))]
      + Encode(s[3..])
  }

  function SkipNewlines(t: seq<Byte>): seq<Byte>
    decreases |t|
  {
    if t == [] then []
    else (if t[0] == CR || t[0] == LF then [] else [t[0]]) + SkipNewlines(t[1..])
  }

  /** The reader over quanta of four digits; nothing may follow a padded quantum. */
  function DecodeQuanta(t: seq<Byte>): Option<seq<Byte>>
    decreases |t|
  {
    if t == [] then Some([])
    else if |t| < 4 then None
    else
      var a, b, c, d := Value(t[0]), Value(t[1]), Value(t[2]), Value(t[3]);
      if a.None? || b.None? then None
      else
        var first := Byte0(a.value, b.value);
        if c.None? then
          if t[2] == PAD && t[3] == PAD && |t| == 4 then Some([first]) else None
        else
          var second := Byte1(b.value, c.value);
          if d.None? then
            if t[3] == PAD && |t| == 4 then Some([first, second]) else None
          else
            var rest := DecodeQuanta(t[4..]);
            if rest.None? then None
            else Some([first, second, Byte2(c.value, d.value)] + rest.value)
  }

  function Decode(t: seq<Byte>): Option<seq<Byte>> {
    DecodeQuanta(SkipNewlines(t))
  }

  lemma ValueOfDigit(d: Sextet)
    ensures Value(Digit(d)) == Some(d)
    ensures Digit(d) != PAD && Digit(d) != CR && Digit(d) != LF
  {
  }

  lemma {:induction false} EncodeHasNoNewline(s: seq<Byte>)
    ensures CR !in Encode(s) && LF !in Encode(s)
    decreases |s|
  {
    if |s| >= 3 {
      EncodeHasNoNewline(s[3..]);
    }
  }

  lemma {:induction false} NothingToSkip(t: seq<Byte>)
    requires CR !in t && LF !in t
    ensures SkipNewlines(t) == t
    decreases |t|
  {
    if t != [] {
      NothingToSkip(t[1..]);
      assert t == [t[0]] + t[1..];
    }
  }

  lemma SplitThenJoin(x: Byte, y: Byte, z: Byte)
    ensures Byte0(Digit0(x), Digit1(x, y)) == x
    ensures Byte1(Digit1(x, y), Digit2(y, z)) == y
    ensures Byte2(Digit2(y, z), Digit3(z)) == z
  {
  }

  lemma JoinThenSplit(a: Sextet, b: Sextet, c: Sextet, d: Sextet)
    ensures Digit0(Byte0(a, b)) == a
    ensures Digit1(Byte0(a, b), Byte1(b, c)) == b
    ensures Digit2(Byte1(b, c), Byte2(c, d)) == c
    ensures Digit3(Byte2(c, d)) == d
    ensures Digit1(Byte0(a, b), 0) == b / 16 * 16
    ensures Digit2(Byte1(b, c), 0) == c / 4 * 4
  {
  }

  lemma ReadFull(a: Sextet, b: Sextet, c: Sextet, d: Sextet, rest: seq<Byte>)
    ensures DecodeQuanta([Digit(a), Digit(b), Digit(c), Digit(d)] + rest) ==
            if DecodeQuanta(rest).None? then None
            else Some([Byte0(a, b), Byte1(b, c), Byte2(c, d)] + DecodeQuanta(rest).value)
  {
    ValueOfDigit(a);
    ValueOfDigit(b);
    ValueOfDigit(c);
    ValueOfDigit(d);
    assert ([Digit(a), Digit(b), Digit(c), Digit(d)] + rest)[4..] == rest;
  }

  lemma ReadOne(a: Sextet, b: Sextet)
    ensures DecodeQuanta([Digit(a), Digit(b), PAD, PAD]) == Some([Byte0(a, b)])
  {
    ValueOfDigit(a);
    ValueOfDigit(b);
  }

  lemma ReadTwo(a: Sextet, b: Sextet, c: Sextet)
    ensures DecodeQuanta([Digit(a), Digit(b), Digit(c), PAD]) == Some([Byte0(a, b), Byte1(b, c)])
  {
    ValueOfDigit(a);
    ValueOfDigit(b);
    ValueOfDigit(c);
  }

  lemma OneRoundTrip(x: Byte)
    ensures DecodeQuanta(Encode([x])) == Some([x])
  {
    SplitThenJoin(x, 0, 0);
    ReadOne(Digit0(x), Digit1(x, 0));
  }

  lemma TwoRoundTrip(x: Byte, y: Byte)
    ensures DecodeQuanta(Encode([x, y])) == Some([x, y])
  {
    SplitThenJoin(x, y, 0);
    ReadTwo(Digit0(x), Digit1(x, y), Digit2(y, 0));
  }

  lemma EncodeGroup(x: Byte, y: Byte, z: Byte, rest: seq<Byte>)
    ensures Encode([x, y, z] + rest) ==
            [Digit(Digit0(x)), Digit(Digit1(x, y)), Digit(Digit2(y, z)), Digit(Digit3(z))] + Encode(rest)
  {
    assert ([x, y, z] + rest)[3..] == rest;
  }

  lemma GroupRoundTrip(x: Byte, y: Byte, z: Byte, rest: seq<Byte>)
    requires DecodeQuanta(Encode(rest)) == Some(rest)
    ensures DecodeQuanta(Encode([x, y, z] + rest)) == Some([x, y, z] + rest)
  {
    EncodeGroup(x, y, z, rest);
    SplitThenJoin(x, y, z);
    ReadFull(Digit0(x), Digit1(x, y), Digit2(y, z), Digit3(z), Encode(rest));
  }

  lemma {:induction false} QuantaRoundTrip(s: seq<Byte>)
    ensures DecodeQuanta(Encode(s)) == Some(s)
    decreases |s|
  {
    if |s| == 1 {
      OneRoundTrip(s[0]);
      assert s == [s[0]];
    } else if |s| == 2 {
      TwoRoundTrip(s[0], s[1]);
      assert s == [s[0], s[1]];
    } else if s != [] {
      QuantaRoundTrip(s[3..]);
      GroupRoundTrip(s[0], s[1], s[2], s[3..]);
      assert s == [s[0], s[1], s[2]] + s[3..];
    }
  }

  /** Whatever line breaks are put into the encoding on the way, the bytes come back. */
  lemma RoundTrip(s: seq<Byte>, t: seq<Byte>)
    requires SkipNewlines(t) == Encode(s)
    ensures Decode(t) == Some(s)
  {
    QuantaRoundTrip(s);
  }

  lemma PlainRoundTrip(s: seq<Byte>)
    ensures Decode(Encode(s)) == Some(s)
  {
    EncodeHasNoNewline(s);
    NothingToSkip(Encode(s));
    RoundTrip(s, Encode(s));
  }

  /** What the reader ignores: the bits of the last digit before the padding that no byte needs. */
  function ClearTrailingBits(t: seq<Byte>): seq<Byte>
    decreases |t|
  {
    if |t| > 4 then t[..4] + ClearTrailingBits(t[4..])
    else if |t| == 4 && t[3] == PAD && t[2] == PAD && Value(t[1]).Some? then
      t[1 := Digit(Value(t[1]).value / 16 * 16)]
    else if |t| == 4 && t[3] == PAD && Value(t[2]).Some? then
      t[2 := Digit(Value(t[2]).value / 4 * 4)]
    else t
  }

  lemma DigitOfValue(c: Byte)
    requires Value(c).Some?
    ensures Digit(Value(c).value) == c && c != PAD
  {
  }

  lemma ClearingLastIsInvisible(t: seq<Byte>)
    requires |t| == 4
    ensures |ClearTrailingBits(t)| == 4
    ensures DecodeQuanta(ClearTrailingBits(t)) == DecodeQuanta(t)
  {
    assert Value(PAD).None?;
    if t[3] == PAD && t[2] == PAD && Value(t[1]).Some? {
      ValueOfDigit(Value(t[1]).value / 16 * 16);
    } else if t[3] == PAD && Value(t[2]).Some? {
      ValueOfDigit(Value(t[2]).value / 4 * 4);
    }
  }

  /** A longer text is a full quantum and the rest. */
  lemma QuantumThenRest(t: seq<Byte>, u: seq<Byte>)
    requires |t| == |u| > 4 && t[..4] == u[..4]
    requires DecodeQuanta(t[4..]) == DecodeQuanta(u[4..])
    ensures DecodeQuanta(t) == DecodeQuanta(u)
  {
    assert t[0] == t[..4][0] && t[1] == t[..4][1] && t[2] == t[..4][2] && t[3] == t[..4][3];
    assert u[0] == u[..4][0] && u[1] == u[..4][1] && u[2] == u[..4][2] && u[3] == u[..4][3];
  }

  /** Clearing the unused bits is invisible to the reader. */
  lemma {:induction false} ClearingIsInvisible(t: seq<Byte>)
    ensures |ClearTrailingBits(t)| == |t|
    ensures DecodeQuanta(ClearTrailingBits(t)) == DecodeQuanta(t)
    decreases |t|
  {
    if |t| > 4 {
      var u := ClearTrailingBits(t);
      ClearingIsInvisible(t[4..]);
      assert u[4..] == ClearTrailingBits(t[4..]);
      QuantumThenRest(t, u);
    } else if |t| == 4 {
      ClearingLastIsInvisible(t);
    }
  }

  lemma AcceptedOne(t: seq<Byte>)
    requires |t| == 4 && Value(t[0]).Some? && Value(t[1]).Some? && t[2] == PAD && t[3] == PAD
    ensures DecodeQuanta(t).Some? && ClearTrailingBits(t) == Encode(DecodeQuanta(t).value)
  {
    var a, b := Value(t[0]).value, Value(t[1]).value;
    DigitOfValue(t[0]);
    assert Value(PAD).None?;
    assert DecodeQuanta(t) == Some([Byte0(a, b)]);
    JoinThenSplit(a, b, 0, 0);
  }

  lemma AcceptedTwo(t: seq<Byte>)
    requires |t| == 4 && Value(t[0]).Some? && Value(t[1]).Some? && Value(t[2]).Some? && t[3] == PAD
    ensures DecodeQuanta(t).Some? && ClearTrailingBits(t) == Encode(DecodeQuanta(t).value)
  {
    var a, b, c := Value(t[0]).value, Value(t[1]).value, Value(t[2]).value;
    DigitOfValue(t[0]);
    DigitOfValue(t[1]);
    assert Value(PAD).None?;
    assert t[2] != PAD;
    assert DecodeQuanta(t) == Some([Byte0(a, b), Byte1(b, c)]);
    JoinThenSplit(a, b, c, 0);
  }

  lemma AcceptedFull(t: seq<Byte>, rest: seq<Byte>)
    requires |t| >= 4 && Value(t[0]).Some? && Value(t[1]).Some? && Value(t[2]).Some? && Value(t[3]).Some?
    requires DecodeQuanta(t[4..]) == Some(rest) && ClearTrailingBits(t[4..]) == Encode(rest)
    ensures DecodeQuanta(t).Some? && ClearTrailingBits(t) == Encode(DecodeQuanta(t).value)
  {
    var a, b, c, d := Value(t[0]).value, Value(t[1]).value, Value(t[2]).value, Value(t[3]).value;
    DigitOfValue(t[0]);
    DigitOfValue(t[1]);
    DigitOfValue(t[2]);
    DigitOfValue(t[3]);
    JoinThenSplit(a, b, c, d);
    EncodeGroup(Byte0(a, b), Byte1(b, c), Byte2(c, d), rest);
    assert DecodeQuanta(t) == Some([Byte0(a, b), Byte1(b, c), Byte2(c, d)] + rest);
    assert t[..4] == [Digit(a), Digit(b), Digit(c), Digit(d)];
    ClearingKeepsFullQuantum(t);
  }

  lemma ClearingKeepsFullQuantum(t: seq<Byte>)
    requires |t| >= 4 && t[3] != PAD
    ensures ClearTrailingBits(t) == t[..4] + ClearTrailingBits(t[4..])
  {
    assert t == t[..4] + t[4..];
  }

  lemma {:induction false} AcceptedIsEncoding(t: seq<Byte>)
    requires DecodeQuanta(t).Some?
    ensures ClearTrailingBits(t) == Encode(DecodeQuanta(t).value)
    decreases |t|
  {
    if t != [] {
      if Value(t[2]).None? {
        AcceptedOne(t);
      } else if Value(t[3]).None? {
        AcceptedTwo(t);
      } else {
        AcceptedIsEncoding(t[4..]);
        AcceptedFull(t, DecodeQuanta(t[4..]).value);
      }
    }
  }

  /** Which texts the reader accepts, and as which bytes: those that, line breaks dropped and the
      unused bits cleared, are the encoding of the bytes. */
  lemma AcceptsExactly(t: seq<Byte>, s: seq<Byte>)
    ensures Decode(t) == Some(s) <==> ClearTrailingBits(SkipNewlines(t)) == Encode(s)
  {
    var q := SkipNewlines(t);
    ClearingIsInvisible(q);
    QuantaRoundTrip(s);
    if DecodeQuanta(q) == Some(s) {
      AcceptedIsEncoding(q);
    }
  }

  /** Table 1 of RFC 4648, letter for letter. */
  lemma CapitalsAre(d: Sextet)
    requires d < 26
    ensures Digit(d) as int == "ABCDEFGHIJKLMNOPQRSTUVWXYZ"[d] as int
  {
  }

  lemma SmallLettersAre(d: Sextet)
    requires 26 <= d < 52
    ensures Digit(d) as int == "abcdefghijklmnopqrstuvwxyz"[d - 26] as int
  {
  }

  lemma LastDigitsAre(d: Sextet)
    requires 52 <= d
    ensures Digit(d) as int == "0123456789+/"[d - 52] as int
  {
  }

  /** The four digits of a number of 24 bits, six bits each, the highest first. */
  function Digits24(v: nat): seq<Byte>
    requires v < 0x1000000
  {
    [Digit(v / 262144), Digit(v / 4096 % 64), Digit(v / 64 % 64), Digit(v % 64)]
  }

  lemma LowSix(q: nat, r: nat)
    requires r < 64
    ensures (q * 64 + r) / 64 == q && (q * 64 + r) % 64 == r
  {
  }

  lemma GroupSum(x: Byte, y: Byte, z: Byte)
    ensures x * 65536 + y * 256 + z ==
            ((Digit0(x) * 64 + Digit1(x, y)) * 64 + Digit2(y, z)) * 64 + Digit3(z)
  {
    assert x == x / 4 * 4 + x % 4;
    assert y == y / 16 * 16 + y % 16;
    assert z == z / 64 * 64 + z % 64;
  }

  lemma GroupBits(x: Byte, y: Byte, z: Byte)
    ensures var v := x * 65536 + y * 256 + z;
      && v / 262144 == Digit0(x) && v / 4096 % 64 == Digit1(x, y)
      && v / 64 % 64 == Digit2(y, z) && v % 64 == Digit3(z)
  {
    GroupSum(x, y, z);
    FromDigits(Digit0(x), Digit1(x, y), Digit2(y, z), Digit3(z));
  }

  lemma FromDigits(a: Sextet, b: Sextet, c: Sextet, d: Sextet)
    ensures var v: int := ((a * 64 + b) * 64 + c) * 64 + d;
      v / 262144 == a && v / 4096 % 64 == b && v / 64 % 64 == c && v % 64 == d
  {
    var two: int := a * 64 + b;
    var three: int := two * 64 + c;
    var v: int := three * 64 + d;
    LowSix(three, d);
    LowSix(two, c);
    LowSix(a, b);
    assert v / 4096 == v / 64 / 64;
    assert v / 262144 == v / 4096 / 64;
  }

  /** Section 4 of RFC 4648: three bytes are joined to 24 bits and written as four digits; one or two bytes
      at the end are filled up with zero bits, and = stands for each missing byte. */
  lemma EncodesBits(x: Byte, y: Byte, z: Byte, rest: seq<Byte>)
    ensures Encode([]) == []
    ensures Encode([x]) == Digits24(x * 65536)[..2] + [0x3d, 0x3d]
    ensures Encode([x, y]) == Digits24(x * 65536 + y * 256)[..3] + [0x3d]
    ensures Encode([x, y, z] + rest) == Digits24(x * 65536 + y * 256 + z) + Encode(rest)
  {
    GroupBits(x, 0, 0);
    GroupBits(x, y, 0);
    GroupBits(x, y, z);
    EncodeGroup(x, y, z, rest);
  }

  /** A carriage return or a newline is skipped wherever it stands, and nothing else is. */
  lemma {:induction false} LineBreaksAreSkipped(a: seq<Byte>, c: Byte, b: seq<Byte>)
    ensures SkipNewlines(a + [c] + b) ==
            SkipNewlines(a) + (if c == 0x0d || c == 0x0a then [] else [c]) + SkipNewlines(b)
    decreases |a|
  {
    if a == [] {
      assert [] + [c] + b == [c] + b;
      assert ([c] + b)[1..] == b;
    } else {
      assert (a + [c] + b)[1..] == a[1..] + [c] + b;
      LineBreaksAreSkipped(a[1..], c, b);
    }
  }

  /** Section 10 of RFC 4648: "f", "fo", "foo" and "foob"; and a group with the last two digits. */
  lemma PublishedVectors()
    ensures Encode([0x66]) == [0x5a, 0x67, PAD, PAD]
    ensures Encode([0x66, 0x6f]) == [0x5a, 0x6d, 0x38, PAD]
    ensures Encode([0x66, 0x6f, 0x6f]) == [0x5a, 0x6d, 0x39, 0x76]
    ensures Encode([0x66, 0x6f, 0x6f, 0x62]) == [0x5a, 0x6d, 0x39, 0x76, 0x59, 0x67, PAD, PAD]
    ensures Encode([0xfb, 0xff, 0xff]) == [0x2b, 0x2f, 0x2f, 0x2f]
  {
    EncodeGroup(0x66, 0x6f, 0x6f, []);
    EncodeGroup(0x66, 0x6f, 0x6f, [0x62]);
    EncodeGroup(0xfb, 0xff, 0xff, []);
    assert [0x66, 0x6f, 0x6f] + [] == [0x66, 0x6f, 0x6f];
    assert [0x66, 0x6f, 0x6f] + [0x62] == [0x66, 0x6f, 0x6f, 0x62];
    assert [0xfb, 0xff, 0xff] + [] == [0xfb, 0xff, 0xff];
  }

  /** Two texts with different trailing bits read as the same byte, so reading is not injective. */
  lemma ReadingIsNotInjective()
    ensures Decode([0x51, 0x51, PAD, PAD]) == Decode([0x51, 0x52, PAD, PAD]) == Some([0x41])
  {
    NothingToSkip([0x51, 0x51, PAD, PAD]);
    NothingToSkip([0x51, 0x52, PAD, PAD]);
  }
}
