/** UTF-8 as section 4 of RFC 3629 defines it, and what stripping does to it. */
module Utf8 {
  import opened Bytes
  import opened StripControl

  predicate IsTail(b: Byte) {
    0x80 <= b <= 0xbf
  }

  /** The length of the UTF8-char that s begins with, 0 when it begins with none. */
  function CharLength(s: seq<Byte>): (n: nat)
    ensures n <= |s|
  {
    if |s| >= 1 && s[0] <= 0x7f then 1
    else if |s| >= 2 && 0xc2 <= s[0] <= 0xdf && IsTail(s[1]) then 2
    else if |s| >= 3 && IsTail(s[2]) &&
            (|| (s[0] == 0xe0 && 0xa0 <= s[1] <= 0xbf)
             || (0xe1 <= s[0] <= 0xec && IsTail(s[1]))
             || (s[0] == 0xed && 0x80 <= s[1] <= 0x9f)
             || (0xee <= s[0] <= 0xef && IsTail(s[1]))) then 3
    else if |s| >= 4 && IsTail(s[2]) && IsTail(s[3]) &&
            (|| (s[0] == 0xf0 && 0x90 <= s[1] <= 0xbf)
             || (0xf1 <= s[0] <= 0xf3 && IsTail(s[1]))
             || (s[0] == 0xf4 && 0x80 <= s[1] <= 0x8f)) then 4
    else 0
  }

  predicate Valid(s: seq<Byte>)
    decreases |s|
  {
    s == [] || (CharLength(s) > 0 && Valid(s[CharLength(s)..]))
  }

  // ---------- the characters behind the grammar ----------

  /** A Unicode scalar value: no surrogate, at most 10FFFF. */
  type Scalar = v: int | 0 <= v < 0xd800 || 0xe000 <= v <= 0x10ffff

  /** The table of section 3 of RFC 3629. */
  function EncodeScalar(v: Scalar): seq<Byte> {
    if v < 0x80 then [v]
    else if v < 0x800 then [0xc0 + v / 64, 0x80 + v % 64]
    else if v < 0x10000 then [0xe0 + v / 4096, 0x80 + v / 64 % 64, 0x80 + v % 64]
    else [0xf0 + v / 262144, 0x80 + v / 4096 % 64, 0x80 + v / 64 % 64, 0x80 + v % 64]
  }

  function EncodeText(vs: seq<Scalar>): seq<Byte>
    decreases |vs|
  {
    if vs == [] then [] else EncodeScalar(vs[0]) + EncodeText(vs[1..])
  }

  lemma ScalarIsChar(v: Scalar)
    ensures EncodeScalar(v) != [] && CharLength(EncodeScalar(v)) == |EncodeScalar(v)|
  {
  }

  lemma SixBits(q: nat, r: nat)
    requires r < 64
    ensures (q * 64 + r) / 64 == q && (q * 64 + r) % 64 == r
  {
  }

  lemma TwoByteScalar(a: Byte, b: Byte) returns (v: Scalar)
    requires CharLength([a, b]) == 2
    ensures EncodeScalar(v) == [a, b]
  {
    var x: int, y: int := a - 0xc0, b - 0x80;
    v := x * 64 + y;
    SixBits(x, y);
  }

  lemma ThreeByteScalar(a: Byte, b: Byte, c: Byte) returns (v: Scalar)
    requires CharLength([a, b, c]) == 3
    ensures EncodeScalar(v) == [a, b, c]
  {
    var x: int, y: int, z: int := a - 0xe0, b - 0x80, c - 0x80;
    var top := x * 64 + y;
    assert 32 <= top < 1024 && !(0x360 <= top < 0x380);
    v := top * 64 + z;
    SixBits(top, z);
    SixBits(x, y);
    assert v / 4096 == v / 64 / 64;
  }

  lemma FourByteScalar(a: Byte, b: Byte, c: Byte, d: Byte) returns (v: Scalar)
    requires CharLength([a, b, c, d]) == 4
    ensures EncodeScalar(v) == [a, b, c, d]
  {
    var x: int, y: int, z: int, w: int := a - 0xf0, b - 0x80, c - 0x80, d - 0x80;
    var top := x * 64 + y;
    assert 16 <= top < 272;
    var middle := top * 64 + z;
    v := middle * 64 + w;
    SixBits(middle, w);
    SixBits(top, z);
    SixBits(x, y);
    assert v / 4096 == v / 64 / 64;
    assert v / 262144 == v / 4096 / 64;
  }

  lemma CharIsScalar(s: seq<Byte>) returns (v: Scalar)
    requires s != [] && CharLength(s) == |s|
    ensures EncodeScalar(v) == s
  {
    if |s| == 1 {
      v := s[0];
    } else if |s| == 2 {
      assert s == [s[0], s[1]];
      v := TwoByteScalar(s[0], s[1]);
    } else if |s| == 3 {
      assert s == [s[0], s[1], s[2]];
      v := ThreeByteScalar(s[0], s[1], s[2]);
    } else {
      assert s == [s[0], s[1], s[2], s[3]];
      v := FourByteScalar(s[0], s[1], s[2], s[3]);
    }
  }

  lemma {:induction false} EncodedTextIsValid(vs: seq<Scalar>)
    ensures Valid(EncodeText(vs))
    decreases |vs|
  {
    if vs != [] {
      EncodedTextIsValid(vs[1..]);
      ScalarIsChar(vs[0]);
      CharThenRest(EncodeScalar(vs[0]), EncodeText(vs[1..]));
    }
  }

  lemma EncodeOneMore(v: Scalar, vs: seq<Scalar>)
    ensures EncodeText([v] + vs) == EncodeScalar(v) + EncodeText(vs)
  {
    assert ([v] + vs)[1..] == vs;
  }

  lemma {:induction false} ValidIsEncodedText(s: seq<Byte>) returns (vs: seq<Scalar>)
    requires Valid(s)
    ensures EncodeText(vs) == s
    decreases |s|
  {
    vs := [];
    if s != [] {
      var n := CharLength(s);
      PrefixChar(s);
      var head, tail := s[..n], s[n..];
      assert s == head + tail;
      var v := CharIsScalar(head);
      var rest := ValidIsEncodedText(tail);
      EncodeOneMore(v, rest);
      vs := [v] + rest;
    }
  }

  /** The grammar accepts exactly the encodings of texts. */
  lemma ValidExactly(s: seq<Byte>)
    ensures Valid(s) <==> exists vs :: EncodeText(vs) == s
  {
    if Valid(s) {
      var vs := ValidIsEncodedText(s);
      assert EncodeText(vs) == s;
    }
    if exists vs :: EncodeText(vs) == s {
      var vs :| EncodeText(vs) == s;
      EncodedTextIsValid(vs);
    }
  }

  /** From section 7 of RFC 3629: the scalar values 41, 2262, 391 and 233B4. */
  lemma PublishedExamples()
    ensures EncodeScalar(0x41) == [0x41]
    ensures EncodeScalar(0x2262) == [0xe2, 0x89, 0xa2]
    ensures EncodeScalar(0x391) == [0xce, 0x91]
    ensures EncodeScalar(0x233b4) == [0xf0, 0xa3, 0x8e, 0xb4]
  {
  }

  // ---------- stripping ----------

  /** No byte that the scanner drops as the second half of ESC-plus-one is outside ASCII. */
  predicate SafeEscapes(s: seq<Byte>) {
    SafeFrom(Ground, s)
  }

  predicate SafeFrom(st: State, s: seq<Byte>)
    decreases |s|
  {
    s == [] || ((st.Escape? ==> s[0] < 0x80) && SafeFrom(Step(st, s[0]), s[1..]))
  }

  /** The same condition by position: wherever the scanner has just read an ESC that starts an
      escape sequence, the next byte is ASCII. */
  lemma {:induction false} SafeFromByPosition(st: State, s: seq<Byte>)
    ensures SafeFrom(st, s) <==> forall i {:trigger s[i]} :: 0 <= i < |s| && Run(st, s[..i]).Escape? ==> s[i] < 0x80
    decreases |s|
  {
    if s != [] {
      var next, rest := Step(st, s[0]), s[1..];
      SafeFromByPosition(next, rest);
      forall i | 0 <= i < |rest|
        ensures rest[i] == s[i + 1] && Run(next, rest[..i]) == Run(st, s[..i + 1])
      {
        assert s[..i + 1][1..] == rest[..i];
      }
      assert Run(st, s[..0]) == st;
      if SafeFrom(st, s) {
        forall i | 0 <= i < |s| && Run(st, s[..i]).Escape? ensures s[i] < 0x80 {
          if i > 0 {
            assert rest[i - 1] < 0x80;
          }
        }
      } else if st.Escape? && s[0] >= 0x80 {
      } else {
        var i :| 0 <= i < |rest| && Run(next, rest[..i]).Escape? && rest[i] >= 0x80;
        assert s[i + 1] >= 0x80;
      }
    }
  }

  lemma SafeByPosition(s: seq<Byte>)
    ensures SafeEscapes(s) <==> forall i {:trigger s[i]} :: 0 <= i < |s| && Run(Ground, s[..i]).Escape? ==> s[i] < 0x80
  {
    SafeFromByPosition(Ground, s);
  }

  /** The first char of a text decides nothing about the rest. */
  lemma CharThenRest(s: seq<Byte>, t: seq<Byte>)
    requires s != [] && CharLength(s) == |s|
    ensures CharLength(s + t) == |s|
    ensures Valid(s + t) <==> Valid(t)
  {
    assert (s + t)[|s|..] == t;
  }

  lemma PrefixChar(s: seq<Byte>)
    requires CharLength(s) > 0
    ensures CharLength(s[..CharLength(s)]) == CharLength(s)
  {
  }

  /** Outside ASCII no byte is special to the scanner, so a char is kept whole or dropped whole,
      except right after ESC. */
  lemma {:induction false} NonAsciiOut(st: State, s: seq<Byte>)
    requires !st.Escape?
    requires forall k :: 0 <= k < |s| ==> s[k] >= 0x80
    ensures Run(st, s) == st
    ensures Out(st, s) == if st.Ground? then s else []
    decreases |s|
  {
    if s != [] {
      NonAsciiOut(st, s[1..]);
      assert s == [s[0]] + s[1..];
    }
  }

  lemma NonAsciiSafe(st: State, s: seq<Byte>, t: seq<Byte>)
    requires !st.Escape?
    requires forall k :: 0 <= k < |s| ==> s[k] >= 0x80
    ensures SafeFrom(st, s + t) <==> SafeFrom(st, t)
    decreases |s|
  {
    if s == [] {
      assert s + t == t;
    } else {
      assert (s + t)[1..] == s[1..] + t;
      NonAsciiSafe(st, s[1..], t);
    }
  }

  lemma AsciiFirst(st: State, s: seq<Byte>)
    requires s != [] && s[0] < 0x80
    requires Valid(Out(Step(st, s[0]), s[1..])) <==> SafeFrom(Step(st, s[0]), s[1..])
    ensures Valid(Out(st, s)) <==> SafeFrom(st, s)
  {
    var rest := Out(Step(st, s[0]), s[1..]);
    if st.Ground? && Visible(s[0]) {
      CharThenRest([s[0]], rest);
    } else {
      assert Out(st, s) == rest;
    }
  }

  /** Right after ESC the scanner drops the first byte of a wide char and keeps its tail. */
  lemma WideAfterEscape(s: seq<Byte>)
    requires CharLength(s) > 1
    ensures !Valid(Out(Escape, s)) && !SafeFrom(Escape, s)
  {
    assert s[0] >= 0x80 && IsTail(s[1]);
    assert Out(Escape, s) == Out(Ground, s[1..]);
    assert Out(Ground, s[1..])[0] == s[1];
  }

  lemma WideElsewhere(st: State, s: seq<Byte>)
    requires !st.Escape? && CharLength(s) > 1
    requires Valid(Out(st, s[CharLength(s)..])) <==> SafeFrom(st, s[CharLength(s)..])
    ensures Valid(Out(st, s)) <==> SafeFrom(st, s)
  {
    var c, rest := s[..CharLength(s)], s[CharLength(s)..];
    assert s == c + rest;
    NonAsciiOut(st, c);
    OutAppend(st, c, rest);
    NonAsciiSafe(st, c, rest);
    if st.Ground? {
      PrefixChar(s);
      CharThenRest(c, Out(st, rest));
    } else {
      assert Out(st, s) == Out(st, rest);
    }
  }

  /** Of valid text, the stripped text is valid exactly when no escape drops a non-ASCII byte. */
  lemma {:induction false} StripKeepsUtf8From(st: State, s: seq<Byte>)
    requires Valid(s)
    ensures Valid(Out(st, s)) <==> SafeFrom(st, s)
    decreases |s|
  {
    if s != [] {
      var n := CharLength(s);
      if n == 1 {
        StripKeepsUtf8From(Step(st, s[0]), s[1..]);
        AsciiFirst(st, s);
      } else if st.Escape? {
        WideAfterEscape(s);
      } else {
        StripKeepsUtf8From(st, s[n..]);
        WideElsewhere(st, s);
      }
    }
  }

  lemma StripKeepsUtf8Exactly(s: seq<Byte>)
    requires Valid(s)
    ensures Valid(Strip(s)) <==> SafeEscapes(s)
  {
    StripKeepsUtf8From(Ground, s);
  }

  /** ESC followed by e-acute (1B C3 A9): valid text whose stripped form is a lone continuation byte. */
  lemma StripCanBreakUtf8()
    ensures var s: seq<Byte> := [0x1b, 0xc3, 0xa9];
      Valid(s) && !SafeEscapes(s) && Strip(s) == [0xa9] && !Valid(Strip(s))
  {
    var s: seq<Byte> := [0x1b, 0xc3, 0xa9];
    assert s[1..] == [0xc3, 0xa9] && s[1..][1..] == [0xa9] && s[1..][2..] == [];
    assert Out(Ground, [0xa9]) == [0xa9];
    assert Out(Escape, [0xc3, 0xa9]) == [0xa9];
    assert Valid(s[1..]);
    assert !SafeFrom(Escape, s[1..]);
  }
}
