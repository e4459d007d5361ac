/** The terminal-control scanner: an index-jumping loop in the client, a three-state byte
    automaton here, and a token grammar that says what is removed. */
module StripControl {
  import opened Bytes

  const ESC: Byte := 0x1b
  const BRACKET: Byte := 0x5b
  const DEL: Byte := 0x7f

  /** Where the scanner stands: in plain text, right after an ESC, or inside ESC [ ... */
  datatype State = Ground | Escape | Control

  predicate IsFinal(c: Byte) {
    0x40 <= c <= 0x7e
  }

  function Step(st: State, c: Byte): State {
    match st
    case Ground => if c == ESC then Escape else Ground
    case Escape => if c == BRACKET then Control else Ground
    case Control => if IsFinal(c) then Ground else Control
  }

  /** The bytes that survive in plain text: no C0 byte but tab, newline and carriage return, no DEL. */
  predicate Visible(c: Byte) {
    c != DEL && (0x20 <= c || c == 0x09 || c == 0x0a || c == 0x0d)
  }

  function Run(st: State, s: seq<Byte>): State
    decreases |s|
  {
    if s == [] then st else Run(Step(st, s[0]), s[1..])
  }

  function Out(st: State, s: seq<Byte>): seq<Byte>
    decreases |s|
  {
    if s == [] then []
    else (if st.Ground? && Visible(s[0]) then [s[0]] else []) + Out(Step(st, s[0]), s[1..])
  }

  function Strip(s: seq<Byte>): seq<Byte> {
    Out(Ground, s)
  }

  // ---------- the scanner as the client runs it ----------

  lemma RunSnoc(st: State, s: seq<Byte>, c: Byte)
    ensures Run(st, s + [c]) == Step(Run(st, s), c)
  {
    RunAppend(st, s, [c]);
  }

  lemma {:induction false} ControlEatsAll(s: seq<Byte>)
    requires forall k :: 0 <= k < |s| ==> !IsFinal(s[k])
    ensures Run(Control, s) == Control && Out(Control, s) == []
  {
    if s != [] {
      ControlEatsAll(s[1..]);
    }
  }

  lemma EscapeOpens(s: seq<Byte>, i: nat)
    requires i < |s| && s[i] == ESC
    ensures Run(Ground, s[i..i + 1]) == Escape
    ensures Out(Ground, s[i..]) == Out(Escape, s[i + 1..])
    ensures i + 1 < |s| ==> Run(Ground, s[i..i + 2]) == Step(Escape, s[i + 1])
    ensures i + 1 < |s| ==> Out(Ground, s[i..]) == Out(Step(Escape, s[i + 1]), s[i + 2..])
  {
    assert s[i..i + 1] == [ESC] && s[i..][1..] == s[i + 1..];
    if i + 1 < |s| {
      RunSnoc(Ground, [ESC], s[i + 1]);
      assert s[i..i + 2] == [ESC] + [s[i + 1]];
      assert s[i + 1..][1..] == s[i + 2..];
    }
  }

  /** The escape sequence that starts at i ends at last: with the shortest stretch that brings the
      automaton back to plain text, or with the input when none does. */
  ghost predicate EndsAt(s: seq<Byte>, i: nat, last: nat)
    requires i <= last < |s|
  {
    && (Run(Ground, s[i..last + 1]).Ground? || last == |s| - 1)
    && (forall k :: i < k <= last ==> !Run(Ground, s[i..k]).Ground?)
    && Out(Ground, s[i..]) == Out(Ground, s[last + 1..])
  }

  lemma ShortSequence(s: seq<Byte>, i: nat)
    requires i < |s| && s[i] == ESC
    ensures i == |s| - 1 ==> EndsAt(s, i, i)
    ensures i + 1 < |s| && s[i + 1] != BRACKET ==> EndsAt(s, i, i + 1)
  {
    EscapeOpens(s, i);
  }

  lemma {:induction false} ControlGoesOn(s: seq<Byte>, i: nat, j: nat)
    requires i + 2 <= j <= |s| && s[i] == ESC && s[i + 1] == BRACKET
    requires forall k :: i + 2 <= k < j ==> !IsFinal(s[k])
    ensures Run(Ground, s[i..j]) == Control
    ensures Out(Ground, s[i..]) == Out(Control, s[j..])
  {
    EscapeOpens(s, i);
    if j > i + 2 {
      ControlGoesOn(s, i, j - 1);
      assert s[i..j] == s[i..j - 1] + [s[j - 1]];
      RunSnoc(Ground, s[i..j - 1], s[j - 1]);
      assert s[j - 1..][1..] == s[j..];
    }
  }

  lemma LongSequence(s: seq<Byte>, i: nat, j: nat)
    requires i + 2 <= j <= |s| && s[i] == ESC && s[i + 1] == BRACKET
    requires forall k :: i + 2 <= k < j ==> !IsFinal(s[k])
    ensures j < |s| && IsFinal(s[j]) ==> EndsAt(s, i, j)
    ensures j == |s| ==> EndsAt(s, i, j - 1)
  {
    EscapeOpens(s, i);
    forall k | i + 2 <= k <= j ensures Run(Ground, s[i..k]) == Control {
      ControlGoesOn(s, i, k);
    }
    ControlGoesOn(s, i, j);
    if j < |s| {
      assert s[i..j + 1] == s[i..j] + [s[j]];
      RunSnoc(Ground, s[i..j], s[j]);
      assert s[j..][1..] == s[j + 1..];
    }
  }

  /** The index of the last byte of the escape sequence that starts at i. */
  method SkipAnsi(s: seq<Byte>, i: nat) returns (last: nat)
    requires i < |s| && s[i] == ESC
    ensures i <= last < |s| && EndsAt(s, i, last)
  {
    ShortSequence(s, i);
    if i + 1 >= |s| {
      return i;
    }
    if s[i + 1] == BRACKET {
      var j := i + 2;
      while j < |s|
        invariant i + 2 <= j <= |s|
        invariant forall k :: i + 2 <= k < j ==> !IsFinal(s[k])
      {
        if s[j] >= 0x40 && s[j] <= 0x7e {
          LongSequence(s, i, j);
          return j;
        }
        j := j + 1;
      }
      LongSequence(s, i, j);
      return |s| - 1;
    }
    return i + 1;
  }

  /** One byte of plain text moved from the rest of the input to the output. */
  lemma OutNext(s: seq<Byte>, i: nat, out: seq<Byte>)
    requires i < |s| && s[i] != ESC
    ensures out + Out(Ground, s[i..]) == (if Visible(s[i]) then out + [s[i]] else out) + Out(Ground, s[i + 1..])
  {
    assert s[i..][1..] == s[i + 1..];
    var rest := Out(Ground, s[i + 1..]);
    if Visible(s[i]) {
      assert Out(Ground, s[i..]) == [s[i]] + rest;
      assert out + ([s[i]] + rest) == out + [s[i]] + rest;
    } else {
      assert Out(Ground, s[i..]) == rest;
    }
  }

  /** The client's loop. Its index jumps over escape sequences; the result is the automaton's. */
  method RemoveControl(s: seq<Byte>) returns (out: seq<Byte>)
    ensures out == Strip(s)
  {
    out := [];
    if s == [] {
      return;
    }
    var i := 0;
    assert s[0..] == s;
    while i < |s|
      invariant 0 <= i <= |s|
      invariant out + Out(Ground, s[i..]) == Strip(s)
    {
      var c := s[i];
      if c == ESC {
        var last := SkipAnsi(s, i);
        i := last + 1;
        continue;
      }
      OutNext(s, i, out);
      i := i + 1;
      if c < 0x20 || c == 0x7f {
        if c == 0x0a || c == 0x09 || c == 0x0d {
          out := out + [c];
        }
        continue;
      }
      out := out + [c];
    }
  }

  // ---------- composition ----------

  lemma {:induction false} RunAppend(st: State, a: seq<Byte>, b: seq<Byte>)
    ensures Run(st, a + b) == Run(Run(st, a), b)
    decreases |a|
  {
    if a == [] {
      assert a + b == b;
    } else {
      assert (a + b)[1..] == a[1..] + b;
      RunAppend(Step(st, a[0]), a[1..], b);
    }
  }

  /** The output splits at any point, the automaton's state being all that is carried across. */
  lemma {:induction false} OutAppend(st: State, a: seq<Byte>, b: seq<Byte>)
    ensures Out(st, a + b) == Out(st, a) + Out(Run(st, a), b)
    decreases |a|
  {
    if a == [] {
      assert a + b == b;
    } else {
      assert (a + b)[1..] == a[1..] + b;
      OutAppend(Step(st, a[0]), a[1..], b);
    }
  }

  /** Stripping distributes over every continuation of a exactly when a ends outside an escape sequence. */
  lemma StripSplitsExactly(a: seq<Byte>)
    ensures (forall b: seq<Byte> :: Strip(a + b) == Strip(a) + Strip(b)) <==> Run(Ground, a).Ground?
  {
    if Run(Ground, a).Ground? {
      forall b: seq<Byte> ensures Strip(a + b) == Strip(a) + Strip(b) {
        OutAppend(Ground, a, b);
      }
    } else {
      var b: seq<Byte> := [0x41];
      OutAppend(Ground, a, b);
      assert b[1..] == [];
      assert Strip(b) == [0x41] && Out(Run(Ground, a), b) == [];
      assert Strip(a + b) != Strip(a) + Strip(b);
    }
  }

  /** ECMA-48 section 5.4: CSI, parameter bytes 03/00-03/15, intermediate bytes 02/00-02/15 and a
      final byte 04/00-07/14; CSI in its seven-bit form is ESC [. */
  predicate IsControlSequence(cs: seq<Byte>, params: seq<Byte>, inter: seq<Byte>, final: Byte) {
    && (forall k :: 0 <= k < |params| ==> 0x30 <= params[k] <= 0x3f)
    && (forall k :: 0 <= k < |inter| ==> 0x20 <= inter[k] <= 0x2f)
    && 0x40 <= final <= 0x7e
    && cs == [0x1b, 0x5b] + params + inter + [final]
  }

  lemma ControlSequenceOut(cs: seq<Byte>, params: seq<Byte>, inter: seq<Byte>, final: Byte)
    requires IsControlSequence(cs, params, inter, final)
    ensures Run(Ground, cs).Ground? && Out(Ground, cs) == []
  {
    var body := params + inter;
    assert cs[1..] == [BRACKET] + body + [final];
    assert cs[1..][1..] == body + [final];
    ControlEatsAll(body);
    OutAppend(Control, body, [final]);
    RunAppend(Control, body, [final]);
  }

  /** A complete control sequence inserted where a ends in plain text vanishes and changes nothing else. */
  lemma ControlSequenceVanishes(a: seq<Byte>, cs: seq<Byte>, b: seq<Byte>,
                                params: seq<Byte>, inter: seq<Byte>, final: Byte)
    requires Run(Ground, a).Ground?
    requires IsControlSequence(cs, params, inter, final)
    ensures Strip(a + cs + b) == Strip(a + b)
  {
    ControlSequenceOut(cs, params, inter, final);
    OutAppend(Ground, cs, b);
    OutAppend(Ground, a, cs + b);
    OutAppend(Ground, a, b);
    assert a + cs + b == a + (cs + b);
  }

  // ---------- what the result looks like ----------

  ghost predicate Subsequence(t: seq<Byte>, s: seq<Byte>) {
    t == [] || (s != [] && ((t[0] == s[0] && Subsequence(t[1..], s[1..])) || Subsequence(t, s[1..])))
  }

  predicate AllVisible(s: seq<Byte>) {
    forall k :: 0 <= k < |s| ==> Visible(s[k])
  }

  function VisibleOnly(s: seq<Byte>): seq<Byte> {
    if s == [] then []
    else (if Visible(s[0]) then [s[0]] else []) + VisibleOnly(s[1..])
  }

  /** Nothing is invented or reordered, and no ESC, no DEL and no C0 byte but \t, \n, \r is left. */
  lemma {:induction false} OutIsCleanSubsequence(st: State, s: seq<Byte>)
    ensures Subsequence(Out(st, s), s) && AllVisible(Out(st, s))
    ensures forall k :: 0 <= k < |Out(st, s)| ==>
      var c := Out(st, s)[k]; c != 0x1b && c != 0x7f && (c < 0x20 ==> c == 0x09 || c == 0x0a || c == 0x0d)
    decreases |s|
  {
    if s != [] {
      OutIsCleanSubsequence(Step(st, s[0]), s[1..]);
      var rest := Out(Step(st, s[0]), s[1..]);
      if st.Ground? && Visible(s[0]) {
        assert Out(st, s)[1..] == rest;
      } else {
        assert Out(st, s) == rest;
      }
    }
  }

  /** Text without ESC loses exactly its invisible bytes. */
  lemma {:induction false} NoEscapeMeansFilter(s: seq<Byte>)
    requires ESC !in s
    ensures Strip(s) == VisibleOnly(s)
  {
    if s != [] {
      NoEscapeMeansFilter(s[1..]);
    }
  }

  lemma {:induction false} VisibleOnlyFixesExactly(s: seq<Byte>)
    ensures |VisibleOnly(s)| <= |s|
    ensures VisibleOnly(s) == s <==> AllVisible(s)
  {
    if s != [] {
      VisibleOnlyFixesExactly(s[1..]);
      if Visible(s[0]) {
        assert VisibleOnly(s)[1..] == VisibleOnly(s[1..]);
        assert AllVisible(s) <==> AllVisible(s[1..]);
      } else {
        assert |VisibleOnly(s)| < |s|;
      }
    }
  }

  lemma StripIsIdempotent(s: seq<Byte>)
    ensures Strip(Strip(s)) == Strip(s)
  {
    OutIsCleanSubsequence(Ground, s);
    NoEscapeMeansFilter(Strip(s));
    VisibleOnlyFixesExactly(Strip(s));
  }

  /** The texts that pass unchanged are exactly those without ESC, DEL and C0 bytes but \t, \n, \r. */
  lemma StripFixesExactly(s: seq<Byte>)
    ensures Strip(s) == s <==>
            forall k :: 0 <= k < |s| ==>
              s[k] != 0x1b && s[k] != 0x7f && (s[k] >= 0x20 || s[k] == 0x09 || s[k] == 0x0a || s[k] == 0x0d)
  {
    if AllVisible(s) {
      NoEscapeMeansFilter(s);
      VisibleOnlyFixesExactly(s);
    } else if Strip(s) == s {
      OutIsCleanSubsequence(Ground, s);
    }
  }

  /** Out of text without ESC exactly DEL and these C0 bytes are lost; every other byte stays as often as
      it was there. */
  lemma {:induction false} NothingElseIsLost(s: seq<Byte>)
    requires 0x1b !in s
    ensures forall c: Byte :: multiset(Strip(s))[c] ==
              if c == 0x7f || (c < 0x20 && c != 0x09 && c != 0x0a && c != 0x0d) then 0 else multiset(s)[c]
    decreases |s|
  {
    if s != [] {
      NothingElseIsLost(s[1..]);
      assert s == [s[0]] + s[1..];
      var first: seq<Byte> := if Visible(s[0]) then [s[0]] else [];
      assert Strip(s) == first + Strip(s[1..]);
    }
  }

  // ---------- a grammar that says what is removed ----------

  /** A byte of plain text, ESC with one byte, or ESC [ with bytes up to a final one. */
  datatype Token = Plain(b: Byte) | TwoByte(b: Byte) | Sequence(body: seq<Byte>, final: Byte)

  /** An escape sequence that the input ends in. */
  datatype Tail = Complete | LoneEscape | OpenSequence(body: seq<Byte>)

  predicate NoFinal(body: seq<Byte>) {
    forall k :: 0 <= k < |body| ==> body[k] < 0x40 || body[k] > 0x7e
  }

  predicate WellFormed(t: Token) {
    match t
    case Plain(b) => b != 0x1b
    case TwoByte(b) => b != 0x5b
    case Sequence(body, final) => NoFinal(body) && 0x40 <= final <= 0x7e
  }

  function RenderToken(t: Token): seq<Byte> {
    match t
    case Plain(b) => [b]
    case TwoByte(b) => [0x1b, b]
    case Sequence(body, final) => [0x1b, 0x5b] + body + [final]
  }

  function RenderTail(t: Tail): seq<Byte> {
    match t
    case Complete => []
    case LoneEscape => [0x1b]
    case OpenSequence(body) => [0x1b, 0x5b] + body
  }

  function Render(ts: seq<Token>, tail: Tail): seq<Byte> {
    if ts == [] then RenderTail(tail) else RenderToken(ts[0]) + Render(ts[1..], tail)
  }

  predicate Grammatical(ts: seq<Token>, tail: Tail) {
    && (forall k :: 0 <= k < |ts| ==> WellFormed(ts[k]))
    && (tail.OpenSequence? ==> NoFinal(tail.body))
  }

  /** A plain token that is kept: any byte but DEL and the C0 bytes other than \t, \n and \r. */
  predicate KeptToken(t: Token) {
    t.Plain? && t.b != 0x7f && (t.b >= 0x20 || t.b == 0x09 || t.b == 0x0a || t.b == 0x0d)
  }

  function Kept(ts: seq<Token>): seq<Byte> {
    if ts == [] then []
    else (if KeptToken(ts[0]) then [ts[0].b] else []) + Kept(ts[1..])
  }

  lemma TokenOut(t: Token)
    requires WellFormed(t)
    ensures Run(Ground, RenderToken(t)).Ground?
    ensures Out(Ground, RenderToken(t)) == if KeptToken(t) then [t.b] else []
  {
    match t
    case Plain(b) =>
      assert [b][1..] == [];
    case TwoByte(b) =>
      assert [ESC, b][1..] == [b] && [b][1..] == [];
      assert Run(Escape, [b]).Ground? && Out(Escape, [b]) == [];
    case Sequence(body, final) =>
      assert RenderToken(t)[1..] == [BRACKET] + body + [final];
      assert ([BRACKET] + body + [final])[1..] == body + [final];
      ControlEatsAll(body);
      OutAppend(Control, body, [final]);
      RunAppend(Control, body, [final]);
  }

  lemma TailOut(tail: Tail)
    requires tail.OpenSequence? ==> NoFinal(tail.body)
    ensures Out(Ground, RenderTail(tail)) == []
  {
    match tail
    case Complete =>
    case LoneEscape =>
      assert [ESC][1..] == [];
    case OpenSequence(body) =>
      assert RenderTail(tail)[1..] == [BRACKET] + body;
      assert ([BRACKET] + body)[1..] == body;
      ControlEatsAll(body);
  }

  /** Of any text written in the grammar, stripping keeps the visible plain bytes, in order, and nothing else. */
  lemma {:induction false} StripKeepsPlainTokens(ts: seq<Token>, tail: Tail)
    requires Grammatical(ts, tail)
    ensures Strip(Render(ts, tail)) == Kept(ts)
  {
    if ts == [] {
      TailOut(tail);
    } else {
      TokenOut(ts[0]);
      StripKeepsPlainTokens(ts[1..], tail);
      OutAppend(Ground, RenderToken(ts[0]), Render(ts[1..], tail));
    }
  }

  /** Every input is written in the grammar, so the lemma above describes stripping on every input. */
  lemma EveryInputIsGrammatical(s: seq<Byte>) returns (ts: seq<Token>, tail: Tail)
    ensures Grammatical(ts, tail) && Render(ts, tail) == s
    ensures Strip(s) == Kept(ts)
  {
    ts, tail := Tokenize(s);
    StripKeepsPlainTokens(ts, tail);
  }

  lemma {:induction false} Tokenize(s: seq<Byte>) returns (ts: seq<Token>, tail: Tail)
    ensures Grammatical(ts, tail) && Render(ts, tail) == s
    decreases |s|
  {
    if s == [] || s == [ESC] {
      return [], if s == [] then Complete else LoneEscape;
    }
    if 2 <= |s| && s[0] == ESC && s[1] == BRACKET && NoFinal(s[2..]) {
      assert s == [ESC, BRACKET] + s[2..];
      return [], OpenSequence(s[2..]);
    }
    var first, n := FirstToken(s);
    var rest;
    rest, tail := Tokenize(s[n..]);
    ts := [first] + rest;
    assert ts[1..] == rest;
    assert s == s[..n] + s[n..];
  }

  lemma SequencePrefix(s: seq<Byte>, j: nat)
    requires 2 <= j < |s| && s[0] == ESC && s[1] == BRACKET
    ensures s[..j + 1] == [ESC, BRACKET] + s[2..j] + [s[j]]
  {
    assert s[..2] == [ESC, BRACKET];
    assert s[..j] == s[..2] + s[2..j];
    assert s[..j + 1] == s[..j] + [s[j]];
  }

  lemma FirstToken(s: seq<Byte>) returns (first: Token, n: nat)
    requires s != [] && s != [ESC]
    requires 2 <= |s| && s[0] == ESC && s[1] == BRACKET ==> !NoFinal(s[2..])
    ensures WellFormed(first) && 0 < n <= |s| && s[..n] == RenderToken(first)
  {
    if s[0] != ESC {
      return Plain(s[0]), 1;
    } else if s[1] != BRACKET {
      return TwoByte(s[1]), 2;
    }
    var j := 2;
    var k :| 2 <= k < |s| && IsFinal(s[k]);
    while !IsFinal(s[j])
      invariant 2 <= j <= k && forall q :: 2 <= q < j ==> !IsFinal(s[q])
      decreases k - j
    {
      j := j + 1;
    }
    SequencePrefix(s, j);
    return Sequence(s[2..j], s[j]), j + 1;
  }
}
