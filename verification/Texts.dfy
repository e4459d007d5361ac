/** Byte texts: decimal numbers, surrounding white space, percent-encoding and path segments. */
module Texts {
  import opened Bytes

  /** A byte string; each char stands for one byte. */
  type Text = s: string | forall i :: 0 <= i < |s| ==> s[i] < 256 as char

  // ---------- decimal numbers ----------

  function DigitChar(d: nat): char
    requires d < 10
  {
    '0' + d as char
  }

  function DigitValue(c: char): nat {
    if '0' <= c <= '9' then (c - '0') as nat else 0
  }

  function FormatNat(n: nat): Text {
    if n < 10 then [DigitChar(n)] else FormatNat(n / 10) + [DigitChar(n % 10)]
  }

  function FormatInt(n: int): Text {
    if n < 0 then "-" + FormatNat(-n) else FormatNat(n)
  }

  function ParseNat(s: string): nat {
    if s == "" then 0 else ParseNat(s[..|s| - 1]) * 10 + DigitValue(s[|s| - 1])
  }

  function ParseInt(s: string): int {
    if s != "" && s[0] == '-' then -(ParseNat(s[1..]) as int) else ParseNat(s)
  }

  predicate AllDigits(s: string) {
    forall i :: 0 <= i < |s| ==> '0' <= s[i] <= '9'
  }

  lemma {:induction false} NatRoundTrip(n: nat)
    ensures ParseNat(FormatNat(n)) == n
    ensures FormatNat(n) != "" && AllDigits(FormatNat(n))
  {
    if n >= 10 {
      NatRoundTrip(n / 10);
      var s := FormatNat(n);
      assert s[..|s| - 1] == FormatNat(n / 10);
    } else {
      assert FormatNat(n)[..0] == "";
    }
  }

  lemma IntRoundTrip(n: int)
    ensures ParseInt(FormatInt(n)) == n
    ensures FormatInt(n) != "" && '/' !in FormatInt(n) && '.' !in FormatInt(n)
  {
    if n < 0 {
      NatRoundTrip(-n);
      assert FormatInt(n)[1..] == FormatNat(-n);
    } else {
      NatRoundTrip(n);
    }
  }

  /** Written out: one decimal digit after another, the most significant one first, after a minus sign for
      a negative number. */
  lemma DecimalDigits(n: int, d: int)
    requires n >= 0 && 0 <= d < 10
    ensures FormatInt(d) == ["0123456789"[d]]
    ensures n > 0 ==> FormatInt(n * 10 + d) == FormatInt(n) + ["0123456789"[d]]
    ensures n > 0 ==> FormatInt(-n) == "-" + FormatInt(n)
  {
    if n > 0 {
      assert (n * 10 + d) / 10 == n && (n * 10 + d) % 10 == d;
    }
  }

  // ---------- surrounding white space ----------

  predicate IsSpace(c: char) {
    c == ' ' || '\t' <= c <= '\r'
  }

  predicate AllSpace(s: string) {
    forall i :: 0 <= i < |s| ==> IsSpace(s[i])
  }

  function TrimLeft(s: string): string {
    if s != "" && IsSpace(s[0]) then TrimLeft(s[1..]) else s
  }

  function TrimRight(s: string): string {
    if s != "" && IsSpace(s[|s| - 1]) then TrimRight(s[..|s| - 1]) else s
  }

  function TrimSpace(s: string): string {
    TrimRight(TrimLeft(s))
  }

  /** No white space at either end. */
  predicate Trimmed(s: string) {
    s == "" || (!IsSpace(s[0]) && !IsSpace(s[|s| - 1]))
  }

  lemma {:induction false} TrimLeftDrops(lead: string, t: string)
    requires AllSpace(lead) && (t == "" || !IsSpace(t[0]))
    ensures TrimLeft(lead + t) == t
    decreases |lead|
  {
    if lead == "" {
      assert lead + t == t;
    } else {
      assert (lead + t)[1..] == lead[1..] + t;
      TrimLeftDrops(lead[1..], t);
    }
  }

  lemma {:induction false} TrimRightDrops(t: string, trail: string)
    requires AllSpace(trail) && (t == "" || !IsSpace(t[|t| - 1]))
    ensures TrimRight(t + trail) == t
    decreases |trail|
  {
    if trail == "" {
      assert t + trail == t;
    } else {
      assert (t + trail)[..|t + trail| - 1] == t + trail[..|trail| - 1];
      TrimRightDrops(t, trail[..|trail| - 1]);
    }
  }

  lemma TrimFinds(lead: string, t: string, trail: string)
    requires AllSpace(lead) && AllSpace(trail) && t != "" && Trimmed(t)
    ensures TrimSpace(lead + t + trail) == t
  {
    assert lead + t + trail == lead + (t + trail);
    TrimLeftDrops(lead, t + trail);
    TrimRightDrops(t, trail);
  }

  lemma {:induction false} TrimLeftSplits(s: string) returns (lead: string)
    ensures AllSpace(lead) && s == lead + TrimLeft(s)
    ensures TrimLeft(s) == "" || !IsSpace(TrimLeft(s)[0])
    decreases |s|
  {
    if s != "" && IsSpace(s[0]) {
      lead := TrimLeftSplits(s[1..]);
      lead := [s[0]] + lead;
    } else {
      lead := "";
    }
  }

  lemma {:induction false} TrimRightSplits(s: string) returns (trail: string)
    ensures AllSpace(trail) && s == TrimRight(s) + trail
    ensures TrimRight(s) == "" || !IsSpace(TrimRight(s)[|TrimRight(s)| - 1])
    decreases |s|
  {
    if s != "" && IsSpace(s[|s| - 1]) {
      trail := TrimRightSplits(s[..|s| - 1]);
      trail := trail + [s[|s| - 1]];
    } else {
      trail := "";
    }
  }

  /** What trimming removes is white space at the ends and nothing else. */
  lemma TrimSplits(s: string) returns (lead: string, trail: string)
    ensures AllSpace(lead) && AllSpace(trail)
    ensures s == lead + TrimSpace(s) + trail && Trimmed(TrimSpace(s))
  {
    lead := TrimLeftSplits(s);
    trail := TrimRightSplits(TrimLeft(s));
    var t := TrimSpace(s);
    assert t != "" ==> t[0] == TrimLeft(s)[0];
  }

  /** The text is t among white space, and t has none at its ends. */
  ghost predicate Padded(s: string, t: string) {
    Trimmed(t) && exists lead, trail :: AllSpace(lead) && AllSpace(trail) && s == lead + t + trail
  }

  lemma {:induction false} TrimLeftOfSpace(s: string)
    requires AllSpace(s)
    ensures TrimLeft(s) == ""
    decreases |s|
  {
    if s != "" {
      TrimLeftOfSpace(s[1..]);
    }
  }

  /** Trimming finds exactly that t. */
  lemma TrimExactly(s: string, t: string)
    ensures Padded(s, t) <==> TrimSpace(s) == t
  {
    if Padded(s, t) {
      var lead, trail :| AllSpace(lead) && AllSpace(trail) && s == lead + t + trail;
      if t == "" {
        assert s == lead + trail;
        TrimLeftOfSpace(s);
      } else {
        TrimFinds(lead, t, trail);
      }
    }
    var lead, trail := TrimSplits(s);
  }

  /** Which bytes are white space: the blank, tab, newline, vertical tab, form feed and carriage return. */
  lemma SpaceExactly(c: char)
    ensures TrimSpace([c]) == "" <==>
            c == ' ' || c == '\t' || c == '\n' || c == 11 as char || c == 12 as char || c == '\r'
  {
    assert [c][1..] == "" && [c][..0] == "";
    assert !IsSpace(c) ==> TrimLeft([c]) == [c] && TrimRight([c]) == [c];
    assert IsSpace(c) ==> TrimLeft([c]) == "";
  }

  // ---------- percent-encoding ----------

  /** What a path segment keeps as it is: the unreserved characters of RFC 3986 section 2.3 and the
      $ & + : = @ that section 3.3 allows there. */
  predicate KeptInSegment(c: char) {
    || 'A' <= c <= 'Z' || 'a' <= c <= 'z' || '0' <= c <= '9'
    || c == '-' || c == '_' || c == '.' || c == '~'
    || c == '$' || c == '&' || c == '+' || c == ':' || c == '=' || c == '@'
  }

  function HexDigit(d: nat): char
    requires d < 16
  {
    if d < 10 then '0' + d as char else 'A' + (d - 10) as char
  }

  function HexValue(c: char): nat
    ensures HexValue(c) < 16
  {
    if '0' <= c <= '9' then (c - '0') as nat
    else if 'A' <= c <= 'F' then (c - 'A') as nat + 10
    else 0
  }

  function EscapeChar(c: char): Text
    requires c < 256 as char
  {
    if KeptInSegment(c) then [c] else ['%', HexDigit(c as nat / 16), HexDigit(c as nat % 16)]
  }

  function PathEscape(s: Text): Text
    decreases |s|
  {
    if s == "" then "" else EscapeChar(s[0]) + PathEscape(s[1..])
  }

  function Unescape(s: Text): Text
    decreases |s|
  {
    if s == "" then ""
    else if s[0] == '%' && |s| >= 3 then
      [(HexValue(s[1]) * 16 + HexValue(s[2])) as char] + Unescape(s[3..])
    else [s[0]] + Unescape(s[1..])
  }

  lemma EscapedCharReads(c: char, rest: Text)
    requires c < 256 as char
    ensures Unescape(EscapeChar(c) + rest) == [c] + Unescape(rest)
  {
    var e := EscapeChar(c) + rest;
    if KeptInSegment(c) {
      assert e[1..] == rest;
    } else {
      assert e[3..] == rest;
    }
  }

  /** A segment is read back from its encoding, which contains no delimiter and no space. */
  lemma {:induction false} EscapeRoundTrip(s: Text)
    ensures Unescape(PathEscape(s)) == s
    ensures forall c :: c in PathEscape(s) ==> c == '%' || KeptInSegment(c)
    ensures PathEscape(s) == "" <==> s == ""
    decreases |s|
  {
    if s != "" {
      EscapeRoundTrip(s[1..]);
      EscapedCharReads(s[0], PathEscape(s[1..]));
    }
  }

  /** An encoded segment contains none of the delimiters of a path, a query or a fragment. */
  lemma {:induction false} EscapedIsClean(s: Text)
    ensures '/' !in PathEscape(s) && '?' !in PathEscape(s) && '#' !in PathEscape(s)
    decreases |s|
  {
    if s != "" {
      EscapedIsClean(s[1..]);
      var e := EscapeChar(s[0]);
      assert '/' !in e && '?' !in e && '#' !in e;
    }
  }

  lemma {:induction false} EscapeAppends(s: Text, t: Text)
    ensures PathEscape(s + t) == PathEscape(s) + PathEscape(t)
    decreases |s|
  {
    if s == "" {
      assert s + t == t;
    } else {
      assert (s + t)[1..] == s[1..] + t;
      EscapeAppends(s[1..], t);
    }
  }

  /** One byte written out: a letter, a digit or one of these ten signs as it is, any other as a percent
      sign and two upper-case hex digits. With the lemma above this says what every text becomes. */
  lemma EscapedByte(c: char)
    requires c < 256 as char
    ensures PathEscape([c]) ==
            if 'A' <= c <= 'Z' || 'a' <= c <= 'z' || '0' <= c <= '9' || c in "-_.~$&+:=@" then [c]
            else ['%', "0123456789ABCDEF"[c as nat / 16], "0123456789ABCDEF"[c as nat % 16]]
  {
    assert [c][1..] == "" && EscapeChar(c) + "" == EscapeChar(c);
    HexDigitIs(c as nat / 16);
    HexDigitIs(c as nat % 16);
    SignsAre(c);
  }

  lemma HexDigitIs(d: nat)
    requires d < 16
    ensures HexDigit(d) == "0123456789ABCDEF"[d]
  {
  }

  lemma SignsAre(c: char)
    ensures c in "-_.~$&+:=@" <==>
            || c == '-' || c == '_' || c == '.' || c == '~' || c == '$'
            || c == '&' || c == '+' || c == ':' || c == '=' || c == '@'
  {
    var s := "-_.~$&+:=@";
    assert s[0] == '-' && s[1] == '_' && s[2] == '.' && s[3] == '~' && s[4] == '$';
    assert s[5] == '&' && s[6] == '+' && s[7] == ':' && s[8] == '=' && s[9] == '@';
  }

  // ---------- paths ----------

  /** "/" before every segment. */
  function Join(segs: seq<Text>): Text
    decreases |segs|
  {
    if segs == [] then "" else "/" + segs[0] + Join(segs[1..])
  }

  /** Written out: a slash before every segment. */
  lemma {:induction false} JoinAppends(segs: seq<Text>, s: Text)
    ensures Join(segs + [s]) == Join(segs) + "/" + s
    decreases |segs|
  {
    if segs == [] {
      assert ([] + [s])[1..] == [];
    } else {
      assert (segs + [s])[1..] == segs[1..] + [s];
      JoinAppends(segs[1..], s);
    }
  }

  function SlashFrom(p: Text, i: nat): (j: nat)
    requires i <= |p|
    ensures i <= j <= |p|
    decreases |p| - i
  {
    if i < |p| && p[i] != '/' then SlashFrom(p, i + 1) else i
  }

  function Split(p: Text): seq<Text>
    decreases |p|
  {
    if p == "" then []
    else
      var j := SlashFrom(p, 1);
      [p[1..j]] + Split(p[j..])
  }

  lemma {:induction false} SlashFound(p: Text, i: nat, j: nat)
    requires i <= j <= |p|
    requires forall k :: i <= k < j ==> p[k] != '/'
    requires j < |p| ==> p[j] == '/'
    ensures SlashFrom(p, i) == j
    decreases j - i
  {
    if i < j {
      SlashFound(p, i + 1, j);
    }
  }

  /** A path is read back segment by segment when no segment contains a slash. */
  lemma {:induction false} JoinRoundTrip(segs: seq<Text>)
    requires forall i :: 0 <= i < |segs| ==> '/' !in segs[i]
    ensures Split(Join(segs)) == segs
    decreases |segs|
  {
    if segs != [] {
      var s, rest := segs[0], Join(segs[1..]);
      var p := Join(segs);
      JoinRoundTrip(segs[1..]);
      assert rest != "" ==> rest[0] == '/';
      assert forall k :: 1 <= k < |s| + 1 ==> p[k] == s[k - 1];
      SlashFound(p, 1, |s| + 1);
      assert p[1..|s| + 1] == s && p[|s| + 1..] == rest;
    }
  }
}
