/** Who a request acts for: the bearer token in, the outbound authorization out, and the request
    ID and source that travel with it. */
module Session {
  import opened Bytes
  import opened Texts

  // ---------- the context ----------

  datatype Key = RequestID | Source | Token

  datatype Context = Background | WithValue(parent: Context, key: Key, value: string)

  function Lookup(ctx: Context, key: Key): Option<string> {
    match ctx
    case Background => None
    case WithValue(parent, k, v) => if k == key then Some(v) else Lookup(parent, key)
  }

  function WithToken(ctx: Context, token: string): Context {
    WithValue(ctx, Token, token)
  }

  function WithRequestID(ctx: Context, id: string): Context {
    WithValue(ctx, RequestID, id)
  }

  function WithSource(ctx: Context, source: string): Context {
    WithValue(ctx, Source, source)
  }

  /** The Authorization header of an outbound request: the caller's token, or the configured one. */
  function Authorization(ctx: Context, configured: string): string {
    var token := Lookup(ctx, Token);
    if token.Some? && token.value != "" then "token " + token.value else "token " + configured
  }

  // ---------- the bearer header ----------

  function LowerChar(c: char): char {
    if 'A' <= c <= 'Z' then c - 'A' + 'a' else c
  }

  /** Equal to "Bearer" up to the case of letters. */
  predicate IsBearer(scheme: string) {
    |scheme| == 6 && forall i :: 0 <= i < 6 ==> LowerChar(scheme[i]) == "bearer"[i]
  }

  /** The length of the part before the first space, |s| when there is no space. */
  function BeforeSpace(s: string): (n: nat)
    ensures n <= |s|
    ensures n < |s| ==> s[n] == ' '
    ensures ' ' !in s[..n]
  {
    if s == "" || s[0] == ' ' then 0
    else
      var n := BeforeSpace(s[1..]);
      assert s[..n + 1] == [s[0]] + s[1..][..n];
      n + 1
  }

  function BearerToken(auth: string): Option<string> {
    var n := BeforeSpace(auth);
    if n == |auth| || !IsBearer(auth[..n]) then None
    else
      var token := TrimSpace(auth[n + 1..]);
      if token == "" then None else Some(token)
  }

  /** The six letters, each small or capital. */
  predicate AnyCasing(scheme: string) {
    |scheme| == 6 && forall i :: 0 <= i < 6 ==> scheme[i] == "bearer"[i] || scheme[i] == "BEARER"[i]
  }

  lemma SmallAndCapital(i: nat, c: char)
    requires i < 6
    ensures LowerChar(c) == "bearer"[i] <==> c == "bearer"[i] || c == "BEARER"[i]
  {
    assert "bearer"[i] == 'b' || "bearer"[i] == 'e' || "bearer"[i] == 'a' || "bearer"[i] == 'r';
  }

  lemma CasingIs(scheme: string)
    ensures IsBearer(scheme) <==> AnyCasing(scheme)
  {
    if |scheme| == 6 {
      forall i | 0 <= i < 6 ensures LowerChar(scheme[i]) == "bearer"[i] <==>
                                    scheme[i] == "bearer"[i] || scheme[i] == "BEARER"[i] {
        SmallAndCapital(i, scheme[i]);
      }
    }
  }

  /** The header written out: the scheme in any casing, a space, and the token among white space. */
  ghost predicate Presents(auth: string, scheme: string, lead: string, token: string, trail: string) {
    && AnyCasing(scheme)
    && AllSpace(lead) && AllSpace(trail)
    && token != "" && Trimmed(token)
    && auth == scheme + " " + (lead + token + trail)
  }

  lemma {:induction false} FirstSpaceIs(s: string, n: nat)
    requires n < |s| && s[n] == ' ' && forall i :: 0 <= i < n ==> s[i] != ' '
    ensures BeforeSpace(s) == n
  {
    if n > 0 {
      FirstSpaceIs(s[1..], n - 1);
    }
  }

  lemma BearerReads(auth: string, scheme: string, lead: string, token: string, trail: string)
    requires Presents(auth, scheme, lead, token, trail)
    ensures BearerToken(auth) == Some(token)
  {
    CasingIs(scheme);
    forall i | 0 <= i < 6 ensures auth[i] != ' ' {
      assert auth[i] == scheme[i] && "bearer"[i] != ' ' && "BEARER"[i] != ' ';
    }
    FirstSpaceIs(auth, 6);
    assert auth[..6] == scheme && auth[7..] == lead + token + trail;
    TrimFinds(lead, token, trail);
  }

  /** A header yields a token exactly when it presents that token. */
  lemma BearerExactly(auth: string, token: string)
    ensures BearerToken(auth) == Some(token) <==>
            exists scheme, lead, trail :: Presents(auth, scheme, lead, token, trail)
  {
    if BearerToken(auth) == Some(token) {
      var n := BeforeSpace(auth);
      var lead, trail := TrimSplits(auth[n + 1..]);
      CasingIs(auth[..n]);
      assert auth == auth[..n] + " " + auth[n + 1..];
      assert Presents(auth, auth[..n], lead, token, trail);
    }
    if exists scheme, lead, trail :: Presents(auth, scheme, lead, token, trail) {
      var scheme, lead, trail :| Presents(auth, scheme, lead, token, trail);
      BearerReads(auth, scheme, lead, token, trail);
    }
  }

  /** A header without a space, or with another scheme before its first space, yields no token. */
  lemma OtherSchemeIsRefused(auth: string, n: nat)
    requires n <= |auth| && ' ' !in auth[..n] && (n < |auth| ==> auth[n] == ' ')
    requires n == |auth| || !AnyCasing(auth[..n])
    ensures BearerToken(auth) == None
  {
    forall i | 0 <= i < n ensures auth[i] != ' ' {
      assert auth[i] == auth[..n][i];
    }
    if n < |auth| {
      FirstSpaceIs(auth, n);
      CasingIs(auth[..n]);
    }
  }

  /** What the handler behind the bearer check runs with; None is the 401 answer. */
  function BearerAuth(ctx: Context, auth: string): Option<Context> {
    match BearerToken(auth)
    case None => None
    case Some(token) => Some(WithToken(ctx, token))
  }

  // ---------- request ID and source ----------

  /** The headers that the middleware reads; an absent one is empty. */
  datatype Headers = Headers(requestId: string, realIp: string, forwardedFor: string)

  /** The client addresses that two header values hold among white space, the real IP before the chain
      of forwarders, with nothing for a blank value. */
  ghost predicate InOrder(parts: seq<string>, realIp: string, forwardedFor: string) {
    && |parts| == (if realIp == "" then 0 else 1) + (if forwardedFor == "" then 0 else 1)
    && (realIp != "" ==> parts[0] == realIp)
    && (forwardedFor != "" ==> parts[|parts| - 1] == forwardedFor)
  }

  lemma PartsInOrder(h: Headers, a: string, b: string)
    requires Padded(h.realIp, a) && Padded(h.forwardedFor, b)
    ensures InOrder(AddressParts(h), a, b)
  {
    TrimExactly(h.realIp, a);
    TrimExactly(h.forwardedFor, b);
  }

  method HeaderParts(h: Headers) returns (parts: seq<string>)
    ensures forall a, b :: Padded(h.realIp, a) && Padded(h.forwardedFor, b) ==> InOrder(parts, a, b)
    ensures forall i :: 0 <= i < |parts| ==> parts[i] != "" && Trimmed(parts[i])
    ensures parts == AddressParts(h)
  {
    parts := [];
    TrimExactly(h.realIp, TrimSpace(h.realIp));
    TrimExactly(h.forwardedFor, TrimSpace(h.forwardedFor));
    var v := TrimSpace(h.realIp);
    if v != "" {
      parts := parts + [v];
    }
    v := TrimSpace(h.forwardedFor);
    if v != "" {
      parts := parts + [v];
    }
    assert parts == AddressParts(h);
    forall a, b | Padded(h.realIp, a) && Padded(h.forwardedFor, b) ensures InOrder(AddressParts(h), a, b) {
      PartsInOrder(h, a, b);
    }
  }

  function AddressParts(h: Headers): seq<string> {
    (if TrimSpace(h.realIp) != "" then [TrimSpace(h.realIp)] else [])
    + (if TrimSpace(h.forwardedFor) != "" then [TrimSpace(h.forwardedFor)] else [])
  }

  function JoinParts(parts: seq<string>): string {
    if parts == [] then ""
    else if |parts| == 1 then parts[0]
    else parts[0] + ", " + JoinParts(parts[1..])
  }

  function LowerHex(d: nat): char
    requires d < 16
  {
    if d < 10 then '0' + d as char else 'a' + (d - 10) as char
  }

  function HexText(b: seq<Byte>): string {
    if b == [] then "" else [LowerHex(b[0] / 16), LowerHex(b[0] % 16)] + HexText(b[1..])
  }

  /** A fresh ID from random bytes, or a fixed word when the source of randomness fails. */
  function NewRequestID(random: Option<seq<Byte>>): string {
    match random
    case None => "unknown"
    case Some(b) => HexText(b)
  }

  lemma {:induction false} HexLength(b: seq<Byte>)
    ensures |HexText(b)| == 2 * |b|
    ensures forall i :: 0 <= i < |HexText(b)| ==> '0' <= HexText(b)[i] <= '9' || 'a' <= HexText(b)[i] <= 'f'
  {
    if b != [] {
      HexLength(b[1..]);
    }
  }

  /** The request ID of a call: the header's, else the context's, else a fresh one. */
  function RequestIDFor(ctx: Context, headers: Option<Headers>, generated: string): string {
    var header := if headers.Some? then TrimSpace(headers.value.requestId) else "";
    var existing := Lookup(ctx, RequestID);
    if header != "" then header
    else if existing.Some? && existing.value != "" then existing.value
    else generated
  }

  /** The middleware's context, reassigned step by step. */
  method RequestContext(ctx: Context, headers: Option<Headers>, random: Option<seq<Byte>>)
    returns (out: Context)
    ensures out == Middleware(ctx, headers, NewRequestID(random))
  {
    out := ctx;
    var id := if headers.Some? then TrimSpace(headers.value.requestId) else "";
    if id == "" {
      var existing := Lookup(out, RequestID);
      if existing.Some? {
        id := existing.value;
      }
    }
    if id == "" {
      id := NewRequestID(random);
    }
    out := WithRequestID(out, id);
    if Lookup(out, Source).None? {
      var src := "";
      if headers.Some? {
        var parts := HeaderParts(headers.value);
        src := JoinParts(parts);
      }
      if src == "" {
        src := "STDIO";
      }
      out := WithSource(out, src);
    }
  }

  function Middleware(ctx: Context, headers: Option<Headers>, generated: string): Context {
    var identified := WithRequestID(ctx, RequestIDFor(ctx, headers, generated));
    if Lookup(ctx, Source).Some? then identified
    else
      var src := if headers.Some? then JoinParts(AddressParts(headers.value)) else "";
      WithSource(identified, if src == "" then "STDIO" else src)
  }

  /** The request ID of a call is that of its header; else the one its context brings; else eight random
      bytes in lower-case hex, or the word unknown when there is no randomness. */
  lemma RequestIDPrecedence(ctx: Context, headers: Option<Headers>, random: Option<seq<Byte>>, header: string)
    requires if headers.Some? then Padded(headers.value.requestId, header) else header == ""
    ensures var id := Lookup(Middleware(ctx, headers, NewRequestID(random)), RequestID);
      var brought := Lookup(ctx, RequestID);
      && (header != "" ==> id == Some(header))
      && (header == "" && brought.Some? && brought.value != "" ==> id == brought)
      && (header == "" && (brought.None? || brought.value == "") ==>
            if random.None? then id == Some("unknown")
            else id.Some? && |id.value| == 2 * |random.value| &&
                 forall i :: 0 <= i < |random.value| ==>
                   && id.value[2 * i] == "0123456789abcdef"[random.value[i] / 16]
                   && id.value[2 * i + 1] == "0123456789abcdef"[random.value[i] % 16])
  {
    if headers.Some? {
      TrimExactly(headers.value.requestId, header);
    }
    if random.Some? {
      HexDigits(random.value);
    }
  }

  lemma {:induction false} HexDigits(b: seq<Byte>)
    ensures |HexText(b)| == 2 * |b|
    ensures forall i :: 0 <= i < |b| ==>
              && HexText(b)[2 * i] == "0123456789abcdef"[b[i] / 16]
              && HexText(b)[2 * i + 1] == "0123456789abcdef"[b[i] % 16]
  {
    if b != [] {
      HexDigits(b[1..]);
      LowerHexIs(b[0] / 16);
      LowerHexIs(b[0] % 16);
      forall i | 0 <= i < |b|
        ensures HexText(b)[2 * i] == "0123456789abcdef"[b[i] / 16]
        ensures HexText(b)[2 * i + 1] == "0123456789abcdef"[b[i] % 16]
      {
        if i > 0 {
          assert HexText(b)[2 * i] == HexText(b[1..])[2 * (i - 1)];
          assert HexText(b)[2 * i + 1] == HexText(b[1..])[2 * (i - 1) + 1];
        }
      }
    }
  }

  lemma LowerHexIs(d: nat)
    requires d < 16
    ensures LowerHex(d) == "0123456789abcdef"[d]
  {
  }

  /** A call without headers and without a source came over standard input. */
  lemma NoHeadersMeansStdio(ctx: Context, id: string)
    requires Lookup(ctx, Source).None?
    ensures Lookup(Middleware(ctx, None, id), Source) == Some("STDIO")
  {
  }

  lemma AddressChain(h: Headers, a: string, b: string)
    requires Padded(h.realIp, a) && Padded(h.forwardedFor, b)
    ensures JoinParts(AddressParts(h)) == if b == "" then a else if a == "" then b else a + ", " + b
  {
    TrimExactly(h.realIp, a);
    TrimExactly(h.forwardedFor, b);
    var parts := AddressParts(h);
    assert a != "" && b != "" ==> parts == [a, b] && parts[1..] == [b];
  }

  /** The source of a call that brings none: its client addresses, the real IP first, or STDIO. */
  lemma SourceIsAddressChain(ctx: Context, h: Headers, id: string, a: string, b: string)
    requires Lookup(ctx, Source).None? && Padded(h.realIp, a) && Padded(h.forwardedFor, b)
    ensures Lookup(Middleware(ctx, Some(h), id), Source) ==
            Some(if a == "" && b == "" then "STDIO"
                 else if b == "" then a
                 else if a == "" then b
                 else a + ", " + b)
  {
    AddressChain(h, a, b);
    var both := a + ", " + b;
    assert |both| >= 2;
  }

  /** Behind the middleware a call has a request ID and a source, neither empty unless its context
      brought an empty source; a source, once there, stays; the token is untouched. */
  lemma MiddlewareResolves(ctx: Context, headers: Option<Headers>, random: Option<seq<Byte>>)
    requires random.Some? ==> |random.value| == 8
    ensures var out := Middleware(ctx, headers, NewRequestID(random));
      && Lookup(out, RequestID) == Some(RequestIDFor(ctx, headers, NewRequestID(random)))
      && Lookup(out, RequestID) != Some("")
      && (Lookup(ctx, Source).Some? ==> Lookup(out, Source) == Lookup(ctx, Source))
      && (Lookup(ctx, Source).None? ==> Lookup(out, Source).Some? && Lookup(out, Source) != Some(""))
      && Lookup(out, Token) == Lookup(ctx, Token)
  {
    if random.Some? {
      HexLength(random.value);
    }
  }

  /** A second pass, as when one call goes through the middleware twice, keeps the first one's ID and source. */
  lemma MiddlewareIsStable(ctx: Context, headers: Option<Headers>, first: string, second: string)
    requires first != ""
    ensures var once := Middleware(ctx, headers, first); var twice := Middleware(once, headers, second);
      && Lookup(twice, RequestID) == Lookup(once, RequestID)
      && Lookup(twice, Source) == Lookup(once, Source)
  {
  }

  /** Additions after the bearer check: request IDs and sources, in any number and order. */
  datatype Addition = AddRequestID(id: string) | AddSource(source: string)

  function AddAll(ctx: Context, adds: seq<Addition>): Context
    decreases |adds|
  {
    if adds == [] then ctx
    else
      var next := match adds[0]
        case AddRequestID(id) => WithRequestID(ctx, id)
        case AddSource(source) => WithSource(ctx, source);
      AddAll(next, adds[1..])
  }

  lemma {:induction false} AdditionsKeepToken(ctx: Context, adds: seq<Addition>)
    ensures Lookup(AddAll(ctx, adds), Token) == Lookup(ctx, Token)
    decreases |adds|
  {
    if adds != [] {
      match adds[0]
      case AddRequestID(id) => AdditionsKeepToken(WithRequestID(ctx, id), adds[1..]);
      case AddSource(source) => AdditionsKeepToken(WithSource(ctx, source), adds[1..]);
    }
  }

  /** From the inbound header to the outbound one: the token that was presented, whatever else is put
      on the context and whatever token is configured. */
  lemma BearerReachesForgejo(ctx: Context, auth: string, scheme: string, lead: string, token: string, trail: string,
                             adds: seq<Addition>, headers: Option<Headers>, random: Option<seq<Byte>>,
                             configured: string)
    requires Presents(auth, scheme, lead, token, trail)
    requires random.Some? ==> |random.value| == 8
    ensures BearerAuth(ctx, auth).Some?
    ensures var behind := AddAll(Middleware(BearerAuth(ctx, auth).value, headers, NewRequestID(random)), adds);
      Authorization(behind, configured) == "token " + token
  {
    BearerReads(auth, scheme, lead, token, trail);
    var inner := WithToken(ctx, token);
    MiddlewareResolves(inner, headers, random);
    AdditionsKeepToken(Middleware(inner, headers, NewRequestID(random)), adds);
  }

  /** A request whose header presents no token goes no further. */
  lemma UnauthorizedExactly(ctx: Context, auth: string)
    ensures BearerAuth(ctx, auth).None? <==>
            forall scheme, lead, token, trail :: !Presents(auth, scheme, lead, token, trail)
  {
    if BearerToken(auth).Some? {
      BearerExactly(auth, BearerToken(auth).value);
    } else {
      forall scheme, lead, token, trail ensures !Presents(auth, scheme, lead, token, trail) {
        if Presents(auth, scheme, lead, token, trail) {
          BearerReads(auth, scheme, lead, token, trail);
        }
      }
    }
  }
}
