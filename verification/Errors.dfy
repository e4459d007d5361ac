/** The error taxonomy: how an upstream outcome becomes a typed error with a redacted message. */
module Errors {
  import opened Bytes
  import opened Texts
  import opened Replacement
  import opened Redaction

  datatype ErrorKind =
    | Unknown | NotFound | Unauthorized | Forbidden | Validation | Conflict | Archived | Transient

  /** The status and the size of a response whose reading broke off. */
  datatype Partial = Partial(status: int, size: nat)

  /** How one outbound request ends. An error may come with a partial response. An answer has a status,
      a body, a fault when the body is not the JSON that was expected, and the one decoded field that
      an orchestration goes on with. */
  datatype Outcome =
    | TransportError(reason: string, partial: Option<Partial>)
    | Answer(status: int, body: string, fault: Option<string>, field: Text)

  datatype Failure = Failure(kind: ErrorKind, message: string)

  datatype Result<+T> = Ok(value: T) | Fail(failure: Failure)

  function KindForStatus(status: int): ErrorKind {
    if status == 401 then Unauthorized
    else if status == 403 then Forbidden
    else if status == 404 then NotFound
    else if status == 422 then Validation
    else if status == 409 then Conflict
    else if status == 423 then Archived
    else if status >= 500 then Transient
    else Unknown
  }

  function FallbackMessage(kind: ErrorKind, status: int): string {
    match kind
    case NotFound => "Forgejo resource not found"
    case Unauthorized => "Forgejo authorization failed"
    case Forbidden => "Forgejo access forbidden"
    case Conflict => "Forgejo conflict"
    case Archived => "Forgejo repository is archived"
    case _ => "Forgejo request failed with status " + FormatInt(status)
  }

  function MapStatusError(status: int, body: string, token: string): Failure {
    var kind := KindForStatus(status);
    var message := Redact(TrimSpace(body), token);
    Failure(kind, if message == "" then FallbackMessage(kind, status) else message)
  }

  predicate Success(status: int) {
    200 <= status < 300
  }

  /** What do, doJSON and doText make of an outcome; only the first two decode, and only on demand. */
  function Interpret(o: Outcome, token: string, decodes: bool): Result<Text> {
    match o
    case TransportError(reason, _) => Fail(Failure(Transient, Redact("request failed: " + reason, token)))
    case Answer(status, body, fault, field) =>
      if !Success(status) then Fail(MapStatusError(status, body, token))
      else if decodes && fault.Some? then
        Fail(Failure(Validation, Redact("failed to decode Forgejo response: " + fault.value, token)))
      else Ok(field)
  }

  /** Not found means status 404 and nothing else; this is what a write takes for an absent file. */
  lemma NotFoundIs404(o: Outcome, token: string, decodes: bool)
    ensures Interpret(o, token, decodes).Fail? && Interpret(o, token, decodes).failure.kind == NotFound
            <==> o.Answer? && o.status == 404
  {
  }

  /** The classification is the documented one, in both directions. */
  lemma KindIsDocumented(status: int)
    ensures KindForStatus(status) == Unauthorized <==> status == 401
    ensures KindForStatus(status) == Forbidden <==> status == 403
    ensures KindForStatus(status) == NotFound <==> status == 404
    ensures KindForStatus(status) == Conflict <==> status == 409
    ensures KindForStatus(status) == Validation <==> status == 422
    ensures KindForStatus(status) == Archived <==> status == 423
    ensures KindForStatus(status) == Transient <==> status >= 500
  {
  }

  /** A request succeeds exactly with a 2xx answer that, if it is to be decoded, can be, and its value is
      then the decoded field. */
  lemma InterpretExactly(o: Outcome, token: string, decodes: bool)
    ensures forall v :: Interpret(o, token, decodes) == Ok(v) <==>
              o.Answer? && 200 <= o.status < 300 && (decodes ==> o.fault.None?) && o.field == v
  {
  }

  /** The texts that stand for a blank body. */
  lemma BlankBodyTexts(o: Outcome, token: string, decodes: bool)
    requires Blank(o)
    ensures Interpret(o, token, decodes) == Fail(Failure(KindForStatus(o.status),
      if o.status == 401 then "Forgejo authorization failed"
      else if o.status == 403 then "Forgejo access forbidden"
      else if o.status == 404 then "Forgejo resource not found"
      else if o.status == 409 then "Forgejo conflict"
      else if o.status == 423 then "Forgejo repository is archived"
      else "Forgejo request failed with status " + FormatInt(o.status)))
  {
    RedactKeepsEmptiness("", token);
  }

  /** A failure says what went wrong: that no answer came, or that it could not be decoded, with the
      library's reason. */
  lemma ReasonsAreShown(reason: string, partial: Option<Partial>, status: int, body: string, field: Text, token: string)
    requires 200 <= status < 300
    requires token == "" || !Occurs(token, "request failed: " + reason)
    requires token == "" || !Occurs(token, "failed to decode Forgejo response: " + reason)
    ensures forall decodes :: Interpret(TransportError(reason, partial), token, decodes) ==
                              Fail(Failure(Transient, "request failed: " + reason))
    ensures Interpret(Answer(status, body, Some(reason), field), token, true) ==
            Fail(Failure(Validation, "failed to decode Forgejo response: " + reason))
  {
    if token != "" {
      NothingToReplace("request failed: " + reason, token, MARK);
      NothingToReplace("failed to decode Forgejo response: " + reason, token, MARK);
    }
  }

  /** Retrying is suggested exactly when no answer came or the server failed. */
  lemma TransientExactly(o: Outcome, token: string, decodes: bool)
    ensures Interpret(o, token, decodes).Fail? && Interpret(o, token, decodes).failure.kind == Transient
            <==> o.TransportError? || o.status >= 500
  {
  }

  lemma RedactKeepsEmptiness(s: string, secret: string)
    ensures Redact(s, secret) == "" <==> s == ""
  {
    if secret != "" {
      IndexIsFirst(secret, s);
    }
  }

  /** The message is the fixed fallback exactly for a refusal with a blank body. */
  predicate Blank(o: Outcome) {
    o.Answer? && !Success(o.status) && TrimSpace(o.body) == ""
  }

  /** No failure shows the token but, possibly, the fixed text for a blank body. */
  lemma FailureHidesToken(o: Outcome, token: string, decodes: bool)
    requires token != "" && !Leaky(token, MARK)
    requires Interpret(o, token, decodes).Fail? && !Blank(o)
    ensures !Occurs(token, Interpret(o, token, decodes).failure.message)
  {
    match o
    case TransportError(reason, _) => RedactRemoves("request failed: " + reason, token);
    case Answer(status, body, fault, _) =>
      if Success(status) {
        RedactRemoves("failed to decode Forgejo response: " + fault.value, token);
      } else {
        RedactRemoves(TrimSpace(body), token);
        RedactKeepsEmptiness(TrimSpace(body), token);
      }
  }

  lemma TokenInFailure(o: Outcome, token: string, decodes: bool)
    requires token != "" && !Leaky(token, MARK)
    requires Interpret(o, token, decodes).Fail?
    ensures Occurs(token, Interpret(o, token, decodes).failure.message) <==> FallbackShows(o, token)
  {
    if Blank(o) {
      RedactKeepsEmptiness(TrimSpace(o.body), token);
    } else {
      FailureHidesToken(o, token, decodes);
    }
  }

  /** The token is a part of the fixed text that stands for a blank body. */
  ghost predicate FallbackShows(o: Outcome, token: string) {
    Blank(o) && Occurs(token, FallbackMessage(KindForStatus(o.status), o.status))
  }

  /** A refusal whose body is what a text becomes between two harmless chars. */
  function Refusal(text: string, x: string, y: string): Outcome
    requires x != "" && y != ""
  {
    var b := OtherThan(x[0], y[0], x[0]);
    var d := OtherThan(x[|x| - 1], y[|y| - 1], x[0]);
    Answer(422, Between(b, text, d), None, "")
  }

  /** Its message is the text redacted, if x is the token, and then y if y is another secret. */
  lemma RefusalMessage(text: string, x: string, y: string, decodes: bool)
    requires x != "" && y != ""
    ensures var o := Refusal(text, x, y);
      && Interpret(o, x, decodes).Fail? && !Blank(o)
      && (Occurs(x, Redact(text, x)) ==> Occurs(x, Interpret(o, x, decodes).failure.message))
      && (!Occurs(x, text) && Occurs(x, Redact(text, y)) ==>
            Occurs(x, Redact(Interpret(o, x, decodes).failure.message, y)))
  {
    var o := Refusal(text, x, y);
    var b, d := o.body[0], o.body[|o.body| - 1];
    assert "" + o.body + "" == o.body;
    TrimFinds("", o.body, "");
    RedactKeepsEmptiness(o.body, x);
    assert o.body == Between(b, text, d);
    ReplacedBetween(b, text, d, x, MARK);
    ReplacedBetween(b, Replaced(text, x, MARK), d, x, MARK);
    if !Occurs(x, text) {
      NothingToReplace(o.body, x, MARK);
      ReplacedBetween(b, text, d, y, MARK);
      ReplacedBetween(b, Replaced(text, y, MARK), d, x, MARK);
    }
  }

  /** No token at all, as a text, is in every message. */
  lemma NoTokenIsEverywhere(source: string)
    ensures Leaky("", MARK)
    ensures var o := Answer(422, "x", None, "");
      Interpret(o, "", true).Fail? && !Blank(o)
      && Occurs("", Interpret(o, "", true).failure.message) && Occurs("", MigrationFailure(o, "", source).message)
  {
    var o := Answer(422, "x", None, "");
    TrimFinds("", "x", "");
    assert "" + "x" + "" == "x";
    assert At("", MARK, 0) && At("", "x", 0) && At("", Redact("x", source), 0);
  }

  /** The promise that no error message contains the token is broken in no other place than the fixed
      texts for a blank body exactly when the token is not leaky. */
  lemma TokenInFailureExactly(token: string)
    ensures (forall o, decodes :: Interpret(o, token, decodes).Fail? ==>
               (Occurs(token, Interpret(o, token, decodes).failure.message) <==> FallbackShows(o, token)))
            <==> !Leaky(token, MARK)
  {
    if token == "" {
      NoTokenIsEverywhere("");
    } else if Leaky(token, MARK) {
      var s := LeakyHasWitness(token, MARK);
      RefusalMessage(s, token, token, true);
      assert !FallbackShows(Refusal(s, token, token), token);
    } else {
      forall o, decodes | Interpret(o, token, decodes).Fail?
        ensures Occurs(token, Interpret(o, token, decodes).failure.message) <==> FallbackShows(o, token)
      {
        TokenInFailure(o, token, decodes);
      }
    }
  }

  /** No fixed text contains the token. */
  ghost predicate NoFallbackShows(token: string) {
    forall status :: !Success(status) ==> !Occurs(token, FallbackMessage(KindForStatus(status), status))
  }

  function BlankRefusal(status: int): Outcome {
    Answer(status, "", None, "")
  }

  /** The tokens with which the promise is kept by every outcome, a condition on the token alone. */
  lemma TokenIsSafeExactly(token: string)
    ensures (forall o, decodes :: Interpret(o, token, decodes).Fail? ==>
               !Occurs(token, Interpret(o, token, decodes).failure.message))
            <==> !Leaky(token, MARK) && NoFallbackShows(token)
  {
    TokenInFailureExactly(token);
    if token == "" {
      NoTokenIsEverywhere("");
    } else if Leaky(token, MARK) {
      var s := LeakyHasWitness(token, MARK);
      RefusalMessage(s, token, token, true);
    } else if !NoFallbackShows(token) {
      var status :| !Success(status) && Occurs(token, FallbackMessage(KindForStatus(status), status));
      TokenInFailure(BlankRefusal(status), token, true);
    } else {
      forall o, decodes | Interpret(o, token, decodes).Fail?
        ensures !Occurs(token, Interpret(o, token, decodes).failure.message)
      {
        TokenInFailure(o, token, decodes);
      }
    }
  }

  /** Nothing else is lost: a body without the token reaches the caller whole, up to surrounding space. */
  lemma CleanBodyIsPassedOn(o: Outcome, token: string, decodes: bool)
    requires o.Answer? && !Success(o.status) && !Blank(o)
    requires token == "" || !Occurs(token, TrimSpace(o.body))
    ensures Interpret(o, token, decodes) == Fail(Failure(KindForStatus(o.status), TrimSpace(o.body)))
  {
    if token != "" {
      NothingToReplace(TrimSpace(o.body), token, MARK);
    }
  }

  // ---------- the second secret of a migration ----------

  /** The typed error as the client passes it on: one object whose message is rewritten in place. */
  class ForgejoError {
    const kind: ErrorKind
    var message: string

    constructor (kind: ErrorKind, message: string)
      ensures this.kind == kind && this.message == message
    {
      this.kind := kind;
      this.message := message;
    }
  }

  /** Scrubs the source token from an error in place; the kind stays. */
  method RedactSourceToken(err: ForgejoError?, secret: string) returns (out: ForgejoError?)
    modifies err
    ensures out == err
    ensures err != null ==> err.message == Redact(old(err.message), secret)
  {
    if err == null || secret == "" {
      return err;
    }
    err.message := Redact(err.message, secret);
    return err;
  }

  /** The failure of a migration that a caller sees. */
  function MigrationFailure(o: Outcome, token: string, source: string): Failure
    requires Interpret(o, token, true).Fail?
  {
    var f := Interpret(o, token, true).failure;
    Failure(f.kind, Redact(f.message, source))
  }

  /** Where a token that cannot touch the marker is seen at all: in the fixed text for a blank body. */
  lemma TokenOnlyInFallback(o: Outcome, token: string, source: string)
    requires Interpret(o, token, true).Fail? && Apart(token, MARK)
    requires Occurs(token, MigrationFailure(o, token, source).message)
    ensures Blank(o) && Occurs(token, FallbackMessage(KindForStatus(o.status), o.status))
  {
    var f := Interpret(o, token, true).failure;
    ApartIsNotLeaky(token, MARK);
    if source != "" {
      var p :| At(token, Replaced(f.message, source, MARK), p);
      ReplacingCreatesNothing(f.message, token, source, MARK, p);
    }
    TokenInFailure(o, token, true);
  }

  /** After a failed migration whose body was not blank neither secret is in the message and the kind
      is that of the outcome: the second replacement does not spell the first secret again. */
  lemma MigrationHidesBothSecrets(o: Outcome, token: string, source: string)
    requires Interpret(o, token, true).Fail? && !Blank(o)
    requires Plain(token) && Plain(source)
    ensures var f := MigrationFailure(o, token, source);
      && !Occurs(token, f.message)
      && !Occurs(source, f.message)
      && f.kind == Interpret(o, token, true).failure.kind
  {
    PlainIsApart(token);
    PlainNeverSurvives(Interpret(o, token, true).failure.message, source);
    if Occurs(token, MigrationFailure(o, token, source).message) {
      TokenOnlyInFallback(o, token, source);
    }
  }

  /** The source token is gone in every case, the blank body included. */
  lemma SourceNeverShown(o: Outcome, token: string, source: string)
    requires Interpret(o, token, true).Fail? && source != "" && !Leaky(source, MARK)
    ensures !Occurs(source, MigrationFailure(o, token, source).message)
  {
    RedactRemoves(Interpret(o, token, true).failure.message, source);
  }

  /** The token is a part of what the source token's redaction leaves of the fixed text for a blank body. */
  ghost predicate RedactedFallbackShows(o: Outcome, token: string, source: string) {
    Blank(o) && Occurs(token, Redact(FallbackMessage(KindForStatus(o.status), o.status), source))
  }

  lemma TokenShown(o: Outcome, token: string, source: string)
    requires Interpret(o, token, true).Fail? && Apart(token, MARK)
    ensures Occurs(token, MigrationFailure(o, token, source).message) <==> RedactedFallbackShows(o, token, source)
  {
    if Blank(o) {
      RedactKeepsEmptiness(TrimSpace(o.body), token);
      assert Interpret(o, token, true).failure.message == FallbackMessage(KindForStatus(o.status), o.status);
    } else if Occurs(token, MigrationFailure(o, token, source).message) {
      TokenOnlyInFallback(o, token, source);
    }
  }

  /** A token that can touch the marker is seen after some failed migration without a blank body. */
  lemma TouchingTokenIsShown(token: string) returns (o: Outcome, source: string)
    requires token != "" && !Apart(token, MARK)
    ensures Interpret(o, token, true).Fail? && !Blank(o)
    ensures Occurs(token, MigrationFailure(o, token, source).message)
  {
    var s;
    s, source := NotApartIsCreated(token, MARK);
    o := Refusal(s, token, source);
    RefusalMessage(s, token, source, true);
  }

  /** After failed migrations the Forgejo token is seen in the fixed texts for a blank body and nowhere
      else, whatever the source token, exactly when it lines up with the marker nowhere. */
  lemma TokenShownExactly(token: string)
    ensures (forall o, source :: Interpret(o, token, true).Fail? ==>
               (Occurs(token, MigrationFailure(o, token, source).message) <==>
                RedactedFallbackShows(o, token, source)))
            <==> Apart(token, MARK)
  {
    if token == "" {
      NoTokenIsEverywhere("");
    } else if Apart(token, MARK) {
      forall o, source | Interpret(o, token, true).Fail?
        ensures Occurs(token, MigrationFailure(o, token, source).message) <==> RedactedFallbackShows(o, token, source)
      {
        TokenShown(o, token, source);
      }
    } else {
      var o, source := TouchingTokenIsShown(token);
    }
  }

  /** The tokens that no failed migration shows, whatever the source token. */
  lemma MigrationIsSafeExactly(token: string)
    ensures (forall o, source :: Interpret(o, token, true).Fail? ==>
               !Occurs(token, MigrationFailure(o, token, source).message))
            <==> Apart(token, MARK) && NoFallbackShows(token)
  {
    if token == "" {
      NoTokenIsEverywhere("");
    } else if !Apart(token, MARK) {
      var o, source := TouchingTokenIsShown(token);
    } else if !NoFallbackShows(token) {
      var status :| !Success(status) && Occurs(token, FallbackMessage(KindForStatus(status), status));
      TokenShown(BlankRefusal(status), token, "");
    } else {
      forall o, source | Interpret(o, token, true).Fail?
        ensures !Occurs(token, MigrationFailure(o, token, source).message)
      {
        if Occurs(token, MigrationFailure(o, token, source).message) {
          TokenOnlyInFallback(o, token, source);
        }
      }
    }
  }

  /** A token that its own redaction removes from every text, spelled again by the source token's: "[y["
      and "S" in the body "[yS". */
  lemma SourceRedactionSpellsToken(o: Outcome)
    requires o == Answer(422, "[yS", None, "")
    ensures !Leaky("[y[", MARK) && !Apart("[y[", MARK)
    ensures Occurs("[y[", MigrationFailure(o, "[y[", "S").message)
  {
    BracketsMayBeSafe();
    OtherRedactionSpells();
    assert "" + "[yS" + "" == "[yS";
    TrimFinds("", "[yS", "");
    NothingToReplace("[yS", "[y[", MARK);
    SecondRedactionExactly("[y[");
  }

  /** For example the plain token "is" after a blank 423. */
  lemma BlankBodyShowsToken(o: Outcome)
    requires o == Answer(423, "", None, "")
    ensures Plain("is") && Occurs("is", MigrationFailure(o, "is", "").message)
  {
    var token := "is";
    forall p ensures !At(token, "REDACTED", p) {
      assert 'i' !in "REDACTED" && token[0] == 'i';
    }
    PlainIsApart(token);
    var fallback := "Forgejo repository is archived";
    assert fallback[19] == 'i' && fallback[20] == 's';
    assert At(token, fallback, 19);
    TokenShown(o, token, "");
  }
}
