/** The client's requests as they go out: one exchange each, and one observation for each exchange. */
module ForgejoClient {
  import opened Bytes
  import opened Texts
  import opened Errors
  import opened Endpoints
  import opened Session
  import opened FileCodec
  import opened Upstream

  datatype Body =
    | NoBody
    | FileBody(file: FileWriteRequest)
    | DeleteBody(message: string, branch: Text, sha: Text)
    | MergeBody(how: string)
    | MigrateBody(authToken: string)
    | Attachment(content: seq<Byte>)

  /** One request and how it ended. */
  datatype Exchange = Exchange(
    call: Call, authorization: string, requestId: Option<string>,
    body: Body, inBytes: nat, outcome: Outcome, seconds: real)
  {
    /** What went out. */
    function Request(): Request {
      Sent(call)
    }
  }

  /** What arrived of a response; status and size are zero when nothing did. */
  function ObserveStatus(o: Outcome): Partial {
    match o
    case TransportError(_, partial) => if partial.Some? then partial.value else Partial(0, 0)
    case Answer(status, body, _, _) => Partial(status, |body|)
  }

  function Observed(e: Exchange): Observation {
    var seen := ObserveStatus(e.outcome);
    Observation(e.Request().verb, seen.status, e.inBytes, seen.size, e.seconds)
  }

  /** The observer's log is the request log, entry by entry. */
  predicate Logged(exchanges: seq<Exchange>, observations: seq<Observation>) {
    |observations| == |exchanges| && forall i :: 0 <= i < |exchanges| ==> observations[i] == Observed(exchanges[i])
  }

  lemma LoggedNext(exchanges: seq<Exchange>, observations: seq<Observation>, e: Exchange)
    requires Logged(exchanges, observations)
    ensures Logged(exchanges + [e], observations + [Observed(e)])
  {
  }

  function IDHeader(ctx: Context): Option<string> {
    var id := Lookup(ctx, RequestID);
    if id.Some? && id.value != "" then id else None
  }

  /** The request acts for whoever its context says: it carries the context's token when there is one, the
      configured one when not. */
  predicate ActsFor(e: Exchange, ctx: Context, configured: string) {
    var token := Lookup(ctx, Token);
    && (token.Some? && token.value != "" ==> e.authorization == "token " + token.value)
    && (token.None? || token.value == "" ==> e.authorization == "token " + configured)
  }

  /** And it carries the context's request ID, none when there is none. */
  predicate Traced(e: Exchange, ctx: Context) {
    var id := Lookup(ctx, RequestID);
    && (id.Some? && id.value != "" ==> e.requestId == id)
    && (id.None? || id.value == "" ==> e.requestId == None)
  }

  predicate SentFor(e: Exchange, ctx: Context, configured: string) {
    ActsFor(e, ctx, configured) && Traced(e, ctx)
  }

  /** From the inbound header to a request that acts for what became of its context: the presented token. */
  lemma PresentedTokenGoesOut(e: Exchange, ctx: Context, auth: string, scheme: string, lead: string, token: string,
                              trail: string, adds: seq<Addition>, headers: Option<Headers>,
                              random: Option<seq<Byte>>, configured: string)
    requires Presents(auth, scheme, lead, token, trail)
    requires random.Some? ==> |random.value| == 8
    requires BearerAuth(ctx, auth).Some?
    requires ActsFor(e, AddAll(Middleware(BearerAuth(ctx, auth).value, headers, NewRequestID(random)), adds),
                     configured)
    ensures e.authorization == "token " + token
  {
    BearerReachesForgejo(ctx, auth, scheme, lead, token, trail, adds, headers, random, configured);
  }

  /** Whether a pull request is merged: 204 and any other success say yes, 404 says no. */
  function MergedAnswer(o: Outcome, token: string): Result<bool> {
    match o
    case TransportError(_, _) => Fail(Interpret(o, token, false).failure)
    case Answer(status, body, _, _) =>
      if status == 204 then Ok(true)
      else if status == 404 then Ok(false)
      else if Success(status) then Ok(true)
      else Fail(MapStatusError(status, body, token))
  }

  /** It fails exactly where any other request would, but for the 404 that means no. */
  lemma MergedAnswerExactly(o: Outcome, token: string)
    ensures MergedAnswer(o, token) == Ok(false) <==> o.Answer? && o.status == 404
    ensures MergedAnswer(o, token) == Ok(true) <==> Interpret(o, token, false).Ok?
    ensures MergedAnswer(o, token).Fail? ==> MergedAnswer(o, token).failure == Interpret(o, token, false).failure
  {
  }

  /** The three requests of a pull request, the last one for the head that the first one named. */
  function PullRequestCall(owner: Text, repo: Text, index: int, head: Text, k: nat): Call
    requires k < 3
  {
    Repo(owner, repo,
         if k == 0 then Pulls(GetPull(index))
         else if k == 1 then Pulls(PullFiles(index))
         else Refs(CommitStatus(head)))
  }

  /** These went out for a pull request: itself, then its files, then the status of the head that the first
      answer named; each for the caller, and each but the last with a readable answer. */
  predicate GoneOut(sent: seq<Exchange>, owner: Text, repo: Text, index: int, ctx: Context, token: string) {
    && 1 <= |sent| <= 3
    && SentFor(sent[0], ctx, token)
    && sent[0].call == Repo(owner, repo, Pulls(GetPull(index)))
    && (|sent| > 1 ==>
          && Interpret(sent[0].outcome, token, true).Ok?
          && SentFor(sent[1], ctx, token)
          && sent[1].call == Repo(owner, repo, Pulls(PullFiles(index))))
    && (|sent| > 2 ==>
          && Interpret(sent[1].outcome, token, true).Ok?
          && SentFor(sent[2], ctx, token)
          && sent[0].outcome.Answer?
          && sent[2].call == Repo(owner, repo, Refs(CommitStatus(sent[0].outcome.field))))
  }

  lemma NextOut(sent: seq<Exchange>, e: Exchange, owner: Text, repo: Text, index: int, head: Text,
                ctx: Context, token: string)
    requires |sent| < 3
    requires sent != [] ==>
      && GoneOut(sent, owner, repo, index, ctx, token)
      && Interpret(sent[|sent| - 1].outcome, token, true).Ok?
      && Interpret(sent[0].outcome, token, true) == Ok(head)
    requires e.call == PullRequestCall(owner, repo, index, head, |sent|)
    requires SentFor(e, ctx, token)
    ensures GoneOut(sent + [e], owner, repo, index, ctx, token)
  {
  }

  /** One status of a commit as the server sends it, one check as the caller gets it. */
  datatype StatusWire = StatusWire(context: string, state: string, targetUrl: string, description: string)
  datatype Check = Check(context: string, state: string, targetUrl: string, description: string)

  /** The pull request and its files are the answers that they are decoded from. */
  datatype PullRequestDetail = PullRequestDetail(pull: string, files: string, checks: seq<Check>)

  predicate SameChecks(checks: seq<Check>, statuses: seq<StatusWire>) {
    && |checks| == |statuses|
    && forall i :: 0 <= i < |statuses| ==>
         && checks[i].context == statuses[i].context && checks[i].state == statuses[i].state
         && checks[i].targetUrl == statuses[i].targetUrl && checks[i].description == statuses[i].description
  }

  method ChecksFromWire(statuses: seq<StatusWire>) returns (checks: seq<Check>)
    ensures SameChecks(checks, statuses)
  {
    checks := [];
    for k := 0 to |statuses|
      invariant SameChecks(checks, statuses[..k])
    {
      var s := statuses[k];
      checks := checks + [Check(s.context, s.state, s.targetUrl, s.description)];
    }
    assert statuses[..|statuses|] == statuses;
  }

  function BodyOf(o: Outcome): string {
    if o.Answer? then o.body else ""
  }

  /** What the caller gets after these requests: the failure of the last one, which stopped them, or the
      detail made up of all three answers. */
  ghost predicate Concluded(sent: seq<Exchange>, r: Result<PullRequestDetail>, token: string,
                            statuses: string -> seq<StatusWire>)
    requires sent != []
  {
    match Interpret(sent[|sent| - 1].outcome, token, true)
    case Fail(f) => r == Fail(f)
    case Ok(_) =>
      && |sent| == 3 && r.Ok?
      && sent[0].outcome.Answer? && r.value.pull == sent[0].outcome.body
      && sent[1].outcome.Answer? && r.value.files == sent[1].outcome.body
      && sent[2].outcome.Answer? && SameChecks(r.value.checks, statuses(sent[2].outcome.body))
  }

  class Client {
    const token: string
    const observing: bool
    /** How the n-th request of this client ends; nothing is known about it. */
    const upstream: nat -> Outcome
    /** And how long it takes. */
    const elapsed: nat -> real
    /** The statuses that the JSON library finds in an answer. */
    const statuses: string -> seq<StatusWire>
    var exchanges: seq<Exchange>
    var observations: seq<Observation>

    /** The requests met the upstream in order. */
    ghost predicate Ordered()
      reads this
    {
      forall i :: 0 <= i < |exchanges| ==> exchanges[i].outcome == upstream(i)
    }

    /** And every request was observed. */
    ghost predicate Valid()
      reads this
    {
      Ordered() && if observing then Logged(exchanges, observations) else observations == []
    }

    constructor (token: string, observing: bool, upstream: nat -> Outcome, elapsed: nat -> real,
                 statuses: string -> seq<StatusWire>)
      ensures Valid() && exchanges == []
      ensures this.token == token && this.observing == observing
      ensures this.upstream == upstream && this.elapsed == elapsed && this.statuses == statuses
    {
      this.token := token;
      this.observing := observing;
      this.upstream := upstream;
      this.elapsed := elapsed;
      this.statuses := statuses;
      exchanges := [];
      observations := [];
    }

    method Observe(verb: Verb, status: int, inBytes: nat, outBytes: nat, seconds: real)
      modifies this`observations
      ensures observations ==
              old(observations) + if observing then [Observation(verb, status, inBytes, outBytes, seconds)] else []
    {
      if !observing {
        return;
      }
      observations := observations + [Observation(verb, status, inBytes, outBytes, seconds)];
    }

    /** The exchange that a call made now would be. */
    ghost function Upcoming(ctx: Context, call: Call, body: Body, inBytes: nat, id: Option<string>): Exchange
      reads this
    {
      Exchange(call, Authorization(ctx, token), id, body, inBytes, upstream(|exchanges|), elapsed(|exchanges|))
    }

    /** The request goes out; nothing is observed yet. */
    method Execute(ctx: Context, call: Call, body: Body, inBytes: nat, id: Option<string>)
      returns (o: Outcome, seconds: real)
      requires Ordered()
      modifies this`exchanges
      ensures Ordered()
      ensures exchanges == old(exchanges) + [old(Upcoming(ctx, call, body, inBytes, id))]
      ensures o == upstream(old(|exchanges|)) && seconds == elapsed(old(|exchanges|))
    {
      o, seconds := upstream(|exchanges|), elapsed(|exchanges|);
      exchanges := exchanges + [Exchange(call, Authorization(ctx, token), id, body, inBytes, o, seconds)];
    }

    /** One exchange and its observation, put behind logs that were equal, leave them equal. */
    twostate lemma BothLonger()
      requires old(Valid()) && Ordered()
      requires |exchanges| == old(|exchanges|) + 1 && old(exchanges) <= exchanges
      requires observations ==
               old(observations) + if observing then [Observed(exchanges[|exchanges| - 1])] else []
      ensures Valid()
    {
      if observing {
        var e := exchanges[|exchanges| - 1];
        LoggedNext(old(exchanges), old(observations), e);
        assert exchanges == old(exchanges) + [e];
      }
    }

    /** A request without body; decodes says whether the caller wants the JSON answer, which comes in body. */
    method Do(ctx: Context, call: Call, decodes: bool) returns (r: Result<Text>, body: string)
      requires Valid()
      modifies this
      ensures Valid()
      ensures exchanges == old(exchanges) + [old(Upcoming(ctx, call, NoBody, 0, IDHeader(ctx)))]
      ensures SentFor(exchanges[old(|exchanges|)], ctx, token)
      ensures r == Interpret(upstream(old(|exchanges|)), token, decodes)
      ensures body == BodyOf(upstream(old(|exchanges|)))
    {
      var o, seconds := Execute(ctx, call, NoBody, 0, IDHeader(ctx));
      var seen := ObserveStatus(o);
      Observe(Sent(call).verb, seen.status, 0, seen.size, seconds);
      BothLonger();
      r, body := Interpret(o, token, decodes), BodyOf(o);
    }

    method DoJSON(ctx: Context, call: Call, body: Body, inBytes: nat, decodes: bool) returns (r: Result<Text>)
      requires Valid()
      modifies this
      ensures Valid()
      ensures exchanges == old(exchanges) + [old(Upcoming(ctx, call, body, inBytes, IDHeader(ctx)))]
      ensures SentFor(exchanges[old(|exchanges|)], ctx, token)
      ensures r == Interpret(upstream(old(|exchanges|)), token, decodes)
    {
      var o, seconds := Execute(ctx, call, body, inBytes, IDHeader(ctx));
      var seen := ObserveStatus(o);
      Observe(Sent(call).verb, seen.status, inBytes, seen.size, seconds);
      BothLonger();
      r := Interpret(o, token, decodes);
    }

    /** Plain text is taken as it is. */
    method DoText(ctx: Context, call: Call) returns (r: Result<string>)
      requires Valid()
      modifies this
      ensures Valid()
      ensures exchanges == old(exchanges) + [old(Upcoming(ctx, call, NoBody, 0, IDHeader(ctx)))]
      ensures var o := upstream(old(|exchanges|));
        if Interpret(o, token, false).Ok? then r == Ok(o.body)
        else r == Fail(Interpret(o, token, false).failure)
    {
      var o, seconds := Execute(ctx, call, NoBody, 0, IDHeader(ctx));
      var seen := ObserveStatus(o);
      Observe(Sent(call).verb, seen.status, 0, seen.size, seconds);
      BothLonger();
      match Interpret(o, token, false) {
        case Ok(_) => r := Ok(o.body);
        case Fail(f) => r := Fail(f);
      }
    }

    method UploadReleaseAsset(ctx: Context, owner: Text, repo: Text, id: int, content: seq<Byte>)
      returns (r: Result<Text>)
      requires Valid()
      modifies this
      ensures Valid()
      ensures exchanges == old(exchanges) +
              [old(Upcoming(ctx, Repo(owner, repo, Releases(ReleaseCall.UploadReleaseAsset(id))),
                            Attachment(content), |content|, IDHeader(ctx)))]
      ensures r == Interpret(upstream(old(|exchanges|)), token, true)
    {
      var call := Repo(owner, repo, Releases(ReleaseCall.UploadReleaseAsset(id)));
      var o, seconds := Execute(ctx, call, Attachment(content), |content|, IDHeader(ctx));
      var seen := ObserveStatus(o);
      Observe(Sent(call).verb, seen.status, |content|, seen.size, seconds);
      BothLonger();
      r := Interpret(o, token, true);
    }

    /** The merge probe: the only request that goes out without the request ID. */
    method IsPullRequestMerged(ctx: Context, owner: Text, repo: Text, index: int) returns (r: Result<bool>)
      requires Valid()
      modifies this
      ensures Valid()
      ensures exchanges == old(exchanges) +
              [old(Upcoming(ctx, Repo(owner, repo, Pulls(PullCall.IsPullRequestMerged(index))), NoBody, 0, None))]
      ensures r == MergedAnswer(upstream(old(|exchanges|)), token)
    {
      var call := Repo(owner, repo, Pulls(PullCall.IsPullRequestMerged(index)));
      var o, seconds := Execute(ctx, call, NoBody, 0, None);
      var seen := ObserveStatus(o);
      Observe(Sent(call).verb, seen.status, 0, seen.size, seconds);
      BothLonger();
      r := MergedAnswer(o, token);
    }

    /** The error of a failed migration is the request's own, scrubbed of the source token in place. */
    method MigrateRepository(ctx: Context, source: string, inBytes: nat) returns (err: ForgejoError?)
      requires Valid()
      modifies this
      ensures Valid()
      ensures exchanges == old(exchanges) +
              [old(Upcoming(ctx, Call.MigrateRepository, MigrateBody(source), inBytes, IDHeader(ctx)))]
      ensures var o := upstream(old(|exchanges|));
        && (err == null <==> Interpret(o, token, true).Ok?)
        && (err != null ==> fresh(err) && Failure(err.kind, err.message) == MigrationFailure(o, token, source))
    {
      var r := DoJSON(ctx, Call.MigrateRepository, MigrateBody(source), inBytes, true);
      match r {
        case Ok(_) =>
          err := null;
        case Fail(f) =>
          var e := new ForgejoError(f.kind, f.message);
          err := RedactSourceToken(e, source);
      }
    }

    /** The k-th request of a pull request, apart likewise, which adds its exchange to those that went out before it. */
    method DoNext(ctx: Context, owner: Text, repo: Text, index: int, head: Text, k: nat, ghost sent: seq<Exchange>)
      returns (r: Result<Text>, body: string, ghost next: seq<Exchange>)
      requires Valid() && k == |sent| < 3
      requires sent != [] ==> GoneOut(sent, owner, repo, index, ctx, token)
      requires sent != [] ==> Interpret(sent[k - 1].outcome, token, true).Ok?
      requires sent != [] ==> Interpret(sent[0].outcome, token, true) == Ok(head)
      modifies this
      ensures Valid() && |next| == k + 1 && next[..k] == sent
      ensures exchanges == old(exchanges) + [next[k]]
      ensures GoneOut(next, owner, repo, index, ctx, token)
      ensures r == Interpret(next[k].outcome, token, true) && body == BodyOf(next[k].outcome)
    {
      ghost var e := Upcoming(ctx, PullRequestCall(owner, repo, index, head, k), NoBody, 0, IDHeader(ctx));
      r, body := Do(ctx, PullRequestCall(owner, repo, index, head, k), true);
      NextOut(sent, e, owner, repo, index, head, ctx, token);
      next := sent + [e];
    }

    /** The third request, and the checks out of its answer; apart for the proof's sake. */
    method StatusAndChecks(ctx: Context, owner: Text, repo: Text, index: int, head: Text, pull: string, files: string,
                           ghost before: seq<Exchange>)
      returns (r: Result<PullRequestDetail>, ghost sent: seq<Exchange>)
      requires Valid() && |before| == 2
      requires GoneOut(before, owner, repo, index, ctx, token)
      requires Interpret(before[0].outcome, token, true) == Ok(head) && pull == BodyOf(before[0].outcome)
      requires Interpret(before[1].outcome, token, true).Ok? && files == BodyOf(before[1].outcome)
      modifies this
      ensures Valid() && |sent| == 3 && sent[..2] == before && exchanges == old(exchanges) + [sent[2]]
      ensures GoneOut(sent, owner, repo, index, ctx, token)
      ensures Concluded(sent, r, token, statuses)
    {
      var answer, status;
      answer, status, sent := DoNext(ctx, owner, repo, index, head, 2, before);
      if answer.Fail? {
        r := Fail(answer.failure);
        return;
      }
      var checks := ChecksFromWire(statuses(status));
      r := Ok(PullRequestDetail(pull, files, checks));
    }

    /** The second and the third, apart likewise. */
    method FilesAndStatus(ctx: Context, owner: Text, repo: Text, index: int, head: Text, pull: string,
                          ghost first: seq<Exchange>)
      returns (r: Result<PullRequestDetail>, ghost sent: seq<Exchange>)
      requires Valid() && |first| == 1
      requires GoneOut(first, owner, repo, index, ctx, token)
      requires Interpret(first[0].outcome, token, true) == Ok(head) && pull == BodyOf(first[0].outcome)
      modifies this
      ensures Valid() && |sent| > 1 && sent[0] == first[0] && exchanges == old(exchanges) + sent[1..]
      ensures GoneOut(sent, owner, repo, index, ctx, token)
      ensures Concluded(sent, r, token, statuses)
    {
      var answer, files;
      answer, files, sent := DoNext(ctx, owner, repo, index, head, 1, first);
      if answer.Fail? {
        r := Fail(answer.failure);
        return;
      }
      r, sent := StatusAndChecks(ctx, owner, repo, index, head, pull, files, sent);
    }

    /** The requests go out in order and stop after the first that fails, and the failure is the caller's;
        when none fails the three answers make up the result. */
    method GetPullRequest(ctx: Context, owner: Text, repo: Text, index: int)
      returns (r: Result<PullRequestDetail>, ghost sent: seq<Exchange>)
      requires Valid()
      modifies this
      ensures Valid() && exchanges == old(exchanges) + sent
      ensures GoneOut(sent, owner, repo, index, ctx, token)
      ensures Concluded(sent, r, token, statuses)
    {
      var pr, pull;
      pr, pull, sent := DoNext(ctx, owner, repo, index, "", 0, []);
      if pr.Fail? {
        r := Fail(pr.failure);
        return;
      }
      r, sent := FilesAndStatus(ctx, owner, repo, index, pr.value, pull, sent);
    }
  }

  /** What the observer of a client was told: for every request, in order, the method that went out, the
      status and the size that came, of a broken response what had come, zero when nothing came, the size
      that was sent and the time it took. */
  lemma LogTellsWhatCame(client: Client, i: nat)
    requires client.Valid() && client.observing && i < |client.exchanges|
    ensures |client.observations| == |client.exchanges|
    ensures var e, seen := client.exchanges[i], client.observations[i];
      && e.outcome == client.upstream(i)
      && seen.verb == Sent(e.call).verb && seen.inBytes == e.inBytes && seen.seconds == e.seconds
      && (match e.outcome
          case Answer(status, body, _, _) => seen.status == status && seen.outBytes == |body|
          case TransportError(_, Some(part)) => seen.status == part.status && seen.outBytes == part.size
          case TransportError(_, None) => seen.status == 0 && seen.outBytes == 0)
  {
  }

  /** A client without an observer reports nothing. */
  lemma NoObserverNoLog(client: Client)
    requires client.Valid() && !client.observing
    ensures client.observations == []
  {
  }
}
