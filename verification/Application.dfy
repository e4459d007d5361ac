/** The use cases that take more than one request: probe or check first, then act. */
module Application {
  import opened Bytes
  import opened Texts
  import opened Errors
  import opened Endpoints
  import opened Session
  import opened FileCodec
  import opened ForgejoClient
  import opened Upstream
  import Base64

  /** What follows the probe of a file. */
  datatype Next = Create | Update(sha: Text) | Remove(sha: Text) | Stop(failure: Failure)

  /** A write creates what is not there and updates what is, by the blob SHA it saw; any other answer ends it. */
  function NextWrite(probe: Result<Text>): Next {
    match probe
    case Ok(sha) => Update(sha)
    case Fail(f) => if f.kind == NotFound then Create else Stop(f)
  }

  function NextDelete(probe: Result<Text>): Next {
    match probe
    case Ok(sha) => Remove(sha)
    case Fail(f) => Stop(f)
  }

  /** What follows a probe, by what came: 404 means create, a readable answer means update under the blob
      SHA it names, and anything else ends the write with the probe's own failure. */
  lemma NextWriteExactly(o: Outcome, token: string)
    ensures var next := NextWrite(Interpret(o, token, true));
      && (next == Create <==> o.Answer? && o.status == 404)
      && (forall sha :: next == Update(sha) <==>
            o.Answer? && 200 <= o.status < 300 && o.fault.None? && o.field == sha)
      && (next.Stop? ==> Interpret(o, token, true) == Fail(next.failure))
      && !next.Remove?
  {
    InterpretExactly(o, token, true);
    NotFoundIs404(o, token, true);
  }

  /** A delete goes on in one case only, and a missing file ends it with the probe's own failure. */
  lemma NextDeleteExactly(o: Outcome, token: string)
    ensures var next := NextDelete(Interpret(o, token, true));
      && (forall sha :: next == Remove(sha) <==>
            o.Answer? && 200 <= o.status < 300 && o.fault.None? && o.field == sha)
      && (next.Stop? ==> Interpret(o, token, true) == Fail(next.failure))
      && (next.Stop? || next.Remove?)
  {
    InterpretExactly(o, token, true);
  }

  function ValidationError(message: string): Failure {
    Failure(Validation, message)
  }

  /** A file named by its place; branch "" is the default branch. */
  datatype Place = Place(owner: Text, repo: Text, path: Text, branch: Text)

  function ProbeCall(at: Place): Call {
    Repo(at.owner, at.repo, Files(GetFile(at.path, at.branch)))
  }

  /** The second request of a write or delete, none when the probe ends it. */
  function SecondCall(at: Place, next: Next): Call
    requires !next.Stop?
  {
    Repo(at.owner, at.repo, Files(
      match next
      case Create => CreateFile(at.path)
      case Update(_) => UpdateFile(at.path)
      case Remove(_) => FileCall.DeleteFile(at.path)))
  }

  function SecondBody(at: Place, message: string, content: seq<Byte>, next: Next): Body
    requires !next.Stop?
  {
    match next
    case Create => FileBody(CreateBody(FileInput(at.path, at.branch, message, "", content)))
    case Update(sha) => FileBody(UpdateBody(FileInput(at.path, at.branch, message, sha, content)))
    case Remove(sha) => DeleteBody(message, at.branch, sha)
  }

  /** Both requests address the same file, and the second one carries what it is conditional on: no blob
      SHA to create, the probe's blob SHA to update or delete. */
  lemma SecondRequestCarries(at: Place, message: string, content: seq<Byte>, next: Next)
    requires !next.Stop?
    ensures Sent(SecondCall(at, next)).path == Sent(ProbeCall(at)).path
    ensures GetText(Sent(ProbeCall(at)).query, "ref") == at.branch
    ensures var verb := Sent(SecondCall(at, next)).verb; var body := SecondBody(at, message, content, next);
      match next
      case Create => verb == POST && body.FileBody? && Carries(body.file, message, at.branch, "", content)
      case Update(sha) => verb == PUT && body.FileBody? && Carries(body.file, message, at.branch, sha, content)
      case Remove(sha) => verb == DELETE && body == DeleteBody(message, at.branch, sha)
  {
    Base64.PlainRoundTrip(content);
    TextReads(map[], "ref", at.branch, "");
  }

  predicate Carries(body: FileWriteRequest, message: string, branch: string, sha: string, content: seq<Byte>) {
    && body.message == message && body.branch == branch && body.sha == sha
    && Base64.Decode(body.content) == Some(content)
  }

  /** The two requests of a write: the second is chosen by the answer to the first alone, and carries
      the blob SHA of that answer or none. */
  method WriteFile(client: Client, ctx: Context, at: Place, message: string, content: seq<Byte>, inBytes: nat)
    returns (r: Result<Text>)
    requires client.Valid()
    modifies client
    ensures client.Valid()
    ensures old(client.exchanges) <= client.exchanges
    ensures TrimSpace(at.path) == "" ==>
      client.exchanges == old(client.exchanges) && r == Fail(Failure(Validation, "file path is required"))
    ensures var n := old(|client.exchanges|);
      && |client.exchanges| <= n + 2
      && (|client.exchanges| > n ==> SentFor(client.exchanges[n], ctx, client.token))
      && (|client.exchanges| > n + 1 ==> SentFor(client.exchanges[n + 1], ctx, client.token))
    ensures TrimSpace(at.path) != "" ==>
      var n := old(|client.exchanges|);
      var next := NextWrite(Interpret(client.upstream(n), client.token, true));
      && |client.exchanges| == n + (if next.Stop? then 1 else 2)
      && client.exchanges[n].call == ProbeCall(at) && client.exchanges[n].body == NoBody
      && (next.Stop? ==> r == Fail(next.failure))
      && (!next.Stop? ==>
            && client.exchanges[n + 1].call == SecondCall(at, next)
            && client.exchanges[n + 1].body == SecondBody(at, message, content, next)
            && r == Interpret(client.upstream(n + 1), client.token, true))
  {
    if TrimSpace(at.path) == "" {
      return Fail(ValidationError("file path is required"));
    }
    var existing, _ := client.Do(ctx, ProbeCall(at), true);
    if existing.Fail? {
      if existing.failure.kind == NotFound {
        var body := CreateBody(FileInput(at.path, at.branch, message, "", content));
        r := client.DoJSON(ctx, Repo(at.owner, at.repo, Files(CreateFile(at.path))), FileBody(body), inBytes, true);
        return;
      }
      return Fail(existing.failure);
    }
    var body := UpdateBody(FileInput(at.path, at.branch, message, existing.value, content));
    r := client.DoJSON(ctx, Repo(at.owner, at.repo, Files(UpdateFile(at.path))), FileBody(body), inBytes, true);
  }

  /** The two requests of a delete; without a readable file there is no second one. */
  method DeleteFile(client: Client, ctx: Context, at: Place, message: string, inBytes: nat)
    returns (r: Result<Text>)
    requires client.Valid()
    modifies client
    ensures client.Valid()
    ensures old(client.exchanges) <= client.exchanges
    ensures TrimSpace(at.path) == "" ==>
      client.exchanges == old(client.exchanges) && r == Fail(Failure(Validation, "file path is required"))
    ensures var n := old(|client.exchanges|);
      && |client.exchanges| <= n + 2
      && (|client.exchanges| > n ==> SentFor(client.exchanges[n], ctx, client.token))
      && (|client.exchanges| > n + 1 ==> SentFor(client.exchanges[n + 1], ctx, client.token))
    ensures TrimSpace(at.path) != "" ==>
      var n := old(|client.exchanges|);
      var next := NextDelete(Interpret(client.upstream(n), client.token, true));
      && |client.exchanges| == n + (if next.Stop? then 1 else 2)
      && client.exchanges[n].call == ProbeCall(at) && client.exchanges[n].body == NoBody
      && (next.Stop? ==> r == Fail(next.failure))
      && (!next.Stop? ==>
            && client.exchanges[n + 1].call == SecondCall(at, next)
            && client.exchanges[n + 1].body == SecondBody(at, message, [], next)
            && r == Interpret(client.upstream(n + 1), client.token, true))
  {
    if TrimSpace(at.path) == "" {
      return Fail(ValidationError("file path is required"));
    }
    var existing, _ := client.Do(ctx, ProbeCall(at), true);
    if existing.Fail? {
      return Fail(existing.failure);
    }
    var sha := existing.value;
    r := client.DoJSON(ctx, Repo(at.owner, at.repo, Files(FileCall.DeleteFile(at.path))),
                       DeleteBody(message, at.branch, sha), inBytes, true);
  }

  // ---------- check, then act ----------

  /** The branch check: only an answer that names another default branch lets the delete go out. */
  function BranchCleared(check: Result<Text>, branch: Text): bool {
    check.Ok? && check.value != branch
  }

  method DeleteBranch(client: Client, ctx: Context, owner: Text, repo: Text, branch: Text)
    returns (r: Result<Text>)
    requires client.Valid()
    modifies client
    ensures client.Valid()
    ensures old(client.exchanges) <= client.exchanges
    ensures var n := old(|client.exchanges|);
      && |client.exchanges| <= n + 2
      && (|client.exchanges| > n ==> SentFor(client.exchanges[n], ctx, client.token))
      && (|client.exchanges| > n + 1 ==> SentFor(client.exchanges[n + 1], ctx, client.token))
    ensures TrimSpace(branch) == "" ==>
      client.exchanges == old(client.exchanges) && r == Fail(Failure(Validation, "branch name is required"))
    ensures TrimSpace(branch) != "" ==>
      var n := old(|client.exchanges|);
      var check := Interpret(client.upstream(n), client.token, true);
      && |client.exchanges| == n + (if check.Ok? && check.value != branch then 2 else 1)
      && client.exchanges[n].call == Repo(owner, repo, GetRepository)
      && (if check.Ok? && check.value != branch then
            && client.exchanges[n + 1].call == Repo(owner, repo, Refs(RefCall.DeleteBranch(branch)))
            && r == Interpret(client.upstream(n + 1), client.token, false)
          else r.Fail? && (check.Ok? ==> r.failure == Failure(Validation, "cannot delete the default branch"))
                       && (check.Fail? ==> r.failure == check.failure))
  {
    if TrimSpace(branch) == "" {
      return Fail(ValidationError("branch name is required"));
    }
    var repository, _ := client.Do(ctx, Repo(owner, repo, GetRepository), true);
    if repository.Fail? {
      return Fail(repository.failure);
    }
    if repository.value == branch {
      return Fail(ValidationError("cannot delete the default branch"));
    }
    var deleted, _ := client.Do(ctx, Repo(owner, repo, Refs(RefCall.DeleteBranch(branch))), false);
    r := deleted;
  }

  datatype PullMergeResult = PullMergeResult(merged: bool, alreadyMerged: bool)

  /** The merge check: only the answer "not merged" lets the merge go out. */
  function MergeCleared(check: Result<bool>): bool {
    check == Ok(false)
  }

  method MergePullRequest(client: Client, ctx: Context, owner: Text, repo: Text, index: int, how: string,
                          inBytes: nat)
    returns (r: Result<PullMergeResult>)
    requires client.Valid()
    modifies client
    ensures client.Valid()
    ensures old(client.exchanges) <= client.exchanges
    ensures how != "merge" && how != "squash" && how != "rebase" ==>
      client.exchanges == old(client.exchanges) && r == Fail(Failure(Validation, "invalid merge method"))
    ensures how == "merge" || how == "squash" || how == "rebase" ==>
      var n := old(|client.exchanges|);
      var check := MergedAnswer(client.upstream(n), client.token);
      && |client.exchanges| == n + (if check == Ok(false) then 2 else 1)
      && ActsFor(client.exchanges[n], ctx, client.token) && client.exchanges[n].requestId == None
      && (|client.exchanges| == n + 2 ==> SentFor(client.exchanges[n + 1], ctx, client.token))
      && client.exchanges[n].call == Repo(owner, repo, Pulls(PullCall.IsPullRequestMerged(index)))
      && (match check
          case Fail(f) => r == Fail(f)
          case Ok(true) => r == Ok(PullMergeResult(false, true))
          case Ok(false) =>
            && client.exchanges[n + 1].call == Repo(owner, repo, Pulls(PullCall.MergePullRequest(index)))
            && client.exchanges[n + 1].body == MergeBody(how)
            && (var act := Interpret(client.upstream(n + 1), client.token, false);
                if act.Ok? then r == Ok(PullMergeResult(true, false)) else r == Fail(act.failure)))
  {
    if how != "merge" && how != "squash" && how != "rebase" {
      return Fail(ValidationError("invalid merge method"));
    }
    var merged := client.IsPullRequestMerged(ctx, owner, repo, index);
    if merged.Fail? {
      return Fail(merged.failure);
    }
    if merged.value {
      return Ok(PullMergeResult(false, true));
    }
    var act := client.DoJSON(ctx, Repo(owner, repo, Pulls(PullCall.MergePullRequest(index))),
                             MergeBody(how), inBytes, false);
    if act.Fail? {
      return Fail(act.failure);
    }
    r := Ok(PullMergeResult(true, false));
  }
}
