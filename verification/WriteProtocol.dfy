/** Any number of writes and deletes, each a probe and then a checked second request, with other
    clients changing files in between and replies getting lost. */
module WriteProtocol {
  import opened Bytes
  import opened Texts
  import opened Errors
  import opened Endpoints
  import opened FileCodec
  import opened ForgejoClient
  import opened Application
  import Base64

  type Content = seq<Byte>
  type FileMap = map<Place, Content>

  datatype Task = Write(at: Place, content: Content) | Delete(at: Place)

  /** A change of one file, absent before or after as the case may be. */
  datatype Change = Change(before: Option<Content>, after: Option<Content>)

  /** A call after its probe, with the probe's answer and, for the record, the content it was given for;
      and a call that is over, with its result and the change the server made for it, if any. */
  datatype Phase =
    | Probed(probe: Outcome, saw: Option<Content>)
    | Done(result: Result<Text>, saw: Option<Content>, effect: Option<Change>)

  datatype State = State(files: FileMap, calls: map<nat, Phase>)

  datatype Event =
    | Probe(id: nat, answer: Outcome)
    | Act(id: nat, reply: Outcome, applied: bool)
    | Other(at: Place, content: Option<Content>)

  /** What every run is about: the task of each call, the blob hash, and the configured token. */
  datatype Setting = Setting(tasks: nat -> Task, sha: Content -> Text, token: string)

  ghost predicate Injective(sha: Content -> Text) {
    forall c, d :: sha(c) == sha(d) ==> c == d
  }

  function Current(files: FileMap, at: Place): Option<Content> {
    if at in files then Some(files[at]) else None
  }

  function Store(files: FileMap, at: Place, content: Option<Content>): FileMap {
    match content
    case None => files - {at}
    case Some(c) => files[at := c]
  }

  function After(task: Task, probe: Result<Text>): Next {
    match task
    case Write(_, _) => NextWrite(probe)
    case Delete(_) => NextDelete(probe)
  }

  function Wanted(task: Task): Option<Content> {
    match task
    case Write(_, content) => Some(content)
    case Delete(_) => None
  }

  // ---------- what is assumed of the server ----------

  /** A readable answer to a probe names the blob of the present file; 404 means that there is none.
      Other refusals and lost replies say nothing. */
  predicate HonestProbe(w: Setting, now: Option<Content>, answer: Outcome) {
    && (Interpret(answer, w.token, true).Ok? ==> now.Some? && answer.field == w.sha(now.value))
    && (answer.Answer? && answer.status == 404 ==> now.None?)
  }

  /** The server creates only what is absent, and updates and deletes only under the blob SHA of the
      present file. */
  predicate Accepts(w: Setting, now: Option<Content>, next: Next) {
    match next
    case Create => now.None?
    case Update(sha) => now.Some? && w.sha(now.value) == sha
    case Remove(sha) => now.Some? && w.sha(now.value) == sha
    case Stop(_) => false
  }

  /** A success is reported only of what was done, a refusal below 500 only of what was not. After a
      server error, or when no reply arrives, the request may have been carried out or not. */
  predicate HonestReply(w: Setting, now: Option<Content>, next: Next, reply: Outcome, applied: bool) {
    && (applied ==> Accepts(w, now, next))
    && (reply.Answer? && Success(reply.status) ==> applied)
    && (reply.Answer? && !Success(reply.status) && reply.status < 500 ==> !applied)
  }

  // ---------- runs ----------

  /** One event, None when it cannot happen. */
  function Step(w: Setting, s: State, e: Event): Option<State> {
    match e
    case Other(at, content) => Some(s.(files := Store(s.files, at, content)))
    case Probe(id, answer) =>
      var task := w.tasks(id);
      var now := Current(s.files, task.at);
      if id in s.calls || !HonestProbe(w, now, answer) then None
      else
        var next := After(task, Interpret(answer, w.token, true));
        Some(s.(calls := s.calls[id :=
          if next.Stop? then Done(Fail(next.failure), now, None) else Probed(answer, now)]))
    case Act(id, reply, applied) =>
      var task := w.tasks(id);
      var now := Current(s.files, task.at);
      if id !in s.calls || !s.calls[id].Probed? then None
      else
        var call := s.calls[id];
        var next := After(task, Interpret(call.probe, w.token, true));
        if !HonestReply(w, now, next, reply, applied) then None
        else
          var result := Interpret(reply, w.token, true);
          if applied then
            Some(State(Store(s.files, task.at, Wanted(task)),
                       s.calls[id := Done(result, call.saw, Some(Change(now, Wanted(task))))]))
          else Some(s.(calls := s.calls[id := Done(result, call.saw, None)]))
  }

  function Exec(w: Setting, s: State, run: seq<Event>): Option<State>
    decreases |run|
  {
    if run == [] then Some(s)
    else
      var next := Step(w, s, run[0]);
      if next.None? then None else Exec(w, next.value, run[1..])
  }

  lemma {:induction false} ExecAppend(w: Setting, s: State, a: seq<Event>, b: seq<Event>)
    requires Exec(w, s, a).Some?
    ensures Exec(w, s, a + b) == Exec(w, Exec(w, s, a).value, b)
    decreases |a|
  {
    if a == [] {
      assert a + b == b;
    } else {
      assert (a + b)[1..] == a[1..] + b;
      ExecAppend(w, Step(w, s, a[0]).value, a[1..], b);
    }
  }

  /** A step changes one file at most: the one another client stored, or the one whose call records the
      change, from what was there to what the task asks for. */
  lemma OnlyEffectsChangeFiles(w: Setting, s: State, e: Event, at: Place)
    requires Step(w, s, e).Some?
    ensures var s' := Step(w, s, e).value;
      match e
      case Other(other, content) => Current(s'.files, at) == if at == other then content else Current(s.files, at)
      case Probe(_, _) => s'.files == s.files
      case Act(id, _, applied) =>
        && s'.calls[id].Done?
        && s'.calls[id].effect ==
           (if applied then Some(Change(Current(s.files, w.tasks(id).at), Current(s'.files, w.tasks(id).at))) else None)
        && (applied ==> Current(s'.files, w.tasks(id).at) == Wanted(w.tasks(id)))
        && (!applied || at != w.tasks(id).at ==> Current(s'.files, at) == Current(s.files, at))
  {
  }

  // ---------- what each call can rely on ----------

  /** A probed call saw what its next request is conditional on; the change made for a call that is
      over replaced exactly what it saw; a success was carried out, and a failure that was carried out
      all the same is transient or an unreadable success. */
  predicate Sound(w: Setting, task: Task, call: Phase) {
    match call
    case Probed(probe, saw) =>
      && HonestProbe(w, saw, probe)
      && !After(task, Interpret(probe, w.token, true)).Stop?
    case Done(result, saw, effect) =>
      && (effect.Some? ==> effect.value == Change(saw, Wanted(task)))
      && (result.Ok? ==> effect.Some?)
      && (result.Fail? && effect.Some? ==> result.failure.kind == Transient || result.failure.kind == Validation)
  }

  ghost predicate AllSound(w: Setting, s: State) {
    forall id :: id in s.calls ==> Sound(w, w.tasks(id), s.calls[id])
  }

  /** With a collision-free hash the server's check succeeds only on the content that was seen. */
  lemma CheckedIsSeen(w: Setting, task: Task, probe: Outcome, saw: Option<Content>, now: Option<Content>)
    requires Injective(w.sha)
    requires HonestProbe(w, saw, probe)
    requires Accepts(w, now, After(task, Interpret(probe, w.token, true)))
    ensures now == saw
  {
    NotFoundIs404(probe, w.token, true);
  }

  /** The second request, carried out or not, leaves its call sound. */
  lemma ReplyIsSound(w: Setting, task: Task, call: Phase, now: Option<Content>, reply: Outcome, applied: bool)
    requires Injective(w.sha) && call.Probed? && Sound(w, task, call)
    requires HonestReply(w, now, After(task, Interpret(call.probe, w.token, true)), reply, applied)
    ensures Sound(w, task, Done(Interpret(reply, w.token, true), call.saw,
                                if applied then Some(Change(now, Wanted(task))) else None))
  {
    if applied {
      CheckedIsSeen(w, task, call.probe, call.saw, now);
    }
  }

  lemma StepKeepsSound(w: Setting, s: State, e: Event)
    requires Injective(w.sha) && AllSound(w, s) && Step(w, s, e).Some?
    ensures AllSound(w, Step(w, s, e).value)
  {
    if e.Act? {
      var task := w.tasks(e.id);
      ReplyIsSound(w, task, s.calls[e.id], Current(s.files, task.at), e.reply, e.applied);
    }
  }

  lemma {:induction false} RunKeepsSound(w: Setting, s: State, run: seq<Event>)
    requires Injective(w.sha) && AllSound(w, s) && Exec(w, s, run).Some?
    ensures AllSound(w, Exec(w, s, run).value)
    decreases |run|
  {
    if run != [] {
      StepKeepsSound(w, s, run[0]);
      RunKeepsSound(w, Step(w, s, run[0]).value, run[1..]);
    }
  }

  /** In every run from a server without calls, a successful call replaced or removed exactly the
      content its own probe saw, and a failed one changed nothing unless its failure is transient or
      an unreadable success; then it changed the same thing. */
  lemma SuccessReplacesWhatItSaw(w: Setting, files: FileMap, run: seq<Event>, id: nat)
    requires Injective(w.sha) && Exec(w, State(files, map[]), run).Some?
    requires id in Exec(w, State(files, map[]), run).value.calls
    requires Exec(w, State(files, map[]), run).value.calls[id].Done?
    ensures var call := Exec(w, State(files, map[]), run).value.calls[id];
      && (call.result.Ok? ==> call.effect == Some(Change(call.saw, Wanted(w.tasks(id)))))
      && (call.result.Fail? ==>
            || call.effect.None?
            || ((call.result.failure.kind == Transient || call.result.failure.kind == Validation)
                && call.effect == Some(Change(call.saw, Wanted(w.tasks(id))))))
  {
    RunKeepsSound(w, State(files, map[]), run);
  }

  // ---------- the server as it reads requests ----------

  /** What a request asks for: a file, what is to be done under which blob SHA, and its new content. */
  datatype Order = Order(at: Place, next: Next, content: Option<Content>)

  function FileOrder(at: Place, next: Next, content: Option<Content>): Option<Order> {
    if content.None? then None else Some(Order(at, next, content))
  }

  /** Method and path give the endpoint and its arguments, the body the branch, the blob SHA and the content. */
  function ReadOrder(request: Request, body: Body): Option<Order> {
    match (Read(request), body)
    case (Some(Repo(owner, repo, Files(CreateFile(path)))), FileBody(file)) =>
      FileOrder(Place(owner, repo, path, file.branch), Create, Base64.Decode(file.content))
    case (Some(Repo(owner, repo, Files(UpdateFile(path)))), FileBody(file)) =>
      FileOrder(Place(owner, repo, path, file.branch), Update(file.sha), Base64.Decode(file.content))
    case (Some(Repo(owner, repo, Files(DeleteFile(path)))), DeleteBody(_, branch, sha)) =>
      Some(Order(Place(owner, repo, path, branch), Remove(sha), None))
    case _ => None
  }

  /** The file that a probe asks for. */
  function ReadProbe(request: Request): Option<Place> {
    match Read(request)
    case Some(Repo(owner, repo, Files(ListContents(path, ref, _, _)))) => Some(Place(owner, repo, path, ref))
    case Some(Repo(owner, repo, Files(GetFile(path, ref)))) => Some(Place(owner, repo, path, ref))
    case _ => None
  }

  /** The files after a request was carried out, None when the server has to refuse it. */
  function Serve(w: Setting, files: FileMap, request: Request, body: Body): Option<FileMap> {
    match ReadOrder(request, body)
    case None => None
    case Some(order) =>
      if Accepts(w, Current(files, order.at), order.next) then Some(Store(files, order.at, order.content)) else None
  }

  function Written(task: Task): Content {
    if task.Write? then task.content else []
  }

  lemma OrderArrives(task: Task, probe: Result<Text>, message: string)
    requires !After(task, probe).Stop?
    ensures ReadProbe(Sent(ProbeCall(task.at))) == Some(task.at)
    ensures ReadOrder(Sent(SecondCall(task.at, After(task, probe))),
                      SecondBody(task.at, message, Written(task), After(task, probe)))
            == Some(Order(task.at, After(task, probe), Wanted(task)))
  {
    ReadBack(ProbeCall(task.at));
    ReadBack(SecondCall(task.at, After(task, probe)));
    Base64.PlainRoundTrip(Written(task));
  }

  /** The protocol's step is what a server does that sees nothing but method, path, query and body: a
      request it refuses is not carried out, and one that is carried out leaves the files it says. */
  lemma ServerCarriesOutWhatWasSent(w: Setting, s: State, e: Event, message: string)
    requires e.Act? && Step(w, s, e).Some?
    ensures var task := w.tasks(e.id);
      var next := After(task, Interpret(s.calls[e.id].probe, w.token, true));
      (!next.Stop? ==>
         var served := Serve(w, s.files, Sent(SecondCall(task.at, next)),
                             SecondBody(task.at, message, Written(task), next));
         && (e.applied ==> served == Some(Step(w, s, e).value.files))
         && (served.None? ==> !e.applied && Step(w, s, e).value.files == s.files))
      && (e.applied ==> !next.Stop?)
  {
    var task := w.tasks(e.id);
    var probe := Interpret(s.calls[e.id].probe, w.token, true);
    if !After(task, probe).Stop? {
      OrderArrives(task, probe, message);
    }
  }

  // ---------- serial runs ----------

  /** The run without its probes and its requests that were not carried out; a request that was gets its
      call's probe right before it. */
  function Serial(w: Setting, s: State, run: seq<Event>): seq<Event>
    requires Exec(w, s, run).Some?
    decreases |run|
  {
    if run == [] then []
    else
      var e := run[0];
      var rest := Serial(w, Step(w, s, e).value, run[1..]);
      match e
      case Other(_, _) => [e] + rest
      case Probe(_, _) => rest
      case Act(id, _, applied) => if applied then [Probe(id, s.calls[id].probe), e] + rest else rest
  }

  /** Every probe is followed at once by its own carried-out request. */
  predicate IsSerial(run: seq<Event>)
    decreases |run|
  {
    run == [] ||
    (match run[0]
     case Other(_, _) => IsSerial(run[1..])
     case Probe(id, _) => |run| >= 2 && run[1].Act? && run[1].id == id && run[1].applied && IsSerial(run[2..])
     case Act(_, _, _) => false)
  }

  lemma {:induction false} SerialIsSerial(w: Setting, s: State, run: seq<Event>)
    requires Exec(w, s, run).Some?
    ensures IsSerial(Serial(w, s, run))
    decreases |run|
  {
    if run != [] {
      var e := run[0];
      var s' := Step(w, s, e).value;
      SerialIsSerial(w, s', run[1..]);
      var rest := Serial(w, s', run[1..]);
      if e.Act? && e.applied {
        var pair := [Probe(e.id, s.calls[e.id].probe), e] + rest;
        assert pair[1] == e && pair[2..] == rest;
      } else if e.Other? {
        assert ([e] + rest)[1..] == rest;
      }
    }
  }

  /** The calls that changed something. */
  function Effective(calls: map<nat, Phase>): map<nat, Phase> {
    map id | id in calls && calls[id].Done? && calls[id].effect.Some? :: calls[id]
  }

  /** What remains of a state in the serial run. */
  function Remaining(s: State): State {
    State(s.files, Effective(s.calls))
  }

  lemma PairFollows(w: Setting, s: State, id: nat, reply: Outcome)
    requires Injective(w.sha) && AllSound(w, s)
    requires Step(w, s, Act(id, reply, true)).Some?
    ensures Exec(w, Remaining(s), [Probe(id, s.calls[id].probe), Act(id, reply, true)])
            == Some(Remaining(Step(w, s, Act(id, reply, true)).value))
  {
    var e := Act(id, reply, true);
    var t := Remaining(s);
    var call := s.calls[id];
    var task := w.tasks(id);
    var now := Current(s.files, task.at);
    CheckedIsSeen(w, task, call.probe, call.saw, now);
    var p := Probe(id, call.probe);
    assert id !in t.calls;
    var mid := Step(w, t, p).value;
    assert mid == t.(calls := t.calls[id := Probed(call.probe, now)]);
    assert Effective(Step(w, s, e).value.calls) == mid.calls[id := Step(w, s, e).value.calls[id]];
    assert Step(w, mid, e) == Some(Remaining(Step(w, s, e).value));
    assert [p, e][1..] == [e] && [e][1..] == [];
    assert Exec(w, mid, [e]) == Some(Remaining(Step(w, s, e).value));
  }

  lemma DroppedIsInvisible(w: Setting, s: State, e: Event)
    requires Step(w, s, e).Some?
    requires e.Probe? || (e.Act? && !e.applied)
    ensures Remaining(Step(w, s, e).value) == Remaining(s)
  {
    var s' := Step(w, s, e).value;
    assert Effective(s'.calls) == Effective(s.calls);
  }

  /** Every run equals a serial one: the same files at the end, and the same outcome for every call that
      changed something, each with its probe and its request next to each other; the other calls,
      failed or unfinished, are simply not there. */
  lemma {:induction false} EveryRunIsSerial(w: Setting, s: State, run: seq<Event>)
    requires Injective(w.sha) && AllSound(w, s) && Exec(w, s, run).Some?
    ensures Exec(w, Remaining(s), Serial(w, s, run)) == Some(Remaining(Exec(w, s, run).value))
    decreases |run|
  {
    if run != [] {
      var e := run[0];
      var s' := Step(w, s, e).value;
      StepKeepsSound(w, s, e);
      EveryRunIsSerial(w, s', run[1..]);
      var rest := Serial(w, s', run[1..]);
      match e
      case Other(at, content) =>
        assert ([e] + rest)[1..] == rest;
      case Probe(_, _) =>
        DroppedIsInvisible(w, s, e);
      case Act(id, reply, applied) =>
        if applied {
          PairFollows(w, s, id, reply);
          ExecAppend(w, Remaining(s), [Probe(id, s.calls[id].probe), e], rest);
        } else {
          DroppedIsInvisible(w, s, e);
        }
    }
  }

  lemma RunsAreSerializable(w: Setting, files: FileMap, run: seq<Event>)
    requires Injective(w.sha) && Exec(w, State(files, map[]), run).Some?
    ensures var s := State(files, map[]);
      && IsSerial(Serial(w, s, run))
      && Exec(w, s, Serial(w, s, run)) == Some(Remaining(Exec(w, s, run).value))
  {
    var s := State(files, map[]);
    SerialIsSerial(w, s, run);
    EveryRunIsSerial(w, s, run);
    assert Remaining(s) == s;
  }

  // ---------- the assumptions are needed ----------

  function Readable(field: Text): Outcome {
    Answer(200, "", None, field)
  }

  /** If two contents share a blob SHA, a write can replace a content its probe never saw: another
      client stores the second content between the write's two requests. */
  lemma CollisionLosesUpdate(w: Setting, at: Place, c: Content, d: Content, x: Content)
    requires c != d && w.sha(c) == w.sha(d)
    requires w.tasks(0) == Write(at, x)
    ensures var run := [Probe(0, Readable(w.sha(c))), Other(at, Some(d)), Act(0, Readable(""), true)];
      var end := Exec(w, State(map[at := c], map[]), run);
      && end.Some? && 0 in end.value.calls
      && end.value.calls[0] == Done(Ok(""), Some(c), Some(Change(Some(d), Some(x))))
  {
    var e0, e1, e2 := Probe(0, Readable(w.sha(c))), Other(at, Some(d)), Act(0, Readable(""), true);
    var s0 := State(map[at := c], map[]);
    var s1 := Step(w, s0, e0).value;
    assert s1.calls[0] == Probed(Readable(w.sha(c)), Some(c));
    var s2 := Step(w, s1, e1).value;
    assert Current(s2.files, at) == Some(d) && s2.calls == s1.calls;
    var s3 := Step(w, s2, e2).value;
    assert [e0, e1, e2][1..] == [e1, e2] && [e1, e2][1..] == [e2] && [e2][1..] == [];
    assert Exec(w, s2, [e2]) == Some(s3);
    assert Exec(w, s1, [e1, e2]) == Some(s3);
  }

  /** A start for a call: no file to write, an empty one to delete. */
  function Before(task: Task): Option<Content> {
    if task.Write? then None else Some([])
  }

  /** The answer to a probe of that start. */
  function FirstAnswer(w: Setting, task: Task): Outcome {
    if task.Write? then Answer(404, "", None, "") else Readable(w.sha([]))
  }

  lemma FirstProbe(w: Setting, id: nat)
    ensures var task := w.tasks(id); var s := State(Store(map[], task.at, Before(task)), map[]);
      Step(w, s, Probe(id, FirstAnswer(w, task))) ==
      Some(s.(calls := map[id := Probed(FirstAnswer(w, task), Before(task))]))
  {
    NotFoundIs404(FirstAnswer(w, w.tasks(id)), w.token, true);
  }

  /** A failed call does not mean that nothing happened: after any reply that is no refusal below 500
      the change may have been made. */
  lemma FailedReplyMayHaveChanged(w: Setting, id: nat, reply: Outcome)
    requires reply.Answer? ==> Success(reply.status) || reply.status >= 500
    ensures var task := w.tasks(id);
      var run := [Probe(id, FirstAnswer(w, task)), Act(id, reply, true)];
      var end := Exec(w, State(Store(map[], task.at, Before(task)), map[]), run);
      && end.Some? && id in end.value.calls
      && end.value.calls[id] ==
         Done(Interpret(reply, w.token, true), Before(task), Some(Change(Before(task), Wanted(task))))
      && end.value.files == Store(map[], task.at, Wanted(task))
  {
    var task := w.tasks(id);
    var e0, e1 := Probe(id, FirstAnswer(w, task)), Act(id, reply, true);
    var s0 := State(Store(map[], task.at, Before(task)), map[]);
    FirstProbe(w, id);
    var s1 := Step(w, s0, e0).value;
    assert Current(s1.files, task.at) == Before(task);
    assert Store(s1.files, task.at, Wanted(task)) == Store(map[], task.at, Wanted(task));
    assert [e0, e1][1..] == [e1] && [e1][1..] == [];
    assert Exec(w, s1, [e1]) == Step(w, s1, e1);
  }

  /** The call with this number has failed with this kind at the end of the run. */
  ghost predicate FailedWith(w: Setting, files: FileMap, run: seq<Event>, id: nat, kind: ErrorKind) {
    var end := Exec(w, State(files, map[]), run);
    && end.Some? && id in end.value.calls && end.value.calls[id].Done?
    && end.value.calls[id].result.Fail? && end.value.calls[id].result.failure.kind == kind
  }

  function EffectOf(w: Setting, files: FileMap, run: seq<Event>, id: nat): Option<Change>
    requires Exec(w, State(files, map[]), run).Some?
    requires id in Exec(w, State(files, map[]), run).value.calls
    requires Exec(w, State(files, map[]), run).value.calls[id].Done?
  {
    Exec(w, State(files, map[]), run).value.calls[id].effect
  }

  /** No run has a call that failed with this kind and changed something. */
  ghost predicate KindIsHarmless(w: Setting, kind: ErrorKind) {
    forall files, run, id :: FailedWith(w, files, run, id, kind) ==> EffectOf(w, files, run, id).None?
  }

  /** Which failures tell the caller that nothing was changed: those of every kind but transient, for a
      lost reply, and validation, for a success whose body could not be read. */
  lemma HarmlessExactly(w: Setting, kind: ErrorKind)
    requires Injective(w.sha)
    ensures KindIsHarmless(w, kind) <==> !kind.Transient? && !kind.Validation?
  {
    if kind.Transient? || kind.Validation? {
      var task := w.tasks(0);
      var reply := if kind.Transient? then TransportError("", None) else Answer(200, "", Some(""), "");
      FailedReplyMayHaveChanged(w, 0, reply);
      var files := Store(map[], task.at, Before(task));
      var run := [Probe(0, FirstAnswer(w, task)), Act(0, reply, true)];
      assert FailedWith(w, files, run, 0, kind) && EffectOf(w, files, run, 0).Some?;
    } else {
      forall files, run, id | FailedWith(w, files, run, id, kind) ensures EffectOf(w, files, run, id).None? {
        SuccessReplacesWhatItSaw(w, files, run, id);
      }
    }
  }
}
