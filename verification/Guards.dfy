/** Check-then-act guards while others change the guarded fact: a branch delete that first reads the
    default branch, and a merge that first asks whether the pull request is merged. */
module Guards {
  import opened Bytes
  import opened Texts
  import opened Errors
  import Application
  import ForgejoClient

  /** Not in the map: not started. Cleared: the check allowed the second request. */
  datatype Phase = Cleared | Over

  /** The branches, the default one, the merged pull requests, and where each call stands. */
  datatype State = State(default: Text, branches: set<Text>, merged: set<int>, calls: map<nat, Phase>)

  datatype Task = DeleteBranch(branch: Text) | Merge(index: int)

  /** A check, a second request that the server carries out or not, and what other clients do. */
  datatype Event =
    | Check(id: nat, answer: Outcome)
    | Act(id: nat, applied: bool)
    | SetDefault(branch: Text)
    | BranchMade(branch: Text)
    | BranchGone(branch: Text)
    | MergedElsewhere(index: int)

  /** The fact that forbids a call: its branch is the default, or its pull request is merged. */
  predicate Forbidden(task: Task, s: State) {
    match task
    case DeleteBranch(branch) => s.default == branch
    case Merge(index) => index in s.merged
  }

  /** A readable answer states the fact as it is. */
  predicate HonestCheck(task: Task, s: State, answer: Outcome, token: string) {
    match task
    case DeleteBranch(_) => Interpret(answer, token, true).Ok? ==> answer.field == s.default
    case Merge(index) =>
      && (ForgejoClient.MergedAnswer(answer, token) == Ok(false) ==> index !in s.merged)
      && (ForgejoClient.MergedAnswer(answer, token) == Ok(true) ==> index in s.merged)
  }

  /** Whether the use case sends the second request after this answer. */
  predicate GoesOn(task: Task, answer: Outcome, token: string) {
    match task
    case DeleteBranch(branch) => Application.BranchCleared(Interpret(answer, token, true), branch)
    case Merge(_) => Application.MergeCleared(ForgejoClient.MergedAnswer(answer, token))
  }

  /** The default is an existing branch when it is set, and other clients do not delete it. */
  predicate Enabled(tasks: nat -> Task, token: string, s: State, e: Event) {
    match e
    case Check(id, answer) => id !in s.calls && HonestCheck(tasks(id), s, answer, token)
    case Act(id, _) => id in s.calls && s.calls[id].Cleared?
    case SetDefault(branch) => branch in s.branches
    case BranchGone(branch) => branch != s.default
    case _ => true
  }

  function Carried(s: State, task: Task): State {
    match task
    case DeleteBranch(branch) => s.(branches := s.branches - {branch})
    case Merge(index) => s.(merged := s.merged + {index})
  }

  function Next(tasks: nat -> Task, token: string, s: State, e: Event): State
    requires Enabled(tasks, token, s, e)
  {
    match e
    case Check(id, answer) =>
      s.(calls := s.calls[id := if GoesOn(tasks(id), answer, token) then Cleared else Over])
    case Act(id, applied) =>
      var over := s.(calls := s.calls[id := Over]);
      if applied then Carried(over, tasks(id)) else over
    case SetDefault(branch) => s.(default := branch)
    case BranchMade(branch) => s.(branches := s.branches + {branch})
    case BranchGone(branch) => s.(branches := s.branches - {branch})
    case MergedElsewhere(index) => s.(merged := s.merged + {index})
  }

  /** A run as the states it goes through. */
  ghost predicate Trace(tasks: nat -> Task, token: string, states: seq<State>, events: seq<Event>) {
    && |states| == |events| + 1
    && states[0].calls == map[]
    && forall k :: 0 <= k < |events| ==>
         Enabled(tasks, token, states[k], events[k]) && states[k + 1] == Next(tasks, token, states[k], events[k])
  }

  /** The check of the answer to which a call is cleared was made when nothing forbade it. */
  lemma ClearedMeansAllowed(tasks: nat -> Task, token: string, s: State, id: nat, answer: Outcome)
    requires Enabled(tasks, token, s, Check(id, answer)) && GoesOn(tasks(id), answer, token)
    ensures !Forbidden(tasks(id), s)
  {
  }

  /** A cleared call has its check behind it, made when nothing forbade it, and is cleared since. */
  ghost predicate CheckedAt(tasks: nat -> Task, states: seq<State>, events: seq<Event>, id: nat, k: nat, c: nat)
    requires |states| == |events| + 1 && k < |states|
  {
    && c < k && events[c].Check? && events[c].id == id
    && !Forbidden(tasks(id), states[c])
    && forall m :: c < m <= k ==> id in states[m].calls && states[m].calls[id].Cleared?
  }

  lemma {:induction false} FindCheck(tasks: nat -> Task, token: string, states: seq<State>, events: seq<Event>,
                                     id: nat, k: nat) returns (c: nat)
    requires Trace(tasks, token, states, events) && k < |states|
    requires id in states[k].calls && states[k].calls[id].Cleared?
    ensures CheckedAt(tasks, states, events, id, k, c)
  {
    var e := events[k - 1];
    if e.Check? && e.id == id {
      ClearedMeansAllowed(tasks, token, states[k - 1], id, e.answer);
      c := k - 1;
    } else {
      c := FindCheck(tasks, token, states, events, id, k - 1);
    }
  }

  // ---------- exactly when a second request comes too late ----------

  /** The event makes the fact true that forbids the task, whatever it was before. */
  predicate TurnsOn(tasks: nat -> Task, task: Task, e: Event) {
    match task
    case DeleteBranch(branch) => e == SetDefault(branch)
    case Merge(index) =>
      || e == MergedElsewhere(index)
      || (e.Act? && e.applied && tasks(e.id) == task)
  }

  /** The event makes it false: another branch becomes the default. Nothing undoes a merge. */
  predicate TurnsOff(task: Task, e: Event) {
    task.DeleteBranch? && e.SetDefault? && e.branch != task.branch
  }

  /** Between the two positions some event makes the fact true and no later one makes it false again. */
  predicate TurnedOn(tasks: nat -> Task, task: Task, events: seq<Event>, c: nat, k: nat)
    requires c <= k <= |events|
  {
    exists j ::
      c <= j < k && TurnsOn(tasks, task, events[j]) && forall i :: j < i < k ==> !TurnsOff(task, events[i])
  }

  lemma StepTurns(tasks: nat -> Task, token: string, task: Task, s: State, e: Event)
    requires Enabled(tasks, token, s, e)
    ensures Forbidden(task, Next(tasks, token, s, e)) <==>
            TurnsOn(tasks, task, e) || (Forbidden(task, s) && !TurnsOff(task, e))
  {
  }

  lemma TurnedOnNext(tasks: nat -> Task, task: Task, events: seq<Event>, c: nat, k: nat)
    requires c < k <= |events|
    ensures TurnedOn(tasks, task, events, c, k) <==>
            || TurnsOn(tasks, task, events[k - 1])
            || (TurnedOn(tasks, task, events, c, k - 1) && !TurnsOff(task, events[k - 1]))
  {
    if TurnedOn(tasks, task, events, c, k) {
      var j :| c <= j < k && TurnsOn(tasks, task, events[j]) && forall i :: j < i < k ==> !TurnsOff(task, events[i]);
      assert j < k - 1 ==> !TurnsOff(task, events[k - 1]);
    }
  }

  lemma {:induction false} ForbiddenFrom(tasks: nat -> Task, token: string, states: seq<State>, events: seq<Event>,
                                         task: Task, c: nat, k: nat)
    requires Trace(tasks, token, states, events) && c <= k < |states|
    requires !Forbidden(task, states[c])
    ensures Forbidden(task, states[k]) <==> TurnedOn(tasks, task, events, c, k)
    decreases k
  {
    if c < k {
      ForbiddenFrom(tasks, token, states, events, task, c, k - 1);
      StepTurns(tasks, token, task, states[k - 1], events[k - 1]);
      TurnedOnNext(tasks, task, events, c, k);
    }
  }

  /** The second request of a call has its check behind it, and it meets the forbidding fact exactly when
      since that check its branch was made the default and no other one after it, or its pull request
      was merged. */
  lemma ForbiddenActExactly(tasks: nat -> Task, token: string, states: seq<State>, events: seq<Event>, k: nat)
    requires Trace(tasks, token, states, events)
    requires k < |events| && events[k].Act?
    ensures exists c: nat :: CheckedAt(tasks, states, events, events[k].id, k, c)
    ensures forall c: nat :: CheckedAt(tasks, states, events, events[k].id, k, c) ==>
      (Forbidden(tasks(events[k].id), states[k]) <==> TurnedOn(tasks, tasks(events[k].id), events, c, k))
  {
    var id := events[k].id;
    var found := FindCheck(tasks, token, states, events, id, k);
    forall c: nat | CheckedAt(tasks, states, events, id, k, c)
      ensures Forbidden(tasks(id), states[k]) <==> TurnedOn(tasks, tasks(id), events, c, k)
    {
      ForbiddenFrom(tasks, token, states, events, tasks(id), c, k);
    }
  }

  // ---------- runs in which nobody interferes ----------

  predicate Own(e: Event, id: nat) {
    e.Act? && e.id == id
  }

  /** While a call is between its check and its act, no event but its own act makes its forbidding fact true. */
  ghost predicate Undisturbed(tasks: nat -> Task, states: seq<State>, events: seq<Event>)
    requires |states| == |events| + 1
  {
    forall j, id ::
      (0 <= j < |events| && id in states[j].calls && states[j].calls[id].Cleared? && !Own(events[j], id)) ==>
      !TurnsOn(tasks, tasks(id), events[j])
  }

  /** In an undisturbed run no request to delete the default branch goes out, and no request to merge a
      merged pull request. */
  lemma GuardHolds(tasks: nat -> Task, token: string, states: seq<State>, events: seq<Event>, k: nat)
    requires Trace(tasks, token, states, events) && Undisturbed(tasks, states, events)
    requires k < |events| && events[k].Act?
    ensures match tasks(events[k].id)
      case DeleteBranch(branch) => states[k].default != branch
      case Merge(index) => index !in states[k].merged
  {
    var id := events[k].id;
    ForbiddenActExactly(tasks, token, states, events, k);
    var c: nat :| CheckedAt(tasks, states, events, id, k, c);
    forall j | c <= j < k ensures !TurnsOn(tasks, tasks(id), events[j]) {
      if c < j {
        assert states[j + 1] == Next(tasks, token, states[j], events[j]);
        assert states[j + 1].calls[id].Cleared? && states[j].calls[id].Cleared?;
      }
    }
  }

  /** So the default branch exists throughout an undisturbed run. */
  lemma {:induction false} DefaultBranchSurvives(tasks: nat -> Task, token: string,
                                                 states: seq<State>, events: seq<Event>, k: nat)
    requires Trace(tasks, token, states, events) && Undisturbed(tasks, states, events)
    requires states[0].default in states[0].branches && k < |states|
    ensures states[k].default in states[k].branches
    decreases k
  {
    if k > 0 {
      DefaultBranchSurvives(tasks, token, states, events, k - 1);
      if events[k - 1].Act? {
        GuardHolds(tasks, token, states, events, k - 1);
      }
    }
  }

  /** The condition does not shut out merges: a call checks and merges its pull request. */
  lemma MergeIsUndisturbed(token: string)
    returns (tasks: nat -> Task, states: seq<State>, events: seq<Event>)
    ensures Trace(tasks, token, states, events) && Undisturbed(tasks, states, events)
    ensures |events| == 2 && 7 !in states[1].merged && 7 in states[2].merged
  {
    tasks := (id: nat) => Merge(7);
    var no := Answer(404, "", None, "");
    assert ForgejoClient.MergedAnswer(no, token) == Ok(false);
    events := [Check(0, no), Act(0, true)];
    var s0 := State("main", {"main"}, {}, map[]);
    var s1 := Next(tasks, token, s0, events[0]);
    states := [s0, s1, Next(tasks, token, s1, events[1])];
  }

  // ---------- runs in which somebody does ----------

  /** Without the condition: the branch becomes the default after the check and is deleted. */
  lemma DefaultBranchCanBeDeleted(token: string)
    returns (tasks: nat -> Task, states: seq<State>, events: seq<Event>)
    ensures Trace(tasks, token, states, events) && |events| == 3
    ensures states[0].default in states[0].branches
    ensures tasks(0) == DeleteBranch("release") && events[2] == Act(0, true)
    ensures states[2].default == "release" && "release" in states[2].branches
    ensures states[3].default == "release" && "release" !in states[3].branches
  {
    tasks := (id: nat) => DeleteBranch("release");
    var answer := Answer(200, "", None, "main");
    events := [Check(0, answer), SetDefault("release"), Act(0, true)];
    assert "main" != "release" by {
      assert |"main"| != |"release"|;
    }
    var s0 := State("main", {"main", "release"}, {}, map[]);
    var s1 := Next(tasks, token, s0, events[0]);
    var s2 := Next(tasks, token, s1, events[1]);
    states := [s0, s1, s2, Next(tasks, token, s2, events[2])];
  }

  /** Two merges of the same pull request both pass their check before either merges it: the second
      request is sent after the pull request is merged. */
  lemma MergeCanComeTooLate(token: string)
    returns (tasks: nat -> Task, states: seq<State>, events: seq<Event>)
    ensures Trace(tasks, token, states, events) && |events| == 4
    ensures events[3] == Act(1, false)
    ensures tasks(1) == Merge(7) && 7 in states[3].merged
  {
    tasks := (id: nat) => Merge(7);
    var no := Answer(404, "", None, "");
    events := [Check(0, no), Check(1, no), Act(0, true), Act(1, false)];
    var s0 := State("main", {"main"}, {}, map[]);
    assert ForgejoClient.MergedAnswer(no, token) == Ok(false);
    var s1 := Next(tasks, token, s0, events[0]);
    var s2 := Next(tasks, token, s1, events[1]);
    var s3 := Next(tasks, token, s2, events[2]);
    states := [s0, s1, s2, s3, Next(tasks, token, s3, events[3])];
  }
}
