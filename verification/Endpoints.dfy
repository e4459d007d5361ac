/** The endpoint table of the client: every call as a method, an escaped path and query values,
    and a reader that recovers the call. */
module Endpoints {
  import opened Bytes
  import opened Texts
  import opened Upstream

  type Query = map<string, Text>

  datatype Request = Request(verb: Verb, path: Text, query: Query)

  /** A request below a common prefix: the remaining segments as they stand in the path. */
  datatype Tail = Tail(verb: Verb, segs: seq<Text>, query: Query)

  /** No segment can be taken for two. */
  predicate Clean(segs: seq<Text>) {
    forall i :: 0 <= i < |segs| ==> '/' !in segs[i]
  }

  // ---------- query values ----------

  function SetText(q: Query, key: string, value: Text): Query {
    if value == "" then q else q[key := value]
  }

  function SetNumber(q: Query, key: string, n: int): Query {
    if n > 0 then q[key := FormatInt(n)] else q
  }

  function SetPagination(q: Query, page: int, limit: int): Query {
    SetNumber(SetNumber(q, "page", page), "limit", limit)
  }

  function GetText(q: Query, key: string): Text {
    if key in q then q[key] else ""
  }

  function GetNumber(q: Query, key: string): int {
    if key in q then ParseInt(q[key]) else 0
  }

  function Positive(n: int): int {
    if n > 0 then n else 0
  }

  /** One text filter and the page: what a listing sends is read back, up to non-positive numbers. */
  function Listing(key: string, value: Text, page: int, limit: int): Query {
    SetPagination(SetText(map[], key, value), page, limit)
  }

  lemma TextReads(q: Query, key: string, value: Text, other: string)
    requires key !in q
    ensures GetText(SetText(q, key, value), key) == value
    ensures other != key ==> (other in SetText(q, key, value) <==> other in q)
    ensures other != key ==> GetText(SetText(q, key, value), other) == GetText(q, other)
    ensures other != key ==> GetNumber(SetText(q, key, value), other) == GetNumber(q, other)
  {
  }

  lemma NumberReads(q: Query, key: string, n: int, other: string)
    requires key !in q
    ensures GetNumber(SetNumber(q, key, n), key) == Positive(n)
    ensures other != key ==> (other in SetNumber(q, key, n) <==> other in q)
    ensures other != key ==> GetText(SetNumber(q, key, n), other) == GetText(q, other)
    ensures other != key ==> GetNumber(SetNumber(q, key, n), other) == GetNumber(q, other)
  {
    IntRoundTrip(n);
  }

  lemma ListingRoundTrip(key: string, value: Text, page: int, limit: int)
    requires key != "page" && key != "limit"
    ensures var q := Listing(key, value, page, limit);
      && GetText(q, key) == value
      && GetNumber(q, "page") == Positive(page)
      && GetNumber(q, "limit") == Positive(limit)
  {
    var p, l := "page", "limit";
    assert |p| != |l|;
    var q0 := SetText(map[], key, value);
    var q1 := SetNumber(q0, p, page);
    TextReads(map[], key, value, p);
    TextReads(map[], key, value, l);
    NumberReads(q0, p, page, key);
    NumberReads(q0, p, page, l);
    NumberReads(q1, l, limit, key);
    NumberReads(q1, l, limit, p);
  }

  // ---------- files ----------

  datatype FileCall =
    | ListContents(path: Text, ref: Text, page: int, limit: int)
    | GetFile(path: Text, ref: Text)
    | CreateFile(path: Text)
    | UpdateFile(path: Text)
    | DeleteFile(path: Text)
    | ChangeFiles

  function FileTail(c: FileCall): Tail {
    match c
    case ListContents(path, ref, page, limit) =>
      Tail(GET, if path == "" then ["contents"] else ["contents", PathEscape(path)],
           Listing("ref", ref, page, limit))
    case GetFile(path, ref) => Tail(GET, ["contents", PathEscape(path)], SetText(map[], "ref", ref))
    case CreateFile(path) => Tail(POST, ["contents", PathEscape(path)], map[])
    case UpdateFile(path) => Tail(PUT, ["contents", PathEscape(path)], map[])
    case DeleteFile(path) => Tail(DELETE, ["contents", PathEscape(path)], map[])
    case ChangeFiles => Tail(POST, ["contents"], map[])
  }

  function ReadFile(t: Tail): Option<FileCall> {
    if t.segs == ["contents"] then
      if t.verb == POST then Some(ChangeFiles)
      else Some(ListContents("", GetText(t.query, "ref"), GetNumber(t.query, "page"), GetNumber(t.query, "limit")))
    else if |t.segs| != 2 then None
    else
      var path := Unescape(t.segs[1]);
      match t.verb {
        case GET =>
          if path == "" then Some(GetFile("", GetText(t.query, "ref")))
          else
            var page, limit := GetNumber(t.query, "page"), GetNumber(t.query, "limit");
            Some(ListContents(path, GetText(t.query, "ref"), page, limit))
        case POST => Some(CreateFile(path))
        case PUT => Some(UpdateFile(path))
        case DELETE => Some(DeleteFile(path))
        case PATCH => None
      }
  }

  /** Non-positive pages are not sent, and a file read without page is a listing of one path. */
  function NormalFile(c: FileCall): FileCall {
    match c
    case ListContents(path, ref, page, limit) => ListContents(path, ref, Positive(page), Positive(limit))
    case GetFile(path, ref) => if path == "" then c else ListContents(path, ref, 0, 0)
    case _ => c
  }

  lemma FileReadBack(c: FileCall)
    ensures ReadFile(FileTail(c)) == Some(NormalFile(c))
    ensures FileTail(NormalFile(c)) == FileTail(c)
  {
    if !c.ChangeFiles? {
      EscapeRoundTrip(c.path);
    }
    if c.ListContents? {
      ListingRoundTrip("ref", c.ref, c.page, c.limit);
    } else if c.GetFile? {
      ListingRoundTrip("ref", c.ref, 0, 0);
    }
  }

  lemma FileSegments(c: FileCall)
    ensures Clean(FileTail(c).segs)
    ensures FileTail(c).segs != [] && FileTail(c).segs[0] == "contents"
  {
    if !c.ChangeFiles? {
      EscapedIsClean(c.path);
    }
  }

  // ---------- issues ----------

  datatype IssueCall =
    | ListIssues(state: Text, page: int, limit: int)
    | CreateIssue
    | GetIssue(index: int)
    | UpdateIssue(index: int)
    | DeleteIssue(index: int)
    | ListComments(index: int)
    | CreateIssueComment(index: int)
    | DeleteComment(index: int)
    | SetIssueLabels(index: int)

  function IssueTail(c: IssueCall): Tail {
    match c
    case ListIssues(state, page, limit) => Tail(GET, ["issues"], Listing("state", state, page, limit))
    case CreateIssue => Tail(POST, ["issues"], map[])
    case GetIssue(index) => Tail(GET, ["issues", FormatInt(index)], map[])
    case UpdateIssue(index) => Tail(PATCH, ["issues", FormatInt(index)], map[])
    case DeleteIssue(index) => Tail(DELETE, ["issues", FormatInt(index)], map[])
    case ListComments(index) => Tail(GET, ["issues", FormatInt(index), "comments"], map[])
    case CreateIssueComment(index) => Tail(POST, ["issues", FormatInt(index), "comments"], map[])
    case DeleteComment(index) => Tail(DELETE, ["issues", "comments", FormatInt(index)], map[])
    case SetIssueLabels(index) => Tail(PUT, ["issues", FormatInt(index), "labels"], map[])
  }

  function ReadIssue(t: Tail): Option<IssueCall> {
    if |t.segs| == 1 then
      if t.verb == POST then Some(CreateIssue)
      else Some(ListIssues(GetText(t.query, "state"), GetNumber(t.query, "page"), GetNumber(t.query, "limit")))
    else if |t.segs| == 2 then
      var index := ParseInt(t.segs[1]);
      match t.verb {
        case GET => Some(GetIssue(index))
        case PATCH => Some(UpdateIssue(index))
        case DELETE => Some(DeleteIssue(index))
        case _ => None
      }
    else if |t.segs| == 3 then
      match t.verb {
        case GET => Some(ListComments(ParseInt(t.segs[1])))
        case POST => Some(CreateIssueComment(ParseInt(t.segs[1])))
        case DELETE => Some(DeleteComment(ParseInt(t.segs[2])))
        case PUT => Some(SetIssueLabels(ParseInt(t.segs[1])))
        case PATCH => None
      }
    else None
  }

  function NormalIssue(c: IssueCall): IssueCall {
    match c
    case ListIssues(state, page, limit) => ListIssues(state, Positive(page), Positive(limit))
    case _ => c
  }

  lemma IssueByIndexReadBack(c: IssueCall)
    requires !c.ListIssues? && !c.CreateIssue?
    ensures ReadIssue(IssueTail(c)) == Some(c)
  {
    IntRoundTrip(c.index);
  }

  lemma IssueReadBack(c: IssueCall)
    ensures ReadIssue(IssueTail(c)) == Some(NormalIssue(c))
    ensures IssueTail(NormalIssue(c)) == IssueTail(c)
  {
    match c
    case ListIssues(state, page, limit) => ListingRoundTrip("state", state, page, limit);
    case CreateIssue =>
    case _ => IssueByIndexReadBack(c);
  }

  lemma IssueSegments(c: IssueCall)
    ensures Clean(IssueTail(c).segs)
    ensures IssueTail(c).segs != [] && IssueTail(c).segs[0] == "issues"
  {
    if !c.ListIssues? && !c.CreateIssue? {
      IntRoundTrip(c.index);
    }
  }

  // ---------- pull requests ----------

  datatype PullCall =
    | ListPullRequests(state: Text, page: int, limit: int)
    | CreatePullRequest
    | GetPull(index: int)
    | UpdatePullRequest(index: int)
    | GetPullDiff(index: int)
    | PullFiles(index: int)
    | IsPullRequestMerged(index: int)
    | MergePullRequest(index: int)
    | CreatePullReview(index: int)
    | SubmitPullReview(index: int, review: int)

  function PullTail(c: PullCall): Tail {
    match c
    case ListPullRequests(state, page, limit) => Tail(GET, ["pulls"], Listing("state", state, page, limit))
    case CreatePullRequest => Tail(POST, ["pulls"], map[])
    case GetPull(index) => Tail(GET, ["pulls", FormatInt(index)], map[])
    case UpdatePullRequest(index) => Tail(PATCH, ["pulls", FormatInt(index)], map[])
    case GetPullDiff(index) => Tail(GET, ["pulls", FormatInt(index) + ".diff"], map[])
    case PullFiles(index) => Tail(GET, ["pulls", FormatInt(index), "files"], map[])
    case IsPullRequestMerged(index) => Tail(GET, ["pulls", FormatInt(index), "merge"], map[])
    case MergePullRequest(index) => Tail(POST, ["pulls", FormatInt(index), "merge"], map[])
    case CreatePullReview(index) => Tail(POST, ["pulls", FormatInt(index), "reviews"], map[])
    case SubmitPullReview(index, review) => Tail(POST, ["pulls", FormatInt(index), "reviews", FormatInt(review)], map[])
  }

  function ReadPull(t: Tail): Option<PullCall> {
    if |t.segs| == 1 then
      if t.verb == POST then Some(CreatePullRequest)
      else Some(ListPullRequests(GetText(t.query, "state"), GetNumber(t.query, "page"), GetNumber(t.query, "limit")))
    else if |t.segs| == 2 then
      var s := t.segs[1];
      if t.verb == PATCH then Some(UpdatePullRequest(ParseInt(s)))
      else if |s| >= 5 && s[|s| - 5] == '.' then Some(GetPullDiff(ParseInt(s[..|s| - 5])))
      else Some(GetPull(ParseInt(s)))
    else if |t.segs| == 3 then
      var index := ParseInt(t.segs[1]);
      if t.segs[2] == "files" then Some(PullFiles(index))
      else if t.segs[2] == "reviews" then Some(CreatePullReview(index))
      else if t.verb == GET then Some(IsPullRequestMerged(index))
      else Some(MergePullRequest(index))
    else if |t.segs| == 4 then Some(SubmitPullReview(ParseInt(t.segs[1]), ParseInt(t.segs[3])))
    else None
  }

  function NormalPull(c: PullCall): PullCall {
    match c
    case ListPullRequests(state, page, limit) => ListPullRequests(state, Positive(page), Positive(limit))
    case _ => c
  }

  lemma DiffReadBack(index: int)
    ensures ReadPull(PullTail(GetPullDiff(index))) == Some(GetPullDiff(index))
  {
    IntRoundTrip(index);
    var n := FormatInt(index);
    var s := n + ".diff";
    assert |s| - 5 == |n| && s[|n|] == '.' && s[..|n|] == n;
  }

  lemma PullByIndexReadBack(c: PullCall)
    requires !c.ListPullRequests? && !c.CreatePullRequest? && !c.GetPullDiff?
    ensures ReadPull(PullTail(c)) == Some(c)
  {
    IntRoundTrip(c.index);
    if c.SubmitPullReview? {
      IntRoundTrip(c.review);
    }
  }

  lemma PullReadBack(c: PullCall)
    ensures ReadPull(PullTail(c)) == Some(NormalPull(c))
    ensures PullTail(NormalPull(c)) == PullTail(c)
  {
    match c
    case ListPullRequests(state, page, limit) => ListingRoundTrip("state", state, page, limit);
    case CreatePullRequest =>
    case GetPullDiff(index) => DiffReadBack(index);
    case _ => PullByIndexReadBack(c);
  }

  lemma PullSegments(c: PullCall)
    ensures Clean(PullTail(c).segs)
    ensures PullTail(c).segs != [] && PullTail(c).segs[0] == "pulls"
  {
    if !c.ListPullRequests? && !c.CreatePullRequest? {
      IntRoundTrip(c.index);
      if c.SubmitPullReview? {
        IntRoundTrip(c.review);
      }
    }
  }

  // ---------- branches, tags, commits and comparisons ----------

  datatype RefCall =
    | ListBranches
    | CreateBranch
    | GetBranch(name: Text)
    | DeleteBranch(name: Text)
    | ListTags
    | CreateTag
    | DeleteTag(name: Text)
    | GetDiff(name: Text)
    | ListCommits(name: Text, page: int, limit: int)
    | CommitStatus(name: Text)

  function RefTail(c: RefCall): Tail {
    match c
    case ListBranches => Tail(GET, ["branches"], map[])
    case CreateBranch => Tail(POST, ["branches"], map[])
    case GetBranch(name) => Tail(GET, ["branches", PathEscape(name)], map[])
    case DeleteBranch(name) => Tail(DELETE, ["branches", PathEscape(name)], map[])
    case ListTags => Tail(GET, ["tags"], map[])
    case CreateTag => Tail(POST, ["tags"], map[])
    case DeleteTag(name) => Tail(DELETE, ["tags", PathEscape(name)], map[])
    case GetDiff(name) => Tail(GET, ["compare", PathEscape(name)], map[])
    case ListCommits(name, page, limit) => Tail(GET, ["commits"], Listing("sha", name, page, limit))
    case CommitStatus(name) => Tail(GET, ["commits", PathEscape(name), "status"], map[])
  }

  function ReadRef(t: Tail): Option<RefCall> {
    if |t.segs| == 1 then
      if t.segs[0] == "branches" then Some(if t.verb == POST then CreateBranch else ListBranches)
      else if t.segs[0] == "tags" then Some(if t.verb == POST then CreateTag else ListTags)
      else Some(ListCommits(GetText(t.query, "sha"), GetNumber(t.query, "page"), GetNumber(t.query, "limit")))
    else if |t.segs| == 2 then
      var name := Unescape(t.segs[1]);
      if t.segs[0] == "tags" then Some(DeleteTag(name))
      else if t.segs[0] == "compare" then Some(GetDiff(name))
      else if t.verb == DELETE then Some(DeleteBranch(name))
      else Some(GetBranch(name))
    else if |t.segs| == 3 then Some(CommitStatus(Unescape(t.segs[1])))
    else None
  }

  function NormalRef(c: RefCall): RefCall {
    match c
    case ListCommits(name, page, limit) => ListCommits(name, Positive(page), Positive(limit))
    case _ => c
  }

  predicate RefHead(s: string) {
    s == "branches" || s == "tags" || s == "compare" || s == "commits"
  }

  lemma RefReadBack(c: RefCall)
    ensures ReadRef(RefTail(c)) == Some(NormalRef(c))
    ensures RefTail(NormalRef(c)) == RefTail(c)
  {
    if c.ListCommits? {
      ListingRoundTrip("sha", c.name, c.page, c.limit);
    } else if !c.ListBranches? && !c.CreateBranch? && !c.ListTags? && !c.CreateTag? {
      EscapeRoundTrip(c.name);
    }
  }

  lemma RefSegments(c: RefCall)
    ensures Clean(RefTail(c).segs)
    ensures RefTail(c).segs != [] && RefHead(RefTail(c).segs[0])
  {
    if !c.ListBranches? && !c.CreateBranch? && !c.ListTags? && !c.CreateTag? {
      EscapedIsClean(c.name);
    }
  }

  // ---------- releases ----------

  datatype ReleaseCall =
    | ListReleases(page: int, limit: int)
    | GetLatestRelease
    | CreateRelease
    | DeleteRelease(id: int)
    | UploadReleaseAsset(id: int)

  function ReleaseTail(c: ReleaseCall): Tail {
    match c
    case ListReleases(page, limit) => Tail(GET, ["releases"], SetPagination(map[], page, limit))
    case GetLatestRelease => Tail(GET, ["releases", "latest"], map[])
    case CreateRelease => Tail(POST, ["releases"], map[])
    case DeleteRelease(id) => Tail(DELETE, ["releases", FormatInt(id)], map[])
    case UploadReleaseAsset(id) => Tail(POST, ["releases", FormatInt(id), "assets"], map[])
  }

  function ReadRelease(t: Tail): Option<ReleaseCall> {
    if |t.segs| == 1 then
      if t.verb == POST then Some(CreateRelease)
      else Some(ListReleases(GetNumber(t.query, "page"), GetNumber(t.query, "limit")))
    else if |t.segs| == 2 then
      if t.verb == GET then Some(GetLatestRelease) else Some(DeleteRelease(ParseInt(t.segs[1])))
    else if |t.segs| == 3 then Some(UploadReleaseAsset(ParseInt(t.segs[1])))
    else None
  }

  function NormalRelease(c: ReleaseCall): ReleaseCall {
    match c
    case ListReleases(page, limit) => ListReleases(Positive(page), Positive(limit))
    case _ => c
  }

  lemma ReleaseReadBack(c: ReleaseCall)
    ensures ReadRelease(ReleaseTail(c)) == Some(NormalRelease(c))
    ensures ReleaseTail(NormalRelease(c)) == ReleaseTail(c)
  {
    if c.ListReleases? {
      ListingRoundTrip("", "", c.page, c.limit);
    } else if c.DeleteRelease? || c.UploadReleaseAsset? {
      IntRoundTrip(c.id);
    }
  }

  lemma ReleaseSegments(c: ReleaseCall)
    ensures Clean(ReleaseTail(c).segs)
    ensures ReleaseTail(c).segs != [] && ReleaseTail(c).segs[0] == "releases"
  {
    if c.DeleteRelease? || c.UploadReleaseAsset? {
      IntRoundTrip(c.id);
    }
  }

  // ---------- milestones, labels and forks ----------

  datatype TrackCall =
    | ListMilestones
    | CreateMilestone
    | UpdateMilestone(id: int)
    | DeleteMilestone(id: int)
    | ListLabels
    | CreateLabel
    | UpdateLabel(id: int)
    | DeleteLabel(id: int)
    | ForkRepository

  function TrackTail(c: TrackCall): Tail {
    match c
    case ListMilestones => Tail(GET, ["milestones"], map[])
    case CreateMilestone => Tail(POST, ["milestones"], map[])
    case UpdateMilestone(id) => Tail(PATCH, ["milestones", FormatInt(id)], map[])
    case DeleteMilestone(id) => Tail(DELETE, ["milestones", FormatInt(id)], map[])
    case ListLabels => Tail(GET, ["labels"], map[])
    case CreateLabel => Tail(POST, ["labels"], map[])
    case UpdateLabel(id) => Tail(PATCH, ["labels", FormatInt(id)], map[])
    case DeleteLabel(id) => Tail(DELETE, ["labels", FormatInt(id)], map[])
    case ForkRepository => Tail(POST, ["forks"], map[])
  }

  function ReadTrack(t: Tail): Option<TrackCall> {
    if |t.segs| == 1 then
      if t.segs[0] == "forks" then Some(ForkRepository)
      else if t.segs[0] == "labels" then Some(if t.verb == POST then CreateLabel else ListLabels)
      else Some(if t.verb == POST then CreateMilestone else ListMilestones)
    else if |t.segs| == 2 then
      var id := ParseInt(t.segs[1]);
      if t.segs[0] == "labels" then Some(if t.verb == PATCH then UpdateLabel(id) else DeleteLabel(id))
      else Some(if t.verb == PATCH then UpdateMilestone(id) else DeleteMilestone(id))
    else None
  }

  predicate TrackHead(s: string) {
    s == "milestones" || s == "labels" || s == "forks"
  }

  lemma TrackReadBack(c: TrackCall)
    ensures ReadTrack(TrackTail(c)) == Some(c)
  {
    if c.UpdateMilestone? || c.DeleteMilestone? || c.UpdateLabel? || c.DeleteLabel? {
      IntRoundTrip(c.id);
    }
  }

  lemma TrackSegments(c: TrackCall)
    ensures Clean(TrackTail(c).segs)
    ensures TrackTail(c).segs != [] && TrackHead(TrackTail(c).segs[0])
  {
    if c.UpdateMilestone? || c.DeleteMilestone? || c.UpdateLabel? || c.DeleteLabel? {
      IntRoundTrip(c.id);
    }
  }

  // ---------- everything below one repository ----------

  datatype RepoCall =
    | GetRepository
    | UpdateRepository
    | DeleteRepository
    | Files(file: FileCall)
    | Issues(issue: IssueCall)
    | Pulls(pull: PullCall)
    | Refs(ref: RefCall)
    | Releases(release: ReleaseCall)
    | Tracking(track: TrackCall)

  function RepoTail(c: RepoCall): Tail {
    match c
    case GetRepository => Tail(GET, [], map[])
    case UpdateRepository => Tail(PATCH, [], map[])
    case DeleteRepository => Tail(DELETE, [], map[])
    case Files(f) => FileTail(f)
    case Issues(i) => IssueTail(i)
    case Pulls(p) => PullTail(p)
    case Refs(r) => RefTail(r)
    case Releases(r) => ReleaseTail(r)
    case Tracking(t) => TrackTail(t)
  }

  function MapOption<A, B>(a: Option<A>, f: A -> B): Option<B> {
    match a
    case None => None
    case Some(v) => Some(f(v))
  }

  function ReadRepo(t: Tail): Option<RepoCall> {
    if t.segs == [] then
      match t.verb {
        case GET => Some(GetRepository)
        case PATCH => Some(UpdateRepository)
        case DELETE => Some(DeleteRepository)
        case _ => None
      }
    else
      var head := t.segs[0];
      if head == "contents" then MapOption(ReadFile(t), f => Files(f))
      else if head == "issues" then MapOption(ReadIssue(t), i => Issues(i))
      else if head == "pulls" then MapOption(ReadPull(t), p => Pulls(p))
      else if head == "releases" then MapOption(ReadRelease(t), r => Releases(r))
      else if RefHead(head) then MapOption(ReadRef(t), r => Refs(r))
      else if TrackHead(head) then MapOption(ReadTrack(t), k => Tracking(k))
      else None
  }

  function NormalRepo(c: RepoCall): RepoCall {
    match c
    case Files(f) => Files(NormalFile(f))
    case Issues(i) => Issues(NormalIssue(i))
    case Pulls(p) => Pulls(NormalPull(p))
    case Refs(r) => Refs(NormalRef(r))
    case Releases(r) => Releases(NormalRelease(r))
    case _ => c
  }

  lemma RepoSegments(c: RepoCall)
    ensures Clean(RepoTail(c).segs)
  {
    match c
    case Files(f) => FileSegments(f);
    case Issues(i) => IssueSegments(i);
    case Pulls(p) => PullSegments(p);
    case Refs(r) => RefSegments(r);
    case Releases(r) => ReleaseSegments(r);
    case Tracking(t) => TrackSegments(t);
    case _ =>
  }

  /** The first segment tells the groups apart. */
  lemma HeadsDiffer(s: string)
    ensures s == "issues" ==> s != "contents"
    ensures s == "pulls" ==> s != "contents" && s != "issues"
    ensures s == "releases" ==> s != "contents" && s != "issues" && s != "pulls"
    ensures RefHead(s) ==> s != "contents" && s != "issues" && s != "pulls" && s != "releases"
    ensures TrackHead(s) ==> s != "contents" && s != "issues" && s != "pulls" && s != "releases" && !RefHead(s)
  {
  }

  lemma RepoReadBack(c: RepoCall)
    ensures ReadRepo(RepoTail(c)) == Some(NormalRepo(c))
    ensures RepoTail(NormalRepo(c)) == RepoTail(c)
  {
    if RepoTail(c).segs != [] {
      HeadsDiffer(RepoTail(c).segs[0]);
    }
    match c
    case Files(f) => FileReadBack(f); FileSegments(f);
    case Issues(i) => IssueReadBack(i); IssueSegments(i);
    case Pulls(p) => PullReadBack(p); PullSegments(p);
    case Refs(r) => RefReadBack(r); RefSegments(r);
    case Releases(r) => ReleaseReadBack(r); ReleaseSegments(r);
    case Tracking(t) => TrackReadBack(t); TrackSegments(t);
    case _ =>
  }

  // ---------- the whole table ----------

  datatype Call =
    | Repo(owner: Text, repo: Text, call: RepoCall)
    | SearchRepos(q: Text, topic: Text, sort: Text, order: Text, private: Option<bool>)
    | MigrateRepository
    | ListOrganizations
    | CreateRepository(owner: Text)
    | CreateOrganization
    | DeleteOrganization(org: Text)
    | GetUser(username: Text)
    | SearchUsers(q: Text)

  function FormatBool(b: bool): Text {
    if b then "true" else "false"
  }

  function RepoSearchQuery(c: Call): Query
    requires c.SearchRepos?
  {
    var q := SetText(SetText(SetText(SetText(map[], "q", c.q), "topic", c.topic), "sort", c.sort), "order", c.order);
    if c.private.Some? then q["private" := FormatBool(c.private.value)] else q
  }

  function ApiTail(c: Call): Tail {
    match c
    case Repo(owner, repo, call) =>
      var t := RepoTail(call);
      Tail(t.verb, ["repos", PathEscape(owner), PathEscape(repo)] + t.segs, t.query)
    case SearchRepos(_, _, _, _, _) => Tail(GET, ["repos", "search"], RepoSearchQuery(c))
    case MigrateRepository => Tail(POST, ["repos", "migrate"], map[])
    case ListOrganizations => Tail(GET, ["user", "orgs"], map[])
    case CreateRepository(owner) =>
      Tail(POST, if owner != "" then ["orgs", PathEscape(owner), "repos"] else ["user", "repos"], map[])
    case CreateOrganization => Tail(POST, ["orgs"], map[])
    case DeleteOrganization(org) => Tail(DELETE, ["orgs", PathEscape(org)], map[])
    case GetUser(username) =>
      Tail(GET, if username != "" then ["users", PathEscape(username)] else ["user"], map[])
    case SearchUsers(q) => Tail(GET, ["users", "search"], SetText(map[], "q", q))
  }

  /** What the client sends. */
  function Sent(c: Call): Request {
    var t := ApiTail(c);
    Request(t.verb, Join(["api", "v1"] + t.segs), t.query)
  }

  function ReadRepoSearch(q: Query): Call {
    SearchRepos(GetText(q, "q"), GetText(q, "topic"), GetText(q, "sort"), GetText(q, "order"),
                if "private" in q then Some(q["private"] == "true") else None)
  }

  function ReadApi(t: Tail): Option<Call> {
    if t.segs == [] then None
    else
      var head, rest := t.segs[0], t.segs[1..];
      if head == "repos" then
        if |rest| == 1 then
          if t.verb == POST then Some(MigrateRepository) else Some(ReadRepoSearch(t.query))
        else if |rest| == 0 then None
        else
          MapOption(ReadRepo(Tail(t.verb, rest[2..], t.query)), c => Repo(Unescape(rest[0]), Unescape(rest[1]), c))
      else if head == "user" then
        if rest == [] then Some(GetUser(""))
        else if t.verb == GET then Some(ListOrganizations)
        else Some(CreateRepository(""))
      else if head == "orgs" then
        if rest == [] then Some(CreateOrganization)
        else if t.verb == DELETE then Some(DeleteOrganization(Unescape(rest[0])))
        else Some(CreateRepository(Unescape(rest[0])))
      else if head == "users" && |rest| == 1 then
        if rest[0] == "search" then Some(SearchUsers(GetText(t.query, "q"))) else Some(GetUser(Unescape(rest[0])))
      else None
  }

  function Read(r: Request): Option<Call> {
    var segs := Split(r.path);
    if |segs| < 2 then None else ReadApi(Tail(r.verb, segs[2..], r.query))
  }

  /** The calls that the wire cannot tell apart, each mapped to one of them: non-positive page
      numbers, a file read and a listing of the same path, and the user named "search" and the
      user search without query. */
  function Normal(c: Call): Call {
    match c
    case Repo(owner, repo, call) => Repo(owner, repo, NormalRepo(call))
    case GetUser(username) => if username == "search" then SearchUsers("") else c
    case _ => c
  }

  lemma RepoSearchReadBack(c: Call)
    requires c.SearchRepos?
    ensures ReadRepoSearch(RepoSearchQuery(c)) == c
  {
    var keys := ["q", "topic", "sort", "order", "private"];
    assert |keys[0]| == 1 && |keys[1]| == 5 && |keys[2]| == 4 && |keys[3]| == 5 && |keys[4]| == 7;
    assert keys[1][0] == 't' && keys[3][0] == 'o';
    assert FormatBool(true) == "true" && |FormatBool(false)| == 5;
  }

  lemma {:induction false} KeptAsIs(s: Text)
    requires forall i :: 0 <= i < |s| ==> KeptInSegment(s[i])
    ensures PathEscape(s) == s
    decreases |s|
  {
    if s != "" {
      KeptAsIs(s[1..]);
    }
  }

  lemma KeptExactly(username: Text, s: Text)
    requires forall i :: 0 <= i < |s| ==> KeptInSegment(s[i])
    ensures PathEscape(username) == s <==> username == s
  {
    KeptAsIs(s);
    EscapeRoundTrip(username);
    EscapeRoundTrip(s);
  }

  lemma CleanAppend(a: seq<Text>, b: seq<Text>)
    requires Clean(a) && Clean(b)
    ensures Clean(a + b)
  {
  }

  lemma RepoApiSegments(owner: Text, repo: Text, call: RepoCall)
    ensures Clean(["repos", PathEscape(owner), PathEscape(repo)] + RepoTail(call).segs)
  {
    EscapedIsClean(owner);
    EscapedIsClean(repo);
    RepoSegments(call);
    CleanAppend(["repos", PathEscape(owner), PathEscape(repo)], RepoTail(call).segs);
  }

  lemma ApiSegments(c: Call)
    ensures Clean(ApiTail(c).segs)
  {
    match c
    case Repo(owner, repo, call) => RepoApiSegments(owner, repo, call);
    case CreateRepository(owner) => EscapedIsClean(owner);
    case DeleteOrganization(org) => EscapedIsClean(org);
    case GetUser(username) => EscapedIsClean(username);
    case _ =>
  }

  lemma BelowRepo(o: Text, r: Text, rest: seq<Text>)
    ensures var segs := ["repos", o, r] + rest;
      && segs[0] == "repos" && |segs| >= 3
      && segs[1..][0] == o && segs[1..][1] == r
      && segs[1..][2..] == rest
  {
  }

  lemma RepoApiReadBack(owner: Text, repo: Text, call: RepoCall)
    ensures ReadApi(ApiTail(Repo(owner, repo, call))) == Some(Repo(owner, repo, NormalRepo(call)))
    ensures ApiTail(Repo(owner, repo, NormalRepo(call))) == ApiTail(Repo(owner, repo, call))
  {
    EscapeRoundTrip(owner);
    EscapeRoundTrip(repo);
    RepoReadBack(call);
    BelowRepo(PathEscape(owner), PathEscape(repo), RepoTail(call).segs);
    var t := RepoTail(call);
    assert Tail(t.verb, t.segs, t.query) == t;
  }

  lemma ApiReadBack(c: Call)
    ensures ReadApi(ApiTail(c)) == Some(Normal(c))
    ensures ApiTail(Normal(c)) == ApiTail(c)
  {
    match c
    case Repo(owner, repo, call) => RepoApiReadBack(owner, repo, call);
    case GetUser(username) => UserReadBack(username);
    case SearchUsers(q) => ListingRoundTrip("q", q, 0, 0);
    case _ => OtherReadBack(c);
  }

  lemma SearchEscaped(username: Text)
    ensures PathEscape(username) == "search" <==> username == "search"
  {
    var s: Text := "search";
    assert s[0] == 's' && s[1] == 'e' && s[2] == 'a' && s[3] == 'r' && s[4] == 'c' && s[5] == 'h';
    KeptExactly(username, s);
  }

  lemma UserReadBack(username: Text)
    ensures ReadApi(ApiTail(GetUser(username))) == Some(Normal(GetUser(username)))
    ensures ApiTail(Normal(GetUser(username))) == ApiTail(GetUser(username))
  {
    var t := ApiTail(GetUser(username));
    SearchEscaped(username);
    if username == "" {
      assert t.segs[0] == "user" && t.segs[1..] == [];
    } else {
      EscapeRoundTrip(username);
      assert t.segs[0] == "users" && t.segs[1..] == [PathEscape(username)];
      assert |"repos"| == |"users"| && "repos"[0] != "users"[0];
    }
  }

  lemma OtherReadBack(c: Call)
    requires !c.Repo? && !c.GetUser? && !c.SearchUsers?
    ensures ReadApi(ApiTail(c)) == Some(c)
  {
    var rest := ApiTail(c).segs[1..];
    match c
    case SearchRepos(_, _, _, _, _) =>
      RepoSearchReadBack(c);
      assert rest == ["search"];
    case CreateRepository(owner) =>
      EscapeRoundTrip(owner);
      assert rest == if owner != "" then [PathEscape(owner), "repos"] else ["repos"];
    case DeleteOrganization(org) =>
      EscapeRoundTrip(org);
      assert rest == [PathEscape(org)];
    case _ =>
  }

  /** A path splits into exactly the segments of its endpoint: no argument adds one. */
  lemma PathShape(c: Call)
    ensures Split(Sent(c).path) == ["api", "v1"] + ApiTail(c).segs
  {
    ApiSegments(c);
    CleanAppend(["api", "v1"], ApiTail(c).segs);
    JoinRoundTrip(["api", "v1"] + ApiTail(c).segs);
  }

  /** Every request is read back, up to the calls that the wire cannot tell apart. */
  lemma ReadBack(c: Call)
    ensures Read(Sent(c)) == Some(Normal(c))
    ensures Sent(Normal(c)) == Sent(c)
  {
    ApiReadBack(c);
    PathShape(c);
    assert (["api", "v1"] + ApiTail(c).segs)[2..] == ApiTail(c).segs;
  }

  /** Two calls send the same request exactly when they have the same normal form. */
  lemma UniquelyDecodable(c: Call, d: Call)
    ensures Sent(c) == Sent(d) <==> Normal(c) == Normal(d)
  {
    ReadBack(c);
    ReadBack(d);
  }

  /** The one collision between two different endpoints. */
  lemma SearchCollides()
    ensures Sent(GetUser("search")) == Sent(SearchUsers(""))
  {
    UniquelyDecodable(GetUser("search"), SearchUsers(""));
  }
}
