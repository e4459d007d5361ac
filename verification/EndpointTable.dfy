/** The endpoint table written out: for every call the method, the path and the query as constants and
    arguments, apart from the functions that build requests and from those that read them. */
module EndpointTable {
  import opened Bytes
  import opened Texts
  import opened Upstream
  import opened Endpoints

  // ---------- how the table is written ----------

  function Api(verb: Verb, segs: seq<Text>, query: Query): Request {
    Request(verb, Join(["api", "v1"] + segs), query)
  }

  function Below(verb: Verb, owner: Text, repo: Text, segs: seq<Text>, query: Query): Request {
    Request(verb, Join(["api", "v1", "repos", PathEscape(owner), PathEscape(repo)] + segs), query)
  }

  /** A filter that is sent when it is not empty, and page and limit when they are positive. */
  ghost predicate Filters(q: Query, key: string, value: Text, page: int, limit: int) {
    && (forall k :: k in q <==>
          (k == key && value != "") || (k == "page" && page > 0) || (k == "limit" && limit > 0))
    && (value != "" ==> q[key] == value)
    && (page > 0 ==> q["page"] == FormatInt(page))
    && (limit > 0 ==> q["limit"] == FormatInt(limit))
  }

  lemma ListingFilters(key: string, value: Text, page: int, limit: int)
    requires key != "page" && key != "limit"
    ensures Filters(Listing(key, value, page, limit), key, value, page, limit)
  {
    assert |"page"| != |"limit"|;
  }

  lemma PrefixJoins(o: Text, r: Text, segs: seq<Text>)
    ensures ["api", "v1"] + (["repos", o, r] + segs) == ["api", "v1", "repos", o, r] + segs
  {
  }

  /** A repository call goes below its repository. */
  lemma BelowRepository(o: Text, r: Text, c: RepoCall)
    ensures Sent(Repo(o, r, c)) == Below(RepoTail(c).verb, o, r, RepoTail(c).segs, RepoTail(c).query)
  {
    PrefixJoins(PathEscape(o), PathEscape(r), RepoTail(c).segs);
  }

  // ---------- the repository ----------

  lemma RepositoryTable(o: Text, r: Text)
    ensures Sent(Repo(o, r, GetRepository)) == Below(GET, o, r, [], map[])
    ensures Sent(Repo(o, r, UpdateRepository)) == Below(PATCH, o, r, [], map[])
    ensures Sent(Repo(o, r, DeleteRepository)) == Below(DELETE, o, r, [], map[])
  {
    BelowRepository(o, r, GetRepository);
    BelowRepository(o, r, UpdateRepository);
    BelowRepository(o, r, DeleteRepository);
  }

  lemma FileWriteTable(o: Text, r: Text, path: Text)
    ensures Sent(Repo(o, r, Files(CreateFile(path)))) == Below(POST, o, r, ["contents", PathEscape(path)], map[])
    ensures Sent(Repo(o, r, Files(UpdateFile(path)))) == Below(PUT, o, r, ["contents", PathEscape(path)], map[])
  {
    BelowRepository(o, r, Files(CreateFile(path)));
    BelowRepository(o, r, Files(UpdateFile(path)));
  }

  lemma FileDeleteTable(o: Text, r: Text, path: Text)
    ensures Sent(Repo(o, r, Files(DeleteFile(path)))) == Below(DELETE, o, r, ["contents", PathEscape(path)], map[])
    ensures Sent(Repo(o, r, Files(ChangeFiles))) == Below(POST, o, r, ["contents"], map[])
  {
    BelowRepository(o, r, Files(DeleteFile(path)));
    BelowRepository(o, r, Files(ChangeFiles));
  }

  lemma FileReadTable(o: Text, r: Text, path: Text, ref: Text, page: int, limit: int)
    ensures Sent(Repo(o, r, Files(GetFile(path, ref)))) ==
            Below(GET, o, r, ["contents", PathEscape(path)], if ref == "" then map[] else map["ref" := ref])
    ensures var sent := Sent(Repo(o, r, Files(ListContents(path, ref, page, limit))));
      && sent == Below(GET, o, r, if path == "" then ["contents"] else ["contents", PathEscape(path)], sent.query)
      && Filters(sent.query, "ref", ref, page, limit)
  {
    BelowRepository(o, r, Files(GetFile(path, ref)));
    BelowRepository(o, r, Files(ListContents(path, ref, page, limit)));
    ListingFilters("ref", ref, page, limit);
  }

  // ---------- issues ----------

  lemma IssueTable(o: Text, r: Text, i: int)
    ensures Sent(Repo(o, r, Issues(CreateIssue))) == Below(POST, o, r, ["issues"], map[])
    ensures Sent(Repo(o, r, Issues(GetIssue(i)))) == Below(GET, o, r, ["issues", FormatInt(i)], map[])
    ensures Sent(Repo(o, r, Issues(UpdateIssue(i)))) == Below(PATCH, o, r, ["issues", FormatInt(i)], map[])
    ensures Sent(Repo(o, r, Issues(DeleteIssue(i)))) == Below(DELETE, o, r, ["issues", FormatInt(i)], map[])
    ensures Sent(Repo(o, r, Issues(SetIssueLabels(i)))) == Below(PUT, o, r, ["issues", FormatInt(i), "labels"], map[])
  {
    BelowRepository(o, r, Issues(CreateIssue));
    BelowRepository(o, r, Issues(GetIssue(i)));
    BelowRepository(o, r, Issues(UpdateIssue(i)));
    BelowRepository(o, r, Issues(DeleteIssue(i)));
    BelowRepository(o, r, Issues(SetIssueLabels(i)));
  }

  lemma CommentTable(o: Text, r: Text, i: int)
    ensures Sent(Repo(o, r, Issues(ListComments(i)))) == Below(GET, o, r, ["issues", FormatInt(i), "comments"], map[])
    ensures Sent(Repo(o, r, Issues(CreateIssueComment(i)))) ==
            Below(POST, o, r, ["issues", FormatInt(i), "comments"], map[])
    ensures Sent(Repo(o, r, Issues(DeleteComment(i)))) ==
            Below(DELETE, o, r, ["issues", "comments", FormatInt(i)], map[])
  {
    BelowRepository(o, r, Issues(ListComments(i)));
    BelowRepository(o, r, Issues(CreateIssueComment(i)));
    BelowRepository(o, r, Issues(DeleteComment(i)));
  }

  lemma IssueListTable(o: Text, r: Text, state: Text, page: int, limit: int)
    ensures var sent := Sent(Repo(o, r, Issues(ListIssues(state, page, limit))));
      sent == Below(GET, o, r, ["issues"], sent.query) && Filters(sent.query, "state", state, page, limit)
  {
    BelowRepository(o, r, Issues(ListIssues(state, page, limit)));
    ListingFilters("state", state, page, limit);
  }

  // ---------- pull requests ----------

  lemma PullTable(o: Text, r: Text, i: int)
    ensures Sent(Repo(o, r, Pulls(CreatePullRequest))) == Below(POST, o, r, ["pulls"], map[])
    ensures Sent(Repo(o, r, Pulls(GetPull(i)))) == Below(GET, o, r, ["pulls", FormatInt(i)], map[])
    ensures Sent(Repo(o, r, Pulls(UpdatePullRequest(i)))) == Below(PATCH, o, r, ["pulls", FormatInt(i)], map[])
    ensures Sent(Repo(o, r, Pulls(GetPullDiff(i)))) == Below(GET, o, r, ["pulls", FormatInt(i) + ".diff"], map[])
    ensures Sent(Repo(o, r, Pulls(PullFiles(i)))) == Below(GET, o, r, ["pulls", FormatInt(i), "files"], map[])
  {
    BelowRepository(o, r, Pulls(CreatePullRequest));
    BelowRepository(o, r, Pulls(GetPull(i)));
    BelowRepository(o, r, Pulls(UpdatePullRequest(i)));
    BelowRepository(o, r, Pulls(GetPullDiff(i)));
    BelowRepository(o, r, Pulls(PullFiles(i)));
  }

  lemma MergeAndReviewTable(o: Text, r: Text, i: int, review: int)
    ensures Sent(Repo(o, r, Pulls(IsPullRequestMerged(i)))) ==
            Below(GET, o, r, ["pulls", FormatInt(i), "merge"], map[])
    ensures Sent(Repo(o, r, Pulls(MergePullRequest(i)))) ==
            Below(POST, o, r, ["pulls", FormatInt(i), "merge"], map[])
    ensures Sent(Repo(o, r, Pulls(CreatePullReview(i)))) ==
            Below(POST, o, r, ["pulls", FormatInt(i), "reviews"], map[])
    ensures Sent(Repo(o, r, Pulls(SubmitPullReview(i, review)))) ==
            Below(POST, o, r, ["pulls", FormatInt(i), "reviews", FormatInt(review)], map[])
  {
    BelowRepository(o, r, Pulls(IsPullRequestMerged(i)));
    BelowRepository(o, r, Pulls(PullCall.MergePullRequest(i)));
    BelowRepository(o, r, Pulls(CreatePullReview(i)));
    BelowRepository(o, r, Pulls(SubmitPullReview(i, review)));
  }

  lemma PullListTable(o: Text, r: Text, state: Text, page: int, limit: int)
    ensures var sent := Sent(Repo(o, r, Pulls(ListPullRequests(state, page, limit))));
      sent == Below(GET, o, r, ["pulls"], sent.query) && Filters(sent.query, "state", state, page, limit)
  {
    BelowRepository(o, r, Pulls(ListPullRequests(state, page, limit)));
    ListingFilters("state", state, page, limit);
  }

  // ---------- branches, tags, commits and comparisons ----------

  lemma BranchTable(o: Text, r: Text, name: Text)
    ensures Sent(Repo(o, r, Refs(ListBranches))) == Below(GET, o, r, ["branches"], map[])
    ensures Sent(Repo(o, r, Refs(CreateBranch))) == Below(POST, o, r, ["branches"], map[])
    ensures Sent(Repo(o, r, Refs(GetBranch(name)))) == Below(GET, o, r, ["branches", PathEscape(name)], map[])
    ensures Sent(Repo(o, r, Refs(DeleteBranch(name)))) == Below(DELETE, o, r, ["branches", PathEscape(name)], map[])
  {
    BelowRepository(o, r, Refs(ListBranches));
    BelowRepository(o, r, Refs(CreateBranch));
    BelowRepository(o, r, Refs(GetBranch(name)));
    BelowRepository(o, r, Refs(DeleteBranch(name)));
  }

  lemma TagTable(o: Text, r: Text, name: Text)
    ensures Sent(Repo(o, r, Refs(ListTags))) == Below(GET, o, r, ["tags"], map[])
    ensures Sent(Repo(o, r, Refs(CreateTag))) == Below(POST, o, r, ["tags"], map[])
    ensures Sent(Repo(o, r, Refs(DeleteTag(name)))) == Below(DELETE, o, r, ["tags", PathEscape(name)], map[])
  {
    BelowRepository(o, r, Refs(ListTags));
    BelowRepository(o, r, Refs(CreateTag));
    BelowRepository(o, r, Refs(DeleteTag(name)));
  }

  lemma CompareTable(o: Text, r: Text, name: Text)
    ensures Sent(Repo(o, r, Refs(GetDiff(name)))) == Below(GET, o, r, ["compare", PathEscape(name)], map[])
  {
    BelowRepository(o, r, Refs(GetDiff(name)));
  }

  lemma StatusTable(o: Text, r: Text, name: Text)
    ensures Sent(Repo(o, r, Refs(CommitStatus(name)))) ==
            Below(GET, o, r, ["commits", PathEscape(name), "status"], map[])
  {
    BelowRepository(o, r, Refs(CommitStatus(name)));
  }

  lemma CommitListTable(o: Text, r: Text, name: Text, page: int, limit: int)
    ensures var sent := Sent(Repo(o, r, Refs(ListCommits(name, page, limit))));
      sent == Below(GET, o, r, ["commits"], sent.query) && Filters(sent.query, "sha", name, page, limit)
  {
    BelowRepository(o, r, Refs(ListCommits(name, page, limit)));
    ListingFilters("sha", name, page, limit);
  }

  // ---------- releases, milestones, labels and forks ----------

  lemma ReleaseTable(o: Text, r: Text, id: int)
    ensures Sent(Repo(o, r, Releases(GetLatestRelease))) == Below(GET, o, r, ["releases", "latest"], map[])
    ensures Sent(Repo(o, r, Releases(CreateRelease))) == Below(POST, o, r, ["releases"], map[])
    ensures Sent(Repo(o, r, Releases(DeleteRelease(id)))) == Below(DELETE, o, r, ["releases", FormatInt(id)], map[])
    ensures Sent(Repo(o, r, Releases(UploadReleaseAsset(id)))) ==
            Below(POST, o, r, ["releases", FormatInt(id), "assets"], map[])
  {
    BelowRepository(o, r, Releases(GetLatestRelease));
    BelowRepository(o, r, Releases(CreateRelease));
    BelowRepository(o, r, Releases(DeleteRelease(id)));
    BelowRepository(o, r, Releases(UploadReleaseAsset(id)));
  }

  lemma ReleaseListTable(o: Text, r: Text, page: int, limit: int)
    ensures var sent := Sent(Repo(o, r, Releases(ListReleases(page, limit))));
      sent == Below(GET, o, r, ["releases"], sent.query) && Filters(sent.query, "", "", page, limit)
  {
    BelowRepository(o, r, Releases(ListReleases(page, limit)));
    ListingFilters("", "", page, limit);
  }

  lemma MilestoneTable(o: Text, r: Text, id: int)
    ensures Sent(Repo(o, r, Tracking(ListMilestones))) == Below(GET, o, r, ["milestones"], map[])
    ensures Sent(Repo(o, r, Tracking(CreateMilestone))) == Below(POST, o, r, ["milestones"], map[])
    ensures Sent(Repo(o, r, Tracking(UpdateMilestone(id)))) == Below(PATCH, o, r, ["milestones", FormatInt(id)], map[])
    ensures Sent(Repo(o, r, Tracking(DeleteMilestone(id)))) == Below(DELETE, o, r, ["milestones", FormatInt(id)], map[])
  {
    BelowRepository(o, r, Tracking(ListMilestones));
    BelowRepository(o, r, Tracking(CreateMilestone));
    BelowRepository(o, r, Tracking(UpdateMilestone(id)));
    BelowRepository(o, r, Tracking(DeleteMilestone(id)));
  }

  lemma LabelAndForkTable(o: Text, r: Text, id: int)
    ensures Sent(Repo(o, r, Tracking(ListLabels))) == Below(GET, o, r, ["labels"], map[])
    ensures Sent(Repo(o, r, Tracking(CreateLabel))) == Below(POST, o, r, ["labels"], map[])
    ensures Sent(Repo(o, r, Tracking(UpdateLabel(id)))) == Below(PATCH, o, r, ["labels", FormatInt(id)], map[])
    ensures Sent(Repo(o, r, Tracking(DeleteLabel(id)))) == Below(DELETE, o, r, ["labels", FormatInt(id)], map[])
    ensures Sent(Repo(o, r, Tracking(ForkRepository))) == Below(POST, o, r, ["forks"], map[])
  {
    BelowRepository(o, r, Tracking(ListLabels));
    BelowRepository(o, r, Tracking(CreateLabel));
    BelowRepository(o, r, Tracking(UpdateLabel(id)));
    BelowRepository(o, r, Tracking(DeleteLabel(id)));
    BelowRepository(o, r, Tracking(ForkRepository));
  }

  // ---------- outside a repository ----------

  lemma OrganizationTable(name: Text)
    ensures Sent(ListOrganizations) == Api(GET, ["user", "orgs"], map[])
    ensures Sent(CreateOrganization) == Api(POST, ["orgs"], map[])
    ensures Sent(DeleteOrganization(name)) == Api(DELETE, ["orgs", PathEscape(name)], map[])
  {
  }

  lemma NewRepositoryTable(owner: Text)
    ensures Sent(MigrateRepository) == Api(POST, ["repos", "migrate"], map[])
    ensures Sent(CreateRepository(owner)) ==
            Api(POST, if owner == "" then ["user", "repos"] else ["orgs", PathEscape(owner), "repos"], map[])
  {
  }

  lemma UserTable(name: Text)
    ensures Sent(GetUser(name)) == Api(GET, if name == "" then ["user"] else ["users", PathEscape(name)], map[])
    ensures Sent(SearchUsers(name)) ==
            Api(GET, ["users", "search"], if name == "" then map[] else map["q" := name])
  {
  }

  /** Every search argument is sent under its own key when it is given. */
  ghost predicate Searches(query: Query, q: Text, topic: Text, sort: Text, order: Text, private: Option<bool>) {
    && (forall k :: k in query <==>
          || (k == "q" && q != "") || (k == "topic" && topic != "") || (k == "sort" && sort != "")
          || (k == "order" && order != "") || (k == "private" && private.Some?))
    && (q != "" ==> query["q"] == q) && (topic != "" ==> query["topic"] == topic)
    && (sort != "" ==> query["sort"] == sort) && (order != "" ==> query["order"] == order)
    && (private.Some? ==> query["private"] == if private.value then "true" else "false")
  }

  lemma SearchQueryIs(c: Call)
    requires c.SearchRepos?
    ensures Searches(RepoSearchQuery(c), c.q, c.topic, c.sort, c.order, c.private)
  {
    KeysDiffer();
  }

  lemma SearchTable(q: Text, topic: Text, sort: Text, order: Text, private: Option<bool>)
    ensures var sent := Sent(SearchRepos(q, topic, sort, order, private));
      sent == Api(GET, ["repos", "search"], sent.query) && Searches(sent.query, q, topic, sort, order, private)
  {
    SearchQueryIs(SearchRepos(q, topic, sort, order, private));
  }

  lemma KeysDiffer()
    ensures "q" != "topic" && "q" != "sort" && "q" != "order" && "q" != "private"
    ensures "topic" != "sort" && "topic" != "order" && "topic" != "private"
    ensures "sort" != "order" && "sort" != "private" && "order" != "private"
  {
    var topic, order := "topic", "order";
    assert |topic| == |order| && topic[0] != order[0];
    assert |"q"| == 1 && |"sort"| == 4 && |"private"| == 7;
  }

  // ---------- reading and changing ----------

  predicate ReadsRepo(c: RepoCall) {
    match c
    case GetRepository => true
    case UpdateRepository => false
    case DeleteRepository => false
    case Files(f) => f.ListContents? || f.GetFile?
    case Issues(i) => i.ListIssues? || i.GetIssue? || i.ListComments?
    case Pulls(p) =>
      p.ListPullRequests? || p.GetPull? || p.GetPullDiff? || p.PullFiles? || p.IsPullRequestMerged?
    case Refs(r) =>
      r.ListBranches? || r.GetBranch? || r.ListTags? || r.GetDiff? || r.ListCommits? || r.CommitStatus?
    case Releases(r) => r.ListReleases? || r.GetLatestRelease?
    case Tracking(t) => t.ListMilestones? || t.ListLabels?
  }

  predicate DeletesInRepo(c: RepoCall) {
    match c
    case DeleteRepository => true
    case Files(f) => f.DeleteFile?
    case Issues(i) => i.DeleteIssue? || i.DeleteComment?
    case Refs(r) => r.DeleteBranch? || r.DeleteTag?
    case Releases(r) => r.DeleteRelease?
    case Tracking(t) => t.DeleteMilestone? || t.DeleteLabel?
    case _ => false
  }

  /** A call goes out as GET exactly when it only reads, and as DELETE exactly when it deletes. */
  lemma VerbsExactly(c: Call)
    ensures Sent(c).verb == GET <==>
            if c.Repo? then ReadsRepo(c.call)
            else c.SearchRepos? || c.ListOrganizations? || c.GetUser? || c.SearchUsers?
    ensures Sent(c).verb == DELETE <==> if c.Repo? then DeletesInRepo(c.call) else c.DeleteOrganization?
  {
  }
}
