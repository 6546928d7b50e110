/**
 * `GitLocal::Repository`: a local mirror of one branch of a remote git
 * repository. Its identity is fixed at construction; the derived paths are
 * memoised in instance variables the first time they are asked for.
 *
 * The outside world is passed in: `dirExists` answers `Dir.exist?`, `glob`
 * answers `Dir.glob` (with `File.directory?` for each result), and `run`
 * gives for each git command the text of its pipe and its exit status.
 * The effects a call has on the world are returned in order.
 */
module GitRepository {
  import opened Errors
  import opened RubyStrings
  import opened Layout
  import opened GitObject
  import opened GitProtocol

  /** A new, unloaded object for each entry `keep` accepts, in listing order. */
  method NewObjects(entries: seq<Entry>, keep: Entry -> bool) returns (objs: seq<FileObject>)
    ensures |objs| == |Select(entries, keep)|
    ensures forall i :: 0 <= i < |objs| ==>
      fresh(objs[i]) && objs[i].path == Select(entries, keep)[i].name && objs[i].contents == None && objs[i].Valid()
  {
    objs := [];
    var i := 0;
    while i < |entries|
      invariant 0 <= i <= |entries|
      invariant |objs| == |Select(entries[..i], keep)|
      invariant forall j :: 0 <= j < |objs| ==>
        fresh(objs[j]) && objs[j].path == Select(entries[..i], keep)[j].name && objs[j].contents == None && objs[j].Valid()
    {
      assert entries[..i + 1][..i] == entries[..i];
      if keep(entries[i]) {
        var o := new FileObject(entries[i].name);
        objs := objs + [o];
      }
      i := i + 1;
    }
    assert entries[..i] == entries;
  }

  class Repository {
    const org: string
    const repo: string
    const branch: string
    const localDirectory: string
    const host: string

    /** `@path`, `@repo_path`, `@org_repo` and `@org_repo_branch`, once computed. */
    var pathMemo: Option<string>
    var repoPathMemo: Option<string>
    var orgRepoMemo: Option<string>
    var orgRepoBranchMemo: Option<string>

    /** The identity the mirror was constructed from. */
    function Id(): Identity
    {
      Identity(org, repo, branch, localDirectory, host)
    }

    /** The identity passed the character check, and a memo holds the value it stands for. */
    ghost predicate Valid()
      reads this
    {
      && ValidIdentity(Id())
      && (pathMemo.Some? ==> pathMemo.value == BranchPath(Id()))
      && (repoPathMemo.Some? ==> repoPathMemo.value == StagingPath(Id()))
      && (orgRepoMemo.Some? ==> orgRepoMemo.value == OrgRepoName(Id()))
      && (orgRepoBranchMemo.Some? ==> orgRepoBranchMemo.value == OrgRepoBranchName(Id()))
    }

    constructor (org: string, repo: string, branch: string, localDirectory: string, host: string)
      requires ValidIdentity(Identity(org, repo, branch, localDirectory, host))
      ensures Id() == Identity(org, repo, branch, localDirectory, host) && Valid()
      ensures pathMemo == None && repoPathMemo == None && orgRepoMemo == None && orgRepoBranchMemo == None
    {
      this.org := org;
      this.repo := repo;
      this.branch := branch;
      this.localDirectory := localDirectory;
      this.host := host;
      pathMemo := None;
      repoPathMemo := None;
      orgRepoMemo := None;
      orgRepoBranchMemo := None;
    }

    /**
     * `Repository.new(org:, repo:, branch:, local_directory:, host: GITHUB_HOST)`:
     * the four arguments other than the host are checked before anything is
     * kept; a character outside the class raises `InvalidArgument`.
     */
    static method Create(org: string, repo: string, branch: string, localDirectory: string, host: Option<string>)
      returns (r: Result<Repository>)
      ensures var id := Identity(org, repo, branch, localDirectory, if host.Some? then host.value else GitHubHost);
        && (r.Success? <==> ValidIdentity(id))
        && (r.Failure? ==> r.error == InvalidArgument)
        && (r.Success? ==> fresh(r.value) && r.value.Valid() && r.value.Id() == id &&
                           r.value.pathMemo == None && r.value.repoPathMemo == None &&
                           r.value.orgRepoMemo == None && r.value.orgRepoBranchMemo == None)
    {
      var check := CheckForSpecialCharacters([org, repo, branch, localDirectory]);
      var h := if host.Some? then host.value else GitHubHost;
      assert CheckedArguments(Identity(org, repo, branch, localDirectory, h)) == [org, repo, branch, localDirectory];
      if check.Fail? {
        r := Failure(check.error);
      } else {
        var repository := new Repository(org, repo, branch, localDirectory, h);
        r := Success(repository);
      }
    }

    /** `org_repo` */
    method OrgRepo() returns (r: string)
      requires Valid()
      modifies this`orgRepoMemo
      ensures Valid() && r == OrgRepoName(Id()) && orgRepoMemo == Some(r)
    {
      if orgRepoMemo.None? {
        orgRepoMemo := Some(org + "/" + repo);
      }
      r := orgRepoMemo.value;
    }

    /** `org_repo_branch` */
    method OrgRepoBranch() returns (r: string)
      requires Valid()
      modifies this`orgRepoBranchMemo
      ensures Valid() && r == OrgRepoBranchName(Id()) && orgRepoBranchMemo == Some(r)
    {
      if orgRepoBranchMemo.None? {
        orgRepoBranchMemo := Some(org + "/" + repo + "/" + branch);
      }
      r := orgRepoBranchMemo.value;
    }

    /** `path`: the working copy of the branch. */
    method Path() returns (r: string)
      requires Valid()
      modifies this`pathMemo, this`orgRepoBranchMemo
      ensures Valid() && r == BranchPath(Id()) && pathMemo == Some(r)
      ensures orgRepoBranchMemo == if old(pathMemo).Some? then old(orgRepoBranchMemo) else Some(OrgRepoBranchName(Id()))
    {
      if pathMemo.None? {
        var orb := OrgRepoBranch();
        pathMemo := Some(localDirectory + "/" + orb);
      }
      r := pathMemo.value;
    }

    /** `repo_path`: the directory the clone is made in. */
    method RepoPath() returns (r: string)
      requires Valid()
      modifies this`repoPathMemo, this`orgRepoMemo
      ensures Valid() && r == StagingPath(Id()) && repoPathMemo == Some(r)
      ensures orgRepoMemo == if old(repoPathMemo).Some? then old(orgRepoMemo) else Some(OrgRepoName(Id()))
    {
      if repoPathMemo.None? {
        var or := OrgRepo();
        repoPathMemo := Some(localDirectory + "/" + or);
      }
      r := repoPathMemo.value;
    }

    /** `file_object(file_path)`: an unloaded object for the file joined onto the working copy. */
    method FileObjectAt(filePath: string) returns (o: FileObject)
      requires Valid()
      modifies this`pathMemo, this`orgRepoBranchMemo
      ensures Valid() && pathMemo == Some(BranchPath(Id()))
      ensures fresh(o) && o.path == FileJoin(BranchPath(Id()), filePath) && o.contents == None && o.Valid()
    {
      var p := Path();
      o := new FileObject(FileJoin(p, filePath));
    }

    /** `local_path(file_path)`: every occurrence of the working copy's path and a "/" removed. */
    method LocalPath(filePath: string) returns (r: string)
      requires Valid()
      modifies this`pathMemo, this`orgRepoBranchMemo
      ensures Valid() && pathMemo == Some(BranchPath(Id()))
      ensures r == RemoveAll(filePath, BranchPath(Id()) + "/")
    {
      var p := Path();
      r := RemoveAll(filePath, p + "/");
    }

    /**
     * `file_objects(file_path = nil)`: one object for each entry directly
     * inside the directory that is a file, is neither "." nor "..", and has
     * no ".zip" extension, in listing order.
     */
    method FileObjects(filePath: Option<string>, glob: string -> seq<Entry>) returns (objs: seq<FileObject>)
      requires Valid()
      modifies this`pathMemo, this`orgRepoBranchMemo
      ensures Valid() && pathMemo == Some(BranchPath(Id()))
      ensures var listed := Select(glob(SearchPrefix(BranchPath(Id()), filePath) + "*"), ListedFile);
        |objs| == |listed| &&
        forall i :: 0 <= i < |objs| ==>
          fresh(objs[i]) && objs[i].path == listed[i].name && objs[i].contents == None && objs[i].Valid()
    {
      var p := Path();
      objs := NewObjects(glob(SearchPrefix(p, filePath) + "*"), ListedFile);
    }

    /**
     * `all_file_objects(file_path = nil, include_dirs = false)`: one object
     * for each entry anywhere below the directory, directories only when
     * asked for, in listing order.
     */
    method AllFileObjects(filePath: Option<string>, includeDirs: bool, glob: string -> seq<Entry>)
      returns (objs: seq<FileObject>)
      requires Valid()
      modifies this`pathMemo, this`orgRepoBranchMemo
      ensures Valid() && pathMemo == Some(BranchPath(Id()))
      ensures var listed := Select(glob(SearchPrefix(BranchPath(Id()), filePath) + "**/*"), TreeFilter(includeDirs));
        |objs| == |listed| &&
        forall i :: 0 <= i < |objs| ==>
          fresh(objs[i]) && objs[i].path == listed[i].name && objs[i].contents == None && objs[i].Valid()
    {
      var p := Path();
      objs := NewObjects(glob(SearchPrefix(p, filePath) + "**/*"), TreeFilter(includeDirs));
    }

    /**
     * `new_commit_on_remote?`, as intended: compare the local HEAD with the
     * tip the remote update prints; a failing update raises `NotFound`.
     */
    method NewCommitOnRemote(run: Command -> ProcessResult) returns (r: Result<bool>, effects: seq<Effect>)
      requires Valid()
      modifies this`pathMemo, this`orgRepoBranchMemo
      ensures Valid() && pathMemo == Some(BranchPath(Id()))
      ensures effects == CheckEffects(Id())
      ensures r == RemoteAhead(run(HeadCommand(Id())), run(UpdateCommand(Id())))
    {
      var p := Path();
      var head := run(RevParseHead(p));
      var update := run(RemoteUpdate(p, branch));
      effects := [Popen(RevParseHead(p)), Popen(RemoteUpdate(p, branch))];
      r := RemoteAhead(head, update);
    }

    /** `clone_and_checkout`: create the staging directory when missing, then clone into it. */
    method CloneAndCheckout(dirExists: string -> bool, run: Command -> ProcessResult)
      returns (r: Outcome, effects: seq<Effect>)
      requires Valid()
      modifies this`pathMemo, this`orgRepoBranchMemo, this`repoPathMemo, this`orgRepoMemo
      ensures Valid() && pathMemo == Some(BranchPath(Id())) && repoPathMemo == Some(StagingPath(Id()))
      ensures effects == CloneEffects(Id(), dirExists)
      ensures r == CloneOutcome(run(CloneCommand(Id())))
    {
      var staging := RepoPath();
      effects := if dirExists(staging) then [] else [MakeDirs(staging)];
      var p := Path();
      var clone := CloneCommand(Id());
      var res := run(clone);
      effects := effects + [Popen(clone)];
      r := CloneOutcome(res);
    }

    /** `reset_to_latest_from_origin`: fetch, then reset hard to the remote branch. Its status is ignored. */
    method ResetToLatestFromOrigin() returns (effects: seq<Effect>)
      requires Valid()
      modifies this`pathMemo, this`orgRepoBranchMemo
      ensures Valid() && pathMemo == Some(BranchPath(Id()))
      ensures effects == [Popen(ResetCommand(Id()))]
    {
      var p := Path();
      effects := [Popen(FetchReset(p, branch))];
    }

    /** `get`: reset a present mirror whose remote is ahead, clone otherwise. */
    method Get(dirExists: string -> bool, run: Command -> ProcessResult) returns (r: Outcome, effects: seq<Effect>)
      requires Valid()
      modifies this`pathMemo, this`orgRepoBranchMemo, this`repoPathMemo, this`orgRepoMemo
      ensures Valid()
      ensures Trace(effects, r) == Sync(Id(), dirExists, run)
    {
      var p := Path();
      if !dirExists(p) {
        r, effects := CloneAndCheckout(dirExists, run);
        return;
      }
      var ahead, checked := NewCommitOnRemote(run);
      if ahead.Failure? {
        r, effects := Fail(ahead.error), checked;
      } else if ahead.value {
        var reset := ResetToLatestFromOrigin();
        r, effects := Pass, checked + reset;
      } else {
        var cloned;
        r, cloned := CloneAndCheckout(dirExists, run);
        effects := checked + cloned;
      }
    }
  }

  /**
   * `Repository.new(...).get` on a fresh mirror: invalid arguments raise
   * before any effect; valid ones run exactly the protocol of `Sync`.
   */
  method MirrorBranch(id: Identity, dirExists: string -> bool, run: Command -> ProcessResult)
    returns (r: Outcome, effects: seq<Effect>)
    ensures !ValidIdentity(id) ==> r == Fail(InvalidArgument) && effects == []
    ensures ValidIdentity(id) ==> Trace(effects, r) == Sync(id, dirExists, run)
  {
    var created := Repository.Create(id.org, id.repo, id.branch, id.localDirectory, Some(id.host));
    if created.Failure? {
      r, effects := Fail(created.error), [];
      return;
    }
    r, effects := created.value.Get(dirExists, run);
  }

  /** `file_objects` of a fresh mirror: the objects' paths are the names of the listed files. */
  method ListFiles(id: Identity, filePath: Option<string>, glob: string -> seq<Entry>) returns (r: Result<seq<string>>)
    ensures !ValidIdentity(id) ==> r == Failure(InvalidArgument)
    ensures ValidIdentity(id) ==>
      var listed := Select(glob(SearchPrefix(BranchPath(id), filePath) + "*"), ListedFile);
      r.Success? && |r.value| == |listed| && forall i :: 0 <= i < |listed| ==> r.value[i] == listed[i].name
  {
    var created := Repository.Create(id.org, id.repo, id.branch, id.localDirectory, Some(id.host));
    if created.Failure? {
      return Failure(created.error);
    }
    var objs := created.value.FileObjects(filePath, glob);
    r := Success(seq(|objs|, j requires 0 <= j < |objs| => objs[j].path));
  }
}
