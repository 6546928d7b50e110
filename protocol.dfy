/**
 * The conversation `GitLocal::Repository` has with git: the commands it
 * hands to `IO.popen`, how it reads their output and exit status, and the
 * decision `get` takes between cloning and resetting.
 *
 * Git itself is an oracle `run` from a command to the text its pipe yields
 * and the status `$?` holds afterwards; `Dir.exist?` is an oracle
 * `dirExists`. The effects the library performs are returned as a trace.
 */
module GitProtocol {
  import opened Errors
  import opened RubyStrings
  import opened Layout

  // ---------------------------------------------------------------------
  // Commands
  // ---------------------------------------------------------------------

  /** A git invocation issued through `IO.popen`. */
  datatype Command =
    | RevParseHead(dir: string)
    | RemoteUpdate(dir: string, branch: string)
    | Clone(parent: string, url: string, branch: string, dir: string)
    | FetchReset(dir: string, branch: string)

  /** The directory a command changes into before running git. */
  function WorkDir(c: Command): string
  {
    if c.Clone? then c.parent else c.dir
  }

  /** What git is asked to do, inside the parentheses after `git `. */
  function Script(c: Command): string
  {
    match c
    case RevParseHead(_) => "rev-parse HEAD"
    case RemoteUpdate(_, b) => "remote update && git rev-parse origin/" + b
    case Clone(_, u, b, d) => "clone " + u + " --branch " + b + " --single-branch " + b + " && cd " + d
    case FetchReset(_, b) => "fetch && git reset origin/" + b + " --hard"
  }

  /** The update and the clone send their error stream down the pipe, so failures carry git's own words. */
  predicate Redirects(c: Command)
  {
    c.RemoteUpdate? || c.Clone?
  }

  /** The shell text handed to `IO.popen`. */
  function CommandLine(c: Command): string
  {
    "(cd " + WorkDir(c) + " && git " + Script(c) + ")" + (if Redirects(c) then " 2>&1" else "")
  }

  /**
   * Every command changes into its working directory and runs git there;
   * the update and the clone end by redirecting the error stream, the HEAD
   * query and the reset end with the closing parenthesis.
   */
  lemma CommandShape(c: Command)
    ensures "(cd " + WorkDir(c) + " && git " <= CommandLine(c)
    ensures Redirects(c) ==> var r := CommandLine(c); |r| >= 6 && r[|r| - 6..] == ") 2>&1"
    ensures !Redirects(c) ==> var r := CommandLine(c); r != [] && r[|r| - 1] == ')'
  {
    var pre := "(cd " + WorkDir(c) + " && git ";
    var body := pre + Script(c);
    Juxtaposed(pre, Script(c) + (")" + (if Redirects(c) then " 2>&1" else "")));
    assert CommandLine(c) == pre + (Script(c) + (")" + (if Redirects(c) then " 2>&1" else "")));
    if Redirects(c) {
      assert CommandLine(c) == body + ") 2>&1";
      Juxtaposed(body, ") 2>&1");
    } else {
      assert CommandLine(c) == body + ")";
    }
  }

  /** `git@host:org/repo.git`: the SSH address of the repository on its host. */
  function CloneUrl(id: Identity): string
  {
    "git@" + id.host + ":" + OrgRepoName(id) + ".git"
  }

  /** The clone address is the host's git user, then `org/repo`, then ".git". */
  lemma CloneUrlParts(id: Identity)
    ensures var user, r := "git@" + id.host + ":", CloneUrl(id);
      user <= r && |r| == |user| + |OrgRepoName(id)| + 4 &&
      r[|user|..|r| - 4] == OrgRepoName(id) && r[|r| - 4..] == ".git"
  {
  }

  /** The four commands of a mirror. */
  function HeadCommand(id: Identity): Command { RevParseHead(BranchPath(id)) }
  function UpdateCommand(id: Identity): Command { RemoteUpdate(BranchPath(id), id.branch) }
  function CloneCommand(id: Identity): Command { Clone(StagingPath(id), CloneUrl(id), id.branch, BranchPath(id)) }
  function ResetCommand(id: Identity): Command { FetchReset(BranchPath(id), id.branch) }

  /** A pattern occurs wherever it is placed. */
  lemma {:induction false} OccursInside(pat: string, a: string, b: string)
    ensures Occurs(pat, a + pat + b)
    decreases |a|
  {
    if a == [] {
      assert a + pat + b == pat + b;
    } else {
      assert (a + pat + b)[1..] == a[1..] + pat + b;
      OccursInside(pat, a[1..], b);
    }
  }

  /** An occurrence survives appending text. */
  lemma {:induction false} OccursAppend(pat: string, s: string, t: string)
    requires Occurs(pat, s)
    ensures Occurs(pat, s + t)
    decreases |s|
  {
    if pat <= s {
      assert (s + t)[..|pat|] == s[..|pat|];
    } else {
      OccursAppend(pat, s[1..], t);
      assert (s + t)[1..] == s[1..] + t;
    }
  }

  /** An occurrence survives prepending text. */
  lemma {:induction false} OccursPrepend(pat: string, a: string, s: string)
    requires Occurs(pat, s)
    ensures Occurs(pat, a + s)
    decreases |a|
  {
    if a == [] {
      assert a + s == s;
    } else {
      OccursPrepend(pat, a[1..], s);
      assert (a + s)[1..] == a[1..] + s;
    }
  }

  /** A clone whose address is `git@host...` names that host. */
  lemma CloneLineNamesHost(c: Command, host: string, rest: string)
    requires c.Clone? && c.url == "git@" + host + rest
    ensures Occurs(host, CommandLine(c))
  {
    OccursInside(host, "git@", rest);
    var s := "clone " + c.url;
    OccursPrepend(host, "clone ", c.url);
    OccursAppend(host, s, " --branch ");
    s := s + " --branch ";
    OccursAppend(host, s, c.branch);
    s := s + c.branch;
    OccursAppend(host, s, " --single-branch ");
    s := s + " --single-branch ";
    OccursAppend(host, s, c.branch);
    s := s + c.branch;
    OccursAppend(host, s, " && cd ");
    s := s + " && cd ";
    OccursAppend(host, s, c.dir);
    s := s + c.dir;
    assert s == Script(c);
    var open := "(cd " + WorkDir(c) + " && git ";
    OccursPrepend(host, open, s);
    OccursAppend(host, open + s, ")");
    OccursAppend(host, open + s + ")", " 2>&1");
  }

  /** The clone command names the host it was constructed with. */
  lemma CloneCommandNamesHost(id: Identity)
    ensures Occurs(id.host, CommandLine(CloneCommand(id)))
  {
    CloneLineNamesHost(CloneCommand(id), id.host, ":" + OrgRepoName(id) + ".git");
  }

  /** The mirror of the examples: `cool_org/awesome_repo`, branch `brunch-1`, default host. */
  function ExampleMirror(dir: string): Identity
  {
    Identity("cool_org", "awesome_repo", "brunch-1", dir, GitHubHost)
  }

  lemma ExampleStagingPath(dir: string)
    ensures StagingPath(ExampleMirror(dir)) == dir + "/cool_org/awesome_repo"
  {
    var id := ExampleMirror(dir);
    assert OrgRepoName(id) == "cool_org/awesome_repo";
    assert StagingPath(id) == dir + "/" + "cool_org/awesome_repo";
  }

  lemma ExampleBranchPath(dir: string)
    ensures BranchPath(ExampleMirror(dir)) == dir + "/cool_org/awesome_repo/brunch-1"
  {
  }

  lemma ExampleCloneUrl(dir: string)
    ensures CloneUrl(ExampleMirror(dir)) == "git@github.com:cool_org/awesome_repo.git"
  {
  }

  /** The commands run in the working copy of the example mirror. */
  lemma ExampleHeadCommand(dir: string)
    ensures CommandLine(HeadCommand(ExampleMirror(dir))) ==
      "(cd " + dir + "/cool_org/awesome_repo/brunch-1" + " && git " + "rev-parse HEAD" + ")"
  {
    ExampleBranchPath(dir);
  }

  lemma ExampleUpdateCommand(dir: string)
    ensures CommandLine(UpdateCommand(ExampleMirror(dir))) ==
      "(cd " + dir + "/cool_org/awesome_repo/brunch-1" + " && git " + "remote update && git rev-parse origin/"
      + "brunch-1" + ")" + " 2>&1"
  {
    ExampleBranchPath(dir);
  }

  lemma ExampleResetCommand(dir: string)
    ensures CommandLine(ResetCommand(ExampleMirror(dir))) ==
      "(cd " + dir + "/cool_org/awesome_repo/brunch-1" + " && git " + "fetch && git reset origin/" + "brunch-1"
      + " --hard" + ")"
  {
    ExampleBranchPath(dir);
  }

  /** The clone of the example mirror. */
  lemma ExampleCloneCommand(dir: string)
    ensures CommandLine(CloneCommand(ExampleMirror(dir))) ==
      "(cd " + dir + "/cool_org/awesome_repo" + " && git " + "clone " + "git@github.com:cool_org/awesome_repo.git"
      + " --branch " + "brunch-1" + " --single-branch " + "brunch-1" + " && cd " + dir + "/cool_org/awesome_repo/brunch-1"
      + ")" + " 2>&1"
  {
    ExampleStagingPath(dir);
    ExampleBranchPath(dir);
    ExampleCloneUrl(dir);
  }

  // ---------------------------------------------------------------------
  // Results of a command
  // ---------------------------------------------------------------------

  /** What the pipe of a command yields, and the status `$?` holds after `Process.wait`. */
  datatype ProcessResult = ProcessResult(exitStatus: int, output: string)

  /** `lines.map(&:chomp)` */
  function ChompAll(lines: seq<string>): (r: seq<string>)
    ensures |r| == |lines| && forall i :: 0 <= i < |r| ==> r[i] == Chomp(lines[i])
  {
    seq(|lines|, i requires 0 <= i < |lines| => Chomp(lines[i]))
  }

  /** Lines with "\n" at most at their ends have none left once chomped. */
  lemma ChompedLines(lines: seq<string>)
    requires forall i, j :: 0 <= i < |lines| && 0 <= j < |lines[i]| - 1 ==> lines[i][j] != '\n'
    ensures forall i :: 0 <= i < |lines| ==> '\n' !in ChompAll(lines)[i]
  {
    forall i | 0 <= i < |lines|
      ensures '\n' !in ChompAll(lines)[i]
    {
      ChompedLine(lines[i]);
    }
  }

  /** The message of `NotFound`: `io.map(&:chomp).join(" ")`, the output on one line. */
  function FailureMessage(output: string): (r: string)
    ensures '\n' !in r
  {
    var lines := Lines(output);
    LinesBreakAtEnds(output);
    ChompedLines(lines);
    JoinWithout(ChompAll(lines), " ", '\n');
    JoinWith(ChompAll(lines), " ")
  }

  /** `output.chomp.split("\n").last`: the last non-empty line, if any. */
  function CommitId(output: string): (r: Option<string>)
    ensures r.Some? ==> r.value != [] && '\n' !in r.value
  {
    var fields := Split(Chomp(output));
    if fields == [] then None else Some(fields[|fields| - 1])
  }

  /** Splitting on "\n" after a last newline adds the last piece at the end. */
  lemma {:induction false} FieldsAfterNewline(a: string, b: string)
    requires '\n' !in b
    ensures Fields(a + "\n" + b) == Fields(a) + [b]
    decreases |a|
  {
    match IndexOf(a, '\n')
    case None => FieldsAfterOnlyNewline(a, b);
    case Some(i) =>
      var s := a + "\n" + b;
      FirstFieldBeforeNewline(a, b, i);
      FieldsAfterNewline(a[i + 1..], b);
      assert Fields(s) == [a[..i]] + (Fields(a[i + 1..]) + [b]);
  }

  /** The first "\n" of `a` is the first of `a + "\n" + b`, and cuts both the same way. */
  lemma FirstFieldBeforeNewline(a: string, b: string, i: nat)
    requires IndexOf(a, '\n') == Some(i)
    ensures Fields(a) == [a[..i]] + Fields(a[i + 1..])
    ensures Fields(a + "\n" + b) == [a[..i]] + Fields(a[i + 1..] + "\n" + b)
  {
    var s := a + "\n" + b;
    assert s[i] == '\n' && s[..i] == a[..i];
    IndexOfFirst(s, '\n', i);
    assert s[i + 1..] == a[i + 1..] + "\n" + b;
  }

  /** The base case: a text without "\n" before the newline is the first piece. */
  lemma FieldsAfterOnlyNewline(a: string, b: string)
    requires '\n' !in a && '\n' !in b
    ensures Fields(a + "\n" + b) == Fields(a) + [b]
  {
    var s := a + "\n" + b;
    assert s == a + ['\n'] + b;
    IndexOfAfter(a, '\n', b);
    assert s[..|a|] == a && s[|a| + 1..] == b;
    assert Fields(b) == [b];
    assert Fields(a) == [a];
  }

  /** The commit id of an output is its last line, whatever came before. */
  lemma CommitIdOfLastLine(noise: string, id: string)
    requires id != [] && '\n' !in id && !EndsWithTerminator(id)
    ensures CommitId(noise + "\n" + id + "\n") == Some(id)
  {
    var s := noise + "\n" + id + "\n";
    assert s[|s| - 2..] != "\r\n" by {
      assert s[|s| - 2] == id[|id| - 1];
    }
    assert Chomp(s) == noise + "\n" + id;
    FieldsAfterNewline(noise, id);
  }

  /** An output of one line without terminator is its own commit id. */
  lemma CommitIdOfBareLine(id: string)
    requires id != [] && '\n' !in id && !EndsWithTerminator(id)
    ensures CommitId(id) == Some(id)
  {
    assert IndexOf(id, '\n').None?;
  }

  /** The same for an output of a single line. */
  lemma CommitIdOfOnlyLine(id: string)
    requires id != [] && '\n' !in id && !EndsWithTerminator(id)
    ensures CommitId(id + "\n") == Some(id)
  {
    var s := id + "\n";
    assert s[|s| - 2..] != "\r\n" by {
      assert s[|s| - 2] == id[|id| - 1];
    }
    assert Chomp(s) == id;
    assert IndexOf(id, '\n').None?;
  }

  // ---------------------------------------------------------------------
  // `new_commit_on_remote?`
  // ---------------------------------------------------------------------

  /**
   * The intended `new_commit_on_remote?`: a failing remote update raises
   * `NotFound` with the output; otherwise the remote is ahead iff its commit
   * id, the last line of the update's output, differs from the local HEAD.
   */
  function RemoteAhead(head: ProcessResult, update: ProcessResult): (r: Result<bool>)
    ensures r.Failure? <==> update.exitStatus != 0
    ensures r.Failure? ==> r.error == RepositoryNotFound(FailureMessage(update.output))
  {
    if update.exitStatus != 0 then Failure(RepositoryNotFound(FailureMessage(update.output)))
    else Success(CommitId(update.output) != CommitId(head.output))
  }

  /** The remote is ahead exactly when the tip it prints is not the local HEAD. */
  lemma RemoteAheadIff(head: ProcessResult, noise: string, tip: string)
    requires tip != [] && '\n' !in tip && !EndsWithTerminator(tip)
    ensures var update := ProcessResult(0, noise + "\n" + tip + "\n");
      RemoteAhead(head, update) == Success(CommitId(head.output) != Some(tip))
  {
    CommitIdOfLastLine(noise, tip);
  }

  /** An `IO` pipe, reduced to the text not consumed yet. */
  datatype Pipe = Pipe(unread: string)

  /** `io.read`: everything left; the pipe is at its end afterwards. */
  function PipeRead(p: Pipe): (string, Pipe)
  {
    (p.unread, Pipe(""))
  }

  /** `io.map(&:chomp)`: every line left, chomped; the pipe is at its end afterwards. */
  function PipeMapChomp(p: Pipe): (seq<string>, Pipe)
  {
    (ChompAll(Lines(p.unread)), Pipe(""))
  }

  /**
   * `new_commit_on_remote?` as written: the update's pipe is consumed by
   * `map(&:chomp)` before `read` is called on it, so `remote` is "".
   */
  function RemoteAheadAsWritten(head: ProcessResult, update: ProcessResult): (r: Result<bool>)
    ensures r.Failure? <==> update.exitStatus != 0
    ensures r.Failure? ==> r.error == RepositoryNotFound(FailureMessage(update.output))
  {
    var (headText, _) := PipeRead(Pipe(head.output));
    var headId := CommitId(headText);
    var (out, rest) := PipeMapChomp(Pipe(update.output));
    var (remoteText, _) := PipeRead(rest);
    var remote := Chomp(remoteText);
    if update.exitStatus != 0 then Failure(RepositoryNotFound(JoinWith(out, " ")))
    else Success(Some(remote) != headId)
  }

  /** As written, a successful update always reports the remote as ahead. */
  lemma AsWrittenAlwaysAhead(head: ProcessResult, update: ProcessResult)
    requires update.exitStatus == 0
    ensures RemoteAheadAsWritten(head, update) == Success(true)
  {
  }

  /** As written, failures are reported exactly as intended. */
  lemma AsWrittenFailsAsIntended(head: ProcessResult, update: ProcessResult)
    requires update.exitStatus != 0
    ensures RemoteAheadAsWritten(head, update) == RemoteAhead(head, update)
  {
  }

  /** A mirror already at the remote tip: as written it is reported ahead, as intended it is not. */
  lemma UpToDateMirror(noise: string, tip: string)
    requires tip != [] && '\n' !in tip && !EndsWithTerminator(tip)
    ensures var head := ProcessResult(0, tip + "\n");
      var update := ProcessResult(0, noise + "\n" + tip + "\n");
      RemoteAheadAsWritten(head, update) == Success(true) && RemoteAhead(head, update) == Success(false)
  {
    CommitIdOfOnlyLine(tip);
    CommitIdOfLastLine(noise, tip);
  }

  /** Both pipes yield `something`: as written the remote is ahead, as intended it is not. */
  lemma UpToDateExample()
    ensures var head := ProcessResult(0, "something");
      var update := ProcessResult(0, "something");
      RemoteAheadAsWritten(head, update) == Success(true) && RemoteAhead(head, update) == Success(false)
  {
    CommitIdOfBareLine("something");
  }

  // ---------------------------------------------------------------------
  // `clone_and_checkout`, `reset_to_latest_from_origin` and `get`
  // ---------------------------------------------------------------------

  /** What the library does to the world: create directories, run git. */
  datatype Effect = MakeDirs(dir: string) | Popen(command: Command)

  /** A run of `get`: its effects in order, and whether it raised. */
  datatype Trace = Trace(effects: seq<Effect>, outcome: Outcome)

  /** The effects of `clone_and_checkout`: create the staging directory if missing, then clone. */
  function CloneEffects(id: Identity, dirExists: string -> bool): seq<Effect>
  {
    (if dirExists(StagingPath(id)) then [] else [MakeDirs(StagingPath(id))]) + [Popen(CloneCommand(id))]
  }

  /** A clone raises `NotFound` with its output unless it exits with status 0. */
  function CloneOutcome(clone: ProcessResult): (r: Outcome)
    ensures r == Pass <==> clone.exitStatus == 0
    ensures r.Fail? ==> r.error == RepositoryNotFound(FailureMessage(clone.output))
  {
    if clone.exitStatus == 0 then Pass else Fail(RepositoryNotFound(FailureMessage(clone.output)))
  }

  /** Two printed lines give a message of the two, separated by one space. */
  lemma {:induction false} FailureMessageOfTwoLines(x: string, y: string)
    requires '\n' !in x && '\n' !in y && !EndsWithTerminator(x) && !EndsWithTerminator(y)
    ensures FailureMessage(x + "\n" + y + "\n") == x + " " + y
  {
    LinesOfTwo(x, y);
    ChompNewline(x);
    ChompNewline(y);
    JoinChompedPair(x + "\n", y + "\n");
  }

  /** Two lines free of "\n", each terminated, are the two lines of their text. */
  lemma LinesOfTwo(x: string, y: string)
    requires '\n' !in x && '\n' !in y
    ensures Lines(x + "\n" + y + "\n") == [x + "\n", y + "\n"]
  {
    var first, second := x + "\n", y + "\n";
    assert forall j :: 0 <= j < |first| - 1 ==> first[j] == x[j];
    assert forall j :: 0 <= j < |second| - 1 ==> second[j] == y[j];
    LinesOfLine(second, []);
    assert second + [] == second;
    LinesOfLine(first, second);
    assert x + "\n" + y + "\n" == first + second;
  }

  lemma JoinChompedPair(a: string, b: string)
    ensures JoinWith(ChompAll([a, b]), " ") == Chomp(a) + " " + Chomp(b)
  {
    var chomped := ChompAll([a, b]);
    assert chomped[1..] == [Chomp(b)];
  }

  /** A failed clone printing `test` and `message` raises `NotFound` with the message "test message". */
  lemma CloneFailureMessage(status: int)
    requires status != 0
    ensures var x, y := "test", "message";
      CloneOutcome(ProcessResult(status, x + "\n" + y + "\n")) == Fail(RepositoryNotFound(x + " " + y))
  {
    FailureMessageOfTwoLines("test", "message");
  }

  /** The effects of running the remote check. */
  function CheckEffects(id: Identity): seq<Effect>
  {
    [Popen(HeadCommand(id)), Popen(UpdateCommand(id))]
  }

  /**
   * `get`: `Dir.exist?(path) && new_commit_on_remote? ? reset : clone`, for
   * a given verdict of the remote check. The condition groups as
   * `(a && b) ? c : d`: a present mirror that is not behind is cloned again.
   */
  function SyncWith(id: Identity, dirExists: string -> bool, run: Command -> ProcessResult,
                    verdict: Result<bool>): Trace
  {
    var clone := Trace(CloneEffects(id, dirExists), CloneOutcome(run(CloneCommand(id))));
    if !dirExists(BranchPath(id)) then clone
    else
      match verdict
      case Failure(e) => Trace(CheckEffects(id), Fail(e))
      case Success(ahead) =>
        if ahead then Trace(CheckEffects(id) + [Popen(ResetCommand(id))], Pass)
        else Trace(CheckEffects(id) + clone.effects, clone.outcome)
  }

  /**
   * `get` with the intended remote check. A missing mirror is cloned; a
   * present one is checked first, and only a failing update raises.
   */
  function Sync(id: Identity, dirExists: string -> bool, run: Command -> ProcessResult): (r: Trace)
    ensures !dirExists(BranchPath(id)) ==> r.effects == CloneEffects(id, dirExists)
    ensures dirExists(BranchPath(id)) ==> CheckEffects(id) <= r.effects
    ensures r.outcome.Fail? ==> r.outcome.error.RepositoryNotFound?
  {
    SyncWith(id, dirExists, run, RemoteAhead(run(HeadCommand(id)), run(UpdateCommand(id))))
  }

  /** `get` as written, over the remote check that consumes its pipe twice. */
  function SyncAsWritten(id: Identity, dirExists: string -> bool, run: Command -> ProcessResult): (r: Trace)
    ensures !dirExists(BranchPath(id)) ==> r.effects == CloneEffects(id, dirExists)
    ensures dirExists(BranchPath(id)) ==> CheckEffects(id) <= r.effects
    ensures r.outcome.Fail? ==> r.outcome.error.RepositoryNotFound?
  {
    SyncWith(id, dirExists, run, RemoteAheadAsWritten(run(HeadCommand(id)), run(UpdateCommand(id))))
  }

  predicate IsClone(e: Effect) { e.Popen? && e.command.Clone? }
  predicate IsReset(e: Effect) { e.Popen? && e.command.FetchReset? }
  predicate IsRemoteCheck(e: Effect) { e.Popen? && (e.command.RevParseHead? || e.command.RemoteUpdate?) }

  /** How many effects of `es` satisfy `p`. */
  function Count(es: seq<Effect>, p: Effect -> bool): nat
  {
    if es == [] then 0 else (if p(es[0]) then 1 else 0) + Count(es[1..], p)
  }

  lemma {:induction false} CountConcat(a: seq<Effect>, b: seq<Effect>, p: Effect -> bool)
    ensures Count(a + b, p) == Count(a, p) + Count(b, p)
  {
    if a == [] {
      assert a + b == b;
    } else {
      assert (a + b)[0] == a[0] && (a + b)[1..] == a[1..] + b;
      CountConcat(a[1..], b, p);
    }
  }

  /** The remote check runs two commands, neither a clone nor a reset. */
  lemma CheckEffectsCount(id: Identity)
    ensures Count(CheckEffects(id), IsClone) == 0
    ensures Count(CheckEffects(id), IsReset) == 0
    ensures Count(CheckEffects(id), IsRemoteCheck) == 2
  {
    CountConcat([Popen(HeadCommand(id))], [Popen(UpdateCommand(id))], IsClone);
    CountConcat([Popen(HeadCommand(id))], [Popen(UpdateCommand(id))], IsReset);
    CountConcat([Popen(HeadCommand(id))], [Popen(UpdateCommand(id))], IsRemoteCheck);
    assert CheckEffects(id) == [Popen(HeadCommand(id))] + [Popen(UpdateCommand(id))];
  }

  /** A clone run issues one clone and no reset, whether or not the staging directory exists. */
  lemma CloneEffectsCount(id: Identity, dirExists: string -> bool)
    ensures Count(CloneEffects(id, dirExists), IsClone) == 1
    ensures Count(CloneEffects(id, dirExists), IsReset) == 0
    ensures Count(CloneEffects(id, dirExists), IsRemoteCheck) == 0
  {
    var mk: seq<Effect> := if dirExists(StagingPath(id)) then [] else [MakeDirs(StagingPath(id))];
    CountConcat(mk, [Popen(CloneCommand(id))], IsClone);
    CountConcat(mk, [Popen(CloneCommand(id))], IsReset);
    CountConcat(mk, [Popen(CloneCommand(id))], IsRemoteCheck);
  }

  /** A present mirror whose remote is ahead is reset once and not cloned. */
  lemma SyncResetsWhenAhead(id: Identity, dirExists: string -> bool, run: Command -> ProcessResult)
    requires dirExists(BranchPath(id))
    requires RemoteAhead(run(HeadCommand(id)), run(UpdateCommand(id))) == Success(true)
    ensures var t := Sync(id, dirExists, run);
      Count(t.effects, IsReset) == 1 && Count(t.effects, IsClone) == 0 && t.outcome == Pass
  {
    CheckEffectsCount(id);
    CountConcat(CheckEffects(id), [Popen(ResetCommand(id))], IsReset);
    CountConcat(CheckEffects(id), [Popen(ResetCommand(id))], IsClone);
  }

  /**
   * A missing mirror, or one whose remote is not ahead, is cloned once and
   * not reset; the clone's status decides the outcome.
   */
  lemma SyncClonesOtherwise(id: Identity, dirExists: string -> bool, run: Command -> ProcessResult)
    requires !dirExists(BranchPath(id)) ||
             RemoteAhead(run(HeadCommand(id)), run(UpdateCommand(id))) == Success(false)
    ensures var t := Sync(id, dirExists, run);
      Count(t.effects, IsClone) == 1 && Count(t.effects, IsReset) == 0 &&
      t.outcome == CloneOutcome(run(CloneCommand(id)))
  {
    CloneEffectsCount(id, dirExists);
    CheckEffectsCount(id);
    CountConcat(CheckEffects(id), CloneEffects(id, dirExists), IsClone);
    CountConcat(CheckEffects(id), CloneEffects(id, dirExists), IsReset);
  }

  /** A missing mirror is cloned without asking git about commits at all. */
  lemma SyncMissingSkipsCheck(id: Identity, dirExists: string -> bool, run: Command -> ProcessResult)
    requires !dirExists(BranchPath(id))
    ensures Count(Sync(id, dirExists, run).effects, IsRemoteCheck) == 0
  {
    CloneEffectsCount(id, dirExists);
  }

  /** A failing remote check raises its error and neither clones nor resets. */
  lemma SyncCheckFailure(id: Identity, dirExists: string -> bool, run: Command -> ProcessResult)
    requires dirExists(BranchPath(id))
    requires run(UpdateCommand(id)).exitStatus != 0
    ensures var t := Sync(id, dirExists, run);
      t.outcome == Fail(RepositoryNotFound(FailureMessage(run(UpdateCommand(id)).output))) &&
      Count(t.effects, IsClone) == 0 && Count(t.effects, IsReset) == 0
  {
    CheckEffectsCount(id);
  }

  /**
   * As written, a present mirror whose update succeeds is reset on every
   * `get` and never cloned, whatever commits the two sides hold.
   */
  lemma SyncAsWrittenResetsPresent(id: Identity, dirExists: string -> bool, run: Command -> ProcessResult)
    requires dirExists(BranchPath(id))
    requires run(UpdateCommand(id)).exitStatus == 0
    ensures var t := SyncAsWritten(id, dirExists, run);
      Count(t.effects, IsReset) == 1 && Count(t.effects, IsClone) == 0 && t.outcome == Pass
  {
    AsWrittenAlwaysAhead(run(HeadCommand(id)), run(UpdateCommand(id)));
    CheckEffectsCount(id);
    CountConcat(CheckEffects(id), [Popen(ResetCommand(id))], IsReset);
    CountConcat(CheckEffects(id), [Popen(ResetCommand(id))], IsClone);
  }

  /** As written, a present mirror is never cloned again. */
  lemma SyncAsWrittenNeverReclones(id: Identity, dirExists: string -> bool, run: Command -> ProcessResult)
    requires dirExists(BranchPath(id))
    ensures Count(SyncAsWritten(id, dirExists, run).effects, IsClone) == 0
  {
    CheckEffectsCount(id);
    CountConcat(CheckEffects(id), [Popen(ResetCommand(id))], IsClone);
  }

  /**
   * The two agree except on a present mirror the intended check finds up to
   * date: that one is cloned again as intended and reset as written.
   */
  lemma SyncAsWrittenAgrees(id: Identity, dirExists: string -> bool, run: Command -> ProcessResult)
    ensures SyncAsWritten(id, dirExists, run) == Sync(id, dirExists, run) <==>
      !dirExists(BranchPath(id)) || RemoteAhead(run(HeadCommand(id)), run(UpdateCommand(id))) != Success(false)
  {
    var head, update := run(HeadCommand(id)), run(UpdateCommand(id));
    if dirExists(BranchPath(id)) {
      if update.exitStatus != 0 {
        AsWrittenFailsAsIntended(head, update);
      } else if RemoteAhead(head, update) == Success(false) {
        SyncAsWrittenResetsPresent(id, dirExists, run);
        SyncClonesOtherwise(id, dirExists, run);
      } else {
        AsWrittenAlwaysAhead(head, update);
      }
    }
  }
}
