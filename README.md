# git_local in Dafny

A model of the core of the Ruby gem `git_local`. The gem keeps a local mirror of one branch of a remote
git repository under a root directory, as `root/org/repo/branch`. It has two classes:

- `GitLocal::Repository` validates its arguments, derives the mirror's paths, and lists the files of the
  mirror. Its `get` either clones the branch or resets it hard to the remote tip, after asking git whether
  the remote has a new commit.
- `GitLocal::Object` is a handle on one file. It gives the file's name, its lines, its contents (loaded
  once and kept), and git's blob id of the contents.

The outside world is passed in as values:

- The git subprocess is a function `run` from a command to a `ProcessResult`: the text of its pipe and
  the exit status left in `$?`.
- `Dir.exist?` is a function `dirExists`.
- `Dir.glob`, together with `File.directory?` for each result, is a function `glob` from the pattern to a
  listing of entries.
- The files on disk are a map `Disk` from path to text.
- SHA-1 is a function parameter `sha1`.

Effects are returned as a list of `Effect` values, in order: directories created and commands run.

Files:

- `errors.dfy` (`Errors`): `Option`, `Result`, `Outcome`, and the exceptions of the gem as values.
- `strings.dfy` (`RubyStrings`): the Ruby core string operations the gem relies on: `gsub` with a literal
  pattern, `rindex`, `chomp`, `split("\n")`, `each_line`, `File.join`, `Integer#to_s`.
- `objects.dfy` (`GitObject`): blob framing, reading the first lines, and the class `FileObject`.
- `layout.dfy` (`Layout`): the identity and its validation, the path layout, `local_path`, and the listing
  filters.
- `protocol.dfy` (`GitProtocol`): the git commands, how their output is read, `new_commit_on_remote?`,
  and `Sync`, the specification of `get`.
- `repository.dfy` (`GitRepository`): the class `Repository`, with its memoised paths. Every method is
  proved against the functions above.

How `get` behaves depends on the remote check it uses:

- At repository.rb:21, `Dir.exist?(path) && new_commit_on_remote? ? reset : clone` groups as
  `(a && b) ? c : d`. The model keeps that grouping.
- As written, `new_commit_on_remote?` is true after every successful remote update (see Findings). So a
  present mirror whose remote is reachable is hard-reset on every `get` and never cloned again
  (`GitProtocol.SyncAsWritten`, `GitProtocol.SyncAsWrittenResetsPresent`).
- With the corrected check, a present mirror that is not behind falls to the `else` branch and is cloned
  again. That branch of the grouping is reachable only with the corrected check (`GitProtocol.Sync`).
- `Repository.Get` and `MirrorBranch` are proved against the corrected `Sync`; `GitProtocol.SyncAsWrittenAgrees`
  says exactly where the two differ.
- Separators are not collapsed. A root ending in "/" gives `root//org/repo/branch` (`Layout.DoubledSeparator`).

## Model

| member | source | states |
|---|---|---|
| Layout.StripAllowedEmpty | lib/git_local/repository.rb:72-74 | removing every run of `[A-Za-z0-9-_./#]` leaves "" exactly when every character is in the class |
| Layout.CheckForSpecialCharacters | lib/git_local/repository.rb:71-76 | passes iff every argument is in the class, and raises `InvalidArgument` otherwise |
| Layout.ValidIdentityFields | lib/git_local/repository.rb:11-12 | construction checks exactly org, repo, branch and local directory; the host never affects the verdict |
| Layout.ValidationExamples | spec/repository_spec.rb:217-226 | `Some!`/`$Bad`/`Repo^%` are rejected; `So.me/totally`/`fine_to#use`/`arg-123` pass whenever the root does; empty strings pass |
| Layout.StripAllowed | lib/git_local/repository.rb:74 | after removing the runs of allowed characters, a character remains iff it occurs in the argument and is outside the class |
| Layout.OrgRepoNameParts | lib/git_local/repository.rb:92-94 | `org_repo` is the organisation, one "/", then the repository, and nothing else |
| Layout.OrgRepoBranchNameExtends | lib/git_local/repository.rb:96-98 | `org_repo_branch` is `org_repo`, one "/", then the branch |
| Layout.StagingPathUnderRoot | lib/git_local/repository.rb:104-106 | `repo_path` is the local directory and one "/", followed by `org_repo` |
| Layout.BranchPathInStaging | lib/git_local/repository.rb:67-69 | `path` is `repo_path + "/" + branch`, which is `local_directory/org/repo/branch` |
| Layout.PathsAreValid | lib/git_local/repository.rb:67-69 | for a validated identity, `org_repo`, `org_repo_branch`, `repo_path` and `path` hold only characters of the class |
| Layout.DoubledSeparator | lib/git_local/repository.rb:68 | a root `tmp/` yields `tmp//o/r/b`: separators are not collapsed |
| Layout.LocalPathOfFileObject | lib/git_local/repository.rb:49-51 | `local_path(File.join(path, rel)) == rel` when `rel` does not start with "/", `path` does not end in "/", and `rel` holds no copy of `path + "/"` |
| Layout.SearchPrefix | lib/git_local/repository.rb:29-30 | the searched directory is the root or `File.join(root, p)`, with one "/" appended only when missing |
| Layout.Extname | lib/git_local/repository.rb:33 | with `stem` the base name less its leading dots: "" iff `stem` has no "."; otherwise the suffix of `stem` from its last "." |
| Layout.ZipArchiveNotListed | lib/git_local/repository.rb:33 | `dir/stem.zip` has extension ".zip" and is skipped by `file_objects`, for any directory and any non-empty stem without "/" or leading "." |
| Layout.FolderZipNotListed | spec/repository_spec.rb:121-128 | `folder/subfolder/file.zip` under the mirror is not listed |
| Layout.Select | lib/git_local/repository.rb:32-45 | every kept entry is in the listing and accepted by the filter, and every accepted entry of the listing is kept |
| Layout.SelectConcat | lib/git_local/repository.rb:32-36 | filtering keeps listing order: it distributes over consecutive parts of a listing |
| Layout.SelectEverything | lib/git_local/repository.rb:43 | a filter accepting every entry keeps the whole listing |
| Layout.ListedFiles | lib/git_local/repository.rb:33 | `file_objects` keeps exactly the non-directory entries other than "." and ".." without extension ".zip" |
| Layout.TreeListing | lib/git_local/repository.rb:43-45 | without `include_dirs` no directory is kept; with it the whole listing is kept |
| RubyStrings.RemoveAll | lib/git_local/repository.rb:50 | `gsub(pat, "")` only removes characters: the result is no longer and its characters are among the argument's |
| RubyStrings.RemoveAllAbsent | lib/git_local/repository.rb:50 | `local_path` returns its argument unchanged when the argument does not contain `path + "/"` |
| RubyStrings.RemoveAllLeading | lib/git_local/repository.rb:50 | removing the pattern from `pattern + rest` gives `rest` when `rest` does not contain it |
| RubyStrings.LastIndexOf | lib/git_local/object.rb:13 | `rindex` is None iff the char is absent; otherwise it points at the char and no later copy exists |
| RubyStrings.Chomp | lib/git_local/repository.rb:55 | `chomp` removes a trailing "\r\n" as a whole, otherwise one trailing "\n" or "\r", and changes the text iff it ends in one |
| RubyStrings.Split | lib/git_local/repository.rb:55 | `split("\n")` is the newline-separated pieces up to the last non-empty one: every piece it drops is empty |
| RubyStrings.FieldsJoin | lib/git_local/repository.rb:55 | joining the newline-separated pieces with "\n" gives the text back |
| RubyStrings.LinesBreakAtEnds | lib/git_local/object.rb:19 | a line holds "\n" at most as its last character |
| RubyStrings.LinesConcat | lib/git_local/object.rb:19 | the lines of a text, each keeping its "\n", concatenate to the text |
| RubyStrings.FileJoin | lib/git_local/repository.rb:25 | `File.join(a, b)` ends with `b`; if `b` starts with "/" it follows `a` less its trailing "/"s directly, otherwise it follows all of `a` with one "/" inserted exactly when `a` does not end in one |
| RubyStrings.AfterLast | lib/git_local/object.rb:13 | what follows the last "/" holds none, ends the text, and is the whole text when there is no "/" |
| RubyStrings.DecimalRoundTrip | lib/git_local/object.rb:25 | `length.to_s` is a non-empty digit string whose value is the length |
| GitObject.BlobPreimage | lib/git_local/object.rb:25 | the hashed bytes are strictly longer than the contents and end with them |
| GitObject.BlobRoundTrip | lib/git_local/object.rb:25 | the header is well formed and its declared length gives the contents back |
| GitObject.BlobPreimageInjective | lib/git_local/object.rb:25 | different contents never have the same hashed bytes |
| GitObject.ShaExampleHeader | spec/object_spec.rb:75-81 | the 71-character example gets the header `blob 71\0`, and its preimage differs from the raw text |
| GitObject.ReadLinesPrefix | lib/git_local/object.rb:19 | what `read(n)` returns is a prefix of the whole file |
| GitObject.ReadLinesAll | spec/object_spec.rb:51-57 | asking for at least as many lines as the file has returns all of it |
| GitObject.ReadLinesLines | lib/git_local/object.rb:19 | `read(n)` consists of exactly the first `n` lines, each with its "\n" |
| GitObject.FileObject.constructor | lib/git_local/object.rb:8-10 | `path` is the string given; nothing is loaded |
| GitObject.FileObject.Name | lib/git_local/object.rb:12-14 | the name has no "/", ends the path, follows its last "/", and is the whole path when there is no "/" |
| GitObject.FileObject.Contents | lib/git_local/object.rb:34-36 | the file is loaded at most once and then kept; a failed read raises the system error and is not kept |
| GitObject.FileObject.Read | lib/git_local/object.rb:16-22 | no limit: the cached contents; `n > 0`: the first `n` lines from disk, cache untouched; `0`: ""; negative: `NotFound`; every failure is `NotFound` |
| GitObject.FileObject.Sha | lib/git_local/object.rb:24-26 | `sha1` of the blob preimage of the cached contents; a failed read propagates the system error |
| GitObject.ReadTwice | lib/git_local/object.rb:34-36 | after a first full read, a changed file still gives the first text, for `read` and `sha` alike |
| GitObject.LimitedThenFull | lib/git_local/object.rb:17-19 | a limited read does not fill the cache: a later full read sees the current file |
| GitProtocol.CommandShape | lib/git_local/repository.rb:54-101 | every command (lines 54, 58, 85, 101) starts with `(cd <dir> && git `; the remote update and the clone end with `) 2>&1`, sending git's errors down the pipe; the HEAD query and the reset end with ")" |
| GitProtocol.CloneUrlParts | lib/git_local/repository.rb:85 | the clone address is `git@<host>:`, then `org_repo`, then `.git` |
| GitProtocol.FailureMessage | lib/git_local/repository.rb:62-89 | the message of a failed update (line 62) or clone (line 89) is the output on one line: it holds no "\n" |
| GitProtocol.CloneCommandNamesHost | lib/git_local/repository.rb:85 | the clone command contains the host it was constructed with |
| GitProtocol.ExampleBranchPath | spec/repository_spec.rb:187-190 | the example mirror's `path` is `dir/cool_org/awesome_repo/brunch-1` |
| GitProtocol.ExampleHeadCommand | spec/repository_spec.rb:16 | the HEAD query is `(cd <path> && git rev-parse HEAD)` |
| GitProtocol.ExampleUpdateCommand | spec/repository_spec.rb:18 | the remote query is `(cd <path> && git remote update && git rev-parse origin/brunch-1) 2>&1` |
| GitProtocol.ExampleResetCommand | spec/repository_spec.rb:20 | the reset is `(cd <path> && git fetch && git reset origin/brunch-1 --hard)` |
| GitProtocol.ExampleCloneCommand | spec/repository_spec.rb:49-50 | the clone is `(cd <repo_path> && git clone git@github.com:cool_org/awesome_repo.git --branch brunch-1 --single-branch brunch-1 && cd <path>) 2>&1` |
| GitProtocol.CommitId | lib/git_local/repository.rb:55 | a commit id read from output is non-empty and holds no "\n" |
| GitProtocol.CommitIdOfLastLine | lib/git_local/repository.rb:55 | the commit id of an output is its last line, whatever lines come before it |
| GitProtocol.CommitIdOfOnlyLine | lib/git_local/repository.rb:55 | a one-line output is its own commit id |
| GitProtocol.RemoteAhead | lib/git_local/repository.rb:53-65 | fails iff the update exits non-zero, with `NotFound` carrying the output lines chomped and joined by spaces |
| GitProtocol.RemoteAheadIff | lib/git_local/repository.rb:64 | after a successful update ending in tip `t`, the remote is ahead iff the local HEAD is not `t` |
| GitProtocol.RemoteAheadAsWritten | lib/git_local/repository.rb:53-65 | as written, it also fails iff the update exits non-zero, with the same `NotFound` message |
| GitProtocol.AsWrittenAlwaysAhead | lib/git_local/repository.rb:59-64 | as written, every successful update reports the remote as ahead |
| GitProtocol.AsWrittenFailsAsIntended | lib/git_local/repository.rb:62 | as written, a failing update raises the same error as intended |
| GitProtocol.UpToDateMirror | lib/git_local/repository.rb:59-64 | an up-to-date mirror is reported ahead as written and not ahead as intended |
| GitProtocol.UpToDateExample | spec/repository_spec.rb:205-214 | both pipes yield `something`: as written the result is true, as intended false |
| GitProtocol.CloneOutcome | lib/git_local/repository.rb:86-89 | a clone passes iff its exit status is 0; otherwise it raises `NotFound` with the chomped output lines joined by " " |
| GitProtocol.FailureMessageOfTwoLines | lib/git_local/repository.rb:86-89 | two printed lines give the message of both lines separated by one space |
| GitProtocol.CloneFailureMessage | spec/repository_spec.rb:61-75 | a failing clone that prints `test` and `message` raises `NotFound` with the message "test message" |
| GitProtocol.CloneEffectsCount | lib/git_local/repository.rb:82-85 | `clone_and_checkout` runs exactly one clone, no reset and no remote check |
| GitProtocol.Sync | lib/git_local/repository.rb:20-22 | a missing mirror only runs the clone effects; a present one runs the HEAD and remote queries first; every failure is `NotFound` |
| GitProtocol.SyncAsWritten | lib/git_local/repository.rb:20-22 | the same shape over the remote check as written |
| GitProtocol.SyncAsWrittenResetsPresent | lib/git_local/repository.rb:21 | as written, a present mirror whose update exits 0 is reset exactly once, never cloned, and `get` passes |
| GitProtocol.SyncAsWrittenNeverReclones | lib/git_local/repository.rb:21 | as written, a present mirror is never cloned |
| GitProtocol.SyncAsWrittenAgrees | lib/git_local/repository.rb:21 | as written and as intended agree iff the mirror is missing or the intended check does not find it up to date |
| GitProtocol.SyncResetsWhenAhead | lib/git_local/repository.rb:21 | a present mirror whose remote is ahead is reset once, never cloned, and `get` passes |
| GitProtocol.SyncClonesOtherwise | lib/git_local/repository.rb:21 | a missing mirror, or one not behind, is cloned once and never reset; the clone's status decides |
| GitProtocol.SyncMissingSkipsCheck | lib/git_local/repository.rb:21 | for a missing mirror no HEAD or remote query is run (short-circuit) |
| GitProtocol.SyncCheckFailure | lib/git_local/repository.rb:62 | a failing remote check raises its `NotFound` and neither clones nor resets |
| GitRepository.NewObjects | lib/git_local/repository.rb:32-36 | one fresh, unloaded object per accepted entry, in listing order, with the entry's name as path |
| GitRepository.Repository.constructor | lib/git_local/repository.rb:11-18 | the identity is the arguments given; no path is computed yet |
| GitRepository.Repository.Create | lib/git_local/repository.rb:11-12 | succeeds iff the four checked arguments are valid; otherwise `InvalidArgument`; the host defaults to `github.com` |
| GitRepository.Repository.OrgRepo | lib/git_local/repository.rb:92-94 | `org/repo`, memoised |
| GitRepository.Repository.OrgRepoBranch | lib/git_local/repository.rb:96-98 | `org/repo/branch`, memoised |
| GitRepository.Repository.Path | lib/git_local/repository.rb:67-69 | `local_directory/org/repo/branch`, memoised along with `org_repo_branch` |
| GitRepository.Repository.RepoPath | lib/git_local/repository.rb:104-106 | `local_directory/org/repo`, memoised along with `org_repo` |
| GitRepository.Repository.FileObjectAt | lib/git_local/repository.rb:24-26 | a fresh, unloaded object at `File.join(path, file_path)` |
| GitRepository.Repository.LocalPath | lib/git_local/repository.rb:49-51 | every occurrence of `path + "/"` removed from the argument |
| GitRepository.Repository.FileObjects | lib/git_local/repository.rb:28-37 | one fresh object per listed file directly below the searched directory, in listing order |
| GitRepository.Repository.AllFileObjects | lib/git_local/repository.rb:39-47 | one fresh object per entry below the searched directory that is a file, or any entry with `include_dirs`, in order |
| GitRepository.Repository.NewCommitOnRemote | lib/git_local/repository.rb:53-65 | runs the HEAD and remote queries in that order, and gives the intended verdict `RemoteAhead` |
| GitRepository.Repository.CloneAndCheckout | lib/git_local/repository.rb:82-90 | creates `repo_path` only when missing, then clones; raises `NotFound` with the output on a non-zero exit |
| GitRepository.Repository.ResetToLatestFromOrigin | lib/git_local/repository.rb:100-102 | issues exactly the fetch-and-reset command; its status is ignored |
| GitRepository.Repository.Get | lib/git_local/repository.rb:20-22 | the effects and the outcome of `get` are exactly those of `Sync` |
| GitRepository.MirrorBranch | lib/git_local/repository.rb:11-22 | `Repository.new(...).get` raises `InvalidArgument` before any effect, or runs exactly `Sync` |
| GitRepository.ListFiles | spec/repository_spec.rb:93-128 | the paths of `file_objects` are the names of the listed files, in listing order |

## Left out

- I/O is not modelled: `IO.popen`, `Process.wait`, `$?`, `FileUtils.makedirs`, `Dir.exist?`, `Dir.glob`,
  `File.directory?`, `File.read` and `File.foreach`. They become the parameters `run`, `dirExists`, `glob`
  and `Disk`. The order of a listing is whatever `glob` returns. A file is read as one snapshot per call.
- The SHA-1 algorithm is not modelled: `sha1` is a parameter, and only the bytes handed to it are specified.
- `Object#size` is left out: it is a floating-point MiB count read fresh from `File.size`.
- The `protocol:` option and `InvalidProtocol` appear only in spec/repository_spec.rb:244-268. They are not
  implemented in lib/git_local/repository.rb, so they are not modelled.
- lib/git_local/test_helpers.rb is not part of this model: it is test scaffolding that writes files to disk.
- Text is a sequence of characters, one character per byte. `contents.length` is therefore the byte count git
  uses, and multi-byte encodings are not modelled.
- Layout.Extname: follows `File.extname` for the names a listing yields. It drops the dots that lead a base
  name and takes the suffix from the last remaining ".". Ruby's finer rules for names ending in "." and for
  platform-specific cases are not modelled.
- `Process.wait` on the reset command and its result (the value `get` returns after a reset) are not modelled;
  the reset is one command issued, with outcome `Pass`.
- GitRepository.Repository.NewCommitOnRemote: models the intended comparison (see Findings), not the
  always-true one the code computes; GitProtocol.RemoteAheadAsWritten models the latter.
- GitRepository.Repository.Get: is proved against the corrected `Sync`. As written, a present mirror whose
  update exits 0 is reset on every call; `GitProtocol.SyncAsWritten` models that behaviour.
- GitRepository.MirrorBranch: runs the corrected `Sync` for a valid identity, not `SyncAsWritten`.
- GitProtocol.Sync: uses the corrected remote check; `GitProtocol.SyncAsWritten` is the same decision over
  the check as written, and `GitProtocol.SyncAsWrittenAgrees` says where the two differ.
- A failing `File.read` is a missing key of `Disk`. The model does not tell apart the errors Ruby would raise
  (missing file, directory, permissions): all of them are `SystemCallError(path)` before rescue.

## Findings

| source | as written | input that shows it | evidently intended | confidence | as-written member | corrected member |
|---|---|---|---|---|---|---|
| lib/git_local/repository.rb:59-60 | `popened_io.map(&:chomp)` reads the update's pipe to its end, so the next `popened_io.read` returns "" and `remote` is always ""; HEAD's last line is never "", so `new_commit_on_remote?` is true after every successful update | HEAD prints `something` and the remote update prints `something`, exit 0: the result is true | compare the tip the remote update prints (its last line, read once) with HEAD's last line: false for this input | not executed | GitProtocol.AsWrittenAlwaysAhead | GitProtocol.RemoteAhead |
