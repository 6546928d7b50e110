/**
 * The pure side of `GitLocal::Repository`: the identity of a mirror and its
 * validation, the directory layout derived from it, the translation of
 * absolute paths back to mirror-relative ones, and the rules by which
 * directory listings are filtered.
 */
module Layout {
  import opened Errors
  import opened RubyStrings

  /** `GITHUB_HOST`, the host used when none is given. */
  const GitHubHost := "github.com"

  // ---------------------------------------------------------------------
  // Validation of the arguments
  // ---------------------------------------------------------------------

  /** One character of the class `[A-Za-z0-9\-_./#]`. */
  predicate AllowedChar(c: char)
  {
    'A' <= c <= 'Z' || 'a' <= c <= 'z' || '0' <= c <= '9' ||
    c == '-' || c == '_' || c == '.' || c == '/' || c == '#'
  }

  /** Every character of `s` is in the class. */
  predicate ValidArgument(s: string)
  {
    forall i :: 0 <= i < |s| ==> AllowedChar(s[i])
  }

  /**
   * `arg.gsub(/([A-Za-z0-9\-\_\.\/#]+)/, "")`: removing every run of allowed
   * characters leaves exactly the characters outside the class.
   */
  function StripAllowed(s: string): (r: string)
    ensures forall c :: c in r <==> c in s && !AllowedChar(c)
  {
    if s == [] then []
    else
      assert s == [s[0]] + s[1..];
      (if AllowedChar(s[0]) then [] else [s[0]]) + StripAllowed(s[1..])
  }

  /** The Ruby test `arg.gsub(regexp, "").empty?` accepts exactly the valid arguments. */
  lemma StripAllowedEmpty(s: string)
    ensures StripAllowed(s) == [] <==> ValidArgument(s)
  {
    var r := StripAllowed(s);
    if r != [] {
      assert r[0] in r;
    }
    if !ValidArgument(s) {
      var i :| 0 <= i < |s| && !AllowedChar(s[i]);
      assert s[i] in s;
      assert s[i] in r;
    }
  }

  /**
   * `check_for_special_characters(*args)`: raises `InvalidArgument` at the
   * first argument holding a character outside the class.
   */
  method CheckForSpecialCharacters(args: seq<string>) returns (r: Outcome)
    ensures r == Pass <==> forall k :: 0 <= k < |args| ==> ValidArgument(args[k])
    ensures r != Pass ==> r == Fail(InvalidArgument)
  {
    var i := 0;
    while i < |args|
      invariant 0 <= i <= |args|
      invariant forall k :: 0 <= k < i ==> ValidArgument(args[k])
    {
      StripAllowedEmpty(args[i]);
      if StripAllowed(args[i]) != [] {
        return Fail(InvalidArgument);
      }
      i := i + 1;
    }
    return Pass;
  }

  // ---------------------------------------------------------------------
  // Identity and directory layout
  // ---------------------------------------------------------------------

  /** Everything a mirror is constructed from. */
  datatype Identity = Identity(org: string, repo: string, branch: string, localDirectory: string, host: string)

  /** The arguments `initialize` hands to the check, in order; the host is not one of them. */
  function CheckedArguments(id: Identity): seq<string>
  {
    [id.org, id.repo, id.branch, id.localDirectory]
  }

  /** An identity construction accepts. */
  predicate ValidIdentity(id: Identity)
  {
    forall k :: 0 <= k < |CheckedArguments(id)| ==> ValidArgument(CheckedArguments(id)[k])
  }

  /** Construction checks exactly the organisation, repository, branch and root, never the host. */
  lemma ValidIdentityFields(id: Identity, otherHost: string)
    ensures ValidIdentity(id) <==>
      ValidArgument(id.org) && ValidArgument(id.repo) && ValidArgument(id.branch) && ValidArgument(id.localDirectory)
    ensures ValidIdentity(id) == ValidIdentity(id.(host := otherHost))
  {
    assert CheckedArguments(id)[0] == id.org;
    assert CheckedArguments(id)[1] == id.repo;
    assert CheckedArguments(id)[2] == id.branch;
    assert CheckedArguments(id)[3] == id.localDirectory;
    assert CheckedArguments(id.(host := otherHost)) == CheckedArguments(id);
  }

  /** The arguments of the validation examples: the bad ones fail, the odd-looking ones pass. */
  lemma ValidationExamples(dir: string, host: string)
    ensures !ValidIdentity(Identity("Some!", "$Bad", "Repo^%", dir, host))
    ensures ValidIdentity(Identity("So.me/totally", "fine_to#use", "arg-123", dir, host)) <==> ValidArgument(dir)
    ensures ValidIdentity(Identity("", "", "", "", host))
  {
    var bad := Identity("Some!", "$Bad", "Repo^%", dir, host);
    assert !AllowedChar(bad.org[4]);
    assert !ValidArgument(CheckedArguments(bad)[0]);
    ValidIdentityFields(Identity("So.me/totally", "fine_to#use", "arg-123", dir, host), host);
  }

  /** `org_repo` */
  function OrgRepoName(id: Identity): string
  {
    id.org + "/" + id.repo
  }

  /** `org_repo_branch` */
  function OrgRepoBranchName(id: Identity): string
  {
    id.org + "/" + id.repo + "/" + id.branch
  }

  /** `repo_path`: the directory a clone is made in. */
  function StagingPath(id: Identity): string
  {
    id.localDirectory + "/" + OrgRepoName(id)
  }

  /** `path`: the working copy of the branch. */
  function BranchPath(id: Identity): string
  {
    id.localDirectory + "/" + OrgRepoBranchName(id)
  }

  /** The repository's name on its host is the organisation and the repository around one "/". */
  lemma OrgRepoNameParts(id: Identity)
    ensures var r := OrgRepoName(id);
      |r| == |id.org| + 1 + |id.repo| &&
      r[..|id.org|] == id.org && r[|id.org|] == '/' && r[|id.org| + 1..] == id.repo
  {
  }

  /** The branch's name extends the repository's name by one "/" and the branch. */
  lemma OrgRepoBranchNameExtends(id: Identity)
    ensures OrgRepoBranchName(id) == OrgRepoName(id) + "/" + id.branch
  {
  }

  /** The staging directory is the repository's name below the root. */
  lemma StagingPathUnderRoot(id: Identity)
    ensures var r := StagingPath(id);
      id.localDirectory + "/" <= r && r[|id.localDirectory| + 1..] == OrgRepoName(id)
  {
  }

  /** The working copy is the branch-named child of the staging directory. */
  lemma BranchPathInStaging(id: Identity)
    ensures BranchPath(id) == StagingPath(id) + "/" + id.branch
    ensures BranchPath(id) == id.localDirectory + "/" + id.org + "/" + id.repo + "/" + id.branch
  {
  }

  /** The names and paths derived from a valid identity hold only characters of the class. */
  lemma PathsAreValid(id: Identity)
    requires ValidIdentity(id)
    ensures ValidArgument(OrgRepoName(id)) && ValidArgument(OrgRepoBranchName(id))
    ensures ValidArgument(StagingPath(id)) && ValidArgument(BranchPath(id))
  {
    ValidIdentityFields(id, id.host);
    ValidConcat(id.org, "/");
    ValidConcat(id.org + "/", id.repo);
    assert OrgRepoName(id) == id.org + "/" + id.repo;
    ValidConcat(OrgRepoName(id), "/");
    ValidConcat(OrgRepoName(id) + "/", id.branch);
    ValidConcat(id.localDirectory, "/");
    ValidConcat(id.localDirectory + "/", OrgRepoName(id));
    ValidConcat(StagingPath(id), "/");
    ValidConcat(StagingPath(id) + "/", id.branch);
    BranchPathInStaging(id);
  }

  /** A concatenation holds only characters of the class iff both parts do. */
  lemma ValidConcat(a: string, b: string)
    ensures ValidArgument(a + b) <==> ValidArgument(a) && ValidArgument(b)
  {
    forall i | 0 <= i < |a|
      ensures (a + b)[i] == a[i]
    {
    }
    forall i | 0 <= i < |b|
      ensures (a + b)[|a| + i] == b[i]
    {
    }
    if ValidArgument(a) && ValidArgument(b) {
      forall i | 0 <= i < |a + b|
        ensures AllowedChar((a + b)[i])
      {
        if i >= |a| {
          assert (a + b)[i] == b[i - |a|];
        }
      }
    }
  }

  /** Separators are not collapsed: a root ending in "/" gives a doubled one. */
  lemma DoubledSeparator(host: string)
    ensures BranchPath(Identity("o", "r", "b", "tmp/", host)) == "tmp//o/r/b"
  {
  }

  // ---------------------------------------------------------------------
  // `local_path`
  // ---------------------------------------------------------------------

  /**
   * `local_path` undoes `file_object`: the mirror-relative path comes back,
   * as long as it does not start with "/" (`File.join` would drop one of the
   * two separators), the mirror root does not end with "/", and the path
   * holds no copy of the mirror root itself.
   */
  lemma LocalPathOfFileObject(id: Identity, rel: string)
    requires !EndsWithSlash(BranchPath(id)) && !StartsWithSlash(rel)
    requires !Occurs(BranchPath(id) + "/", rel)
    ensures RemoveAll(FileJoin(BranchPath(id), rel), BranchPath(id) + "/") == rel
  {
    assert FileJoin(BranchPath(id), rel) == (BranchPath(id) + "/") + rel;
    RemoveAllLeading(BranchPath(id) + "/", rel);
  }

  // ---------------------------------------------------------------------
  // Directory listings
  // ---------------------------------------------------------------------

  /** One result of `Dir.glob`, with the answer `File.directory?` gives for it. */
  datatype Entry = Entry(name: string, isDirectory: bool)

  /**
   * The directory a listing searches: the mirror root or `File.join(root,
   * file_path)`, with a "/" appended only when it does not end in one.
   */
  function SearchPrefix(root: string, filePath: Option<string>): (r: string)
    ensures EndsWithSlash(r)
    ensures var base := if filePath.None? then root else FileJoin(root, filePath.value);
            base <= r && |r| <= |base| + 1 && (EndsWithSlash(base) ==> r == base)
  {
    var base := if filePath.None? then root else FileJoin(root, filePath.value);
    if EndsWithSlash(base) then base else base + "/"
  }

  /** `s` without its leading "." characters. */
  function DropLeadingDots(s: string): (r: string)
    ensures IsSuffix(r, s)
    ensures r == [] || r[0] != '.'
  {
    if s != [] && s[0] == '.' then
      var r := DropLeadingDots(s[1..]);
      assert s[|s| - |r|..] == s[1..][|s[1..]| - |r|..];
      r
    else s
  }

  /** `r` ends `s`. */
  predicate IsSuffix(r: string, s: string)
  {
    |r| <= |s| && s[|s| - |r|..] == r
  }

  lemma SuffixTransitive(a: string, b: string, c: string)
    requires IsSuffix(a, b) && IsSuffix(b, c)
    ensures IsSuffix(a, c)
  {
    assert c[|c| - |a|..] == c[|c| - |b|..][|b| - |a|..];
  }

  /** The suffix of `s` from its last ".", or "" when it has none. */
  function FromLastDot(s: string): (r: string)
    ensures r == [] || (r[0] == '.' && '.' !in r[1..])
    ensures IsSuffix(r, s)
    ensures r == [] <==> '.' !in s
  {
    match LastIndexOf(s, '.')
    case None => []
    case Some(j) =>
      assert s[j..][1..] == s[j + 1..];
      s[j..]
  }

  /**
   * `File.extname(name)`: the base name's suffix from its last ".", where
   * dots leading the base name do not count; "" when there is none.
   */
  function Extname(name: string): (r: string)
    ensures var stem := DropLeadingDots(AfterLast(name, '/'));
      IsSuffix(r, stem) && (r == [] <==> '.' !in stem) &&
      (r == [] || (r[0] == '.' && '.' !in r[1..]))
    ensures IsSuffix(r, name)
  {
    var base := AfterLast(name, '/');
    var stem := DropLeadingDots(base);
    var r := FromLastDot(stem);
    SuffixTransitive(r, stem, base);
    SuffixTransitive(r, base, name);
    r
  }

  /** `file_objects` skips ".", "..", ".zip" files and directories. */
  predicate ListedFile(e: Entry)
  {
    e.name != "." && e.name != ".." && Extname(e.name) != ".zip" && !e.isDirectory
  }

  /** The suffix from the last "." of `a + "." + b`, when `b` holds none, is `"." + b`. */
  lemma FromLastDotOf(a: string, b: string)
    requires '.' !in b
    ensures FromLastDot(a + "." + b) == "." + b
  {
    LastIndexOfBefore(a, '.', b);
    assert (a + "." + b)[|a|..] == "." + b;
  }

  /**
   * A file named `stem.zip` in any directory is skipped by `file_objects`,
   * as `folder/subfolder/file.zip` is; the stem must be non-empty and must
   * not start with "." (`File.extname(".zip")` is "").
   */
  lemma ZipArchiveNotListed(dir: string, stem: string)
    requires stem != [] && stem[0] != '.' && '/' !in stem
    ensures var name := dir + "/" + stem + ".zip";
      Extname(name) == ".zip" && !ListedFile(Entry(name, false))
  {
    ZipBaseName(dir, stem);
    ZipExtension(stem);
  }

  /** The base name of `dir/stem.zip` is `stem.zip`. */
  lemma ZipBaseName(dir: string, stem: string)
    requires '/' !in stem
    ensures AfterLast(dir + "/" + stem + ".zip", '/') == stem + ".zip"
  {
    var base := stem + ".zip";
    assert '/' !in base by {
      forall i | 0 <= i < |base| ensures base[i] != '/' {
        if i < |stem| { assert base[i] == stem[i]; }
      }
    }
    assert dir + "/" + stem + ".zip" == dir + ['/'] + base;
    AfterLastOf(dir, '/', base);
  }

  /** A base name `stem.zip` whose stem has no leading "." has extension ".zip". */
  lemma ZipExtension(stem: string)
    requires stem != [] && stem[0] != '.'
    ensures FromLastDot(DropLeadingDots(stem + ".zip")) == ".zip"
  {
    var zip := "zip";
    assert ".zip" == "." + zip;
    ExtensionAfterStem(stem, zip);
  }

  /** A base name `stem.ext`, with no leading "." and no "." in `ext`, has extension `.ext`. */
  lemma ExtensionAfterStem(stem: string, ext: string)
    requires stem != [] && stem[0] != '.' && '.' !in ext
    ensures FromLastDot(DropLeadingDots(stem + ("." + ext))) == "." + ext
  {
    var base := stem + ("." + ext);
    assert base[0] == stem[0];
    assert base == stem + "." + ext;
    FromLastDotOf(stem, ext);
  }

  /** The example of the listing: `folder/subfolder/file.zip` under the mirror is skipped. */
  lemma FolderZipNotListed(root: string)
    ensures var name := root + "/" + "folder/subfolder" + "/" + "file" + ".zip";
      !ListedFile(Entry(name, false))
  {
    ZipArchiveNotListed(root + "/" + "folder/subfolder", "file");
  }

  /** `all_file_objects` keeps an entry when it is not a directory or directories are asked for. */
  function TreeFilter(includeDirs: bool): Entry -> bool
  {
    (e: Entry) => !e.isDirectory || includeDirs
  }

  /** The entries `keep` accepts, in listing order. */
  function Select(es: seq<Entry>, keep: Entry -> bool): (r: seq<Entry>)
    ensures |r| <= |es|
    ensures forall i :: 0 <= i < |r| ==> r[i] in es && keep(r[i])
    ensures forall i :: 0 <= i < |es| && keep(es[i]) ==> es[i] in r
  {
    if es == [] then []
    else Select(es[..|es| - 1], keep) + (if keep(es[|es| - 1]) then [es[|es| - 1]] else [])
  }

  /** Selection keeps listing order: it distributes over consecutive parts of a listing. */
  lemma {:induction false} SelectConcat(a: seq<Entry>, b: seq<Entry>, keep: Entry -> bool)
    ensures Select(a + b, keep) == Select(a, keep) + Select(b, keep)
    decreases |b|
  {
    if b == [] {
      assert a + b == a;
    } else {
      var b' := b[..|b| - 1];
      assert (a + b)[..|a + b| - 1] == a + b';
      assert (a + b)[|a + b| - 1] == b[|b| - 1];
      SelectConcat(a, b', keep);
    }
  }

  /** Selecting with a filter that accepts everything keeps the whole listing. */
  lemma {:induction false} SelectEverything(es: seq<Entry>, keep: Entry -> bool)
    requires forall i :: 0 <= i < |es| ==> keep(es[i])
    ensures Select(es, keep) == es
  {
    if es != [] {
      SelectEverything(es[..|es| - 1], keep);
      assert es == es[..|es| - 1] + [es[|es| - 1]];
    }
  }

  /** What `file_objects` yields is a file, neither "." nor "..", without a ".zip" extension. */
  lemma ListedFiles(es: seq<Entry>)
    ensures forall e :: e in Select(es, ListedFile) <==>
      e in es && !e.isDirectory && Extname(e.name) != ".zip" && e.name != "." && e.name != ".."
  {
  }

  /** `all_file_objects(p, false)` yields no directory; `all_file_objects(p, true)` yields the whole listing. */
  lemma TreeListing(es: seq<Entry>)
    ensures forall e :: e in Select(es, TreeFilter(false)) <==> e in es && !e.isDirectory
    ensures Select(es, TreeFilter(true)) == es
  {
    SelectEverything(es, TreeFilter(true));
  }
}
