/**
 * `GitLocal::Object`: a handle on one file of the mirror. It knows its
 * path, derives its name, reads its lines, keeps its full contents once
 * loaded, and computes git's blob identifier over them.
 *
 * The disk is a map from the paths of readable regular files to their
 * text; any other path (missing, a directory, unreadable) fails to read.
 * SHA-1 is a parameter: only the bytes handed to it are modelled.
 */
module GitObject {
  import opened Errors
  import opened RubyStrings

  /** The readable regular files and their contents, at the time of a call. */
  type Disk = map<string, string>

  // ---------------------------------------------------------------------
  // Blob framing
  // ---------------------------------------------------------------------

  /**
   * The bytes git hashes to name a blob: "blob ", the decimal length, one
   * NUL byte, then the contents. It is strictly longer than the contents,
   * so it never equals them, and ends with them.
   */
  function BlobPreimage(contents: string): (r: string)
    ensures |r| > |contents| && r[|r| - |contents|..] == contents
  {
    "blob " + NatToDecimal(|contents|) + "\0" + contents
  }

  /** Reads a blob preimage back: checks the header and the declared length. */
  function ParseBlob(s: string): Option<string>
  {
    if !("blob " <= s) then None
    else
      var rest := s[5..];
      match IndexOf(rest, '\0')
      case None => None
      case Some(i) =>
        if rest[..i] != [] && AllDigits(rest[..i]) && DecimalValue(rest[..i]) == |rest[i + 1..]|
        then Some(rest[i + 1..])
        else None
  }

  /** The framing loses nothing: its header is well formed and gives the length back. */
  lemma BlobRoundTrip(contents: string)
    ensures ParseBlob(BlobPreimage(contents)) == Some(contents)
  {
    var digits := NatToDecimal(|contents|);
    var s := BlobPreimage(contents);
    assert s == "blob " + (digits + ['\0'] + contents);
    var rest := s[5..];
    assert rest == digits + ['\0'] + contents;
    assert '\0' !in digits;
    IndexOfAfter(digits, '\0', contents);
    assert rest[..|digits|] == digits;
    assert rest[|digits| + 1..] == contents;
    DecimalRoundTrip(|contents|);
  }

  /** Different contents never share a preimage, hence never need to share a hash input. */
  lemma BlobPreimageInjective(a: string, b: string)
    ensures BlobPreimage(a) == BlobPreimage(b) ==> a == b
  {
    BlobRoundTrip(a);
    BlobRoundTrip(b);
  }

  /** The 71-character text of the sha example and the header it gets. */
  const ShaExample := "lessons on why Peter rocks\ntickle bunnies\ntopple monger\nfarkle and fun\n"

  lemma ShaExampleHeader()
    ensures |ShaExample| == 71
    ensures BlobPreimage(ShaExample) == "blob 71\0" + ShaExample
    ensures BlobPreimage(ShaExample) != ShaExample
  {
    assert NatToDecimal(7) == "7";
    assert NatToDecimal(71) == "71";
  }

  // ---------------------------------------------------------------------
  // Reading a limited number of lines
  // ---------------------------------------------------------------------

  /** `File.foreach(path).first(n).join` over the text of the file. */
  function ReadLines(text: string, n: nat): string
  {
    Concat(Take(Lines(text), n))
  }

  /** What is read is always a prefix of the whole text. */
  lemma ReadLinesPrefix(text: string, n: nat)
    ensures ReadLines(text, n) <= text
  {
    LinesConcat(text);
    var ls := Lines(text);
    ConcatPrefix(ls, |Take(ls, n)|);
    assert Take(ls, n) == ls[..|Take(ls, n)|];
  }

  /** Asking for at least as many lines as the text has reads all of it. */
  lemma ReadLinesAll(text: string, n: nat)
    requires n >= |Lines(text)|
    ensures ReadLines(text, n) == text
  {
    LinesConcat(text);
  }

  /** What is read consists of exactly the first `n` lines, each with its "\n". */
  lemma {:induction false} ReadLinesLines(text: string, n: nat)
    ensures Lines(ReadLines(text, n)) == Take(Lines(text), n)
    decreases |text|
  {
    if text != [] && n > 0 {
      var k := LineEnd(text);
      var first, rest := text[..k], text[k..];
      var tail := Lines(rest);
      assert Lines(text) == [first] + tail;
      assert Take(Lines(text), n) == [first] + Take(tail, n - 1) by {
        if n - 1 < |tail| {
          assert ([first] + tail)[..n] == [first] + tail[..n - 1];
        }
      }
      ReadLinesLines(rest, n - 1);
      var r := ReadLines(rest, n - 1);
      assert ([first] + Take(tail, n - 1))[1..] == Take(tail, n - 1);
      assert ReadLines(text, n) == first + r;
      assert forall j :: 0 <= j < |first| - 1 ==> first[j] == text[j];
      if k == |text| {
        assert rest == [];
        assert r == [];
      }
      LinesOfLine(first, r);
    }
  }

  // ---------------------------------------------------------------------
  // The object
  // ---------------------------------------------------------------------

  class FileObject {
    /** `attr_reader :path`: the path given at construction. */
    const path: string
    /** `@contents`: the whole text of the file, once loaded. */
    var contents: Option<string>
    /** How many times the file has been read into `contents`. */
    ghost var loads: nat

    /** The text is loaded at most once, and it is kept once loaded. */
    ghost predicate Valid()
      reads this
    {
      (contents.None? ==> loads == 0) && (contents.Some? ==> loads == 1)
    }

    constructor (path: string)
      ensures this.path == path && contents == None && loads == 0 && Valid()
    {
      this.path := path;
      contents := None;
      loads := 0;
    }

    /** `name`: what follows the last "/" of the path, or the whole path. */
    function Name(): (r: string)
      ensures '/' !in r
      ensures |r| <= |path| && path[|path| - |r|..] == r
      ensures '/' in path ==> |r| < |path| && path[|path| - |r| - 1] == '/'
      ensures '/' !in path ==> r == path
    {
      AfterLast(path, '/')
    }

    /** The private `contents`: `@contents ||= File.read(path)`; a failed read is not kept. */
    method Contents(disk: Disk) returns (r: Result<string>)
      requires Valid()
      modifies this
      ensures Valid()
      ensures old(contents).Some? ==>
        r == Success(old(contents).value) && contents == old(contents) && loads == old(loads)
      ensures old(contents).None? && path in disk ==>
        r == Success(disk[path]) && contents == Some(disk[path]) && loads == old(loads) + 1
      ensures old(contents).None? && path !in disk ==>
        r == Failure(SystemCallError(path)) && contents == None && loads == old(loads)
    {
      if contents.Some? {
        r := Success(contents.value);
      } else if path in disk {
        contents := Some(disk[path]);
        loads := loads + 1;
        r := Success(disk[path]);
      } else {
        r := Failure(SystemCallError(path));
      }
    }

    /**
     * `read(max_lines = nil)`. Without a limit: the cached contents. With
     * one: the first lines, read from the disk each time and never cached.
     * Every failure is reported as `ObjectNotFound`.
     */
    method Read(disk: Disk, maxLines: Option<int>) returns (r: Result<string>)
      requires Valid()
      modifies this
      ensures Valid()
      ensures r.Failure? ==> r.error == ObjectNotFound
      ensures maxLines.None? && old(contents).Some? ==>
        r == Success(old(contents).value) && contents == old(contents) && loads == old(loads)
      ensures maxLines.None? && old(contents).None? ==>
        (if path in disk then r == Success(disk[path]) && contents == Some(disk[path])
         else r == Failure(ObjectNotFound) && contents == None)
      ensures maxLines.Some? ==> contents == old(contents) && loads == old(loads)
      ensures maxLines.Some? && maxLines.value < 0 ==> r == Failure(ObjectNotFound)
      ensures maxLines.Some? && maxLines.value == 0 ==> r == Success("")
      ensures maxLines.Some? && maxLines.value > 0 ==>
        r == if path in disk then Success(ReadLines(disk[path], maxLines.value)) else Failure(ObjectNotFound)
    {
      if maxLines.None? {
        var c := Contents(disk);
        r := if c.Success? then c else Failure(ObjectNotFound);
      } else if maxLines.value < 0 {
        // Enumerable#first raises ArgumentError for a negative count
        r := Failure(ObjectNotFound);
      } else if maxLines.value == 0 {
        // first(0) returns [] without opening the file
        r := Success("");
      } else if path in disk {
        r := Success(ReadLines(disk[path], maxLines.value));
      } else {
        r := Failure(ObjectNotFound);
      }
    }

    /**
     * `sha`: SHA-1 (the parameter `sha1`) of the blob preimage of the cached
     * contents. A failed read is not rescued here: the underlying error shows.
     */
    method Sha(disk: Disk, sha1: string -> string) returns (r: Result<string>)
      requires Valid()
      modifies this
      ensures Valid()
      ensures old(contents).Some? ==>
        r == Success(sha1(BlobPreimage(old(contents).value))) && contents == old(contents) && loads == old(loads)
      ensures old(contents).None? && path in disk ==>
        r == Success(sha1(BlobPreimage(disk[path]))) && contents == Some(disk[path])
      ensures old(contents).None? && path !in disk ==>
        r == Failure(SystemCallError(path)) && contents == None
    {
      var c := Contents(disk);
      if c.Success? {
        r := Success(sha1(BlobPreimage(c.value)));
      } else {
        r := Failure(c.error);
      }
    }
  }

  /**
   * A fresh object read twice, the file changing in between: the second
   * full read and the hash both use the text of the first load.
   */
  method ReadTwice(path: string, before: Disk, after: Disk, sha1: string -> string)
    returns (first: Result<string>, second: Result<string>, hash: Result<string>)
    ensures path in before ==> first == Success(before[path]) && second == first
    ensures path in before ==> hash == Success(sha1(BlobPreimage(before[path])))
    ensures path !in before ==> first == Failure(ObjectNotFound)
  {
    var o := new FileObject(path);
    first := o.Read(before, None);
    second := o.Read(after, None);
    hash := o.Sha(after, sha1);
  }

  /** A limited read does not fill the cache: a later full read loads the file then. */
  method LimitedThenFull(path: string, before: Disk, after: Disk, n: int)
    returns (limited: Result<string>, full: Result<string>)
    ensures n > 0 && path in before ==> limited == Success(ReadLines(before[path], n))
    ensures path in after ==> full == Success(after[path])
    ensures path !in after ==> full == Failure(ObjectNotFound)
  {
    var o := new FileObject(path);
    limited := o.Read(before, Some(n));
    full := o.Read(after, None);
  }
}
