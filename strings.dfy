/**
 * The Ruby core-library string and IO behaviour that the library relies on:
 * `String#gsub` with a literal pattern, `#rindex`, `#index`, `#chomp`,
 * `#split("\n")`, `Array#join`, `Integer#to_s`, `IO#each_line` and
 * `File.join`. Strings are sequences of characters, one character per byte.
 */
module RubyStrings {
  import opened Errors

  // ---------------------------------------------------------------------
  // Substrings and `gsub(pat, "")`
  // ---------------------------------------------------------------------

  /** `pat` occurs in `s` as a contiguous substring (`s.include?(pat)`). */
  predicate Occurs(pat: string, s: string)
    decreases |s|
  {
    pat <= s || (s != [] && Occurs(pat, s[1..]))
  }

  /**
   * `s.gsub(pat, "")` for a literal, non-empty `pat`: the occurrences found
   * scanning from the left, without overlap, are removed.
   */
  function RemoveAll(s: string, pat: string): (r: string)
    requires pat != []
    ensures |r| <= |s|
    ensures multiset(r) <= multiset(s)
    decreases |s|
  {
    if pat <= s then
      assert s == s[..|pat|] + s[|pat|..];
      RemoveAll(s[|pat|..], pat)
    else if s == [] then []
    else
      assert s == [s[0]] + s[1..];
      [s[0]] + RemoveAll(s[1..], pat)
  }

  /** Removing a pattern that does not occur changes nothing. */
  lemma {:induction false} RemoveAllAbsent(s: string, pat: string)
    requires pat != [] && !Occurs(pat, s)
    ensures RemoveAll(s, pat) == s
    decreases |s|
  {
    if s != [] {
      RemoveAllAbsent(s[1..], pat);
      assert [s[0]] + s[1..] == s;
    }
  }

  /** A leading occurrence is removed and a rest free of the pattern is kept. */
  lemma RemoveAllLeading(pat: string, rest: string)
    requires pat != [] && !Occurs(pat, rest)
    ensures RemoveAll(pat + rest, pat) == rest
  {
    assert pat <= pat + rest;
    assert (pat + rest)[|pat|..] == rest;
    RemoveAllAbsent(rest, pat);
  }

  // ---------------------------------------------------------------------
  // `rindex` and `index` for one character
  // ---------------------------------------------------------------------

  /** `s.rindex(c)`: the position of the last `c` in `s`. */
  function LastIndexOf(s: string, c: char): (r: Option<nat>)
    ensures r.None? <==> c !in s
    ensures r.Some? ==> r.value < |s| && s[r.value] == c && c !in s[r.value + 1..]
  {
    if s == [] then None
    else if s[|s| - 1] == c then Some(|s| - 1)
    else
      var r := LastIndexOf(s[..|s| - 1], c);
      assert s == s[..|s| - 1] + [s[|s| - 1]];
      assert r.Some? ==> s[r.value + 1..] == s[..|s| - 1][r.value + 1..] + [s[|s| - 1]];
      r
  }

  /** The last `c` of `a + [c] + b`, when `b` holds none, is the one between them. */
  lemma LastIndexOfBefore(a: string, c: char, b: string)
    requires c !in b
    ensures LastIndexOf(a + [c] + b, c) == Some(|a|)
  {
    var s := a + [c] + b;
    assert s[|a|] == c && s[|a| + 1..] == b;
  }

  /** `s.index(c)`: the position of the first `c` in `s`. */
  function IndexOf(s: string, c: char): (r: Option<nat>)
    ensures r.None? <==> c !in s
    ensures r.Some? ==> r.value < |s| && s[r.value] == c && c !in s[..r.value]
  {
    if s == [] then None
    else if s[0] == c then Some(0)
    else
      assert s == [s[0]] + s[1..];
      match IndexOf(s[1..], c)
      case None => None
      case Some(i) =>
        assert s[..i + 1] == [s[0]] + s[1..][..i];
        Some(i + 1)
  }

  /** The first `c` after a prefix free of `c` is found right after that prefix. */
  lemma {:induction false} IndexOfAfter(prefix: string, c: char, rest: string)
    requires c !in prefix
    ensures IndexOf(prefix + [c] + rest, c) == Some(|prefix|)
    decreases |prefix|
  {
    if prefix != [] {
      var s := prefix + [c] + rest;
      assert s[1..] == prefix[1..] + [c] + rest;
      IndexOfAfter(prefix[1..], c, rest);
    }
  }

  // ---------------------------------------------------------------------
  // `chomp`, `split("\n")` and `join`
  // ---------------------------------------------------------------------

  predicate EndsWithTerminator(s: string)
  {
    s != [] && (s[|s| - 1] == '\n' || s[|s| - 1] == '\r')
  }

  /** The first occurrence is the one with none before it. */
  lemma IndexOfFirst(s: string, c: char, i: nat)
    requires i < |s| && s[i] == c && c !in s[..i]
    ensures IndexOf(s, c) == Some(i)
  {
  }

  /** `s.rindex(c) ? s[s.rindex(c) + 1..-1] : s`: what follows the last `c`, or all of `s`. */
  function AfterLast(s: string, c: char): (r: string)
    ensures c !in r
    ensures |r| <= |s| && s[|s| - |r|..] == r
    ensures c in s ==> |r| < |s| && s[|s| - |r| - 1] == c
    ensures c !in s ==> r == s
  {
    match LastIndexOf(s, c)
    case None => s
    case Some(i) =>
      assert s[|s| - |s[i + 1..]| - 1] == s[i];
      s[i + 1..]
  }

  /** What follows the last `c` of `a + [c] + b`, when `b` holds none, is `b`. */
  lemma AfterLastOf(a: string, c: char, b: string)
    requires c !in b
    ensures AfterLast(a + [c] + b, c) == b
  {
    LastIndexOfBefore(a, c, b);
    assert (a + [c] + b)[|a| + 1..] == b;
  }

  /** `a` opens `a + b`, and what follows it is `b`. */
  lemma Juxtaposed(a: string, b: string)
    ensures a <= a + b && (a + b)[|a|..] == b
  {
  }

  /** `s.chomp`: one trailing "\r\n", "\n" or "\r" removed. */
  function Chomp(s: string): (r: string)
    ensures r <= s && s[|r|..] in ["", "\n", "\r", "\r\n"]
    ensures r == s <==> !EndsWithTerminator(s)
    ensures |s| >= 2 && s[|s| - 2..] == "\r\n" ==> r == s[..|s| - 2]
    ensures EndsWithTerminator(s) && !(|s| >= 2 && s[|s| - 2..] == "\r\n") ==> r == s[..|s| - 1]
  {
    if |s| >= 2 && s[|s| - 2..] == "\r\n" then s[..|s| - 2]
    else if EndsWithTerminator(s) then
      assert s[|s| - 1..] == [s[|s| - 1]];
      s[..|s| - 1]
    else
      assert s[|s|..] == "";
      s
  }

  /** A "\n" appended to a text that ends in no terminator is what `chomp` removes. */
  lemma ChompNewline(x: string)
    requires !EndsWithTerminator(x)
    ensures Chomp(x + "\n") == x
  {
    var s := x + "\n";
    if |s| >= 2 {
      assert s[|s| - 2] == x[|x| - 1];
    }
    assert s[..|s| - 1] == x;
  }

  /** `xs.join(sep)` */
  function JoinWith(xs: seq<string>, sep: string): string
  {
    if xs == [] then [] else if |xs| == 1 then xs[0] else xs[0] + sep + JoinWith(xs[1..], sep)
  }

  /** A character in none of the pieces and not in the separator is not in their join. */
  lemma {:induction false} JoinWithout(xs: seq<string>, sep: string, c: char)
    requires c !in sep && forall i :: 0 <= i < |xs| ==> c !in xs[i]
    ensures c !in JoinWith(xs, sep)
  {
    if |xs| > 1 {
      JoinWithout(xs[1..], sep, c);
    }
  }

  /** A line with "\n" at most at its end has none left once chomped. */
  lemma ChompedLine(l: string)
    requires forall j :: 0 <= j < |l| - 1 ==> l[j] != '\n'
    ensures '\n' !in Chomp(l)
  {
    if EndsWithTerminator(l) {
      assert Chomp(l) <= l[..|l| - 1];
    }
  }

  /** The pieces of `s` between its "\n" characters, empty pieces included. */
  function Fields(s: string): (fs: seq<string>)
    ensures |fs| >= 1
    ensures forall i :: 0 <= i < |fs| ==> '\n' !in fs[i]
    decreases |s|
  {
    match IndexOf(s, '\n')
    case None => [s]
    case Some(i) => [s[..i]] + Fields(s[i + 1..])
  }

  /** Joining the pieces with "\n" gives back `s`. */
  lemma {:induction false} FieldsJoin(s: string)
    ensures JoinWith(Fields(s), "\n") == s
    decreases |s|
  {
    match IndexOf(s, '\n')
    case None =>
    case Some(i) =>
      var tail := Fields(s[i + 1..]);
      FieldsJoin(s[i + 1..]);
      assert Fields(s) == [s[..i]] + tail;
      assert (Fields(s))[1..] == tail;
      assert s == s[..i] + "\n" + s[i + 1..];
  }

  /** `fs` without its trailing empty strings. */
  function DropTrailingEmpty(fs: seq<string>): (r: seq<string>)
    ensures r <= fs
    ensures r != [] ==> r[|r| - 1] != []
    ensures forall i :: |r| <= i < |fs| ==> fs[i] == []
  {
    if fs == [] then []
    else if fs[|fs| - 1] == [] then DropTrailingEmpty(fs[..|fs| - 1])
    else fs
  }

  /** `s.split("\n")`: the pieces between newlines, trailing empty pieces dropped. */
  function Split(s: string): (r: seq<string>)
    ensures r <= Fields(s)
    ensures forall i :: 0 <= i < |r| ==> '\n' !in r[i]
    ensures r != [] ==> r[|r| - 1] != []
    ensures forall i :: |r| <= i < |Fields(s)| ==> Fields(s)[i] == []
  {
    DropTrailingEmpty(Fields(s))
  }

  // ---------------------------------------------------------------------
  // `IO#each_line` / `File.foreach` with the default separator "\n"
  // ---------------------------------------------------------------------

  /** Length of the first line of `s`, its terminating "\n" included. */
  function LineEnd(s: string): (k: nat)
    ensures s == [] <==> k == 0
    ensures k <= |s|
    ensures forall j :: 0 <= j < k - 1 ==> s[j] != '\n'
    ensures 0 < k < |s| ==> s[k - 1] == '\n'
  {
    if s == [] then 0 else if s[0] == '\n' then 1 else 1 + LineEnd(s[1..])
  }

  /** The lines of `s`: cut after every "\n", the last one possibly unterminated. */
  function Lines(s: string): (ls: seq<string>)
    ensures forall i :: 0 <= i < |ls| ==> ls[i] != []
    decreases |s|
  {
    if s == [] then [] else [s[..LineEnd(s)]] + Lines(s[LineEnd(s)..])
  }

  /** A line holds "\n" at most as its last character. */
  lemma {:induction false} LinesBreakAtEnds(s: string)
    ensures forall i, j :: 0 <= i < |Lines(s)| && 0 <= j < |Lines(s)[i]| - 1 ==> Lines(s)[i][j] != '\n'
    decreases |s|
  {
    if s != [] {
      var k := LineEnd(s);
      var ls, rest := Lines(s), Lines(s[k..]);
      LinesBreakAtEnds(s[k..]);
      assert ls == [s[..k]] + rest;
      forall i, j | 0 <= i < |ls| && 0 <= j < |ls[i]| - 1
        ensures ls[i][j] != '\n'
      {
        if i == 0 {
          assert ls[0] == s[..k] && ls[0][j] == s[j];
          assert j < k - 1;
        } else {
          assert 0 <= i - 1 < |rest| && ls[i] == rest[i - 1];
        }
      }
    }
  }

  /** `xs.join` with no separator. */
  function Concat(xs: seq<string>): string
  {
    if xs == [] then [] else xs[0] + Concat(xs[1..])
  }

  /** `xs.first(n)` */
  function Take<T>(xs: seq<T>, n: nat): (r: seq<T>)
    ensures r <= xs && |r| == if n < |xs| then n else |xs|
  {
    if n < |xs| then xs[..n] else xs
  }

  /** Concatenating the lines of `s` gives back `s`. */
  lemma {:induction false} LinesConcat(s: string)
    ensures Concat(Lines(s)) == s
    decreases |s|
  {
    if s != [] {
      var k := LineEnd(s);
      LinesConcat(s[k..]);
      assert ([s[..k]] + Lines(s[k..]))[1..] == Lines(s[k..]);
      assert s == s[..k] + s[k..];
    }
  }

  /** The concatenation of the first `n` lines is a prefix of the concatenation of all. */
  lemma {:induction false} ConcatPrefix(xs: seq<string>, n: nat)
    requires n <= |xs|
    ensures Concat(xs[..n]) <= Concat(xs)
  {
    if n > 0 {
      ConcatPrefix(xs[1..], n - 1);
      assert xs[..n][1..] == xs[1..][..n - 1];
    }
  }

  /** A line `a` standing in front of `b` is cut off exactly. */
  lemma {:induction false} LineEndOfLine(a: string, b: string)
    requires a != [] && (forall j :: 0 <= j < |a| - 1 ==> a[j] != '\n')
    requires a[|a| - 1] == '\n' || b == []
    ensures LineEnd(a + b) == |a|
    decreases |a|
  {
    if a[0] != '\n' {
      assert (a + b)[1..] == a[1..] + b;
      if |a| > 1 {
        LineEndOfLine(a[1..], b);
      }
    }
  }

  /** The lines of `a + b`, when `a` is one line, are `a` followed by those of `b`. */
  lemma LinesOfLine(a: string, b: string)
    requires a != [] && (forall j :: 0 <= j < |a| - 1 ==> a[j] != '\n')
    requires a[|a| - 1] == '\n' || b == []
    ensures Lines(a + b) == [a] + Lines(b)
  {
    LineEndOfLine(a, b);
    assert (a + b)[..|a|] == a;
    assert (a + b)[|a|..] == b;
  }

  // ---------------------------------------------------------------------
  // `File.join`
  // ---------------------------------------------------------------------

  predicate EndsWithSlash(s: string)
  {
    s != [] && s[|s| - 1] == '/'
  }

  predicate StartsWithSlash(s: string)
  {
    s != [] && s[0] == '/'
  }

  /** `s` without its trailing run of "/" characters. */
  function ChompSlashes(s: string): (r: string)
    ensures r <= s && !EndsWithSlash(r)
    ensures forall i :: |r| <= i < |s| ==> s[i] == '/'
  {
    if EndsWithSlash(s) then ChompSlashes(s[..|s| - 1]) else s
  }

  /**
   * `File.join(a, b)` on POSIX. The right part is kept as it is; the left
   * part loses its trailing separators only when the right one starts with
   * a separator; a "/" is added only when neither side has one.
   */
  function FileJoin(a: string, b: string): (r: string)
    ensures ChompSlashes(a) <= r
    ensures |r| >= |b| && r[|r| - |b|..] == b
    ensures forall i :: |ChompSlashes(a)| <= i < |r| - |b| ==> r[i] == '/'
    ensures StartsWithSlash(b) || (|r| > |b| && r[|r| - |b| - 1] == '/')
    ensures StartsWithSlash(b) ==> |r| == |ChompSlashes(a)| + |b|
    ensures !StartsWithSlash(b) ==> a <= r && |r| == |a| + |b| + (if EndsWithSlash(a) then 0 else 1)
  {
    if StartsWithSlash(b) then ChompSlashes(a) + b
    else if EndsWithSlash(a) then a + b
    else a + "/" + b
  }

  // ---------------------------------------------------------------------
  // `Integer#to_s`
  // ---------------------------------------------------------------------

  predicate IsDigit(c: char)
  {
    '0' <= c <= '9'
  }

  predicate AllDigits(s: string)
  {
    forall i :: 0 <= i < |s| ==> IsDigit(s[i])
  }

  function DigitChar(d: nat): (c: char)
    requires d < 10
    ensures IsDigit(c)
  {
    ('0' as int + d) as char
  }

  function DigitValue(c: char): (d: nat)
    requires IsDigit(c)
    ensures d < 10 && DigitChar(d) == c
  {
    (c as int - '0' as int) as nat
  }

  /** `n.to_s`: the decimal numeral of `n`, without leading zeros. */
  function NatToDecimal(n: nat): (r: string)
    ensures r != [] && AllDigits(r)
    ensures r[0] == '0' ==> n == 0 && r == "0"
  {
    if n < 10 then [DigitChar(n)] else NatToDecimal(n / 10) + [DigitChar(n % 10)]
  }

  /** The number a string of decimal digits denotes. */
  function DecimalValue(s: string): nat
    requires AllDigits(s)
  {
    if s == [] then 0 else 10 * DecimalValue(s[..|s| - 1]) + DigitValue(s[|s| - 1])
  }

  /** Reading back the numeral of `n` gives `n`. */
  lemma {:induction false} DecimalRoundTrip(n: nat)
    ensures DecimalValue(NatToDecimal(n)) == n
  {
    if n >= 10 {
      var d := NatToDecimal(n / 10);
      DecimalRoundTrip(n / 10);
      assert (d + [DigitChar(n % 10)])[..|d|] == d;
    }
  }
}
