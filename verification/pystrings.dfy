/** The handful of Python `str` operations the assistant's code relies on.
    A Python `str` is a sequence of code points; Dafny's `string` is a
    sequence of Unicode scalar values, so lengths and indices agree. */
module PyStrings {

  /** `sub` occurs in `s` starting at index `k`. */
  predicate OccursAt(s: string, sub: string, k: int)
  {
    0 <= k && k + |sub| <= |s| && s[k..k + |sub|] == sub
  }

  /** Python's `sub in s`. */
  ghost predicate Contains(s: string, sub: string)
  {
    exists k :: OccursAt(s, sub, k)
  }

  /** Python's `s.endswith(suffix)`. */
  predicate EndsWith(s: string, suffix: string)
  {
    |suffix| <= |s| && s[|s| - |suffix|..] == suffix
  }

  /** Python's `s[:n]` for a non-negative `n`. */
  function Take(s: string, n: nat): (r: string)
    ensures |r| == if n < |s| then n else |s|
    ensures r <= s
  {
    if n < |s| then s[..n] else s
  }

  /** Python's `s.rfind(c)` for a one-character needle: the last index of
      `c` in `s`, or -1 when there is none. */
  function RFind(s: string, c: char): (i: int)
    ensures -1 <= i < |s|
    ensures 0 <= i ==> s[i] == c
    ensures forall j :: i < j < |s| ==> s[j] != c
  {
    RFindBefore(s, c, |s|)
  }

  /** The last index of `c` among the first `n` characters of `s`, or -1. */
  function RFindBefore(s: string, c: char, n: nat): (i: int)
    requires n <= |s|
    ensures -1 <= i < n
    ensures 0 <= i ==> s[i] == c
    ensures forall j :: i < j < n ==> s[j] != c
  {
    if n == 0 then -1
    else if s[n - 1] == c then n - 1
    else RFindBefore(s, c, n - 1)
  }

  /** Python's `sep.join(parts)`. */
  function Join(sep: string, parts: seq<string>): string
  {
    if |parts| == 0 then ""
    else if |parts| == 1 then parts[0]
    else parts[0] + sep + Join(sep, parts[1..])
  }

  /** Joining two non-empty lists is joining each and gluing with `sep`. */
  lemma {:induction false} JoinConcat(sep: string, a: seq<string>, b: seq<string>)
    requires |a| > 0 && |b| > 0
    ensures Join(sep, a + b) == Join(sep, a) + sep + Join(sep, b)
  {
    if |a| == 1 {
      assert (a + b)[1..] == b;
    } else {
      assert (a + b)[1..] == a[1..] + b;
      JoinConcat(sep, a[1..], b);
    }
  }

  /** Total length of a list of strings. */
  function TotalLength(parts: seq<string>): nat
  {
    if |parts| == 0 then 0 else |parts[0]| + TotalLength(parts[1..])
  }

  /** A join is as long as its parts plus one separator between each pair. */
  lemma {:induction false} JoinLength(sep: string, parts: seq<string>)
    requires |parts| > 0
    ensures |Join(sep, parts)| == TotalLength(parts) + (|parts| - 1) * |sep|
  {
    if |parts| > 1 {
      JoinLength(sep, parts[1..]);
    }
  }

  /** Python's `s.split(sep)` for a non-empty separator (an empty one raises
      ValueError): cut at each occurrence of `sep`, scanning left to right,
      occurrences not overlapping. */
  function Split(s: string, sep: string): (parts: seq<string>)
    requires |sep| > 0
    ensures |parts| >= 1
    ensures parts[0] <= s
    decreases |s|
  {
    if |s| < |sep| then [s]
    else if s[..|sep|] == sep then [""] + Split(s[|sep|..], sep)
    else
      var rest := Split(s[1..], sep);
      [[s[0]] + rest[0]] + rest[1..]
  }

  /** Joining the pieces of a split with the same separator gives the
      original string back. */
  lemma {:induction false} SplitJoin(s: string, sep: string)
    requires |sep| > 0
    ensures Join(sep, Split(s, sep)) == s
    decreases |s|
  {
    if |s| < |sep| {
    } else if s[..|sep|] == sep {
      var rest := Split(s[|sep|..], sep);
      SplitJoin(s[|sep|..], sep);
      JoinEmptyFirst(sep, rest);
      assert s == s[..|sep|] + s[|sep|..];
    } else {
      var rest := Split(s[1..], sep);
      SplitJoin(s[1..], sep);
      JoinConsFirst(s[0], sep, rest);
      assert s == [s[0]] + s[1..];
    }
  }

  /** An empty first piece contributes one separator. */
  lemma JoinEmptyFirst(sep: string, rest: seq<string>)
    requires |rest| >= 1
    ensures Join(sep, [""] + rest) == sep + Join(sep, rest)
  {
    assert ([""] + rest)[1..] == rest;
  }

  /** A character put in front of the first piece comes out in front. */
  lemma JoinConsFirst(c: char, sep: string, rest: seq<string>)
    requires |rest| >= 1
    ensures Join(sep, [[c] + rest[0]] + rest[1..]) == [c] + Join(sep, rest)
  {
    var parts := [[c] + rest[0]] + rest[1..];
    if |rest| == 1 {
      assert parts == [[c] + rest[0]];
    } else {
      assert parts[1..] == rest[1..];
    }
  }

  /** A string shorter than `sep` cannot contain it. */
  lemma ShortAvoids(x: string, sep: string)
    requires |x| < |sep|
    ensures !Contains(x, sep)
  {
    forall k ensures !OccursAt(x, sep, k) {
    }
  }

  /** Putting one character in front of a string that avoids `sep` creates
      no occurrence unless the new string starts with `sep`. */
  lemma ConsAvoids(c: char, tail: string, sep: string)
    requires !Contains(tail, sep)
    requires |sep| <= 1 + |tail| ==> ([c] + tail)[..|sep|] != sep
    ensures !Contains([c] + tail, sep)
  {
    var x := [c] + tail;
    forall k ensures !OccursAt(x, sep, k) {
      if 0 < k && k + |sep| <= |x| {
        assert x[k..k + |sep|] == tail[k - 1..k - 1 + |sep|];
        assert !OccursAt(tail, sep, k - 1);
      }
    }
  }

  /** Pieces cut at the first occurrence each time: no piece but the last,
      extended by all but the last character of `sep`, contains `sep` (so no
      occurrence starts inside it), and the last piece contains no `sep`. */
  ghost predicate CutsAtFirst(parts: seq<string>, sep: string)
    requires |sep| > 0
  {
    && |parts| >= 1
    && (forall i :: 0 <= i < |parts| - 1 ==> !Contains(parts[i] + sep[..|sep| - 1], sep))
    && !Contains(parts[|parts| - 1], sep)
  }

  /** The pieces of a split are cut at the FIRST occurrence each time.
      Together with `SplitJoin` this pins the pieces down as Python's. */
  lemma {:induction false} SplitCutsAtFirstOccurrence(s: string, sep: string)
    requires |sep| > 0
    ensures CutsAtFirst(Split(s, sep), sep)
    decreases |s|
  {
    if |s| < |sep| {
      ShortAvoids(s, sep);
      assert Split(s, sep) == [s];
    } else if s[..|sep|] == sep {
      var rest := Split(s[|sep|..], sep);
      SplitCutsAtFirstOccurrence(s[|sep|..], sep);
      CutsAfterSeparator(rest, sep);
      assert Split(s, sep) == [""] + rest;
    } else {
      var rest := Split(s[1..], sep);
      SplitCutsAtFirstOccurrence(s[1..], sep);
      SplitJoin(s[1..], sep);
      CutsAfterCharacter(s, sep, rest);
      assert Split(s, sep) == [[s[0]] + rest[0]] + rest[1..];
    }
  }

  /** The step of `SplitCutsAtFirstOccurrence` when `s` starts with `sep`:
      an empty piece goes in front. */
  lemma CutsAfterSeparator(rest: seq<string>, sep: string)
    requires |sep| > 0 && CutsAtFirst(rest, sep)
    ensures CutsAtFirst([""] + rest, sep)
  {
    var parts := [""] + rest;
    ShortAvoids("" + sep[..|sep| - 1], sep);
    forall i | 0 < i < |parts| - 1
      ensures !Contains(parts[i] + sep[..|sep| - 1], sep)
    {
      assert parts[i] == rest[i - 1];
    }
    assert parts[|parts| - 1] == rest[|rest| - 1];
  }

  /** The step of `SplitCutsAtFirstOccurrence` when `s` does not start with
      `sep`: the first character joins the first piece of `s[1..]`. */
  lemma CutsAfterCharacter(s: string, sep: string, rest: seq<string>)
    requires 0 < |sep| <= |s| && s[..|sep|] != sep
    requires Join(sep, rest) == s[1..] && CutsAtFirst(rest, sep)
    ensures CutsAtFirst([[s[0]] + rest[0]] + rest[1..], sep)
  {
    var parts := [[s[0]] + rest[0]] + rest[1..];
    var sep' := sep[..|sep| - 1];
    if |rest| == 1 {
      OnlyPieceAvoids(s, sep, rest);
      assert parts == [[s[0]] + rest[0]];
    } else {
      FirstPieceAvoids(s, sep, rest);
      assert !Contains(parts[0] + sep', sep);
      forall i | 0 < i < |parts| - 1
        ensures !Contains(parts[i] + sep', sep)
      {
        assert parts[i] == rest[i];
      }
      assert parts[|parts| - 1] == rest[|rest| - 1];
    }
  }

  /** The step case of `SplitCutsAtFirstOccurrence` for the first piece when
      `s` does not start with `sep` and `s[1..]` splits into one piece. */
  lemma OnlyPieceAvoids(s: string, sep: string, rest: seq<string>)
    requires 0 < |sep| <= |s| && s[..|sep|] != sep
    requires |rest| == 1 && Join(sep, rest) == s[1..]
    requires !Contains(rest[0], sep)
    ensures !Contains([s[0]] + rest[0], sep)
  {
    assert [s[0]] + rest[0] == s;
    ConsAvoids(s[0], rest[0], sep);
  }

  /** The same when `s[1..]` splits into several pieces; `rest` are its
      pieces. */
  lemma FirstPieceAvoids(s: string, sep: string, rest: seq<string>)
    requires 0 < |sep| <= |s| && s[..|sep|] != sep
    requires |rest| > 1 && Join(sep, rest) == s[1..]
    requires !Contains(rest[0] + sep[..|sep| - 1], sep)
    ensures !Contains([s[0]] + rest[0] + sep[..|sep| - 1], sep)
  {
    var sep' := sep[..|sep| - 1];
    var tail := rest[0] + sep';
    var x := [s[0]] + tail;
    var joined := rest[0] + sep + Join(sep, rest[1..]);
    assert joined == s[1..];
    forall i | 0 <= i < |x| ensures x[i] == s[i] {
      if 0 < i <= |rest[0]| {
        assert x[i] == rest[0][i - 1] == joined[i - 1];
      } else if |rest[0]| < i {
        assert x[i] == sep[i - 1 - |rest[0]|] == joined[i - 1];
      }
    }
    assert x[..|sep|] == s[..|sep|];
    ConsAvoids(s[0], tail, sep);
    assert [s[0]] + rest[0] + sep' == x;
  }

  /** The whitespace Python's `str.strip()` removes, restricted to ASCII:
      space, tab, line feed, vertical tab, form feed, carriage return and the
      four information separators 0x1C-0x1F. */
  predicate IsSpace(c: char)
  {
    var n := c as int;
    n == 32 || 9 <= n <= 13 || 28 <= n <= 31
  }

  /** Number of whitespace characters `s` starts with. */
  function LeadingSpaces(s: string): (n: nat)
    ensures n <= |s|
    ensures forall i :: 0 <= i < n ==> IsSpace(s[i])
    ensures n < |s| ==> !IsSpace(s[n])
  {
    if |s| == 0 || !IsSpace(s[0]) then 0 else 1 + LeadingSpaces(s[1..])
  }

  /** Number of whitespace characters `s` ends with. */
  function TrailingSpaces(s: string): (n: nat)
    ensures n <= |s|
    ensures forall i :: |s| - n <= i < |s| ==> IsSpace(s[i])
    ensures n < |s| ==> !IsSpace(s[|s| - 1 - n])
  {
    if |s| == 0 || !IsSpace(s[|s| - 1]) then 0 else 1 + TrailingSpaces(s[..|s| - 1])
  }

  /** The slice `s[lo..hi]` that `s.strip()` keeps: everything before `lo`
      and from `hi` on is whitespace, and the kept slice, when non-empty,
      starts and ends with a non-whitespace character. */
  function StripSpan(s: string): (span: (nat, nat))
    ensures span.0 <= span.1 <= |s|
    ensures forall i :: 0 <= i < span.0 ==> IsSpace(s[i])
    ensures forall i :: span.1 <= i < |s| ==> IsSpace(s[i])
    ensures span.0 < span.1 ==> !IsSpace(s[span.0]) && !IsSpace(s[span.1 - 1])
  {
    var lo := LeadingSpaces(s);
    if lo == |s| then (lo, lo) else (lo, |s| - TrailingSpaces(s))
  }

  /** Python's `s.strip()` with no argument (ASCII whitespace): the slice of
      `s` that starts after its leading whitespace and has only whitespace
      after it. */
  function Strip(s: string): (r: string)
    ensures |r| <= |s|
    ensures LeadingSpaces(s) + |r| <= |s|
    ensures r == s[LeadingSpaces(s)..LeadingSpaces(s) + |r|]
    ensures forall i :: LeadingSpaces(s) + |r| <= i < |s| ==> IsSpace(s[i])
    ensures r == [] <==> forall i :: 0 <= i < |s| ==> IsSpace(s[i])
    ensures r != [] ==> !IsSpace(r[0]) && !IsSpace(r[|r| - 1])
  {
    var span := StripSpan(s);
    s[span.0..span.1]
  }

  /** `strip` removes exactly the whitespace around a text: padding a text
      that neither starts nor ends with whitespace by whitespace on both
      sides, then stripping, gives the text back. */
  lemma StripPadded(pre: string, core: string, post: string)
    requires forall i :: 0 <= i < |pre| ==> IsSpace(pre[i])
    requires forall i :: 0 <= i < |post| ==> IsSpace(post[i])
    requires core != [] ==> !IsSpace(core[0]) && !IsSpace(core[|core| - 1])
    ensures Strip(pre + core + post) == core
  {
    var s := pre + core + post;
    var r := Strip(s);
    if core == [] {
      forall i | 0 <= i < |s| ensures IsSpace(s[i]) {
        if i < |pre| {
          assert s[i] == pre[i];
        } else {
          assert s[i] == post[i - |pre|];
        }
      }
    } else {
      assert s[|pre|] == core[0];
      forall i | 0 <= i < |pre| ensures IsSpace(s[i]) {
        assert s[i] == pre[i];
      }
      assert LeadingSpaces(s) == |pre|;
      var last := |pre| + |core| - 1;
      assert s[last] == core[|core| - 1];
      assert LeadingSpaces(s) + |r| - 1 == last;
      assert r == s[|pre|..|pre| + |core|];
      assert s[|pre|..|pre| + |core|] == core;
    }
  }

  /** Stripping twice is stripping once. */
  lemma StripIdempotent(s: string)
    ensures Strip(Strip(s)) == Strip(s)
  {
    var r := Strip(s);
    if r != [] {
      assert LeadingSpaces(r) == 0;
      assert TrailingSpaces(r) == 0;
    }
  }

  predicate IsAsciiUpper(c: char)
  {
    'A' <= c <= 'Z'
  }

  /** Python's `c.lower()` on one character, for ASCII letters; every other
      character is left as it is. */
  function LowerChar(c: char): (d: char)
    ensures !IsAsciiUpper(d)
    ensures IsAsciiUpper(c) ==> d as int == c as int + 32
    ensures !IsAsciiUpper(c) ==> d == c
  {
    if IsAsciiUpper(c) then (c as int + 32) as char else c
  }

  /** Python's `s.lower()` (ASCII letters only). */
  function Lower(s: string): (r: string)
    ensures |r| == |s|
    ensures forall i :: 0 <= i < |r| ==> !IsAsciiUpper(r[i])
    ensures forall i :: 0 <= i < |r| ==> r[i] == LowerChar(s[i])
  {
    seq(|s|, i requires 0 <= i < |s| => LowerChar(s[i]))
  }

  /** Python's `s.replace(from, to)` for one-character `from` and `to`. */
  function ReplaceChar(s: string, from: char, to: char): (r: string)
    ensures |r| == |s|
    ensures forall i :: 0 <= i < |r| ==> r[i] == (if s[i] == from then to else s[i])
  {
    seq(|s|, i requires 0 <= i < |s| => if s[i] == from then to else s[i])
  }
}
