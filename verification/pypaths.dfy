/** The two POSIX path functions the assistant's code uses, `os.path.basename`
    and `os.path.splitext`, as Python's `posixpath` defines them ('/' is the
    only separator). */
module PyPaths {
  import opened PyStrings

  /** `os.path.basename(p)`: everything after the last '/'. */
  function Basename(p: string): (b: string)
    ensures |b| == |p| - RFind(p, '/') - 1
    ensures forall i :: 0 <= i < |b| ==> b[i] != '/'
    ensures EndsWith(p, b)
  {
    p[RFind(p, '/') + 1..]
  }

  /** Some character of `s` is not a dot. */
  ghost predicate HasNonDot(s: string)
  {
    exists i :: 0 <= i < |s| && s[i] != '.'
  }

  /** A final path component has an extension when some dot in it comes
      after a character that is not a dot: leading dots (".bashrc", "..")
      do not start an extension. */
  ghost predicate HasExtension(name: string)
  {
    exists i, j :: 0 <= i < j < |name| && name[i] != '.' && name[j] == '.'
  }

  /** The loop of `splitext` that skips the dots a final component starts
      with: the first index from `i` on, short of `end`, that is not a dot,
      or `end` when there is none. */
  function SkipDots(p: string, i: nat, end: nat): (k: nat)
    requires i <= end <= |p|
    ensures i <= k <= end
    ensures forall j :: i <= j < k ==> p[j] == '.'
    ensures k < end ==> p[k] != '.'
    decreases end - i
  {
    if i == end || p[i] != '.' then i else SkipDots(p, i + 1, end)
  }

  /** `os.path.splitext(p)` as `(root, ext)`: the extension starts at the last
      dot, provided that dot is in the final component and something other
      than a dot comes before it there; otherwise the extension is empty.
      A non-empty extension is a dot followed by neither dots nor '/'. */
  function SplitExt(p: string): (r: (string, string))
    ensures r.0 + r.1 == p
    ensures r.1 != [] ==> p[|r.0|] == '.' && forall i :: |r.0| < i < |p| ==> p[i] != '.' && p[i] != '/'
  {
    var sepIndex := RFind(p, '/');
    var dotIndex := RFind(p, '.');
    if dotIndex > sepIndex && SkipDots(p, sepIndex + 1, dotIndex) < dotIndex then
      (p[..dotIndex], p[dotIndex..])
    else
      (p, "")
  }

  /** `splitext` finds an extension exactly when the final path component has
      one. */
  lemma SplitExtFindsExtension(p: string)
    ensures SplitExt(p).1 != [] <==> HasExtension(Basename(p))
  {
    if SplitExt(p).1 != [] {
      ExtensionIsInBasename(p);
    }
    if HasExtension(Basename(p)) {
      BasenameExtensionIsFound(p);
    }
  }

  /** An extension `splitext` finds lies in the final component, after a
      non-dot character of it. */
  lemma ExtensionIsInBasename(p: string)
    requires SplitExt(p).1 != []
    ensures HasExtension(Basename(p))
  {
    var sepIndex := RFind(p, '/');
    var dotIndex := RFind(p, '.');
    var b := Basename(p);
    var k := SkipDots(p, sepIndex + 1, dotIndex);
    assert b[k - sepIndex - 1] == p[k];
    assert b[dotIndex - sepIndex - 1] == p[dotIndex];
  }

  /** A dot after a non-dot character of the final component is found: the
      last dot is then in that component, and the leading-dot loop stops
      before it. */
  lemma BasenameExtensionIsFound(p: string)
    requires HasExtension(Basename(p))
    ensures SplitExt(p).1 != []
  {
    var sepIndex := RFind(p, '/');
    var dotIndex := RFind(p, '.');
    var b := Basename(p);
    var i, j :| 0 <= i < j < |b| && b[i] != '.' && b[j] == '.';
    assert p[sepIndex + 1 + i] == b[i];
    assert p[sepIndex + 1 + j] == b[j];
    assert sepIndex + 1 + j <= dotIndex;
    assert SkipDots(p, sepIndex + 1, dotIndex) <= sepIndex + 1 + i;
  }

  /** `rfind` finds a given occurrence when nothing after it matches. */
  lemma RFindIs(s: string, c: char, i: int)
    requires -1 <= i < |s|
    requires 0 <= i ==> s[i] == c
    requires forall j :: i < j < |s| ==> s[j] != c
    ensures RFind(s, c) == i
  {
  }

  /** `splitext` undoes appending an extension: a final component with a
      non-dot character, followed by a dot and text without dots or slashes,
      splits right before that dot. */
  lemma SplitExtOfAppended(stem: string, e: string)
    requires HasNonDot(Basename(stem))
    requires forall i :: 0 <= i < |e| ==> e[i] != '.' && e[i] != '/'
    ensures SplitExt(stem + "." + e) == (stem, "." + e)
  {
    var p := stem + "." + e;
    var k := RFind(stem, '/');
    RFindIs(stem + ".", '.', |stem|);
    RFindAppend(stem + ".", e, '.');
    RFindAppend(stem, ".", '/');
    RFindAppend(stem + ".", e, '/');
    var b := Basename(stem);
    var i :| 0 <= i < |b| && b[i] != '.';
    assert p[k + 1 + i] == stem[k + 1 + i] == b[i];
    assert SkipDots(p, k + 1, |stem|) <= k + 1 + i;
    assert p[..|stem|] == stem;
    assert p[|stem|..] == "." + e;
  }

  /** Appending text without `c` does not move the last `c`. */
  lemma RFindAppend(a: string, b: string, c: char)
    requires forall i :: 0 <= i < |b| ==> b[i] != c
    ensures RFind(a + b, c) == RFind(a, c)
  {
    var s := a + b;
    forall j | RFind(a, c) < j < |s| ensures s[j] != c {
      if j >= |a| {
        assert s[j] == b[j - |a|];
      }
    }
    RFindIs(s, c, RFind(a, c));
  }
}
