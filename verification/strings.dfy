/** The JavaScript string operations the loader relies on, over `string`
    (a sequence of Unicode scalar values): `startsWith`, `endsWith`,
    `indexOf`, `split` and `join` with a non-empty separator, `replace`
    with a string pattern (first occurrence only) and `trim`. */
module Strings {
  import opened Wrappers

  predicate StartsWith(s: string, prefix: string) {
    |prefix| <= |s| && s[..|prefix|] == prefix
  }

  predicate EndsWith(s: string, suffix: string) {
    |suffix| <= |s| && s[|s| - |suffix|..] == suffix
  }

  /** `pat` occurs in `s` starting at position `i`. */
  predicate OccursAt(s: string, pat: string, i: int) {
    0 <= i && i + |pat| <= |s| && s[i..i + |pat|] == pat
  }

  predicate Contains(s: string, pat: string) {
    exists i :: 0 <= i <= |s| && OccursAt(s, pat, i)
  }

  lemma OccursAtShift(s: string, pat: string, k: int)
    requires |s| > 0 && 0 <= k
    ensures OccursAt(s[1..], pat, k) <==> OccursAt(s, pat, k + 1)
  {
    if 0 <= k && k + |pat| <= |s[1..]| {
      assert s[1..][k..k + |pat|] == s[k + 1..k + 1 + |pat|];
    }
  }

  /** `indexOf`: the first position where `pat` occurs, if any. */
  function IndexOf(s: string, pat: string): (r: Option<nat>)
    ensures r.Some? ==> OccursAt(s, pat, r.value)
    ensures r.Some? ==> forall j :: 0 <= j < r.value ==> !OccursAt(s, pat, j)
    ensures r.None? <==> !Contains(s, pat)
    decreases |s|
  {
    if |s| < |pat| then
      None
    else if StartsWith(s, pat) then
      assert OccursAt(s, pat, 0);
      Some(0)
    else
      var r := IndexOf(s[1..], pat);
      assert !OccursAt(s, pat, 0) by {
        assert s[0..|pat|] == s[..|pat|];
      }
      assert forall k :: 0 <= k ==> (OccursAt(s[1..], pat, k) <==> OccursAt(s, pat, k + 1)) by {
        forall k | 0 <= k ensures OccursAt(s[1..], pat, k) <==> OccursAt(s, pat, k + 1) {
          OccursAtShift(s, pat, k);
        }
      }
      match r
      case None =>
        assert forall i :: 0 <= i <= |s| ==> !OccursAt(s, pat, i) by {
          forall i | 0 <= i <= |s| ensures !OccursAt(s, pat, i) {
            if i > 0 {
              assert !OccursAt(s[1..], pat, i - 1);
            }
          }
        }
        None
      case Some(k) =>
        assert forall j :: 0 <= j < k + 1 ==> !OccursAt(s, pat, j) by {
          forall j | 0 <= j < k + 1 ensures !OccursAt(s, pat, j) {
            if j > 0 {
              assert !OccursAt(s[1..], pat, j - 1);
            }
          }
        }
        Some(k + 1)
  }

  /** The first occurrence of `pat`, when `s` has one. */
  lemma FirstOccurrence(s: string, pat: string, i: nat)
    requires OccursAt(s, pat, i)
    requires forall j :: 0 <= j < i ==> !OccursAt(s, pat, j)
    ensures IndexOf(s, pat) == Some(i)
  {
    var r := IndexOf(s, pat);
    assert r.Some?;
    assert OccursAt(s, pat, r.value);
  }

  /** `join`: the parts with `sep` between consecutive ones. */
  function Join(parts: seq<string>, sep: string): string
    decreases |parts|
  {
    if |parts| == 0 then ""
    else if |parts| == 1 then parts[0]
    else parts[0] + sep + Join(parts[1..], sep)
  }

  lemma NoOccurrenceInPrefix(s: string, pat: string, i: nat)
    requires |pat| > 0 && i <= |s|
    requires forall j :: 0 <= j < i ==> !OccursAt(s, pat, j)
    ensures !Contains(s[..i], pat)
  {
    forall j | 0 <= j <= i && OccursAt(s[..i], pat, j)
      ensures false
    {
      assert s[..i][j..j + |pat|] == s[j..j + |pat|];
      assert OccursAt(s, pat, j);
    }
  }

  /** When `i` is the first occurrence of `pat`, no occurrence fits in `s`
      up to one character short of the end of that match. */
  lemma NoOccurrenceBefore(s: string, pat: string, i: nat)
    requires |pat| > 0 && OccursAt(s, pat, i)
    requires forall j :: 0 <= j < i ==> !OccursAt(s, pat, j)
    ensures !Contains(s[..i] + pat[..|pat| - 1], pat)
  {
    var t := s[..i] + pat[..|pat| - 1];
    assert t == s[..i + |pat| - 1];
    forall j | 0 <= j <= |t| && OccursAt(t, pat, j)
      ensures false
    {
      assert t[j..j + |pat|] == s[j..j + |pat|];
      assert OccursAt(s, pat, j);
    }
  }

  /** `split` at a non-empty separator: the pieces between the
      successive leftmost non-overlapping occurrences of `sep`. A piece
      followed by a separator does not reach into it: the separator does
      not occur in the piece extended by all but the last character of a
      separator. */
  function Split(s: string, sep: string): (parts: seq<string>)
    requires |sep| > 0
    ensures |parts| >= 1
    ensures forall k :: 0 <= k < |parts| ==> !Contains(parts[k], sep)
    ensures forall k :: 0 <= k < |parts| - 1 ==> !Contains(parts[k] + sep[..|sep| - 1], sep)
    ensures Join(parts, sep) == s
    decreases |s|
  {
    match IndexOf(s, sep)
    case None => [s]
    case Some(i) =>
      var rest := Split(s[i + |sep|..], sep);
      NoOccurrenceInPrefix(s, sep, i);
      NoOccurrenceBefore(s, sep, i);
      var parts := [s[..i]] + rest;
      assert parts[1..] == rest;
      assert s == s[..i] + sep + s[i + |sep|..];
      parts
  }

  /** The converse of the leftmost-cut clause of `Split`: a first piece that
      does not reach into the separator after it is cut off first. */
  lemma SplitAtFirst(a: string, sep: string, rest: string)
    requires |sep| > 0
    requires !Contains(a + sep[..|sep| - 1], sep)
    ensures Split(a + sep + rest, sep) == [a] + Split(rest, sep)
  {
    var s := a + sep + rest;
    var t := a + sep[..|sep| - 1];
    assert OccursAt(s, sep, |a|) by {
      assert s[|a|..|a| + |sep|] == sep;
    }
    assert s[..|t|] == t;
    forall j | 0 <= j < |a|
      ensures !OccursAt(s, sep, j)
    {
      if OccursAt(s, sep, j) {
        assert t[j..j + |sep|] == s[j..j + |sep|];
        assert OccursAt(t, sep, j);
      }
    }
    FirstOccurrence(s, sep, |a|);
    assert s[..|a|] == a;
    assert s[|a| + |sep|..] == rest;
  }

  /** Three line feeds are cut at the first two: the third stays with the
      next piece. */
  lemma SplitThreeLineFeeds()
    ensures Split("a\n\n\nb", "\n\n") == ["a", "\nb"]
  {
    assert !Contains("a\n", "\n\n") by {
      forall j | 0 <= j <= 2 ensures !OccursAt("a\n", "\n\n", j) {
        if j == 0 { assert "a\n"[0] == 'a'; }
      }
    }
    assert !Contains("\nb", "\n\n") by {
      forall j | 0 <= j <= 2 ensures !OccursAt("\nb", "\n\n", j) {
        if j == 0 { assert "\nb"[1] == 'b'; }
      }
    }
    assert "a\n\n\nb" == "a" + "\n\n" + "\nb";
    assert "a" + "\n\n"[..1] == "a\n";
    SplitAtFirst("a", "\n\n", "\nb");
    assert Split("\nb", "\n\n") == ["\nb"];
  }

  /** Splitting at a single-character separator that does not occur in the
      first piece peels that piece off. */
  lemma SplitAtFirstChar(a: string, c: char, rest: string)
    requires c !in a
    ensures Split(a + [c] + rest, [c]) == [a] + Split(rest, [c])
  {
    var s := a + [c] + rest;
    assert OccursAt(s, [c], |a|) by {
      assert s[|a|..|a| + 1] == [c];
    }
    forall j | 0 <= j < |a|
      ensures !OccursAt(s, [c], j)
    {
      assert s[j..j + 1] == [a[j]];
    }
    FirstOccurrence(s, [c], |a|);
    assert s[..|a|] == a;
    assert s[|a| + 1..] == rest;
  }

  /** Removing the first occurrence of `pat`, as `replace` with a string
      pattern and an empty replacement does. Putting
      `pat` back at the position where it was found gives `s` again. */
  function RemoveFirst(s: string, pat: string): (r: string)
    ensures !Contains(s, pat) ==> r == s
    ensures Contains(s, pat) ==>
      |r| + |pat| == |s| &&
      var i := IndexOf(s, pat).value; i <= |r| && s == r[..i] + pat + r[i..]
  {
    match IndexOf(s, pat)
    case None => s
    case Some(i) =>
      var r := s[..i] + s[i + |pat|..];
      assert r[..i] == s[..i] && r[i..] == s[i + |pat|..];
      assert s == s[..i] + s[i..i + |pat|] + s[i + |pat|..];
      r
  }

  /** A string with no occurrence of `pat` is left alone by `RemoveFirst`,
      and the first occurrence is the one removed. */
  lemma RemoveFirstAt(s: string, pat: string, i: nat)
    requires OccursAt(s, pat, i)
    requires forall j :: 0 <= j < i ==> !OccursAt(s, pat, j)
    ensures RemoveFirst(s, pat) == s[..i] + s[i + |pat|..]
  {
    FirstOccurrence(s, pat, i);
  }

  /** The first line of `s`: its first piece when split at line feeds. */
  function FirstLine(s: string): (line: string)
    ensures '\n' !in line
    ensures StartsWith(s, line)
    ensures |line| == |s| || s[|line|] == '\n'
  {
    var parts := Split(s, "\n");
    var line := parts[0];
    assert '\n' !in line by {
      if '\n' in line {
        var k :| 0 <= k < |line| && line[k] == '\n';
        assert line[k..k + 1] == "\n";
        assert OccursAt(line, "\n", k);
      }
    }
    if |parts| == 1 then
      line
    else
      assert s == line + "\n" + Join(parts[1..], "\n");
      assert s[..|line|] == line;
      line
  }

  /** A line with no line break is its own first line, also when more
      lines follow it. */
  lemma FirstLineOf(line: string, rest: string)
    requires '\n' !in line
    ensures FirstLine(line) == line
    ensures FirstLine(line + "\n" + rest) == line
  {
    var s := line + "\n" + rest;
    var l := FirstLine(s);
    assert s[|line|] == '\n';
    assert forall k :: 0 <= k < |line| ==> s[k] == line[k] && s[k] != '\n';
    assert forall k :: 0 <= k < |l| ==> l[k] == s[k];
    assert |l| == |line|;
    assert l == s[..|line|] == line;
  }

  /** For a one-character pattern, occurring is membership. */
  lemma ContainsChar(s: string, c: char)
    ensures Contains(s, [c]) <==> c in s
  {
    if c in s {
      var k :| 0 <= k < |s| && s[k] == c;
      assert s[k..k + 1] == [c];
      assert OccursAt(s, [c], k);
    }
    if Contains(s, [c]) {
      var k :| 0 <= k <= |s| && OccursAt(s, [c], k);
      assert s[k..k + 1][0] == s[k];
    }
  }

  /** A string without the separator is a single piece. */
  lemma SplitWithout(s: string, c: char)
    requires c !in s
    ensures Split(s, [c]) == [s]
  {
    ContainsChar(s, c);
  }

  // ---------------------------------------------------------------- trim

  /** The characters `String.prototype.trim` removes: ECMAScript WhiteSpace
      (tab, vertical tab, form feed, ZWNBSP and the Unicode Zs category) and
      LineTerminator (LF, CR, LS, PS). */
  predicate IsSpace(c: char) {
    || c == '\t' || c == '\U{0B}' || c == '\U{0C}' || c == ' ' || c == '\U{A0}'
    || c == '\U{FEFF}' || c == '\U{1680}' || ('\U{2000}' <= c <= '\U{200A}')
    || c == '\U{202F}' || c == '\U{205F}' || c == '\U{3000}'
    || c == '\n' || c == '\r' || c == '\U{2028}' || c == '\U{2029}'
  }

  /** Neither end of `s` is a whitespace character. */
  predicate IsTrimmed(s: string) {
    |s| == 0 || (!IsSpace(s[0]) && !IsSpace(s[|s| - 1]))
  }

  predicate AllSpace(s: string) {
    forall k :: 0 <= k < |s| ==> IsSpace(s[k])
  }

  /** The index of the first non-whitespace character at or after `i`,
      or `|s|` when there is none. */
  function SkipSpace(s: string, i: nat): (n: nat)
    requires i <= |s|
    ensures i <= n <= |s|
    ensures forall k :: i <= k < n ==> IsSpace(s[k])
    ensures n == |s| || !IsSpace(s[n])
    decreases |s| - i
  {
    if i < |s| && IsSpace(s[i]) then SkipSpace(s, i + 1) else i
  }

  /** The index just past the last non-whitespace character before `j`,
      or 0 when there is none. */
  function SkipSpaceBack(s: string, j: nat): (n: nat)
    requires j <= |s|
    ensures n <= j
    ensures forall k :: n <= k < j ==> IsSpace(s[k])
    ensures n == 0 || !IsSpace(s[n - 1])
    decreases j
  {
    if j > 0 && IsSpace(s[j - 1]) then SkipSpaceBack(s, j - 1) else j
  }

  /** `trim`: `s` is whitespace, then the result, then whitespace. */
  function Trim(s: string): (r: string)
    ensures IsTrimmed(r)
    ensures exists lead, trail :: s == lead + r + trail && AllSpace(lead) && AllSpace(trail)
  {
    var i := SkipSpace(s, 0);
    if i == |s| then
      SpaceAround(s, i, i);
      s[i..i]
    else
      var j := SkipSpaceBack(s, |s|);
      assert i < j by {
        assert !IsSpace(s[i]);
      }
      SpaceAround(s, i, j);
      s[i..j]
  }

  lemma SpaceAround(s: string, i: nat, j: nat)
    requires i <= j <= |s|
    requires forall k :: 0 <= k < i ==> IsSpace(s[k])
    requires forall k :: j <= k < |s| ==> IsSpace(s[k])
    ensures exists lead, trail :: s == lead + s[i..j] + trail && AllSpace(lead) && AllSpace(trail)
  {
    var lead, trail := s[..i], s[j..];
    assert s == lead + s[i..j] + trail;
    assert AllSpace(lead) by {
      assert forall k :: 0 <= k < i ==> lead[k] == s[k];
    }
    assert AllSpace(trail) by {
      assert forall k :: 0 <= k < |trail| ==> trail[k] == s[j + k];
    }
  }

  /** Trimming a trimmed string changes nothing, so `trim` is idempotent. */
  lemma TrimTrimmed(s: string)
    requires IsTrimmed(s)
    ensures Trim(s) == s
  {
  }

  /** `trim` keeps a prefix whose first and last characters are not
      whitespace. */
  lemma TrimKeepsPrefix(s: string, prefix: string)
    requires StartsWith(s, prefix) && |prefix| > 0
    requires !IsSpace(prefix[0]) && !IsSpace(prefix[|prefix| - 1])
    ensures StartsWith(Trim(s), prefix)
  {
    assert s[0] == prefix[0] && s[|prefix| - 1] == prefix[|prefix| - 1] by {
      assert s[..|prefix|] == prefix;
    }
    var j := SkipSpaceBack(s, |s|);
    assert SkipSpace(s, 0) == 0;
    assert |prefix| <= j;
    assert Trim(s) == s[..j];
    assert s[..j][..|prefix|] == s[..|prefix|];
  }
}
