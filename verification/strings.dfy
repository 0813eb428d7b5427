/**
 * The string operations both applications lean on: Python's `str.strip`,
 * `str.split`, `str.join`, `str.replace` and JavaScript's `trim`, `split`,
 * `join` and `String.prototype.replace` with a string pattern.
 * Strings are sequences of characters; no case folding or normalisation.
 */
module Strings {
  import opened Wrappers

  /** Characters for which Python's `str.isspace` holds (what `strip()` removes). */
  predicate PyIsSpace(c: char) {
    c == ' ' || ('\t' <= c <= '\r') || ('\U{1C}' <= c <= '\U{1F}')
    || c == '\U{85}' || c == '\U{A0}' || c == '\U{1680}'
    || ('\U{2000}' <= c <= '\U{200A}') || c == '\U{2028}' || c == '\U{2029}'
    || c == '\U{202F}' || c == '\U{205F}' || c == '\U{3000}'
  }

  /** Characters JavaScript's `String.prototype.trim` removes (white space and line terminators). */
  predicate JsIsSpace(c: char) {
    c == ' ' || ('\t' <= c <= '\r') || c == '\U{A0}' || c == '\U{1680}'
    || ('\U{2000}' <= c <= '\U{200A}') || c == '\U{2028}' || c == '\U{2029}'
    || c == '\U{202F}' || c == '\U{205F}' || c == '\U{3000}' || c == '\U{FEFF}'
  }

  /** Drops the leading run of characters satisfying `sp`. */
  function TrimStart(s: string, sp: char -> bool): (r: string)
    ensures |r| <= |s|
    decreases |s|
  {
    if |s| > 0 && sp(s[0]) then TrimStart(s[1..], sp) else s
  }

  /** What `TrimStart` drops satisfies `sp`, and what it keeps does not open with such a character. */
  lemma {:induction false} TrimStartEnds(s: string, sp: char -> bool)
    ensures var r := TrimStart(s, sp);
      r == s[|s| - |r|..] && (forall i :: 0 <= i < |s| - |r| ==> sp(s[i])) && (r == [] || !sp(r[0]))
    decreases |s|
  {
    if |s| > 0 && sp(s[0]) {
      TrimStartEnds(s[1..], sp);
      var r := TrimStart(s, sp);
      forall i | 0 <= i < |s| - |r| ensures sp(s[i]) {
        if i > 0 {
          assert s[i] == s[1..][i - 1];
        }
      }
    }
  }

  /** Drops the trailing run of characters satisfying `sp`. */
  function TrimEnd(s: string, sp: char -> bool): (r: string)
    ensures |r| <= |s|
    decreases |s|
  {
    if |s| > 0 && sp(s[|s| - 1]) then TrimEnd(s[..|s| - 1], sp) else s
  }

  /** What `TrimEnd` drops satisfies `sp`, and what it keeps does not close with such a character. */
  lemma {:induction false} TrimEndEnds(s: string, sp: char -> bool)
    ensures var r := TrimEnd(s, sp);
      r == s[..|r|] && (forall i :: |r| <= i < |s| ==> sp(s[i])) && (r == [] || !sp(r[|r| - 1]))
    decreases |s|
  {
    if |s| > 0 && sp(s[|s| - 1]) {
      TrimEndEnds(s[..|s| - 1], sp);
      var r := TrimEnd(s, sp);
      forall i | |r| <= i < |s| ensures sp(s[i]) {
        if i < |s| - 1 {
          assert s[i] == s[..|s| - 1][i];
        }
      }
    }
  }

  /** Both ends trimmed. */
  function StripBy(s: string, sp: char -> bool): (r: string)
    ensures |r| <= |s|
  {
    TrimEnd(TrimStart(s, sp), sp)
  }

  /** What is left after stripping starts and ends with a non-space, and is empty only for a blank string. */
  lemma StripByEnds(s: string, sp: char -> bool)
    ensures var r := StripBy(s, sp);
      (r == [] || (!sp(r[0]) && !sp(r[|r| - 1])))
      && (r == [] <==> forall i :: 0 <= i < |s| ==> sp(s[i]))
  {
    var t := TrimStart(s, sp);
    var r := TrimEnd(t, sp);
    TrimStartEnds(s, sp);
    TrimEndEnds(t, sp);
    if r != [] {
      assert r[0] == t[0] && t[0] == s[|s| - |t|];
    } else {
      assert t == [];
    }
  }

  /** Python's `str.strip()` with no argument. */
  function PyStrip(s: string): string {
    StripBy(s, PyIsSpace)
  }

  /** JavaScript's `String.prototype.trim()`. */
  function JsTrim(s: string): string {
    StripBy(s, JsIsSpace)
  }

  /** Stripping twice strips nothing more. */
  lemma StripIdempotent(s: string, sp: char -> bool)
    ensures StripBy(StripBy(s, sp), sp) == StripBy(s, sp)
  {
    var r := StripBy(s, sp);
    StripByEnds(s, sp);
    if r != [] {
      assert TrimStart(r, sp) == r;
      assert TrimEnd(r, sp) == r;
    }
  }

  predicate StartsWith(s: string, prefix: string) {
    |prefix| <= |s| && s[..|prefix|] == prefix
  }

  /** A prefix of a string is a prefix of anything appended to it. */
  lemma PrefixOfAppend(s: string, t: string, prefix: string)
    requires StartsWith(s, prefix)
    ensures StartsWith(s + t, prefix)
  {
    assert (s + t)[..|prefix|] == s[..|prefix|];
  }

  /** A prefix of a prefix is a prefix. */
  lemma PrefixTransitive(s: string, p: string, q: string)
    requires StartsWith(s, p) && StartsWith(p, q)
    ensures StartsWith(s, q)
  {
    assert s[..|q|] == p[..|q|];
  }

  /** A prefix that begins and ends with non-spaces survives stripping. */
  lemma StripKeepsHead(s: string, head: string, sp: char -> bool)
    requires |head| > 0 && StartsWith(s, head)
    requires !sp(head[0]) && !sp(head[|head| - 1])
    ensures StartsWith(StripBy(s, sp), head)
  {
    assert s[0] == head[0] && s[|head| - 1] == head[|head| - 1];
    assert TrimStart(s, sp) == s;
    var r := TrimEnd(s, sp);
    TrimEndEnds(s, sp);
    assert |r| >= |head|;
    assert r[..|head|] == s[..|head|];
  }

  /**
   * A string whose first part opens with a non-blank `head` that also ends in
   * a non-blank still opens with `head` after `strip()`.
   */
  lemma StripOpensWith(s: string, first: string, head: string)
    requires StartsWith(s, first) && StartsWith(first, head)
    requires |head| > 0 && !PyIsSpace(head[0]) && !PyIsSpace(head[|head| - 1])
    ensures StartsWith(PyStrip(s), head)
  {
    PrefixTransitive(s, first, head);
    StripKeepsHead(s, head, PyIsSpace);
  }

  /** `pat` occurs in `s` starting at index `i`. */
  predicate OccursAt(s: string, pat: string, i: int) {
    0 <= i && i + |pat| <= |s| && s[i..i + |pat|] == pat
  }

  predicate Contains(s: string, pat: string) {
    exists i | 0 <= i <= |s| :: OccursAt(s, pat, i)
  }

  /** First occurrence of `pat` in `s` at or after index `k`. */
  function IndexFrom(s: string, pat: string, k: nat): (r: Option<nat>)
    requires k <= |s|
    ensures r.Some? ==> k <= r.value && OccursAt(s, pat, r.value)
    ensures r.Some? ==> forall j :: k <= j < r.value ==> !OccursAt(s, pat, j)
    ensures r.None? ==> forall j :: k <= j ==> !OccursAt(s, pat, j)
    decreases |s| - k
  {
    if OccursAt(s, pat, k) then Some(k)
    else if k == |s| then None
    else IndexFrom(s, pat, k + 1)
  }

  /** JavaScript's `indexOf` / Python's `find`, with `None` for -1. */
  function IndexOf(s: string, pat: string): (r: Option<nat>)
    ensures r.Some? ==> OccursAt(s, pat, r.value) && forall j :: 0 <= j < r.value ==> !OccursAt(s, pat, j)
    ensures r.None? <==> !Contains(s, pat)
  {
    IndexFrom(s, pat, 0)
  }

  /** An occurrence inside a prefix is an occurrence in the whole string. */
  lemma OccursInPrefix(s: string, pat: string, n: nat, j: int)
    requires n <= |s| && OccursAt(s[..n], pat, j)
    ensures OccursAt(s, pat, j)
  {
    assert s[..n][j..j + |pat|] == s[j..j + |pat|];
  }

  /**
   * `s.split(sep)` in both languages for a non-empty separator: the pieces
   * between the non-overlapping occurrences found from left to right.
   */
  function Split(s: string, sep: string): (parts: seq<string>)
    requires |sep| > 0
    ensures |parts| >= 1
    ensures forall i :: 0 <= i < |parts| ==> !Contains(parts[i], sep)
    decreases |s|
  {
    match IndexOf(s, sep)
    case None => [s]
    case Some(i) =>
      var head := s[..i];
      assert !Contains(head, sep) by {
        forall j | OccursAt(head, sep, j) ensures false {
          OccursInPrefix(s, sep, i, j);
        }
      }
      [head] + Split(s[i + |sep|..], sep)
  }

  /**
   * A split meets its first separator right after `a` when no occurrence
   * starts earlier, that is, none lies within `a` followed by all but the last
   * character of the separator.
   */
  lemma SplitAtFirst(a: string, sep: string, rest: string)
    requires |sep| > 0 && !Contains(a + sep[..|sep| - 1], sep)
    ensures Split(a + sep + rest, sep) == [a] + Split(rest, sep)
  {
    var s := a + sep + rest;
    var early := a + sep[..|sep| - 1];
    assert OccursAt(s, sep, |a|) by {
      assert s[|a|..|a| + |sep|] == sep;
    }
    forall j | 0 <= j < |a| ensures !OccursAt(s, sep, j) {
      assert !OccursAt(early, sep, j);
      if j + |sep| <= |s| {
        assert s[j..j + |sep|] == early[j..j + |sep|];
      }
    }
    assert IndexOf(s, sep) == Some(|a|);
    assert s[..|a|] == a;
    assert s[|a| + |sep|..] == rest;
  }

  /** `sep.join(parts)` / `parts.join(sep)`. */
  function Join(parts: seq<string>, sep: string): string
    decreases |parts|
  {
    if |parts| == 0 then ""
    else if |parts| == 1 then parts[0]
    else parts[0] + sep + Join(parts[1..], sep)
  }

  /**
   * The first piece of a split is a prefix of the string; there is a second
   * piece exactly when the separator occurs, and then the separator follows the
   * first piece and the remaining pieces split what comes after it.
   */
  lemma SplitHead(s: string, sep: string)
    requires |sep| > 0
    ensures StartsWith(s, Split(s, sep)[0])
    ensures |Split(s, sep)| > 1 <==> Contains(s, sep)
    ensures Contains(s, sep) ==>
      var n := |Split(s, sep)[0]|;
      OccursAt(s, sep, n) && Split(s, sep)[1..] == Split(s[n + |sep|..], sep)
  {
    var found := IndexOf(s, sep);
    if found.None? {
      assert Split(s, sep) == [s];
      assert s[..|s|] == s;
    } else {
      var i := found.value;
      var parts := Split(s, sep);
      assert parts == [s[..i]] + Split(s[i + |sep|..], sep);
      assert parts[0] == s[..i] && parts[1..] == Split(s[i + |sep|..], sep);
    }
  }

  /** Joining the pieces of a split with the same separator gives back the string. */
  lemma {:induction false} JoinSplit(s: string, sep: string)
    requires |sep| > 0
    ensures Join(Split(s, sep), sep) == s
    decreases |s|
  {
    var found := IndexOf(s, sep);
    if found.Some? {
      var i := found.value;
      var rest := s[i + |sep|..];
      var tail := Split(rest, sep);
      JoinSplit(rest, sep);
      var parts := [s[..i]] + tail;
      assert Split(s, sep) == parts;
      assert parts[1..] == tail;
      assert Join(parts, sep) == s[..i] + sep + rest;
      assert s == s[..i] + s[i..i + |sep|] + rest;
    }
  }

  /** Joining a prefix of the parts gives a prefix of the whole join. */
  lemma {:induction false} JoinPrefix(parts: seq<string>, sep: string, n: nat)
    requires 1 <= n < |parts|
    ensures StartsWith(Join(parts, sep), Join(parts[..n], sep) + sep)
    decreases n
  {
    if n > 1 {
      JoinPrefix(parts[1..], sep, n - 1);
      assert parts[1..][..n - 1] == parts[..n][1..];
    }
  }

  /**
   * The first `n` pieces of a split, joined again, are a prefix of the string,
   * followed by the separator when pieces remain.
   */
  lemma SplitPrefix(s: string, sep: string, n: nat)
    requires |sep| > 0 && 1 <= n <= |Split(s, sep)|
    ensures StartsWith(s, Join(Split(s, sep)[..n], sep))
    ensures n < |Split(s, sep)| ==> OccursAt(s, sep, |Join(Split(s, sep)[..n], sep)|)
  {
    var parts := Split(s, sep);
    var p := Join(parts[..n], sep);
    JoinSplit(s, sep);
    if n < |parts| {
      JoinPrefix(parts, sep, n);
      var q := p + sep;
      assert s[..|q|] == q;
      assert s[..|p|] == q[..|p|];
      assert s[|p|..|p| + |sep|] == q[|p|..];
    } else {
      assert parts[..n] == parts;
    }
  }

  /** Joining one more part adds the separator and that part at the end. */
  lemma {:induction false} JoinAppend(parts: seq<string>, sep: string, last: string)
    requires |parts| >= 1
    ensures Join(parts + [last], sep) == Join(parts, sep) + sep + last
    decreases |parts|
  {
    if |parts| > 1 {
      JoinAppend(parts[1..], sep, last);
      assert (parts + [last])[1..] == parts[1..] + [last];
    } else {
      assert (parts + [last])[1..] == [last];
    }
  }

  /** A one-character pattern occurs exactly when the character is in the string. */
  lemma ContainsChar(s: string, c: char)
    ensures Contains(s, [c]) <==> c in s
  {
    if c in s {
      var i :| 0 <= i < |s| && s[i] == c;
      assert OccursAt(s, [c], i);
    }
    if Contains(s, [c]) {
      var i :| 0 <= i <= |s| && OccursAt(s, [c], i);
      assert s[i..i + 1][0] == c;
    }
  }

  /**
   * Splitting on a one-character separator undoes a join of pieces that do not
   * contain it.
   */
  lemma {:induction false} SplitJoin(parts: seq<string>, c: char)
    requires |parts| >= 1
    requires forall i :: 0 <= i < |parts| ==> c !in parts[i]
    ensures Split(Join(parts, [c]), [c]) == parts
    decreases |parts|
  {
    var s := Join(parts, [c]);
    var head := parts[0];
    if |parts| == 1 {
      ContainsChar(s, c);
    } else {
      var rest := Join(parts[1..], [c]);
      assert s == head + [c] + rest;
      assert IndexOf(s, [c]) == Some(|head|) by {
        forall j | 0 <= j < |head| ensures !OccursAt(s, [c], j) {
          assert s[j] == head[j];
          assert s[j..j + 1][0] == s[j];
        }
        assert s[|head|..|head| + 1] == [c];
        assert OccursAt(s, [c], |head|);
        assert Contains(s, [c]);
      }
      assert s[|head| + 1..] == rest;
      assert s[..|head|] == head;
      SplitJoin(parts[1..], c);
      assert Split(s, [c]) == [head] + Split(rest, [c]);
      assert parts == [head] + parts[1..];
    }
  }

  /** The pieces of a split on one character do not contain it. */
  lemma SplitPartsFree(s: string, c: char)
    ensures forall i :: 0 <= i < |Split(s, [c])| ==> c !in Split(s, [c])[i]
  {
    var parts := Split(s, [c]);
    forall i | 0 <= i < |parts| ensures c !in parts[i] {
      ContainsChar(parts[i], c);
    }
  }

  /** Joining pieces free of `c` with `c` puts exactly one `c` between neighbours. */
  lemma {:induction false} JoinCount(parts: seq<string>, c: char)
    requires |parts| >= 1
    requires forall i :: 0 <= i < |parts| ==> c !in parts[i]
    ensures multiset(Join(parts, [c]))[c] == |parts| - 1
    decreases |parts|
  {
    assert multiset(parts[0])[c] == 0;
    if |parts| > 1 {
      JoinCount(parts[1..], c);
      assert Join(parts, [c]) == parts[0] + [c] + Join(parts[1..], [c]);
    }
  }

  /** A split on one character has one piece more than there are occurrences. */
  lemma SplitCount(s: string, c: char)
    ensures |Split(s, [c])| == multiset(s)[c] + 1
  {
    SplitPartsFree(s, c);
    JoinCount(Split(s, [c]), c);
    JoinSplit(s, [c]);
  }

  /**
   * `s.replace(pat, rep)` in JavaScript with a string pattern: only the first
   * occurrence is replaced.
   */
  function ReplaceFirst(s: string, pat: string, rep: string): (r: string)
    ensures !Contains(s, pat) ==> r == s
    ensures Contains(s, pat) ==>
      exists i :: OccursAt(s, pat, i) && (forall j :: 0 <= j < i ==> !OccursAt(s, pat, j))
        && r == s[..i] + rep + s[i + |pat|..]
  {
    match IndexOf(s, pat)
    case None => s
    case Some(i) => s[..i] + rep + s[i + |pat|..]
  }

  /** Python's `s.replace(pat, rep)`: every non-overlapping occurrence, left to right. */
  function ReplaceAll(s: string, pat: string, rep: string): (r: string)
    requires |pat| > 0
    ensures !Contains(s, pat) ==> r == s
  {
    Join(Split(s, pat), rep)
  }

  /** Replacing a pattern by itself changes nothing. */
  lemma ReplaceAllSelf(s: string, pat: string)
    requires |pat| > 0
    ensures ReplaceAll(s, pat, pat) == s
  {
    JoinSplit(s, pat);
  }

  function LowerAscii(c: char): char {
    if 'A' <= c <= 'Z' then (c as int - 'A' as int + 'a' as int) as char else c
  }

  /** ASCII lower-casing of every character. */
  function Lower(s: string): (r: string)
    ensures |r| == |s|
    ensures forall i :: 0 <= i < |s| ==> r[i] == LowerAscii(s[i])
  {
    seq(|s|, i requires 0 <= i < |s| => LowerAscii(s[i]))
  }
}
