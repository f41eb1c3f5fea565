/**
 * The java.lang.String operations the conversion pipeline relies on, written
 * out over seq<char>: indexOf, left-to-right counting, literal replacement,
 * split on a literal delimiter, trim, and the character classes \s and \w of
 * java.util.regex.
 */
module Text {

  /** `sub` occurs in `s` starting at index `i`. */
  predicate OccursAt(s: string, i: int, sub: string)
  {
    0 <= i && i + |sub| <= |s| && s[i..i + |sub|] == sub
  }

  ghost predicate Contains(s: string, sub: string)
  {
    exists i :: OccursAt(s, i, sub)
  }

  /** `w` is a prefix of `s`. */
  predicate IsPrefix(w: string, s: string)
  {
    |w| <= |s| && s[..|w|] == w
  }

  /** String.indexOf(sub, from): the first index at or after `from` where `sub` occurs, or -1. */
  function IndexOf(s: string, sub: string, from: nat): (r: int)
    ensures r == -1 || (from <= r && OccursAt(s, r, sub))
    ensures r == -1 ==> forall k :: from <= k ==> !OccursAt(s, k, sub)
    ensures r != -1 ==> forall k :: from <= k < r ==> !OccursAt(s, k, sub)
    decreases |s| - from
  {
    if |s| < from + |sub| then -1
    else if s[from..from + |sub|] == sub then from
    else IndexOf(s, sub, from + 1)
  }

  /**
   * The number of non-overlapping occurrences of `sub` in `s` from index `k`
   * on, taken greedily from the left: after a match the search resumes past
   * its end.
   */
  function CountFrom(s: string, sub: string, k: nat): nat
    requires |sub| > 0
    decreases |s| - k
  {
    if |s| < k + |sub| then 0
    else if s[k..k + |sub|] == sub then 1 + CountFrom(s, sub, k + |sub|)
    else CountFrom(s, sub, k + 1)
  }

  /** The number of non-overlapping occurrences of `sub` in `s`. */
  function Occurrences(s: string, sub: string): nat
    requires |sub| > 0
  {
    CountFrom(s, sub, 0)
  }

  /** Appending keeps the first character and the rest of the left operand. */
  lemma AppendHead(a: string, t: string)
    requires a != []
    ensures (a + t)[0] == a[0] && (a + t)[1..] == a[1..] + t
    ensures [a[0]] + (a[1..] + t) == a + t
  {
    assert [a[0]] + a[1..] == a;
  }

  lemma AppendAssoc3(a: string, m: string, b: string)
    ensures a + m + b == a + (m + b)
  {
  }

  lemma OccursAtTail(s: string, i: int, sub: string)
    requires |s| > 0 && 0 <= i
    ensures OccursAt(s[1..], i, sub) <==> OccursAt(s, i + 1, sub)
  {
    if 0 <= i && i + |sub| <= |s| - 1 {
      assert s[1..][i..i + |sub|] == s[i + 1..i + 1 + |sub|];
    }
  }

  lemma OccursAtDrop(s: string, n: nat, i: int, sub: string)
    requires n <= |s| && 0 <= i
    ensures OccursAt(s[n..], i, sub) <==> OccursAt(s, i + n, sub)
  {
    if 0 <= i && i + |sub| <= |s| - n {
      assert s[n..][i..i + |sub|] == s[i + n..i + n + |sub|];
    }
  }

  /** Counting from `k` finds nothing exactly when `sub` does not occur at or after `k`. */
  lemma {:induction false} CountFromNone(s: string, sub: string, k: nat)
    requires |sub| > 0
    ensures CountFrom(s, sub, k) == 0 <==> forall i :: k <= i ==> !OccursAt(s, i, sub)
    decreases |s| - k
  {
    if |s| < k + |sub| {
    } else if s[k..k + |sub|] == sub {
      assert OccursAt(s, k, sub);
    } else {
      assert !OccursAt(s, k, sub);
      CountFromNone(s, sub, k + 1);
    }
  }

  /** Counting finds nothing exactly when `sub` does not occur at all. */
  lemma OccurrencesZero(s: string, sub: string)
    requires |sub| > 0
    ensures Occurrences(s, sub) == 0 <==> !Contains(s, sub)
  {
    CountFromNone(s, sub, 0);
  }

  /**
   * What one step of the indexOf-driven counting loop does: from index `k`,
   * either nothing is left to count, or one occurrence is counted at the next
   * match and counting resumes past it.
   */
  lemma {:induction false} OccurrencesFrom(s: string, sub: string, k: nat)
    requires |sub| > 0 && k <= |s|
    ensures IndexOf(s, sub, k) == -1 ==> CountFrom(s, sub, k) == 0
    ensures IndexOf(s, sub, k) != -1 ==>
      CountFrom(s, sub, k) == 1 + CountFrom(s, sub, IndexOf(s, sub, k) + |sub|)
    decreases |s| - k
  {
    if |s| < k + |sub| {
    } else if s[k..k + |sub|] == sub {
    } else {
      OccurrencesFrom(s, sub, k + 1);
    }
  }

  /**
   * String.replace(pat, rep), equally replaceAll with a pattern free of regex
   * metacharacters: every non-overlapping occurrence of `pat`, leftmost
   * first, is replaced by `rep`; the replacement text is not rescanned.
   */
  function ReplaceAll(s: string, pat: string, rep: string): string
    requires |pat| > 0
    decreases |s|
  {
    if |s| < |pat| then s
    else if s[..|pat|] == pat then rep + ReplaceAll(s[|pat|..], pat, rep)
    else [s[0]] + ReplaceAll(s[1..], pat, rep)
  }

  /** A text in which the pattern does not occur is left as it is. */
  lemma {:induction false} ReplaceAllAbsent(s: string, pat: string, rep: string)
    requires |pat| > 0 && !Contains(s, pat)
    ensures ReplaceAll(s, pat, rep) == s
    decreases |s|
  {
    if |s| < |pat| {
    } else {
      assert !OccursAt(s, 0, pat);
      if Contains(s[1..], pat) {
        var i :| OccursAt(s[1..], i, pat);
        OccursAtTail(s, i, pat);
      }
      ReplaceAllAbsent(s[1..], pat, rep);
    }
  }

  /** A replacement as long as the pattern keeps the length of the text. */
  lemma {:induction false} ReplaceAllSameLength(s: string, pat: string, rep: string)
    requires |pat| > 0 && |rep| == |pat|
    ensures |ReplaceAll(s, pat, rep)| == |s|
    decreases |s|
  {
    if |s| < |pat| {
    } else if s[..|pat|] == pat {
      ReplaceAllSameLength(s[|pat|..], pat, rep);
    } else {
      ReplaceAllSameLength(s[1..], pat, rep);
    }
  }

  /**
   * The first occurrence is replaced and the text before it is kept: the
   * replacement of one occurrence, written out.
   */
  lemma {:induction false} ReplaceAllFirst(a: string, pat: string, rep: string, b: string)
    requires |pat| > 0
    requires forall k :: 0 <= k < |a| ==> !OccursAt(a + pat + b, k, pat)
    ensures ReplaceAll(a + pat + b, pat, rep) == a + rep + ReplaceAll(b, pat, rep)
    decreases |a|
  {
    var s := a + pat + b;
    if a == [] {
      assert s == pat + b;
      assert s[..|pat|] == pat;
      assert s[|pat|..] == b;
    } else {
      assert !OccursAt(s, 0, pat);
      var s1 := a[1..] + pat + b;
      assert s[1..] == s1;
      forall k | 0 <= k < |a| - 1
        ensures !OccursAt(s1, k, pat)
      {
        OccursAtTail(s, k, pat);
      }
      ReplaceAllFirst(a[1..], pat, rep, b);
      assert ReplaceAll(s, pat, rep) == [s[0]] + ReplaceAll(s1, pat, rep);
      assert [a[0]] + a[1..] == a;
    }
  }

  /**
   * A prefix of the output that does not contain the first character of the
   * replacement was copied unchanged from the input.
   */
  lemma {:induction false} ReplaceAllPrefix(t: string, pat: string, rep: string, w: string)
    requires |pat| > 0 && rep != [] && rep[0] !in w
    requires IsPrefix(w, ReplaceAll(t, pat, rep))
    ensures IsPrefix(w, t)
    decreases |t|
  {
    if w == [] || |t| < |pat| {
    } else {
      assert w[0] == ReplaceAll(t, pat, rep)[0] && w[0] != rep[0];
      if t[..|pat|] == pat {
        assert false;
      }
      var r := ReplaceAll(t[1..], pat, rep);
      assert ReplaceAll(t, pat, rep) == [t[0]] + r;
      assert ([t[0]] + r)[1..|w|] == r[..|w| - 1];
      assert IsPrefix(w[1..], r);
      ReplaceAllPrefix(t[1..], pat, rep, w[1..]);
      assert w == [w[0]] + w[1..];
    }
  }

  /**
   * When the replacement can neither start nor continue an occurrence of the
   * pattern, no occurrence of the pattern survives the rewrite.
   */
  lemma {:induction false} ReplaceAllEliminates(s: string, pat: string, rep: string)
    requires |pat| > 0 && rep != []
    requires rep[0] !in pat && pat[0] !in rep
    ensures !Contains(ReplaceAll(s, pat, rep), pat)
    decreases |s|
  {
    var r := ReplaceAll(s, pat, rep);
    if |s| < |pat| {
      assert r == s;
      assert forall i :: !OccursAt(s, i, pat);
    } else if s[..|pat|] == pat {
      var tail := ReplaceAll(s[|pat|..], pat, rep);
      ReplaceAllEliminates(s[|pat|..], pat, rep);
      assert r == rep + tail;
      if Contains(r, pat) {
        var i :| OccursAt(r, i, pat);
        if i >= |rep| {
          OccursAtDrop(r, |rep|, i - |rep|, pat);
        }
      }
    } else {
      var tail := ReplaceAll(s[1..], pat, rep);
      ReplaceAllEliminates(s[1..], pat, rep);
      assert r == [s[0]] + tail;
      if Contains(r, pat) {
        var i :| OccursAt(r, i, pat);
        if i == 0 {
          ReplaceAllPrefix(s[1..], pat, rep, pat[1..]);
        } else {
          OccursAtTail(r, i - 1, pat);
        }
      }
    }
  }

  /**
   * Under the same condition, a text `q` that the replacement cannot help to
   * form occurs in the output only if it already occurred in the input.
   */
  lemma {:induction false} ReplaceAllCreatesNone(s: string, pat: string, rep: string, q: string)
    requires |pat| > 0 && rep != [] && q != []
    requires rep[0] !in q && q[0] !in rep
    requires Contains(ReplaceAll(s, pat, rep), q)
    ensures Contains(s, q)
    decreases |s|
  {
    var r := ReplaceAll(s, pat, rep);
    var i :| OccursAt(r, i, q);
    if |s| < |pat| {
    } else if s[..|pat|] == pat {
      var tail := ReplaceAll(s[|pat|..], pat, rep);
      assert r == rep + tail;
      if i >= |rep| {
        OccursAtDrop(r, |rep|, i - |rep|, q);
        assert r[|rep|..] == tail;
        ReplaceAllCreatesNone(s[|pat|..], pat, rep, q);
        var j :| OccursAt(s[|pat|..], j, q);
        OccursAtDrop(s, |pat|, j, q);
      }
    } else {
      var tail := ReplaceAll(s[1..], pat, rep);
      assert r == [s[0]] + tail;
      if i == 0 {
        assert IsPrefix(q[1..], tail) by {
          assert tail[..|q| - 1] == r[1..|q|];
        }
        ReplaceAllPrefix(s[1..], pat, rep, q[1..]);
        assert s[..|q|] == [s[0]] + s[1..][..|q| - 1];
        assert q == [q[0]] + q[1..];
        assert OccursAt(s, 0, q);
      } else {
        OccursAtTail(r, i - 1, q);
        assert r[1..] == tail;
        ReplaceAllCreatesNone(s[1..], pat, rep, q);
        var j :| OccursAt(s[1..], j, q);
        OccursAtTail(s, j, q);
      }
    }
  }

  /** A character found neither in the input nor in the replacement is not in the output. */
  lemma {:induction false} ReplaceAllCharFree(s: string, pat: string, rep: string, c: char)
    requires |pat| > 0 && c !in s && c !in rep
    ensures c !in ReplaceAll(s, pat, rep)
    decreases |s|
  {
    if |s| < |pat| {
    } else if s[..|pat|] == pat {
      ReplaceAllCharFree(s[|pat|..], pat, rep, c);
    } else {
      ReplaceAllCharFree(s[1..], pat, rep, c);
    }
  }

  /** Replacing a single character by a text without it removes it everywhere. */
  lemma {:induction false} ReplaceCharRemoves(s: string, c: char, rep: string)
    requires c !in rep
    ensures c !in ReplaceAll(s, [c], rep)
    decreases |s|
  {
    if |s| < 1 {
    } else if s[..1] == [c] {
      ReplaceCharRemoves(s[1..], c, rep);
    } else {
      assert s[0] != c;
      ReplaceCharRemoves(s[1..], c, rep);
    }
  }

  /** Replacing one character by another rewrites exactly its positions and keeps every other character. */
  lemma {:induction false} ReplaceCharAt(s: string, c: char, d: char)
    ensures |ReplaceAll(s, [c], [d])| == |s|
    ensures forall k :: 0 <= k < |s| ==> ReplaceAll(s, [c], [d])[k] == if s[k] == c then d else s[k]
    decreases |s|
  {
    if |s| >= 1 {
      var t := ReplaceAll(s[1..], [c], [d]);
      ReplaceCharAt(s[1..], c, d);
      var h := if s[0] == c then d else s[0];
      assert ReplaceAll(s, [c], [d]) == [h] + t by {
        assert s[..1] == [c] <==> s[0] == c;
      }
      forall k | 1 <= k < |s|
        ensures ([h] + t)[k] == if s[k] == c then d else s[k]
      {
        assert s[1..][k - 1] == s[k];
      }
    }
  }

  /** With a non-empty replacement, only the empty text becomes empty. */
  lemma ReplaceAllEmpty(s: string, pat: string, rep: string)
    requires |pat| > 0 && rep != []
    ensures ReplaceAll(s, pat, rep) == [] <==> s == []
  {
  }

  /** The result starts with the first character of the text or of the replacement. */
  lemma ReplaceAllFirstChar(s: string, pat: string, rep: string)
    requires |pat| > 0 && rep != [] && s != []
    ensures ReplaceAll(s, pat, rep) != []
    ensures ReplaceAll(s, pat, rep)[0] == s[0] || ReplaceAll(s, pat, rep)[0] == rep[0]
  {
  }

  /** The result ends with the last character of the text or of the replacement. */
  lemma {:induction false} ReplaceAllLastChar(s: string, pat: string, rep: string)
    requires |pat| > 0 && rep != [] && s != []
    ensures var r := ReplaceAll(s, pat, rep);
      r != [] && (r[|r| - 1] == s[|s| - 1] || r[|r| - 1] == rep[|rep| - 1])
    decreases |s|
  {
    if |s| >= |pat| {
      var t := if s[..|pat|] == pat then s[|pat|..] else s[1..];
      ReplaceAllEmpty(t, pat, rep);
      if t != [] {
        ReplaceAllLastChar(t, pat, rep);
        assert t[|t| - 1] == s[|s| - 1];
      }
    }
  }

  /** Replacing by a text that starts and ends with untrimmable characters keeps the ends untrimmable. */
  lemma ReplaceAllEnds(s: string, pat: string, rep: string)
    requires |pat| > 0 && rep != [] && !IsTrimmable(rep[0]) && !IsTrimmable(rep[|rep| - 1])
    requires TrimmedEnds(s)
    ensures TrimmedEnds(ReplaceAll(s, pat, rep))
  {
    if s != [] {
      ReplaceAllFirstChar(s, pat, rep);
      ReplaceAllLastChar(s, pat, rep);
    }
  }

  /** The first occurrence at or after `from` is what indexOf reports. */
  lemma IndexOfIs(s: string, sub: string, from: nat, r: nat)
    requires from <= r && OccursAt(s, r, sub)
    requires forall k :: from <= k < r ==> !OccursAt(s, k, sub)
    ensures IndexOf(s, sub, from) == r
  {
  }

  /** A text that starts with the pattern has it replaced there. */
  lemma ReplaceAllLeading(pat: string, rep: string, b: string)
    requires |pat| > 0
    ensures ReplaceAll(pat + b, pat, rep) == rep + ReplaceAll(b, pat, rep)
  {
    assert (pat + b)[..|pat|] == pat;
    assert (pat + b)[|pat|..] == b;
  }

  /** A text that ends with the only occurrence of the pattern has it replaced there. */
  lemma ReplaceAllTrailing(x: string, pat: string, rep: string)
    requires |pat| > 0
    requires forall k :: 0 <= k < |x| ==> !OccursAt(x + pat, k, pat)
    ensures ReplaceAll(x + pat, pat, rep) == x + rep
  {
    assert x + pat == x + pat + [];
    ReplaceAllFirst(x, pat, rep, []);
  }

  /** A pattern whose first character does not occur in `s` does not occur in `s`. */
  lemma HeadAbsent(s: string, pat: string)
    requires |pat| > 0 && pat[0] !in s
    ensures !Contains(s, pat)
  {
  }

  /**
   * Replacement leaves alone a prefix of the input in which the first
   * character of the pattern does not occur.
   */
  lemma {:induction false} ReplaceAllKeepsPrefix(t: string, pat: string, rep: string, k: nat)
    requires |pat| > 0 && k <= |t|
    requires forall j :: 0 <= j < k ==> t[j] != pat[0]
    ensures IsPrefix(t[..k], ReplaceAll(t, pat, rep))
    decreases k
  {
    if k > 0 && |t| >= |pat| {
      assert t[..|pat|] != pat by { assert t[0] != pat[0]; }
      ReplaceAllKeepsPrefix(t[1..], pat, rep, k - 1);
      assert t[..k] == [t[0]] + t[1..][..k - 1];
    }
  }

  /** The character classes \s and \w of java.util.regex (no UNICODE_CHARACTER_CLASS). */
  predicate IsJavaSpace(c: char)
  {
    c == ' ' || c == '\t' || c == '\n' || c == '\U{000B}' || c == '\U{000C}' || c == '\r'
  }

  predicate IsWordChar(c: char)
  {
    ('a' <= c <= 'z') || ('A' <= c <= 'Z') || ('0' <= c <= '9') || c == '_'
  }

  /** The length of the run of \s characters that `s` starts with. */
  function SpaceRun(s: string): (n: nat)
    ensures n <= |s|
    ensures forall k :: 0 <= k < n ==> IsJavaSpace(s[k])
    ensures n == |s| || !IsJavaSpace(s[n])
  {
    if s != [] && IsJavaSpace(s[0]) then 1 + SpaceRun(s[1..]) else 0
  }

  /** A run of \s characters that stops before a non-\s one is the whole run. */
  lemma SpaceRunIs(s: string, m: nat)
    requires m < |s| && !IsJavaSpace(s[m])
    requires forall k :: 0 <= k < m ==> IsJavaSpace(s[k])
    ensures SpaceRun(s) == m
  {
  }

  /** The length of the run of \w characters that `s` starts with. */
  function WordRun(s: string): (n: nat)
    ensures n <= |s|
    ensures forall k :: 0 <= k < n ==> IsWordChar(s[k])
    ensures n == |s| || !IsWordChar(s[n])
  {
    if s != [] && IsWordChar(s[0]) then 1 + WordRun(s[1..]) else 0
  }

  /** Two texts that agree up to and including the end of a word run have the same run. */
  lemma {:induction false} WordRunPrefix(t: string, u: string)
    requires WordRun(t) < |t| && IsPrefix(t[..WordRun(t) + 1], u)
    ensures WordRun(u) == WordRun(t)
    decreases |t|
  {
    if WordRun(t) > 0 {
      assert t[1..][..WordRun(t[1..]) + 1] == t[..WordRun(t) + 1][1..];
      WordRunPrefix(t[1..], u[1..]);
    } else {
      assert u[0] == t[0];
    }
  }

  /** A run of \s that stops inside `x` is not lengthened by text after `x`. */
  lemma {:induction false} SpaceRunAppend(x: string, y: string)
    requires SpaceRun(x) < |x|
    ensures SpaceRun(x + y) == SpaceRun(x)
    decreases |x|
  {
    if SpaceRun(x) > 0 {
      assert (x + y)[1..] == x[1..] + y;
      SpaceRunAppend(x[1..], y);
    } else {
      assert (x + y)[0] == x[0];
    }
  }

  /** The characters String.trim removes from both ends: every code unit up to U+0020. */
  predicate IsTrimmable(c: char)
  {
    c <= ' '
  }

  /** `t` neither starts nor ends with a character trim removes. */
  predicate TrimmedEnds(t: string)
  {
    t == [] || (!IsTrimmable(t[0]) && !IsTrimmable(t[|t| - 1]))
  }

  function Leading(s: string): (n: nat)
    ensures n <= |s|
    ensures forall k :: 0 <= k < n ==> IsTrimmable(s[k])
    ensures n == |s| || !IsTrimmable(s[n])
  {
    if s != [] && IsTrimmable(s[0]) then 1 + Leading(s[1..]) else 0
  }

  function Trailing(s: string): (n: nat)
    ensures n <= |s|
    ensures forall k :: |s| - n <= k < |s| ==> IsTrimmable(s[k])
    ensures n == |s| || !IsTrimmable(s[|s| - 1 - n])
  {
    if s != [] && IsTrimmable(s[|s| - 1]) then 1 + Trailing(s[..|s| - 1]) else 0
  }

  /** String.trim: every trimmable character at either end removed. */
  function Trim(s: string): (r: string)
    ensures |r| <= |s|
  {
    var i := Leading(s);
    if i == |s| then [] else s[i..|s| - Trailing(s)]
  }

  /**
   * The result of Trim is the part of `s` that remains once the trimmable
   * characters at either end are removed: it neither starts nor ends with
   * one, it occurs in `s` at the first non-trimmable character, and every
   * character of `s` outside it is trimmable.
   */
  lemma TrimSpec(s: string)
    ensures var r := Trim(s);
      (r == [] || (!IsTrimmable(r[0]) && !IsTrimmable(r[|r| - 1]))) &&
      (r == [] ==> forall k :: 0 <= k < |s| ==> IsTrimmable(s[k])) &&
      (r != [] ==> OccursAt(s, Leading(s), r)) &&
      (forall k :: 0 <= k < |s| && !(Leading(s) <= k < Leading(s) + |r|) ==> IsTrimmable(s[k]))
  {
    var i := Leading(s);
    if i < |s| {
      var j := |s| - Trailing(s);
      assert !IsTrimmable(s[i]);
      assert i < j;
      var r := s[i..j];
      assert Trim(s) == r;
      assert r[0] == s[i] && r[|r| - 1] == s[j - 1];
      assert s[i..i + |r|] == r;
    }
  }

  /** The output of Trim is made only of characters of its input. */
  lemma TrimChars(s: string, c: char)
    requires c !in s
    ensures c !in Trim(s)
  {
  }

  /** `parts` joined with `d` between consecutive parts. */
  function Join(parts: seq<string>, d: string): string
  {
    if parts == [] then []
    else if |parts| == 1 then parts[0]
    else Join(parts[..|parts| - 1], d) + d + parts[|parts| - 1]
  }

  /** `k` copies of `d`. */
  function Repeat(d: string, k: nat): string
  {
    if k == 0 then [] else Repeat(d, k - 1) + d
  }

  /** The pieces of `s` between non-overlapping occurrences of `d`, leftmost first. */
  function SplitAll(s: string, d: string): seq<string>
    requires |d| > 0
    decreases |s|
  {
    var i := IndexOf(s, d, 0);
    if i == -1 then [s] else [s[..i]] + SplitAll(s[i + |d|..], d)
  }

  function DropTrailingEmpty(parts: seq<string>): (r: seq<string>)
    ensures |r| <= |parts| && r == parts[..|r|]
    ensures r == [] || r[|r| - 1] != []
  {
    if parts != [] && parts[|parts| - 1] == [] then DropTrailingEmpty(parts[..|parts| - 1]) else parts
  }

  /**
   * String.split(d) with limit 0 and a delimiter free of regex
   * metacharacters: a text without the delimiter gives itself; otherwise the
   * pieces between delimiters, with trailing empty pieces removed.
   */
  function Split(s: string, d: string): seq<string>
    requires |d| > 0
  {
    if IndexOf(s, d, 0) == -1 then [s] else DropTrailingEmpty(SplitAll(s, d))
  }

  lemma {:induction false} SplitAllJoin(s: string, d: string)
    requires |d| > 0
    ensures Join(SplitAll(s, d), d) == s
    decreases |s|
  {
    var i := IndexOf(s, d, 0);
    if i == -1 {
      assert SplitAll(s, d) == [s];
    } else {
      var tail := s[i + |d|..];
      var rest := SplitAll(tail, d);
      assert SplitAll(s, d) == [s[..i]] + rest;
      SplitAllJoin(tail, d);
      JoinCons(s[..i], rest, d);
      AroundOccurrence(s, i, d);
    }
  }

  /** A text is what comes before an occurrence, the occurrence, and what follows it. */
  lemma AroundOccurrence(s: string, i: int, d: string)
    requires OccursAt(s, i, d)
    ensures s == s[..i] + d + s[i + |d|..]
  {
    assert s == s[..i] + s[i..i + |d|] + s[i + |d|..];
  }

  lemma {:induction false} JoinCons(p: string, rest: seq<string>, d: string)
    requires rest != []
    ensures Join([p] + rest, d) == p + d + Join(rest, d)
    decreases |rest|
  {
    if |rest| == 1 {
      assert [p] + rest == [p, rest[0]];
    } else {
      var last := rest[|rest| - 1];
      assert ([p] + rest)[..|rest|] == [p] + rest[..|rest| - 1];
      JoinCons(p, rest[..|rest| - 1], d);
    }
  }

  /** How many delimiters the trailing empty pieces of `parts` add to their join. */
  function TrailingDelimiters(parts: seq<string>): nat
  {
    if parts == [] || parts[|parts| - 1] != [] then 0
    else if |parts| == 1 then 0
    else TrailingDelimiters(parts[..|parts| - 1]) + 1
  }

  lemma {:induction false} DropTrailingJoin(parts: seq<string>, d: string)
    ensures Join(parts, d) == Join(DropTrailingEmpty(parts), d) + Repeat(d, TrailingDelimiters(parts))
    decreases |parts|
  {
    if parts == [] || parts[|parts| - 1] != [] {
      assert DropTrailingEmpty(parts) == parts;
      assert Join(parts, d) + [] == Join(parts, d);
    } else {
      var init := parts[..|parts| - 1];
      DropTrailingJoin(init, d);
      assert DropTrailingEmpty(parts) == DropTrailingEmpty(init);
      if |parts| == 1 {
        assert Join(parts, d) == [];
      } else {
        var base := Join(DropTrailingEmpty(init), d);
        var k := TrailingDelimiters(init);
        assert Join(parts, d) == Join(init, d) + d + [];
        assert Join(init, d) + d + [] == Join(init, d) + d;
        assert (base + Repeat(d, k)) + d == base + (Repeat(d, k) + d);
      }
    }
  }

  /**
   * Joining the pieces of a split with the delimiter gives back the text,
   * except for the delimiters that ended it, which Java drops.
   */
  lemma SplitJoin(s: string, d: string)
    requires |d| > 0
    ensures exists k: nat :: s == Join(Split(s, d), d) + Repeat(d, k)
  {
    if IndexOf(s, d, 0) == -1 {
      assert s == Join(Split(s, d), d) + Repeat(d, 0);
    } else {
      SplitAllJoin(s, d);
      DropTrailingJoin(SplitAll(s, d), d);
      assert s == Join(Split(s, d), d) + Repeat(d, TrailingDelimiters(SplitAll(s, d)));
    }
  }

  lemma {:induction false} SplitAllPieces(s: string, d: string)
    requires |d| > 0
    ensures forall p :: p in SplitAll(s, d) ==> !Contains(p, d)
    ensures forall p, c :: p in SplitAll(s, d) && c in p ==> c in s
    decreases |s|
  {
    var i := IndexOf(s, d, 0);
    if i == -1 {
      assert SplitAll(s, d) == [s];
      assert !Contains(s, d);
    } else {
      var tail := s[i + |d|..];
      SplitAllPieces(tail, d);
      assert SplitAll(s, d) == [s[..i]] + SplitAll(tail, d);
      assert !Contains(s[..i], d) by {
        if Contains(s[..i], d) {
          var j :| OccursAt(s[..i], j, d);
          assert s[..i][j..j + |d|] == s[j..j + |d|];
          assert OccursAt(s, j, d);
        }
      }
      forall p, c | p in SplitAll(s, d) && c in p
        ensures c in s
      {
        if p == s[..i] {
          var k :| 0 <= k < i && s[..i][k] == c;
          assert s[k] == c;
        } else {
          assert p in SplitAll(tail, d);
          var k :| 0 <= k < |tail| && tail[k] == c;
          assert s[k + i + |d|] == c;
        }
      }
    }
  }

  /**
   * No piece of a split contains the delimiter, and every character of a
   * piece is a character of the text.
   */
  lemma SplitPieces(s: string, d: string)
    requires |d| > 0
    ensures forall p :: p in Split(s, d) ==> !Contains(p, d)
    ensures forall p, c :: p in Split(s, d) && c in p ==> c in s
  {
    SplitAllPieces(s, d);
    if IndexOf(s, d, 0) == -1 {
      assert Split(s, d) == SplitAll(s, d);
    } else {
      var all := SplitAll(s, d);
      var r := Split(s, d);
      assert r == all[..|r|];
      forall p | p in r
        ensures p in all
      {
      }
    }
  }
}
