/**
 * The clean-up chain every paragraph block goes through before it is parsed
 * (XmlProcessor.processAndPersistXml): one function per rewrite rule, in the
 * order the chain applies them, the composed chain, and the test that skips
 * a block holding a comment that is opened and never closed.
 */
module Normalizer {
  import opened Text

  // ---------------------------------------------------------------------
  // Rule 1: (?s)<!--.*?-->  ->  ""
  // ---------------------------------------------------------------------

  /**
   * Every comment `<!-- ... -->`, with the shortest body that reaches a
   * `-->` and across line breaks, is cut out. An opener with no `-->` after
   * it matches nothing, and neither does any later opener, so the rest of
   * the text is kept as it is.
   */
  function RemoveComments(s: string): (r: string)
    ensures |r| <= |s|
    decreases |s|
  {
    if |s| < 4 then s
    else if s[..4] == "<!--" then
      var close := IndexOf(s, "-->", 4);
      if close == -1 then s else RemoveComments(s[close + 3..])
    else [s[0]] + RemoveComments(s[1..])
  }

  /** A text without a comment opener comes through unchanged. */
  lemma {:induction false} RemoveCommentsNone(s: string)
    requires !Contains(s, "<!--")
    ensures RemoveComments(s) == s
    decreases |s|
  {
    if |s| >= 4 {
      assert !OccursAt(s, 0, "<!--");
      forall i | OccursAt(s[1..], i, "<!--")
        ensures false
      {
        OccursAtTail(s, i, "<!--");
      }
      RemoveCommentsNone(s[1..]);
    }
  }

  /**
   * The first comment, `<!--` + `c` + `-->` with no `-->` ending inside `c`,
   * is cut out and the text before it is kept.
   */
  lemma RemoveCommentsCuts(a: string, c: string, b: string)
    requires forall k :: 0 <= k < |a| ==> !OccursAt(a + "<!--" + c + "-->" + b, k, "<!--")
    requires forall k :: 0 <= k < |c| ==> !OccursAt(c + "-->", k, "-->")
    ensures RemoveComments(a + "<!--" + c + "-->" + b) == a + RemoveComments(b)
  {
    var t := "<!--" + c + "-->" + b;
    assert a + "<!--" + c + "-->" + b == a + t;
    RemoveCommentsCopies(a, t);
    CommentAtStart(c, b);
  }

  /** Text before the first comment opener is copied as it is. */
  lemma {:induction false} RemoveCommentsCopies(a: string, t: string)
    requires forall k :: 0 <= k < |a| ==> !OccursAt(a + t, k, "<!--")
    ensures RemoveComments(a + t) == a + RemoveComments(t)
    decreases |a|
  {
    if a == [] {
      assert a + t == t;
    } else {
      var s := a + t;
      AppendHead(a, t);
      AppendHead(a, RemoveComments(t));
      forall k | 0 <= k < |a| - 1
        ensures !OccursAt(a[1..] + t, k, "<!--")
      {
        OccursAtTail(s, k, "<!--");
      }
      RemoveCommentsCopies(a[1..], t);
      if |s| >= 4 {
        assert !OccursAt(s, 0, "<!--");
        assert RemoveComments(s) == [s[0]] + RemoveComments(s[1..]);
      } else {
        assert RemoveComments(t) == t;
      }
    }
  }

  /** A comment at the very start is cut out in one step. */
  lemma CommentAtStart(c: string, b: string)
    requires forall k :: 0 <= k < |c| ==> !OccursAt(c + "-->", k, "-->")
    ensures RemoveComments("<!--" + c + "-->" + b) == RemoveComments(b)
  {
    var s := "<!--" + c + "-->" + b;
    var t := c + "-->" + b;
    assert s == "<!--" + t;
    assert s[..4] == "<!--";
    assert s[4..] == t;
    forall k | 4 <= k
      ensures OccursAt(s, k, "-->") <==> OccursAt(t, k - 4, "-->")
    {
      OccursAtDrop(s, 4, k - 4, "-->");
    }
    forall k | 0 <= k < |c|
      ensures !OccursAt(t, k, "-->")
    {
      assert !OccursAt(c + "-->", k, "-->");
      assert t[k..k + 3] == (c + "-->")[k..k + 3];
    }
    assert OccursAt(t, |c|, "-->") by {
      assert t[|c|..|c| + 3] == "-->";
    }
    IndexOfIs(s, "-->", 4, 4 + |c|);
    assert s[4 + |c| + 3..] == b;
  }

  // ---------------------------------------------------------------------
  // Rules 2 to 4: fixed markers
  // ---------------------------------------------------------------------

  /** `<?/` is deleted. */
  function RemoveQueryMarks(s: string): string
  {
    ReplaceAll(s, "<?/", "")
  }

  /** `<ldquo/` and `<rdquo/` become `"`, then `<lsquo/` and `<rsquo/` become `'`. */
  function QuoteMarks(s: string): string
  {
    var s1 := ReplaceAll(s, "<ldquo/", "\"");
    var s2 := ReplaceAll(s1, "<rdquo/", "\"");
    var s3 := ReplaceAll(s2, "<lsquo/", "'");
    ReplaceAll(s3, "<rsquo/", "'")
  }

  /** `<lt/` becomes `&lt` and `<gt/` becomes `&gt`, with no semicolon. */
  function AngleEntities(s: string): string
  {
    ReplaceAll(ReplaceAll(s, "<lt/", "&lt"), "<gt/", "&gt")
  }

  /** No quote marker survives the quote rules. */
  lemma QuoteMarksEliminated(s: string)
    ensures var r := QuoteMarks(s);
      !Contains(r, "<ldquo/") && !Contains(r, "<rdquo/") &&
      !Contains(r, "<lsquo/") && !Contains(r, "<rsquo/")
  {
    var s1 := ReplaceAll(s, "<ldquo/", "\"");
    var s2 := ReplaceAll(s1, "<rdquo/", "\"");
    var s3 := ReplaceAll(s2, "<lsquo/", "'");
    var r := ReplaceAll(s3, "<rsquo/", "'");
    ReplaceAllEliminates(s, "<ldquo/", "\"");
    ReplaceAllEliminates(s1, "<rdquo/", "\"");
    ReplaceAllEliminates(s2, "<lsquo/", "'");
    ReplaceAllEliminates(s3, "<rsquo/", "'");
    if Contains(s2, "<ldquo/") {
      ReplaceAllCreatesNone(s1, "<rdquo/", "\"", "<ldquo/");
    }
    if Contains(s3, "<ldquo/") {
      ReplaceAllCreatesNone(s2, "<lsquo/", "'", "<ldquo/");
    }
    if Contains(r, "<ldquo/") {
      ReplaceAllCreatesNone(s3, "<rsquo/", "'", "<ldquo/");
    }
    if Contains(s3, "<rdquo/") {
      ReplaceAllCreatesNone(s2, "<lsquo/", "'", "<rdquo/");
    }
    if Contains(r, "<rdquo/") {
      ReplaceAllCreatesNone(s3, "<rsquo/", "'", "<rdquo/");
    }
    if Contains(r, "<lsquo/") {
      ReplaceAllCreatesNone(s3, "<rsquo/", "'", "<lsquo/");
    }
  }

  /** Neither `<lt/` nor `<gt/` survives, and no `<` is introduced. */
  lemma AngleEntitiesEliminated(s: string)
    ensures !Contains(AngleEntities(s), "<lt/") && !Contains(AngleEntities(s), "<gt/")
  {
    var s1 := ReplaceAll(s, "<lt/", "&lt");
    var r := ReplaceAll(s1, "<gt/", "&gt");
    ReplaceAllEliminates(s, "<lt/", "&lt");
    ReplaceAllEliminates(s1, "<gt/", "&gt");
    if Contains(r, "<lt/") {
      ReplaceAllCreatesNone(s1, "<gt/", "&gt", "<lt/");
    }
  }

  // ---------------------------------------------------------------------
  // Rule 5: <(\w+)/  ->  {$1/}
  // ---------------------------------------------------------------------

  /** `t` starts with a (possibly empty) run of \w followed by `/`. */
  predicate LeadsToSlash(t: string)
  {
    WordRun(t) < |t| && t[WordRun(t)] == '/'
  }

  /** A self-closing marker `<word/` starts at index `i` of `s`. */
  predicate SelfClosingAt(s: string, i: int)
  {
    0 <= i < |s| && s[i] == '<' && WordRun(s[i + 1..]) >= 1 && LeadsToSlash(s[i + 1..])
  }

  /** Each `<word/` becomes `{word/}`; scanning resumes after the `/`. */
  function GeneralizeSelfClosing(s: string): (r: string)
    decreases |s|
  {
    if s == [] then []
    else if SelfClosingAt(s, 0) then
      var n := WordRun(s[1..]);
      "{" + s[1..1 + n] + "/}" + GeneralizeSelfClosing(s[n + 2..])
    else [s[0]] + GeneralizeSelfClosing(s[1..])
  }

  /** The output of the rewrite starts with \w only where its input did. */
  lemma GeneralizeStartsPlain(t: string)
    requires WordRun(t) == 0
    ensures WordRun(GeneralizeSelfClosing(t)) == 0
  {
  }

  /** A text that does not lead to a `/` through \w still does not after the rewrite. */
  lemma {:induction false} GeneralizeKeepsNoSlash(t: string)
    requires !LeadsToSlash(t)
    ensures !LeadsToSlash(GeneralizeSelfClosing(t))
    decreases |t|
  {
    var r := GeneralizeSelfClosing(t);
    if t == [] || SelfClosingAt(t, 0) {
    } else if IsWordChar(t[0]) {
      var u := GeneralizeSelfClosing(t[1..]);
      if WordRun(t) < |t| {
        assert t[1..][WordRun(t[1..])] == t[WordRun(t)];
      }
      GeneralizeKeepsNoSlash(t[1..]);
      assert r == [t[0]] + u;
      assert r[1..] == u;
      assert WordRun(r) == 1 + WordRun(u);
      if WordRun(u) < |u| {
        assert r[WordRun(r)] == u[WordRun(u)];
      }
    } else {
      assert r[0] == t[0];
    }
  }

  lemma SelfClosingShift(x: string, y: string, j: int)
    requires 0 <= j
    ensures SelfClosingAt(x + y, |x| + j) <==> SelfClosingAt(y, j)
  {
    if j < |y| {
      assert (x + y)[|x| + j + 1..] == y[j + 1..];
    }
  }

  /** A rewritten marker `{word/}` holds no `<`, so it starts no marker. */
  lemma MarkerHeadClean(w: string, tail: string)
    requires forall k :: 0 <= k < |w| ==> IsWordChar(w[k])
    requires forall i :: !SelfClosingAt(tail, i)
    ensures forall i :: !SelfClosingAt("{" + w + "/}" + tail, i)
  {
    var head := "{" + w + "/}";
    var r := head + tail;
    forall i
      ensures !SelfClosingAt(r, i)
    {
      if 0 <= i < |head| {
        assert r[i] == head[i];
        assert head[i] != '<';
      } else if i >= |head| {
        SelfClosingShift(head, tail, i - |head|);
      }
    }
  }

  /** No `<word/` marker is left in the output. */
  lemma {:induction false} GeneralizeEliminates(s: string)
    ensures forall i :: !SelfClosingAt(GeneralizeSelfClosing(s), i)
    decreases |s|
  {
    var r := GeneralizeSelfClosing(s);
    if s == [] {
    } else if SelfClosingAt(s, 0) {
      var n := WordRun(s[1..]);
      var head := "{" + s[1..1 + n] + "/}";
      var tail := GeneralizeSelfClosing(s[n + 2..]);
      assert r == head + tail;
      GeneralizeEliminates(s[n + 2..]);
      MarkerHeadClean(s[1..1 + n], tail);
    } else {
      var tail := GeneralizeSelfClosing(s[1..]);
      assert r == [s[0]] + tail;
      GeneralizeEliminates(s[1..]);
      forall i
        ensures !SelfClosingAt(r, i)
      {
        if i == 0 && s[0] == '<' {
          assert r[1..] == tail;
          if WordRun(s[1..]) == 0 {
            GeneralizeStartsPlain(s[1..]);
          } else {
            GeneralizeKeepsNoSlash(s[1..]);
          }
        } else if i > 0 {
          SelfClosingShift([s[0]], tail, i - 1);
        }
      }
    }
  }

  // ---------------------------------------------------------------------
  // Rule 6: (?i)\{br\s*/?}  ->  ""
  // ---------------------------------------------------------------------

  /**
   * The length of the line-break marker `{br}` at the start of `s` (the
   * letters in either case, any \s after them, an optional `/`, then `}`),
   * or 0 when there is none.
   */
  function BreakMarkerLength(s: string): (n: nat)
    ensures n == 0 || (4 <= n <= |s| && s[0] == '{' && s[n - 1] == '}')
  {
    if |s| >= 3 && s[0] == '{' && (s[1] == 'b' || s[1] == 'B') && (s[2] == 'r' || s[2] == 'R') then
      var k := 3 + SpaceRun(s[3..]);
      var m := if k < |s| && s[k] == '/' then k + 1 else k;
      if m < |s| && s[m] == '}' then m + 1 else 0
    else 0
  }

  /** Every line-break marker is deleted. */
  function StripBreaks(s: string): (r: string)
    ensures |r| <= |s|
    decreases |s|
  {
    if s == [] then []
    else
      var n := BreakMarkerLength(s);
      if n > 0 then StripBreaks(s[n..]) else [s[0]] + StripBreaks(s[1..])
  }

  /**
   * `s` starts with a line-break marker of `n` characters whose \s run ends
   * at `j`: `{`, `b` or `B`, `r` or `R`, \s characters up to `j`, then `}` or
   * `/}`.
   */
  predicate BreakMarkerSpelled(s: string, j: nat, n: nat)
  {
    3 <= j < n <= |s| && s[0] == '{' && (s[1] == 'b' || s[1] == 'B') && (s[2] == 'r' || s[2] == 'R') &&
    (forall k :: 3 <= k < j ==> IsJavaSpace(s[k])) &&
    ((n == j + 1 && s[j] == '}') || (n == j + 2 && s[j] == '/' && s[j + 1] == '}'))
  }

  /** A marker found at the start of a text is spelled as the rule asks. */
  lemma BreakMarkerFound(s: string)
    requires BreakMarkerLength(s) > 0
    ensures BreakMarkerSpelled(s, 3 + SpaceRun(s[3..]), BreakMarkerLength(s))
  {
    var j := 3 + SpaceRun(s[3..]);
    forall k | 3 <= k < j
      ensures IsJavaSpace(s[k])
    {
      assert s[k] == s[3..][k - 3];
    }
    if j < |s| {
      assert s[j] == s[3..][j - 3];
    }
  }

  /** Every spelling the rule asks for is recognised, with its whole length. */
  lemma BreakMarkerRecognised(s: string, j: nat, n: nat)
    requires BreakMarkerSpelled(s, j, n)
    ensures BreakMarkerLength(s) == n
  {
    var t := s[3..];
    forall k | 0 <= k < j - 3
      ensures IsJavaSpace(t[k])
    {
      assert t[k] == s[k + 3];
    }
    assert t[j - 3] == s[j];
    assert !IsJavaSpace(s[j]);
    SpaceRunIs(t, j - 3);
  }

  /** A whole marker at the start of a text is recognised whatever follows it. */
  lemma BreakMarkerAppend(m: string, b: string)
    requires BreakMarkerLength(m) == |m| > 0
    ensures BreakMarkerLength(m + b) == |m|
  {
    assert (m + b)[3..] == m[3..] + b;
    assert SpaceRun(m[3..]) < |m[3..]| by {
      assert m[3..][|m| - 4] == '}';
    }
    SpaceRunAppend(m[3..], b);
  }

  /** A marker is cut out and the text before it, which holds no `{`, is kept. */
  lemma {:induction false} StripBreaksCuts(a: string, m: string, b: string)
    requires '{' !in a
    requires BreakMarkerLength(m) == |m| > 0
    ensures StripBreaks(a + m + b) == a + StripBreaks(b)
    decreases |a|
  {
    AppendAssoc3(a, m, b);
    var s := a + (m + b);
    if a == [] {
      assert s == m + b;
      BreakMarkerAppend(m, b);
      assert s[|m|..] == b;
    } else {
      AppendHead(a, m + b);
      AppendHead(a, StripBreaks(b));
      AppendAssoc3(a[1..], m, b);
      assert BreakMarkerLength(s) == 0;
      StripBreaksCuts(a[1..], m, b);
      assert StripBreaks(s) == [s[0]] + StripBreaks(s[1..]);
    }
  }

  // ---------------------------------------------------------------------
  // Rule 7: &(?!\w+;)  ->  &amp;
  // ---------------------------------------------------------------------

  /** `t` starts with one or more \w followed by `;`, as in `amp;` or `lt;`. */
  predicate EntityAhead(t: string)
  {
    WordRun(t) >= 1 && WordRun(t) < |t| && t[WordRun(t)] == ';'
  }

  /** Every `&` that does not start an entity reference becomes `&amp;`. */
  function EscapeAmp(s: string): (r: string)
    ensures |r| >= |s|
    decreases |s|
  {
    if s == [] then []
    else if s[0] == '&' && !EntityAhead(s[1..]) then "&amp;" + EscapeAmp(s[1..])
    else [s[0]] + EscapeAmp(s[1..])
  }

  /** Every `&` in `t` starts an entity reference. */
  predicate AmpsEscaped(t: string)
  {
    forall i :: 0 <= i < |t| && t[i] == '&' ==> EntityAhead(t[i + 1..])
  }

  lemma AmpsEscapedCons(c: char, u: string)
    ensures AmpsEscaped([c] + u) <==> (c == '&' ==> EntityAhead(u)) && AmpsEscaped(u)
  {
    var t := [c] + u;
    assert t[1..] == u;
    assert t[0] == c;
    if AmpsEscaped(t) {
      if c == '&' {
        assert EntityAhead(t[0 + 1..]);
      }
      forall i | 0 <= i < |u| && u[i] == '&'
        ensures EntityAhead(u[i + 1..])
      {
        assert t[i + 1] == u[i];
        assert t[i + 2..] == u[i + 1..];
      }
    }
    if (c == '&' ==> EntityAhead(u)) && AmpsEscaped(u) {
      forall i | 0 <= i < |t| && t[i] == '&'
        ensures EntityAhead(t[i + 1..])
      {
        if i > 0 {
          assert t[i + 1..] == u[i..];
        }
      }
    }
  }

  lemma AmpsEscapedDrop(t: string, n: nat)
    requires n <= |t| && AmpsEscaped(t)
    ensures AmpsEscaped(t[n..])
  {
    forall i | 0 <= i < |t| - n && t[n..][i] == '&'
      ensures EntityAhead(t[n..][i + 1..])
    {
      assert t[n..][i + 1..] == t[n + i + 1..];
    }
  }

  lemma AmpsEscapedAppend(x: string, u: string)
    requires AmpsEscaped(x) && AmpsEscaped(u)
    requires forall i :: 0 <= i < |x| ==> x[i] != '&'
    ensures AmpsEscaped(x + u)
  {
    var t := x + u;
    forall i | |x| <= i < |t| && t[i] == '&'
      ensures EntityAhead(t[i + 1..])
    {
      assert t[i + 1..] == u[i - |x| + 1..];
    }
  }

  /** An entity reference ahead survives any change after its `;`. */
  lemma EntityAheadPrefix(t: string, u: string)
    requires EntityAhead(t) && IsPrefix(t[..WordRun(t) + 1], u)
    ensures EntityAhead(u)
  {
    WordRunPrefix(t, u);
  }

  /** The escape leaves alone a prefix that holds no `&`. */
  lemma {:induction false} EscapeAmpKeepsPrefix(t: string, k: nat)
    requires k <= |t|
    requires forall j :: 0 <= j < k ==> t[j] != '&'
    ensures IsPrefix(t[..k], EscapeAmp(t))
    decreases k
  {
    if k > 0 {
      EscapeAmpKeepsPrefix(t[1..], k - 1);
      assert t[..k] == [t[0]] + t[1..][..k - 1];
    }
  }

  /** The `&amp;` written for a bare `&` leaves the text escaped. */
  lemma EscapedAmpHead(tail: string)
    requires AmpsEscaped(tail)
    ensures AmpsEscaped("&amp;" + tail)
  {
    var amp := "&amp;";
    assert EntityAhead(amp[1..] + tail) by {
      assert (amp[1..] + tail)[..4] == "amp;";
      WordRunPrefix("amp;", amp[1..] + tail);
    }
    assert AmpsEscaped(amp[1..]) by {
      assert forall i :: 0 <= i < 4 ==> amp[1..][i] != '&';
    }
    AmpsEscapedAppend(amp[1..], tail);
    assert amp + tail == [amp[0]] + (amp[1..] + tail);
    AmpsEscapedCons(amp[0], amp[1..] + tail);
  }

  /** After the escape every `&` starts an entity reference. */
  lemma {:induction false} EscapeAmpEscapes(s: string)
    ensures AmpsEscaped(EscapeAmp(s))
    decreases |s|
  {
    if s != [] {
      var tail := EscapeAmp(s[1..]);
      EscapeAmpEscapes(s[1..]);
      if s[0] == '&' && !EntityAhead(s[1..]) {
        EscapedAmpHead(tail);
      } else {
        if s[0] == '&' {
          var n := WordRun(s[1..]);
          EscapeAmpKeepsPrefix(s[1..], n + 1);
          assert s[1..][..n + 1] == s[1..][..WordRun(s[1..]) + 1];
          EntityAheadPrefix(s[1..], tail);
        }
        AmpsEscapedCons(s[0], tail);
      }
    }
  }

  /** A text whose every `&` already starts an entity reference is left as it is. */
  lemma {:induction false} EscapeAmpFixes(t: string)
    requires AmpsEscaped(t)
    ensures EscapeAmp(t) == t
    decreases |t|
  {
    if t != [] {
      AmpsEscapedCons(t[0], t[1..]);
      assert [t[0]] + t[1..] == t;
      EscapeAmpFixes(t[1..]);
    }
  }

  /** Escaping twice is escaping once. */
  lemma EscapeAmpIdempotent(s: string)
    ensures EscapeAmp(EscapeAmp(s)) == EscapeAmp(s)
  {
    EscapeAmpEscapes(s);
    EscapeAmpFixes(EscapeAmp(s));
  }

  /**
   * The `&lt` produced by the entity rule, when no `;` follows it, is
   * escaped once more into `&amp;lt`.
   */
  lemma EscapeBareLt(b: string)
    requires b == [] || (!IsWordChar(b[0]) && b[0] != ';')
    ensures EscapeAmp("&lt" + b) == "&amp;lt" + EscapeAmp(b)
  {
    BareLt(b);
    EscapeAmpBare("lt" + b);
    LtSpelling(b, EscapeAmp(b));
  }

  lemma LtSpelling(b: string, e: string)
    ensures ['&'] + ("lt" + b) == "&lt" + b
    ensures "&amp;" + ("lt" + e) == "&amp;lt" + e
  {
  }

  /** An `&` that starts no entity reference is escaped. */
  lemma EscapeAmpBare(u: string)
    requires !EntityAhead(u)
    ensures EscapeAmp(['&'] + u) == "&amp;" + EscapeAmp(u)
  {
    assert (['&'] + u)[1..] == u;
  }

  /** `lt` followed by neither a word character nor `;` is no entity name, and is copied. */
  lemma BareLt(b: string)
    requires b == [] || (!IsWordChar(b[0]) && b[0] != ';')
    ensures !EntityAhead("lt" + b)
    ensures EscapeAmp("lt" + b) == "lt" + EscapeAmp(b)
  {
    var tb := ['t'] + b;
    var ltb := ['l'] + tb;
    assert ltb == "lt" + b;
    assert WordRun(b) == 0;
    assert WordRun(tb) == 1 by { assert tb[1..] == b; }
    assert WordRun(ltb) == 2 by { assert ltb[1..] == tb; }
    assert !EntityAhead(ltb) by {
      if |ltb| > 2 {
        assert ltb[2] == b[0];
      }
    }
    EscapeAmpCons('t', b);
    EscapeAmpCons('l', tb);
    assert ['l'] + (['t'] + EscapeAmp(b)) == "lt" + EscapeAmp(b);
  }

  /** A character other than `&` is copied. */
  lemma EscapeAmpCons(c: char, u: string)
    requires c != '&'
    ensures EscapeAmp([c] + u) == [c] + EscapeAmp(u)
  {
    assert ([c] + u)[1..] == u;
  }

  // ---------------------------------------------------------------------
  // Rule 8: <cs>, </cs>, <note>, </note>  ->  ""
  // ---------------------------------------------------------------------

  /** The tags `<cs>`, `</cs>`, `<note>` and `</note>` are deleted, in that order. */
  function StripFormatting(s: string): string
  {
    var s1 := ReplaceAll(s, "<cs>", "");
    var s2 := ReplaceAll(s1, "</cs>", "");
    var s3 := ReplaceAll(s2, "<note>", "");
    ReplaceAll(s3, "</note>", "")
  }

  /** Text without any `<` is left as it is. */
  lemma StripFormattingPlain(s: string)
    requires '<' !in s
    ensures StripFormatting(s) == s
  {
    HeadAbsent(s, "<cs>");
    ReplaceAllAbsent(s, "<cs>", "");
    HeadAbsent(s, "</cs>");
    ReplaceAllAbsent(s, "</cs>", "");
    HeadAbsent(s, "<note>");
    ReplaceAllAbsent(s, "<note>", "");
    HeadAbsent(s, "</note>");
    ReplaceAllAbsent(s, "</note>", "");
  }

  /** In `x + close`, a tag other than `close` does not occur when `x` holds no `<`. */
  lemma TagAbsentAfter(x: string, close: string, pat: string)
    requires |close| > 2 && |pat| > 2 && close[0] == '<'
    requires '<' !in x && '<' !in close[1..] && pat[0] == '<' && pat[..3] != close[..3]
    ensures !Contains(x + close, pat)
  {
    var t := x + close;
    forall i | 0 <= i && i + |pat| <= |t|
      ensures !OccursAt(t, i, pat)
    {
      if i < |x| {
        assert t[i] == x[i];
        assert t[i..i + |pat|][0] == t[i];
      } else if i == |x| {
        assert t[i..i + 3] == close[..3];
        assert t[i..i + |pat|][..3] == t[i..i + 3];
      } else {
        assert t[i] == close[1..][i - |x| - 1];
        assert t[i..i + |pat|][0] == t[i];
      }
    }
  }

  /** In `open + x + close`, a third tag does not occur when `x` holds no `<`. */
  lemma TagAbsent(open: string, x: string, close: string, pat: string)
    requires |open| > 2 && |close| > 2 && |pat| > 2 && open[0] == '<' && close[0] == '<'
    requires '<' !in open[1..] && '<' !in x && '<' !in close[1..]
    requires pat[0] == '<' && pat[..3] != open[..3] && pat[..3] != close[..3]
    ensures !Contains(open + x + close, pat)
  {
    var t := open + x + close;
    var u := x + close;
    assert t == open + u;
    TagAbsentAfter(x, close, pat);
    forall i | 0 <= i && i + |pat| <= |t|
      ensures !OccursAt(t, i, pat)
    {
      if i == 0 {
        assert t[..3] == open[..3];
        assert t[..|pat|][..3] == t[..3];
      } else if i < |open| {
        assert t[i] == open[1..][i - 1];
        assert t[i..i + |pat|][0] == t[i];
      } else {
        assert t[|open|..] == u;
        OccursAtDrop(t, |open|, i - |open|, pat);
      }
    }
  }

  /** Deleting an opening and a closing tag keeps the text between them. */
  lemma RemovePairKeepsInner(open: string, x: string, close: string)
    requires |open| > 2 && |close| > 2 && open[0] == '<' && close[0] == '<'
    requires '<' !in open[1..] && '<' !in x && '<' !in close[1..]
    requires open[..3] != close[..3]
    ensures ReplaceAll(ReplaceAll(open + x + close, open, ""), close, "") == x
  {
    var u := x + close;
    assert open + x + close == open + u;
    ReplaceAllLeading(open, "", u);
    TagAbsentAfter(x, close, open);
    ReplaceAllAbsent(u, open, "");
    assert ReplaceAll(open + x + close, open, "") == u;
    PlainBeforeTag(x, close);
    ReplaceAllTrailing(x, close, "");
  }

  /** A tag does not start inside a text without `<`. */
  lemma PlainBeforeTag(x: string, close: string)
    requires |close| > 0 && close[0] == '<' && '<' !in x
    ensures forall k :: 0 <= k < |x| ==> !OccursAt(x + close, k, close)
  {
    forall k | 0 <= k < |x|
      ensures !OccursAt(x + close, k, close)
    {
      assert (x + close)[k] == x[k];
      assert (x + close)[k..k + |close|][0] == (x + close)[k];
    }
  }

  /** `<cs>x</cs>` and `<note>x</note>` come out as `x` when `x` holds no tag. */
  lemma StripFormattingKeepsInner(x: string)
    requires '<' !in x
    ensures StripFormatting("<cs>" + x + "</cs>") == x
    ensures StripFormatting("<note>" + x + "</note>") == x
  {
    assert "<cs>"[1..] == "cs>" && "</cs>"[1..] == "/cs>";
    assert "<note>"[1..] == "note>" && "</note>"[1..] == "/note>";
    assert "<cs>"[..3] == "<cs" && "</cs>"[..3] == "</c";
    assert "<note>"[..3] == "<no" && "</note>"[..3] == "</n";
    RemovePairKeepsInner("<cs>", x, "</cs>");
    HeadAbsent(x, "<note>");
    ReplaceAllAbsent(x, "<note>", "");
    HeadAbsent(x, "</note>");
    ReplaceAllAbsent(x, "</note>", "");
    var t := "<note>" + x + "</note>";
    TagAbsent("<note>", x, "</note>", "<cs>");
    ReplaceAllAbsent(t, "<cs>", "");
    TagAbsent("<note>", x, "</note>", "</cs>");
    ReplaceAllAbsent(t, "</cs>", "");
    RemovePairKeepsInner("<note>", x, "</note>");
  }

  /** An entity reference ahead is not touched by deleting a tag. */
  lemma EntityKeptByRemoval(u: string, pat: string)
    requires |pat| > 0 && pat[0] == '<' && EntityAhead(u)
    ensures EntityAhead(ReplaceAll(u, pat, ""))
  {
    var n := WordRun(u);
    ReplaceAllKeepsPrefix(u, pat, "", n + 1);
    EntityAheadPrefix(u, ReplaceAll(u, pat, ""));
  }

  /** Deleting a tag keeps every `&` an entity reference. */
  lemma {:induction false} RemoveTagKeepsEscapes(t: string, pat: string)
    requires |pat| > 0 && pat[0] == '<' && AmpsEscaped(t)
    ensures AmpsEscaped(ReplaceAll(t, pat, ""))
    decreases |t|
  {
    if |t| < |pat| {
    } else if t[..|pat|] == pat {
      AmpsEscapedDrop(t, |pat|);
      RemoveTagKeepsEscapes(t[|pat|..], pat);
      assert ReplaceAll(t, pat, "") == "" + ReplaceAll(t[|pat|..], pat, "");
      assert "" + ReplaceAll(t[|pat|..], pat, "") == ReplaceAll(t[|pat|..], pat, "");
    } else {
      AmpsEscapedCons(t[0], t[1..]);
      assert [t[0]] + t[1..] == t;
      RemoveTagKeepsEscapes(t[1..], pat);
      if t[0] == '&' {
        EntityKeptByRemoval(t[1..], pat);
      }
      AmpsEscapedCons(t[0], ReplaceAll(t[1..], pat, ""));
    }
  }

  // ---------------------------------------------------------------------
  // The chain
  // ---------------------------------------------------------------------

  /** The number of rules in the clean-up chain. */
  const StageCount := 15

  /** Rule `k` of the clean-up chain, applied to `s`; the rules run in the order of `k`. */
  function Stage(k: nat, s: string): string
  {
    match k
    case 0 => RemoveComments(s)                   // (?s)<!--.*?-->  deleted
    case 1 => ReplaceAll(s, "<?/", "")
    case 2 => ReplaceAll(s, "<ldquo/", "\"")
    case 3 => ReplaceAll(s, "<rdquo/", "\"")
    case 4 => ReplaceAll(s, "<lsquo/", "'")
    case 5 => ReplaceAll(s, "<rsquo/", "'")
    case 6 => ReplaceAll(s, "<lt/", "&lt")
    case 7 => ReplaceAll(s, "<gt/", "&gt")
    case 8 => GeneralizeSelfClosing(s)            // <(\w+)/  becomes  {$1/}
    case 9 => StripBreaks(s)                      // (?i)\{br\s*/?}  deleted
    case 10 => EscapeAmp(s)                       // &(?!\w+;)  becomes  &amp;
    case 11 => ReplaceAll(s, "<cs>", "")
    case 12 => ReplaceAll(s, "</cs>", "")
    case 13 => ReplaceAll(s, "<note>", "")
    case _ => ReplaceAll(s, "</note>", "")
  }

  /** The first `n` rules, each applied to the output of the one before. */
  function Stages(n: nat, s: string): string
    requires n <= StageCount
  {
    if n == 0 then s else Stage(n - 1, Stages(n - 1, s))
  }

  /** The whole clean-up chain. */
  function Normalize(block: string): string
  {
    Stages(StageCount, block)
  }

  /** The first eight rules: comments, query marks, quote marks and angle entities. */
  lemma {:induction false} ChainFront(block: string)
    ensures Stages(8, block) == AngleEntities(QuoteMarks(RemoveQueryMarks(RemoveComments(block))))
  {
    var s1 := RemoveComments(block);
    assert Stages(1, block) == s1;
    var s2 := ReplaceAll(s1, "<?/", "");
    assert Stages(2, block) == s2;
    var s3 := ReplaceAll(s2, "<ldquo/", "\"");
    assert Stages(3, block) == s3;
    var s4 := ReplaceAll(s3, "<rdquo/", "\"");
    assert Stages(4, block) == s4;
    var s5 := ReplaceAll(s4, "<lsquo/", "'");
    assert Stages(5, block) == s5;
    var s6 := ReplaceAll(s5, "<rsquo/", "'");
    assert Stages(6, block) == s6;
    var s7 := ReplaceAll(s6, "<lt/", "&lt");
    assert Stages(7, block) == s7;
  }

  /** Rules eight to ten: tag generalisation, breaks and ampersands. */
  lemma {:induction false} ChainMiddle(block: string)
    ensures Stages(11, block) == EscapeAmp(StripBreaks(GeneralizeSelfClosing(Stages(8, block))))
  {
    assert Stages(9, block) == GeneralizeSelfClosing(Stages(8, block));
    assert Stages(10, block) == StripBreaks(Stages(9, block));
  }

  /** The last four rules: the formatting tags. */
  lemma {:induction false} ChainBack(block: string)
    ensures Normalize(block) == StripFormatting(Stages(11, block))
  {
    var s12 := ReplaceAll(Stages(11, block), "<cs>", "");
    assert Stages(12, block) == s12;
    var s13 := ReplaceAll(s12, "</cs>", "");
    assert Stages(13, block) == s13;
    var s14 := ReplaceAll(s13, "<note>", "");
    assert Stages(14, block) == s14;
  }

  /** The chain, grouped into the stages the lemmas below reason about. */
  lemma NormalizeStages(block: string)
    ensures Normalize(block) ==
      StripFormatting(EscapeAmp(StripBreaks(GeneralizeSelfClosing(AngleEntities(QuoteMarks(
        RemoveQueryMarks(RemoveComments(block))))))))
  {
    ChainFront(block);
    ChainMiddle(block);
    ChainBack(block);
  }

  /** In a normalized block every `&` starts an entity reference. */
  lemma NormalizeEscapesAmps(block: string)
    ensures AmpsEscaped(Normalize(block))
  {
    NormalizeStages(block);
    var e := EscapeAmp(StripBreaks(GeneralizeSelfClosing(AngleEntities(QuoteMarks(RemoveQueryMarks(RemoveComments(block)))))));
    EscapeAmpEscapes(StripBreaks(GeneralizeSelfClosing(AngleEntities(QuoteMarks(RemoveQueryMarks(RemoveComments(block)))))));
    var s1 := ReplaceAll(e, "<cs>", "");
    var s2 := ReplaceAll(s1, "</cs>", "");
    var s3 := ReplaceAll(s2, "<note>", "");
    RemoveTagKeepsEscapes(e, "<cs>");
    RemoveTagKeepsEscapes(s1, "</cs>");
    RemoveTagKeepsEscapes(s2, "<note>");
    RemoveTagKeepsEscapes(s3, "</note>");
  }

  /**
   * The chain is not idempotent: deleting `<?/` once can bring a new `<?/`
   * together, which a second pass deletes.
   */
  lemma NormalizeNotIdempotent()
    ensures Normalize("<<?/?/") == "<?/"
    ensures Normalize("<?/") == ""
  {
    NormalizeNested();
    NormalizeQueryMark();
  }

  lemma NormalizeNested()
    ensures Normalize("<<?/?/") == "<?/"
  {
    var s := "<<?/?/";
    assert RemoveComments(s) == s by {
      forall i | 0 <= i && i + 4 <= |s|
        ensures !OccursAt(s, i, "<!--")
      {
        assert s[i + 1] != '!';
        assert s[i..i + 4][1] == s[i + 1];
      }
      RemoveCommentsNone(s);
    }
    assert RemoveQueryMarks(s) == "<?/" by {
      assert s[..3][1] == '<' != "<?/"[1];
      assert s[1..] == "<?/?/";
      assert "<?/?/"[..3] == "<?/";
      assert "<?/?/"[3..] == "?/";
    }
    PlainTail();
    NormalizeFrom(s, "<?/");
  }

  /** Once the first stages have turned a block into the query mark alone, nothing changes it. */
  lemma NormalizeFrom(s: string, t: string)
    requires RemoveQueryMarks(RemoveComments(s)) == t == "<?/"
    requires StripFormatting(EscapeAmp(StripBreaks(GeneralizeSelfClosing(AngleEntities(QuoteMarks(t)))))) == t
    ensures Normalize(s) == t
  {
    NormalizeStages(s);
  }

  lemma NormalizeQueryMark()
    ensures Normalize("<?/") == ""
  {
    NormalizeStages("<?/");
    PlainTail();
    assert RemoveComments("<?/") == "<?/";
    assert RemoveQueryMarks("<?/") == "" by {
      assert "<?/"[..3] == "<?/";
      assert "<?/"[3..] == "";
    }
  }

  /** The rules after the first two leave `<?/` as it is. */
  lemma PlainTail()
    ensures StripFormatting(EscapeAmp(StripBreaks(GeneralizeSelfClosing(AngleEntities(QuoteMarks("<?/")))))) == "<?/"
  {
    var t := "<?/";
    assert QuoteMarks(t) == t;
    assert AngleEntities(t) == t;
    assert t[1..] == "?/" && "?/"[1..] == "/" && "/"[1..] == "";
    assert WordRun("?/") == 0;
    assert !SelfClosingAt(t, 0);
    assert GeneralizeSelfClosing(t) == t;
    assert StripBreaks(t) == t;
    assert EscapeAmp(t) == t;
    assert StripFormatting(t) == t;
  }

  // ---------------------------------------------------------------------
  // The skip test: <p>.*?<!--(?!.*?-->).*?</p>  (DOTALL), anywhere
  // ---------------------------------------------------------------------

  /**
   * The pattern matches: a `<p>`, then a `<!--` after it with no `-->`
   * anywhere after the opener, then a `</p>` after the opener.
   */
  ghost predicate UnclosedCommentMatch(s: string)
  {
    exists i, j, k :: UnclosedCommentAt(s, i, j, k)
  }

  /** The pattern matched with its `<p>` at `i`, its `<!--` at `j` and its `</p>` at `k`. */
  ghost predicate UnclosedCommentAt(s: string, i: int, j: int, k: int)
  {
    OccursAt(s, i, "<p>") && OccursAt(s, j, "<!--") && OccursAt(s, k, "</p>") &&
    i + 3 <= j && j + 4 <= k && forall m :: j + 4 <= m ==> !OccursAt(s, m, "-->")
  }

  /** `sub` occurs somewhere from index `k` on. */
  predicate OccursFrom(s: string, sub: string, k: nat)
    decreases |s| - k
  {
    k + |sub| <= |s| && (OccursAt(s, k, sub) || OccursFrom(s, sub, k + 1))
  }

  /** From `j` on there is a `<!--` that no `-->` closes and that a `</p>` follows. */
  predicate UnclosedFrom(s: string, j: nat)
    decreases |s| - j
  {
    j + 4 <= |s| &&
    ((OccursAt(s, j, "<!--") && !OccursFrom(s, "-->", j + 4) && OccursFrom(s, "</p>", j + 4)) ||
     UnclosedFrom(s, j + 1))
  }

  /** After the first `<p>` from `i` on comes an unclosed comment. */
  predicate UnclosedAfterOpen(s: string, i: nat)
    decreases |s| - i
  {
    i + 3 <= |s| && (if OccursAt(s, i, "<p>") then UnclosedFrom(s, i + 3) else UnclosedAfterOpen(s, i + 1))
  }

  /** The test the block loop uses to skip a block: the pattern's first `<p>` is the leftmost one. */
  predicate HasUnclosedComment(s: string)
  {
    UnclosedAfterOpen(s, 0)
  }

  lemma {:induction false} OccursFromMeans(s: string, sub: string, k: nat)
    ensures OccursFrom(s, sub, k) <==> exists m :: k <= m && OccursAt(s, m, sub)
    decreases |s| - k
  {
    if k + |sub| <= |s| {
      OccursFromMeans(s, sub, k + 1);
      if exists m :: k <= m && OccursAt(s, m, sub) {
        var m :| k <= m && OccursAt(s, m, sub);
        assert m == k || (k + 1 <= m && OccursAt(s, m, sub));
      }
    }
  }

  /** A `<!--` at `j` that no `-->` closes, with a `</p>` at `k` after it. */
  predicate UnclosedAt(s: string, j: nat, k: nat)
  {
    j + 4 <= k && OccursAt(s, j, "<!--") && OccursAt(s, k, "</p>") && !OccursFrom(s, "-->", j + 4)
  }

  /** An unclosed comment found from `b` on is also found from any earlier `a`. */
  lemma {:induction false} UnclosedFromEarlier(s: string, a: nat, b: nat)
    requires a <= b && UnclosedFrom(s, b)
    ensures UnclosedFrom(s, a)
    decreases b - a
  {
    if a < b {
      UnclosedFromEarlier(s, a + 1, b);
    }
  }

  lemma UnclosedFromMeans(s: string, j: nat)
    ensures UnclosedFrom(s, j) <==> exists j', k :: j <= j' && UnclosedAt(s, j', k)
  {
    if UnclosedFrom(s, j) {
      UnclosedFromWitness(s, j);
    }
    if exists j', k :: j <= j' && UnclosedAt(s, j', k) {
      var j': nat, k: nat :| j <= j' && UnclosedAt(s, j', k);
      UnclosedFromReached(s, j, j', k);
    }
  }

  /** An unclosed comment found from `j` on has a place and a `</p>` after it. */
  lemma {:induction false} UnclosedFromWitness(s: string, j: nat)
    requires UnclosedFrom(s, j)
    ensures exists j', k :: j <= j' && UnclosedAt(s, j', k)
    decreases |s| - j
  {
    if OccursAt(s, j, "<!--") && !OccursFrom(s, "-->", j + 4) && OccursFrom(s, "</p>", j + 4) {
      OccursFromMeans(s, "</p>", j + 4);
      var k :| j + 4 <= k && OccursAt(s, k, "</p>");
      assert UnclosedAt(s, j, k);
    } else {
      UnclosedFromWitness(s, j + 1);
      var j': nat, k: nat :| j + 1 <= j' && UnclosedAt(s, j', k);
      assert j <= j';
    }
  }

  /** An unclosed comment at `j'` is found by the search from any `j` up to it. */
  lemma {:induction false} UnclosedFromReached(s: string, j: nat, j': nat, k: nat)
    requires j <= j' && UnclosedAt(s, j', k)
    ensures UnclosedFrom(s, j)
    decreases j' - j
  {
    if j' == j {
      OccursFromMeans(s, "</p>", j + 4);
    } else {
      UnclosedFromReached(s, j + 1, j', k);
    }
  }

  lemma UnclosedAfterOpenMeans(s: string, i: nat)
    ensures UnclosedAfterOpen(s, i) <==> exists i' :: i <= i' && OccursAt(s, i', "<p>") && UnclosedFrom(s, i' + 3)
  {
    if UnclosedAfterOpen(s, i) {
      UnclosedAfterOpenWitness(s, i);
    }
    if exists i' :: i <= i' && OccursAt(s, i', "<p>") && UnclosedFrom(s, i' + 3) {
      var i' :| i <= i' && OccursAt(s, i', "<p>") && UnclosedFrom(s, i' + 3);
      UnclosedAfterOpenReached(s, i, i');
    }
  }

  /** The test from `i` succeeds at some `<p>` at or after `i`. */
  lemma {:induction false} UnclosedAfterOpenWitness(s: string, i: nat)
    requires UnclosedAfterOpen(s, i)
    ensures exists i' :: i <= i' && OccursAt(s, i', "<p>") && UnclosedFrom(s, i' + 3)
    decreases |s| - i
  {
    if !OccursAt(s, i, "<p>") {
      UnclosedAfterOpenWitness(s, i + 1);
    }
  }

  /** A `<p>` followed by an unclosed comment makes the test succeed from any earlier `i`. */
  lemma {:induction false} UnclosedAfterOpenReached(s: string, i: nat, i': nat)
    requires i <= i' && OccursAt(s, i', "<p>") && UnclosedFrom(s, i' + 3)
    ensures UnclosedAfterOpen(s, i)
    decreases i' - i
  {
    if OccursAt(s, i, "<p>") {
      UnclosedFromEarlier(s, i + 3, i' + 3);
    } else {
      UnclosedAfterOpenReached(s, i + 1, i');
    }
  }

  /** The computed test agrees with the pattern's meaning in both directions. */
  lemma HasUnclosedCommentMeans(s: string)
    ensures HasUnclosedComment(s) <==> UnclosedCommentMatch(s)
  {
    if HasUnclosedComment(s) {
      UnclosedCommentFound(s);
    }
    if UnclosedCommentMatch(s) {
      var i, j, k :| UnclosedCommentAt(s, i, j, k);
      UnclosedCommentSeen(s, i, j, k);
    }
  }

  lemma UnclosedCommentFound(s: string)
    requires HasUnclosedComment(s)
    ensures UnclosedCommentMatch(s)
  {
    UnclosedAfterOpenMeans(s, 0);
    var i :| 0 <= i && OccursAt(s, i, "<p>") && UnclosedFrom(s, i + 3);
    UnclosedFromMeans(s, i + 3);
    var j: nat, k: nat :| i + 3 <= j && UnclosedAt(s, j, k);
    UnclosedAtMatches(s, i, j, k);
  }

  /** A `<p>` before an unclosed comment that a `</p>` follows is a match of the pattern. */
  lemma UnclosedAtMatches(s: string, i: int, j: nat, k: nat)
    requires OccursAt(s, i, "<p>") && i + 3 <= j && UnclosedAt(s, j, k)
    ensures UnclosedCommentAt(s, i, j, k)
  {
    OccursFromMeans(s, "-->", j + 4);
  }

  lemma UnclosedCommentSeen(s: string, i: int, j: int, k: int)
    requires UnclosedCommentAt(s, i, j, k)
    ensures HasUnclosedComment(s)
  {
    OccursFromMeans(s, "-->", j + 4);
    UnclosedFromMeans(s, i + 3);
    assert UnclosedAt(s, j, k);
    UnclosedAfterOpenMeans(s, 0);
  }
}
