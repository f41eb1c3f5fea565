/**
 * XmlProcessor.processAndPersistXml: the dictionary file is cut into
 * paragraph blocks, each `<p>` extended until its `<p>` and `</p>` counts
 * balance; each block is normalized, skipped when it holds a comment that is
 * never closed, and otherwise parsed: a block with an `<ent>` starts a new
 * entry, any other block continues the previous entry.
 *
 * The functions here state on values what the loop computes; the method
 * ProcessFile runs the loop itself over Entry objects and is proved to
 * agree with them.
 */
module Processor {
  import opened Wrappers
  import opened Text
  import opened Normalizer
  import opened Dom
  import opened Entities
  import opened Extractor
  import opened DomParser

  const OpenTag: string := "<p>"
  const CloseTag: string := "</p>"

  // ---------------------------------------------------------------------
  // countOccurrences
  // ---------------------------------------------------------------------

  /**
   * countOccurrences: search with indexOf from the current index, count the
   * match and resume past its end, until indexOf answers -1.
   */
  method CountOccurrences(str: string, sub: string) returns (count: nat)
    requires |sub| > 0
    ensures count == Occurrences(str, sub)
  {
    count := 0;
    var index: nat := 0;
    while true
      invariant index <= |str|
      invariant count + CountFrom(str, sub, index) == Occurrences(str, sub)
      decreases |str| - index
    {
      var found := IndexOf(str, sub, index);
      OccurrencesFrom(str, sub, index);
      if found == -1 {
        return;
      }
      count := count + 1;
      index := found + |sub|;
    }
  }

  // ---------------------------------------------------------------------
  // Cutting the file into blocks
  // ---------------------------------------------------------------------

  /**
   * The occurrences of `sub` in s[..hi] counted from `k` on as indexOf
   * finds them, each search resuming past the previous match: the count
   * countOccurrences gives on the block s[lo..hi], read in place (CountInBlock).
   */
  function CountIn(s: string, sub: string, k: nat, hi: nat): nat
    requires |sub| > 0 && hi <= |s|
    decreases hi - k
  {
    if hi < k + |sub| then 0
    else if s[k..k + |sub|] == sub then 1 + CountIn(s, sub, k + |sub|, hi)
    else CountIn(s, sub, k + 1, hi)
  }

  /** Counting in place agrees with counting in the block cut out of the file. */
  lemma {:induction false} CountInBlock(s: string, sub: string, lo: nat, hi: nat, k: nat)
    requires |sub| > 0 && lo <= hi <= |s|
    ensures CountIn(s, sub, lo + k, hi) == CountFrom(s[lo..hi], sub, k)
    decreases hi - lo - k
  {
    if lo + k + |sub| <= hi {
      var b := s[lo..hi];
      assert b[k..k + |sub|] == s[lo + k..lo + k + |sub|] by {
        forall i | k <= i < k + |sub|
          ensures b[i] == s[lo + i]
        {
        }
      }
      CountInBlock(s, sub, lo, hi, k + |sub|);
      CountInBlock(s, sub, lo, hi, k + 1);
    }
  }

  /** The block s[lo..hi] is complete when it holds as many `<p>` as `</p>`. */
  predicate Balanced(s: string, lo: nat, hi: nat)
    requires hi <= |s|
  {
    CountIn(s, OpenTag, lo, hi) == CountIn(s, CloseTag, lo, hi)
  }

  /** Balanced compares the counts countOccurrences gives on the block itself. */
  lemma BalancedMeans(s: string, lo: nat, hi: nat)
    requires lo <= hi <= |s|
    ensures Balanced(s, lo, hi) <==>
      Occurrences(s[lo..hi], OpenTag) == Occurrences(s[lo..hi], CloseTag)
  {
    CountInBlock(s, OpenTag, lo, hi, 0);
    CountInBlock(s, CloseTag, lo, hi, 0);
  }

  /**
   * The inner loop of processAndPersistXml: the block opened at `start` and
   * closed by the `</p>` at `end` is extended to the next `</p>` while it is
   * unbalanced. None when the file runs out of `</p>` first.
   */
  function Extend(s: string, start: nat, end: nat): (r: Option<nat>)
    requires start <= end && OccursAt(s, end, CloseTag)
    ensures r.Some? ==> end <= r.value && OccursAt(s, r.value, CloseTag)
    decreases |s| - end
  {
    if Balanced(s, start, end + 4) then Some(end)
    else
      var next := IndexOf(s, CloseTag, end + 4);
      if next == -1 then None else Extend(s, start, next)
  }

  /** The block the extension ends with is balanced. */
  lemma {:induction false} ExtendBalanced(s: string, start: nat, end: nat, r: nat)
    requires start <= end && OccursAt(s, end, CloseTag)
    requires Extend(s, start, end) == Some(r)
    ensures Balanced(s, start, r + 4)
    decreases |s| - end
  {
    if r != end {
      var next := IndexOf(s, CloseTag, end + 4);
      ExtendBalanced(s, start, next, r);
    }
  }

  /** Two occurrences of `</p>` never overlap. */
  lemma CloseTagsApart(s: string, a: int, b: int)
    requires OccursAt(s, a, CloseTag) && a < b < a + 4
    ensures !OccursAt(s, b, CloseTag)
  {
    assert s[a..a + 4][b - a] == s[b];
    assert s[b] != '<';
  }

  /**
   * The block ends at the first `</p>` from `end` on where the counts
   * balance; when the answer is None no later `</p>` balances them.
   */
  lemma {:induction false} ExtendFirst(s: string, start: nat, end: nat)
    requires start <= end && OccursAt(s, end, CloseTag)
    ensures var r := Extend(s, start, end);
      forall e :: end <= e && (r.None? || e < r.value) && OccursAt(s, e, CloseTag) ==>
        !Balanced(s, start, e + 4)
    decreases |s| - end
  {
    if !Balanced(s, start, end + 4) {
      forall e | end < e < end + 4
        ensures !OccursAt(s, e, CloseTag)
      {
        CloseTagsApart(s, end, e);
      }
      var next := IndexOf(s, CloseTag, end + 4);
      if next != -1 {
        ExtendFirst(s, start, next);
      }
    }
  }

  // ---------------------------------------------------------------------
  // The conversion on values
  // ---------------------------------------------------------------------

  /** Why the processing of a file stops early: both end in an exception that nothing catches. */
  datatype Failure =
    | UnclosedParagraph(start: nat)   // no `</p>` left to balance the block opened at `start`
    | ParseFailed(block: string)      // the parser rejected a normalized block

  /** The entries a file yields, or the failure that stops it. */
  datatype Conversion = Converted(entries: seq<EntryValue>) | Aborted(failure: Failure)

  /**
   * The dispatch of one parsed block: a new entry is appended, or the block
   * continues the last entry; with no entry yet it is dropped.
   */
  function Absorb(acc: seq<EntryValue>, root: Node, abbr: Abbreviations): seq<EntryValue>
  {
    match DefinitionEntry(root, abbr)
    case Some(v) => acc + [v]
    case None => if acc == [] then [] else acc[..|acc| - 1] + [Continue(acc[|acc| - 1], root)]
  }

  /** Where the next block of the file lies. */
  datatype Cut =
    | NoMoreBlocks                  // no `<p>`, or no `</p>` after it: the loop ends
    | Unbalanced(open: nat)         // the block opened at `open` is never balanced
    | Cut(open: nat, end: nat)      // the block runs from `open` through the `</p>` at `end`

  /**
   * The segmentation: the next `<p>` from `start`, the first `</p>` after
   * it, then the block extended until balanced.
   */
  function NextCut(s: string, start: nat): (r: Cut)
    ensures r.Cut? ==> start <= r.open && r.open + 3 <= r.end && r.end + 4 <= |s|
  {
    var open := IndexOf(s, OpenTag, start);
    var close := CloseAfter(s, open);
    CutOf(open, close, Found(s, open, close))
  }

  /** The first `</p>` after the `<p>` at `open`, or -1 (also when there is no `<p>`). */
  function CloseAfter(s: string, open: int): (r: int)
    ensures r != -1 ==> 0 <= open && open + 3 <= r && OccursAt(s, r, CloseTag)
  {
    if open < 0 then -1 else IndexOf(s, CloseTag, open + 3)
  }

  /** Where the inner loop ends, when both tags were found. */
  function Found(s: string, open: int, close: int): Option<nat>
    requires close != -1 ==> 0 <= open <= close && OccursAt(s, close, CloseTag)
  {
    if open < 0 || close < 0 then None else Extend(s, open, close)
  }

  /** The cut the three searches give: the `<p>`, the first `</p>` after it, and the balanced end. */
  function CutOf(open: int, close: int, found: Option<nat>): Cut
  {
    if open < 0 || close < 0 then NoMoreBlocks
    else if found.None? then Unbalanced(open)
    else Cut(open, found.value)
  }

  /** What the outer loop does with the next block. */
  datatype Step =
    | Finished                       // no block is left
    | Stop(failure: Failure)         // an exception ends the processing
    | Skip(next: nat)                // a block with an unclosed comment is passed over
    | Block(next: nat, root: Node)   // a block parsed into `root`

  /**
   * One turn of the outer loop: normalize the next block, then skip or
   * parse it. The loop resumes at the `</p>` that closes the block.
   */
  function NextStep(s: string, start: nat, parse: Parser): (r: Step)
    ensures (r.Skip? || r.Block?) ==> start < r.next <= |s|
  {
    match NextCut(s, start)
    case NoMoreBlocks => Finished
    case Unbalanced(open) => Stop(UnclosedParagraph(open))
    case Cut(open, end) =>
      var block := Normalize(s[open..end + 4]);
      if HasUnclosedComment(block) then Skip(end)
      else
        match parse(block)
        case None => Stop(ParseFailed(block))
        case Some(root) => Block(end, root)
  }

  /** The outer loop from index `start`, with the entries gathered so far. */
  function ConvertFrom(s: string, start: nat, acc: seq<EntryValue>, parse: Parser, abbr: Abbreviations): Conversion
    decreases |s| - start, 1
  {
    Resume(s, start, NextStep(s, start, parse), acc, parse, abbr)
  }

  /** The outer loop once the turn at `start` has taken `step`. */
  function Resume(s: string, start: nat, step: Step, acc: seq<EntryValue>, parse: Parser, abbr: Abbreviations): Conversion
    requires (step.Skip? || step.Block?) ==> start < step.next <= |s|
    decreases |s| - start, 0
  {
    match step
    case Finished => Converted(acc)
    case Stop(failure) => Aborted(failure)
    case Skip(next) => ConvertFrom(s, next, acc, parse, abbr)
    case Block(next, root) => ConvertFrom(s, next, Absorb(acc, root, abbr), parse, abbr)
  }

  /** The turn of the outer loop over a block that was found, case by case. */
  lemma CutStep(s: string, start: nat, open: nat, end: nat, block: string, parse: Parser)
    requires NextCut(s, start) == Cut(open, end) && end + 4 <= |s|
    requires block == Normalize(s[open..end + 4])
    ensures HasUnclosedComment(block) ==> NextStep(s, start, parse) == Skip(end)
    ensures !HasUnclosedComment(block) && parse(block).None? ==> NextStep(s, start, parse) == Stop(ParseFailed(block))
    ensures !HasUnclosedComment(block) && parse(block).Some? ==> NextStep(s, start, parse) == Block(end, parse(block).value)
  {
  }

  lemma ConvertFromEnd(s: string, start: nat, acc: seq<EntryValue>, parse: Parser, abbr: Abbreviations)
    requires !NextCut(s, start).Cut?
    ensures NextCut(s, start).NoMoreBlocks? ==> ConvertFrom(s, start, acc, parse, abbr) == Converted(acc)
    ensures NextCut(s, start).Unbalanced? ==>
      ConvertFrom(s, start, acc, parse, abbr) == Aborted(UnclosedParagraph(NextCut(s, start).open))
  {
  }

  lemma ConvertFromSkip(s: string, start: nat, end: nat, acc: seq<EntryValue>, parse: Parser, abbr: Abbreviations)
    requires NextStep(s, start, parse) == Skip(end)
    ensures ConvertFrom(s, start, acc, parse, abbr) == ConvertFrom(s, end, acc, parse, abbr)
  {
  }

  lemma ConvertFromBlock(s: string, start: nat, end: nat, root: Node, acc: seq<EntryValue>, parse: Parser, abbr: Abbreviations)
    requires NextStep(s, start, parse) == Block(end, root)
    ensures ConvertFrom(s, start, acc, parse, abbr) == ConvertFrom(s, end, Absorb(acc, root, abbr), parse, abbr)
  {
  }

  /**
   * A block the segmentation cuts out starts at the first `<p>` from
   * `start`, ends with a `</p>`, and countOccurrences finds as many `<p>`
   * as `</p>` in it.
   */
  lemma NextCutBlock(s: string, start: nat)
    ensures var r := NextCut(s, start);
      r.Cut? ==>
        OccursAt(s, r.open, OpenTag) && (forall k :: start <= k < r.open ==> !OccursAt(s, k, OpenTag)) &&
        OccursAt(s, r.end, CloseTag) &&
        Occurrences(s[r.open..r.end + 4], OpenTag) == Occurrences(s[r.open..r.end + 4], CloseTag)
  {
    var r := NextCut(s, start);
    if r.Cut? {
      var open := IndexOf(s, OpenTag, start);
      var close := CloseAfter(s, open);
      assert r.open == open && Found(s, open, close) == Some(r.end);
      ExtendCounts(s, open, close, r.end);
    }
  }

  /** The block the extension ends with, counted as countOccurrences counts it. */
  lemma ExtendCounts(s: string, open: nat, close: nat, e: nat)
    requires open <= close && OccursAt(s, close, CloseTag) && Extend(s, open, close) == Some(e)
    ensures OccursAt(s, e, CloseTag) && open <= e
    ensures Occurrences(s[open..e + 4], OpenTag) == Occurrences(s[open..e + 4], CloseTag)
  {
    ExtendBalanced(s, open, close, e);
    BalancedMeans(s, open, e + 4);
  }

  /** With no `<p>` at or after `start`, the loop ends with the entries gathered so far. */
  lemma ConvertNoParagraph(s: string, start: nat, acc: seq<EntryValue>, parse: Parser, abbr: Abbreviations)
    requires forall k :: start <= k ==> !OccursAt(s, k, OpenTag)
    ensures ConvertFrom(s, start, acc, parse, abbr) == Converted(acc)
  {
    assert IndexOf(s, OpenTag, start) == -1;
    ConvertFromEnd(s, start, acc, parse, abbr);
  }

  /** When no `</p>` follows the next `<p>`, the loop also ends with the entries gathered so far. */
  lemma ConvertNoClose(s: string, start: nat, open: nat, acc: seq<EntryValue>, parse: Parser, abbr: Abbreviations)
    requires start <= open && OccursAt(s, open, OpenTag)
    requires forall k :: start <= k < open ==> !OccursAt(s, k, OpenTag)
    requires forall k :: open + 3 <= k ==> !OccursAt(s, k, CloseTag)
    ensures ConvertFrom(s, start, acc, parse, abbr) == Converted(acc)
  {
    assert IndexOf(s, OpenTag, start) == open;
    assert CloseAfter(s, open) == -1;
    ConvertFromEnd(s, start, acc, parse, abbr);
  }

  /**
   * A cut block whose normalized text matches the unclosed-comment pattern
   * is passed over: the run goes on after its `</p>` with the same entries.
   */
  lemma ConvertSkipsUnclosedComment(s: string, start: nat, open: nat, end: nat,
                                    acc: seq<EntryValue>, parse: Parser, abbr: Abbreviations)
    requires NextCut(s, start) == Cut(open, end)
    requires UnclosedCommentMatch(Normalize(s[open..end + 4]))
    ensures ConvertFrom(s, start, acc, parse, abbr) == ConvertFrom(s, end, acc, parse, abbr)
  {
    var block := Normalize(s[open..end + 4]);
    HasUnclosedCommentMeans(block);
    CutStep(s, start, open, end, block, parse);
    ConvertFromSkip(s, start, end, acc, parse, abbr);
  }

  /**
   * Any other cut block goes to the parser: a rejection aborts the run with
   * the normalized block, otherwise the run goes on after its `</p>` with the
   * parsed block absorbed into the entries.
   */
  lemma ConvertAbsorbsBlock(s: string, start: nat, open: nat, end: nat,
                            acc: seq<EntryValue>, parse: Parser, abbr: Abbreviations)
    requires NextCut(s, start) == Cut(open, end)
    requires !UnclosedCommentMatch(Normalize(s[open..end + 4]))
    ensures var block := Normalize(s[open..end + 4]);
      ConvertFrom(s, start, acc, parse, abbr) ==
        if parse(block).None? then Aborted(ParseFailed(block))
        else ConvertFrom(s, end, Absorb(acc, parse(block).value, abbr), parse, abbr)
  {
    var block := Normalize(s[open..end + 4]);
    HasUnclosedCommentMeans(block);
    CutStep(s, start, open, end, block, parse);
    if parse(block).Some? {
      ConvertFromBlock(s, start, end, parse(block).value, acc, parse, abbr);
    }
  }

  /** processAndPersistXml on the content of a file. */
  function Convert(s: string, parse: Parser, abbr: Abbreviations): Conversion
  {
    ConvertFrom(s, 0, [], parse, abbr)
  }

  // ---------------------------------------------------------------------
  // Properties of the conversion
  // ---------------------------------------------------------------------

  /**
   * `b` is what continuation blocks can make of `a`: the same entry word,
   * headword, etymology, parts of speech and verb forms, with quotes,
   * definitions and synonyms only appended to.
   */
  predicate Grown(a: EntryValue, b: EntryValue)
  {
    b.entryWord == a.entryWord && b.headWord == a.headWord && b.etymology == a.etymology &&
    b.partsOfSpeech == a.partsOfSpeech && b.verbMorphologyEntries == a.verbMorphologyEntries &&
    a.quotes <= b.quotes && a.definitions <= b.definitions &&
    a.synonym.synonymList <= b.synonym.synonymList
  }

  lemma ContinueGrows(v: EntryValue, root: Node)
    ensures Grown(v, Continue(v, root))
  {
  }

  /**
   * One block adds an entry exactly when it has an `<ent>`; otherwise only
   * the last entry may change, and only by growing. Earlier entries are
   * never touched again.
   */
  lemma AbsorbSpec(acc: seq<EntryValue>, root: Node, abbr: Abbreviations)
    ensures var r := Absorb(acc, root, abbr);
      |r| == |acc| + (if HasTag(root, "ent") then 1 else 0) &&
      (forall i :: 0 <= i < |acc| - 1 ==> r[i] == acc[i]) &&
      (forall i :: 0 <= i < |acc| ==> Grown(acc[i], r[i])) &&
      (HasTag(root, "ent") ==> r[|acc|].entryWord == Some(Clean(FirstText(root, "ent"))))
  {
    var r := Absorb(acc, root, abbr);
    if HasTag(root, "ent") {
      GrownSame(acc, r);
    } else if acc != [] {
      var n := |acc| - 1;
      ContinueGrows(acc[n], root);
      assert r == acc[..n] + [Continue(acc[n], root)];
      GrownLast(acc, r);
    }
  }

  /** A list that starts with `acc` has every entry of `acc` grown. */
  lemma GrownSame(acc: seq<EntryValue>, r: seq<EntryValue>)
    requires acc <= r
    ensures forall i :: 0 <= i < |acc| ==> Grown(acc[i], r[i])
  {
  }

  /** A list that keeps all but the last entry of `acc` and grows that one. */
  lemma GrownLast(acc: seq<EntryValue>, r: seq<EntryValue>)
    requires acc != [] && |r| == |acc| && r[..|acc| - 1] == acc[..|acc| - 1]
    requires Grown(acc[|acc| - 1], r[|acc| - 1])
    ensures forall i :: 0 <= i < |acc| - 1 ==> r[i] == acc[i]
    ensures forall i :: 0 <= i < |acc| ==> Grown(acc[i], r[i])
  {
    forall i | 0 <= i < |acc| - 1
      ensures r[i] == acc[i]
    {
      assert r[i] == r[..|acc| - 1][i];
    }
  }

  /** Each entry of `acc` has a grown counterpart at the same place in `r`. */
  predicate AllGrown(acc: seq<EntryValue>, r: seq<EntryValue>)
  {
    |acc| <= |r| && forall i :: 0 <= i < |acc| ==> Grown(acc[i], r[i])
  }

  lemma AllGrownTrans(a: seq<EntryValue>, b: seq<EntryValue>, c: seq<EntryValue>)
    requires AllGrown(a, b) && AllGrown(b, c)
    ensures AllGrown(a, c)
  {
    forall i | 0 <= i < |a|
      ensures Grown(a[i], c[i])
    {
      assert Grown(a[i], b[i]) && Grown(b[i], c[i]);
    }
  }

  /**
   * Over a whole run, the entries gathered so far survive: the result has
   * at least as many, and each has only grown.
   */
  lemma {:induction false} ConvertKeeps(s: string, start: nat, acc: seq<EntryValue>, parse: Parser, abbr: Abbreviations)
    ensures var c := ConvertFrom(s, start, acc, parse, abbr);
      c.Converted? ==> AllGrown(acc, c.entries)
    decreases |s| - start
  {
    var step := NextStep(s, start, parse);
    if step.Skip? {
      ConvertKeeps(s, step.next, acc, parse, abbr);
    } else if step.Block? {
      var next := Absorb(acc, step.root, abbr);
      AbsorbSpec(acc, step.root, abbr);
      ConvertKeeps(s, step.next, next, parse, abbr);
      var c := ConvertFrom(s, step.next, next, parse, abbr);
      if c.Converted? {
        AllGrownTrans(acc, next, c.entries);
      }
    } else if step.Finished? {
      forall i | 0 <= i < |acc|
        ensures Grown(acc[i], acc[i])
      {
      }
    }
  }

  /** Every entry a file yields was started by a block with an `<ent>`, so it has an entry word. */
  lemma {:induction false} ConvertNamed(s: string, start: nat, acc: seq<EntryValue>, parse: Parser, abbr: Abbreviations)
    requires forall v :: v in acc ==> v.entryWord.Some?
    ensures var c := ConvertFrom(s, start, acc, parse, abbr);
      c.Converted? ==> forall v :: v in c.entries ==> v.entryWord.Some?
    decreases |s| - start
  {
    var step := NextStep(s, start, parse);
    if step.Skip? {
      ConvertNamed(s, step.next, acc, parse, abbr);
    } else if step.Block? {
      var next := Absorb(acc, step.root, abbr);
      AbsorbSpec(acc, step.root, abbr);
      forall v | v in next
        ensures v.entryWord.Some?
      {
        var i :| 0 <= i < |next| && next[i] == v;
        if i < |acc| {
          assert Grown(acc[i], next[i]);
        }
      }
      ConvertNamed(s, step.next, next, parse, abbr);
    }
  }

  // ---------------------------------------------------------------------
  // The loop over Entry objects
  // ---------------------------------------------------------------------

  /** No entry object occurs twice in the list. */
  predicate Distinct(entries: seq<Entry>)
  {
    forall i, j :: 0 <= i < j < |entries| ==> entries[i] != entries[j]
  }

  /**
   * The body of the loop once a block is normalized and not skipped:
   * parseDefinition, then either the new entry is added and becomes the
   * previous one, or parseQuote, parseMoreDefinition and parseMoreSynonyms
   * run on the previous entry. `ok` is false when the parser rejects the block.
   */
  method Dispatch(entries: seq<Entry>, prev: Entry?, block: string, parse: Parser, abbr: Abbreviations,
                  ghost acc: seq<EntryValue>)
    returns (entries': seq<Entry>, prev': Entry?, ok: bool)
    requires Distinct(entries) && Values(entries) == acc
    requires prev == null <==> entries == []
    requires prev != null ==> prev == entries[|entries| - 1]
    modifies prev
    ensures ok <==> parse(block).Some?
    ensures ok ==> Values(entries') == Absorb(acc, parse(block).value, abbr)
    ensures Distinct(entries')
    ensures prev' == null <==> entries' == []
    ensures prev' != null ==> prev' == entries'[|entries'| - 1]
    ensures forall e :: e in entries' ==> e in entries || fresh(e)
    ensures prev' != null ==> prev' == prev || fresh(prev')
  {
    ghost var before := acc;
    var r := ParseDefinition(block, parse, abbr);
    entries', prev' := entries, prev;
    if r.ParseError? {
      return entries, prev, false;
    }
    ok := true;
    ghost var root := parse(block).value;
    if r.Created? {
      entries' := entries + [r.entry];
      prev' := r.entry;
      ValuesSnoc(entries, r.entry);
    } else if prev != null {
      ContinueLast(entries, prev, block, parse, before);
    }
  }

  /**
   * A block that creates no entry continues the previous one: its quote,
   * further definitions and synonyms go onto the last entry, and the entries
   * before it keep their values.
   */
  method ContinueLast(entries: seq<Entry>, prev: Entry, block: string, parse: Parser,
                      ghost acc: seq<EntryValue>)
    requires Distinct(entries) && Values(entries) == acc
    requires entries != [] && prev == entries[|entries| - 1] && parse(block).Some?
    modifies prev
    ensures Values(entries) == acc[..|acc| - 1] + [Continue(acc[|acc| - 1], parse(block).value)]
  {
    var n := |entries| - 1;
    ghost var root := parse(block).value;
    ValuesAt(entries);
    var q := ParseQuote(block, parse, prev);
    var d := ParseMoreDefinition(block, parse, prev);
    var m := ParseMoreSynonyms(block, parse, prev);
    assert prev.Value() == Continue(acc[n], root);
    forall i | 0 <= i < n
      ensures entries[i].Value() == acc[i]
    {
      assert entries[i] != prev;
    }
    ValuesAt(entries);
    assert Values(entries) == acc[..n] + [Continue(acc[n], root)];
  }

  /**
   * processAndPersistXml, without the file reading and the database writes:
   * the entries it would hand to the database, or the failure that stops it.
   */
  method ProcessFile(content: string, parse: Parser, abbr: Abbreviations)
    returns (entries: seq<Entry>, failure: Option<Failure>)
    ensures failure.None? ==> Convert(content, parse, abbr) == Converted(Values(entries))
    ensures failure.Some? ==> Convert(content, parse, abbr) == Aborted(failure.value)
  {
    entries := [];
    var prev: Entry? := null;
    var start: nat := 0;
    ghost var acc: seq<EntryValue> := [];
    while true
      invariant Distinct(entries) && forall e :: e in entries ==> fresh(e)
      invariant prev == null <==> entries == []
      invariant prev != null ==> prev == entries[|entries| - 1] && fresh(prev)
      invariant Values(entries) == acc
      invariant ConvertFrom(content, start, acc, parse, abbr) == Convert(content, parse, abbr)
      decreases |content| - start
    {
      var next, stop;
      next, stop, entries, prev, acc := Turn(content, start, entries, prev, parse, abbr, acc);
      if next.None? {
        return entries, stop;
      }
      start := next.value;
    }
  }

  /**
   * One turn of the outer loop from `start`: find the next block, then visit
   * it. `next` is where the loop resumes; None when it ends, with the failure
   * that ends it, if any.
   */
  method Turn(content: string, start: nat, entries: seq<Entry>, prev: Entry?, parse: Parser, abbr: Abbreviations,
              ghost acc: seq<EntryValue>)
    returns (next: Option<nat>, failure: Option<Failure>, entries': seq<Entry>, prev': Entry?,
             ghost acc': seq<EntryValue>)
    requires Distinct(entries) && Values(entries) == acc
    requires prev == null <==> entries == []
    requires prev != null ==> prev == entries[|entries| - 1]
    modifies prev
    ensures Distinct(entries') && (failure.None? ==> Values(entries') == acc')
    ensures prev' == null <==> entries' == []
    ensures prev' != null ==> prev' == entries'[|entries'| - 1]
    ensures forall e :: e in entries' ==> e in entries || fresh(e)
    ensures prev' != null ==> prev' == prev || fresh(prev')
    ensures next.Some? ==> start < next.value <= |content| && failure.None?
    ensures next.Some? ==>
      ConvertFrom(content, start, acc, parse, abbr) == ConvertFrom(content, next.value, acc', parse, abbr)
    ensures next.None? && failure.None? ==> ConvertFrom(content, start, acc, parse, abbr) == Converted(acc')
    ensures next.None? && failure.Some? ==> ConvertFrom(content, start, acc, parse, abbr) == Aborted(failure.value)
  {
    var cut, raw := FindBlock(content, start);
    if cut.NoMoreBlocks? {
      ConvertFromEnd(content, start, acc, parse, abbr);
      return None, None, entries, prev, acc;
    } else if cut.Unbalanced? {
      ConvertFromEnd(content, start, acc, parse, abbr);
      return None, Some(UnclosedParagraph(cut.open)), entries, prev, acc;
    }
    var ok;
    ok, entries', prev', acc' := Visit(content, start, cut.open, cut.end, raw, entries, prev, parse, abbr, acc);
    if ok {
      next, failure := Some(cut.end), None;
    } else {
      next := None;
      failure := Some(ParseFailed(Normalize(raw)));
    }
  }

  /**
   * The rest of a turn once the block from `open` through the `</p>` at `end`
   * is cut out: normalize it, then skip it or dispatch it. `ok` is false
   * when the parser rejects it.
   */
  method Visit(content: string, start: nat, open: nat, end: nat, raw: string,
               entries: seq<Entry>, prev: Entry?, parse: Parser, abbr: Abbreviations, ghost acc: seq<EntryValue>)
    returns (ok: bool, entries': seq<Entry>, prev': Entry?, ghost acc': seq<EntryValue>)
    requires NextCut(content, start) == Cut(open, end) && raw == content[open..end + 4]
    requires Distinct(entries) && Values(entries) == acc
    requires prev == null <==> entries == []
    requires prev != null ==> prev == entries[|entries| - 1]
    modifies prev
    ensures Distinct(entries') && (ok ==> Values(entries') == acc')
    ensures prev' == null <==> entries' == []
    ensures prev' != null ==> prev' == entries'[|entries'| - 1]
    ensures forall e :: e in entries' ==> e in entries || fresh(e)
    ensures prev' != null ==> prev' == prev || fresh(prev')
    ensures ok ==>
      ConvertFrom(content, start, acc, parse, abbr) == ConvertFrom(content, end, acc', parse, abbr)
    ensures !ok ==> ConvertFrom(content, start, acc, parse, abbr) == Aborted(ParseFailed(Normalize(raw)))
  {
    var block := Normalize(raw);
    CutStep(content, start, open, end, block, parse);
    entries', prev', acc' := entries, prev, acc;
    if HasUnclosedComment(block) {
      ConvertFromSkip(content, start, end, acc, parse, abbr);
      return true, entries', prev', acc';
    }
    entries', prev', ok := Dispatch(entries, prev, block, parse, abbr, acc);
    if ok {
      ConvertFromBlock(content, start, end, parse(block).value, acc, parse, abbr);
      acc' := Absorb(acc, parse(block).value, abbr);
    }
  }

  /**
   * The head of the outer loop: indexOf for `<p>` from `start`, indexOf for
   * `</p>` after it, then the inner loop.
   */
  method FindBlock(content: string, start: nat) returns (cut: Cut, block: string)
    ensures cut == NextCut(content, start)
    ensures cut.Cut? ==> block == content[cut.open..cut.end + 4]
  {
    var open := IndexOf(content, OpenTag, start);
    var end := -1;
    var found := None;
    block := [];
    if open != -1 {
      end := IndexOf(content, CloseTag, open + 3);
      if end != -1 {
        found, block := BalancedBlock(content, open, end);
      }
    }
    assert end == CloseAfter(content, open);
    assert found == Found(content, open, end);
    cut := CutOf(open, end, found);
  }

  /**
   * The inner loop: recount `<p>` and `</p>` in the block and move its end
   * to the next `</p>` until they balance. None when no `</p>` is left.
   */
  method BalancedBlock(content: string, open: nat, end: nat) returns (found: Option<nat>, block: string)
    requires open + 3 <= end && OccursAt(content, end, CloseTag)
    ensures found == Extend(content, open, end)
    ensures found.Some? ==> block == content[open..found.value + 4]
  {
    var close := end;
    var balanced;
    block, balanced := Recount(content, open, close);
    while !balanced
      invariant open <= close && OccursAt(content, close, CloseTag)
      invariant Extend(content, open, close) == Extend(content, open, end)
      invariant block == content[open..close + 4]
      invariant balanced <==> Balanced(content, open, close + 4)
      decreases |content| - close
    {
      var next := IndexOf(content, CloseTag, close + 4);
      if next == -1 {
        return None, block;
      }
      close := next;
      block, balanced := Recount(content, open, close);
    }
    return Some(close), block;
  }

  /**
   * The block from `open` through the `</p>` at `close`, and whether the
   * two countOccurrences calls on it agree.
   */
  method Recount(content: string, open: nat, close: nat) returns (block: string, balanced: bool)
    requires open <= close && close + 4 <= |content|
    ensures block == content[open..close + 4]
    ensures balanced <==> Balanced(content, open, close + 4)
  {
    block := content[open..close + 4];
    var opens := CountOccurrences(block, OpenTag);
    var closes := CountOccurrences(block, CloseTag);
    BalancedMeans(content, open, close + 4);
    balanced := closes == opens;
  }
}
