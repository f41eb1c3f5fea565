/**
 * What the extractor (XmlParserDOMImpl) takes from one parsed block, on
 * values: the entry a block with an `<ent>` tag makes, and what the three
 * continuation mergers add to the previous entry. The methods that fill in
 * an Entry object are in the DomParser module and are proved to agree with
 * these functions.
 */
module Extractor {
  import opened Wrappers
  import opened Text
  import opened Dom
  import opened Entities

  /** Abbreviations.ABBREVIATION_MAP: abbreviation to canonical part-of-speech label. */
  type Abbreviations = map<string, string>

  /** The XML parser: the tree of a block, or None where it reports a malformed document. */
  type Parser = string -> Option<Node>

  // ---------------------------------------------------------------------
  // Text clean-up used by the extractor
  // ---------------------------------------------------------------------

  /** `.replaceAll("\n", " ")`: every line feed becomes a space. */
  function Fold(t: string): string
  {
    ReplaceAll(t, "\n", " ")
  }

  /** Folding turns every line feed into a space and keeps every other character in place. */
  lemma FoldSpec(t: string)
    ensures '\n' !in Fold(t) && |Fold(t)| == |t|
    ensures forall k :: 0 <= k < |t| ==> Fold(t)[k] == if t[k] == '\n' then ' ' else t[k]
  {
    ReplaceCharRemoves(t, '\n', " ");
    ReplaceCharAt(t, '\n', ' ');
  }

  /** Newline-folded, then trimmed. */
  function Clean(t: string): string
  {
    Trim(Fold(t))
  }

  /** A cleaned text holds no line feed and neither starts nor ends with a trimmable character. */
  lemma CleanSpec(t: string)
    ensures '\n' !in Clean(t)
    ensures Clean(t) == [] || (!IsTrimmable(Clean(t)[0]) && !IsTrimmable(Clean(t)[|Clean(t)| - 1]))
  {
    FoldSpec(t);
    TrimChars(Fold(t), '\n');
    TrimSpec(Fold(t));
  }

  /** The escaped quote markers `{ldquo/}` and `{rdquo/}` become `"`. */
  function CleanQuotes(t: string): string
  {
    ReplaceAll(ReplaceAll(t, "{ldquo/}", "\""), "{rdquo/}", "\"")
  }

  /** No `{ldquo/}` or `{rdquo/}` marker is left. */
  ghost predicate QuotesConverted(t: string)
  {
    !Contains(t, "{ldquo/}") && !Contains(t, "{rdquo/}")
  }

  /**
   * The quote conversion leaves no quote marker, brings in no line feed,
   * and keeps a trimmed text trimmed (the `"` it writes is not trimmable).
   */
  lemma CleanQuotesSpec(t: string)
    ensures QuotesConverted(CleanQuotes(t))
    ensures '\n' !in t ==> '\n' !in CleanQuotes(t)
    ensures TrimmedEnds(t) ==> TrimmedEnds(CleanQuotes(t))
  {
    var once := ReplaceAll(t, "{ldquo/}", "\"");
    ReplaceAllEliminates(t, "{ldquo/}", "\"");
    ReplaceAllEliminates(once, "{rdquo/}", "\"");
    if Contains(CleanQuotes(t), "{ldquo/}") {
      ReplaceAllCreatesNone(once, "{rdquo/}", "\"", "{ldquo/}");
    }
    if '\n' !in t {
      ReplaceAllCharFree(t, "{ldquo/}", "\"", '\n');
      ReplaceAllCharFree(once, "{rdquo/}", "\"", '\n');
    }
    if TrimmedEnds(t) {
      ReplaceAllEnds(t, "{ldquo/}", "\"");
      ReplaceAllEnds(once, "{rdquo/}", "\"");
    }
  }

  /** The middle dot the headword uses to mark syllables. */
  const MiddleDot: char := '\U{00B7}'

  /** `\s+` replaced by a single space. */
  function CollapseSpaces(s: string): string
    decreases |s|
  {
    if s == [] then []
    else if IsJavaSpace(s[0]) then [' '] + CollapseSpaces(s[SpaceRun(s)..])
    else [s[0]] + CollapseSpaces(s[1..])
  }

  /** Every character of `r` is a plain space or a non-whitespace character of `s`. */
  predicate SpacedFrom(r: string, s: string)
  {
    forall i :: 0 <= i < |r| ==> r[i] == ' ' || (r[i] in s && !IsJavaSpace(r[i]))
  }

  /** No two whitespace characters of `r` are adjacent. */
  predicate NoDoubleSpace(r: string)
  {
    forall i :: 0 <= i < |r| - 1 ==> !(IsJavaSpace(r[i]) && IsJavaSpace(r[i + 1]))
  }

  /**
   * After collapsing, every whitespace is a plain space, no two whitespace
   * characters are adjacent, and every other character comes from the input.
   */
  lemma {:induction false} CollapseSpacesSpec(s: string)
    ensures var r := CollapseSpaces(s);
      ((s == []) == (r == [])) &&
      (s != [] && !IsJavaSpace(s[0]) ==> r[0] == s[0]) &&
      SpacedFrom(r, s) && NoDoubleSpace(r)
    decreases |s|
  {
    if s == [] {
    } else if IsJavaSpace(s[0]) {
      var rest := s[SpaceRun(s)..];
      CollapseSpacesSpec(rest);
      assert forall c :: c in rest ==> c in s;
    } else {
      CollapseSpacesSpec(s[1..]);
      assert forall c :: c in s[1..] ==> c in s;
    }
  }

  /**
   * The replacements of normalizeHeadword: an escaped quote becomes a quote,
   * quotes and stars become middle dots, backquotes are dropped.
   */
  function Respell(raw: string): string
  {
    var s1 := ReplaceAll(raw, "\\\"", "\"");
    var s2 := ReplaceAll(s1, "\"", [MiddleDot]);
    var s3 := ReplaceAll(s2, "*", [MiddleDot]);
    ReplaceAll(s3, "`", "")
  }

  /** normalizeHeadword: respelled, whitespace runs made one space, ends trimmed. */
  function NormalizeHeadword(raw: string): string
  {
    Trim(CollapseSpaces(Respell(raw)))
  }

  /** No quote, star or backquote survives the replacements. */
  lemma RespellRemoves(raw: string)
    ensures '"' !in Respell(raw) && '*' !in Respell(raw) && '`' !in Respell(raw)
  {
    var s1 := ReplaceAll(raw, "\\\"", "\"");
    var s2 := ReplaceAll(s1, "\"", [MiddleDot]);
    var s3 := ReplaceAll(s2, "*", [MiddleDot]);
    ReplaceCharRemoves(s1, '"', [MiddleDot]);
    ReplaceAllCharFree(s2, "*", [MiddleDot], '"');
    ReplaceCharRemoves(s2, '*', [MiddleDot]);
    ReplaceAllCharFree(s3, "`", "", '"');
    ReplaceAllCharFree(s3, "`", "", '*');
    ReplaceCharRemoves(s3, '`', "");
  }

  /**
   * Collapsing then trimming leaves no whitespace at either end, only plain
   * spaces inside, never two together, and no character the input lacks
   * other than the space.
   */
  lemma TrimCollapsed(s: string)
    ensures var r := Trim(CollapseSpaces(s));
      (r == [] || (!IsJavaSpace(r[0]) && !IsJavaSpace(r[|r| - 1]))) &&
      SpacedFrom(r, s) && NoDoubleSpace(r)
  {
    CollapseSpacesSpec(s);
    TrimSpaced(CollapseSpaces(s), s);
  }

  /** Trimming keeps both spacing properties and removes whitespace from the ends. */
  lemma TrimSpaced(c: string, s: string)
    requires SpacedFrom(c, s) && NoDoubleSpace(c)
    ensures var r := Trim(c);
      (r == [] || (!IsJavaSpace(r[0]) && !IsJavaSpace(r[|r| - 1]))) &&
      SpacedFrom(r, s) && NoDoubleSpace(r)
  {
    TrimSlice(c);
    if Trim(c) != [] {
      SliceSpaced(c, s, Leading(c), Leading(c) + |Trim(c)|);
    }
  }

  /** A non-empty trimmed text is the slice of its input from the first kept character. */
  lemma TrimSlice(c: string)
    ensures var r := Trim(c);
      r == [] || (Leading(c) + |r| <= |c| && r == c[Leading(c)..Leading(c) + |r|] &&
        !IsTrimmable(r[0]) && !IsTrimmable(r[|r| - 1]))
  {
    TrimSpec(c);
    if Trim(c) != [] {
      assert OccursAt(c, Leading(c), Trim(c));
    }
  }

  /** A slice keeps both spacing properties. */
  lemma SliceSpaced(c: string, s: string, lo: nat, hi: nat)
    requires lo <= hi <= |c| && SpacedFrom(c, s) && NoDoubleSpace(c)
    ensures SpacedFrom(c[lo..hi], s) && NoDoubleSpace(c[lo..hi])
  {
    var r := c[lo..hi];
    forall i | 0 <= i < |r|
      ensures r[i] == ' ' || (r[i] in s && !IsJavaSpace(r[i]))
    {
      assert r[i] == c[lo + i];
    }
    forall i | 0 <= i < |r| - 1
      ensures !(IsJavaSpace(r[i]) && IsJavaSpace(r[i + 1]))
    {
      assert r[i] == c[lo + i] && r[i + 1] == c[lo + i + 1];
    }
  }

  /**
   * A cleaned headword holds no quote, star or backquote, does not start or
   * end with whitespace, and every whitespace in it is a single space
   * between two other characters.
   */
  lemma NormalizeHeadwordClean(raw: string)
    ensures var r := NormalizeHeadword(raw);
      '"' !in r && '*' !in r && '`' !in r &&
      (r == [] || (!IsJavaSpace(r[0]) && !IsJavaSpace(r[|r| - 1]))) &&
      (forall i :: 0 <= i < |r| && IsJavaSpace(r[i]) ==> r[i] == ' ') &&
      (forall i :: 0 <= i < |r| - 1 ==> !(IsJavaSpace(r[i]) && IsJavaSpace(r[i + 1])))
  {
    RespellRemoves(raw);
    TrimCollapsed(Respell(raw));
  }

  // ---------------------------------------------------------------------
  // Parts of speech
  // ---------------------------------------------------------------------

  /** Map.get: the label of an abbreviation, or None when the table does not have it. */
  function Lookup(abbr: Abbreviations, key: string): (r: Option<string>)
    ensures r.Some? <==> key in abbr
  {
    if key in abbr then Some(abbr[key]) else None
  }

  /** The `&`-separated abbreviations of a part-of-speech tag's text. */
  function Tokens(t: string): seq<string>
  {
    Split(Fold(t), "&")
  }

  /** The labels of the tokens the table knows, trimmed before lookup, in order. */
  function Resolved(tokens: seq<string>, abbr: Abbreviations): (r: seq<string>)
    ensures |r| <= |tokens|
  {
    if tokens == [] then []
    else
      var rest := Resolved(tokens[..|tokens| - 1], abbr);
      match Lookup(abbr, Trim(tokens[|tokens| - 1]))
      case Some(l) => rest + [l]
      case None => rest
  }

  /** Every resolved label is one of the table's labels. */
  lemma {:induction false} ResolvedLabels(tokens: seq<string>, abbr: Abbreviations)
    ensures forall l :: l in Resolved(tokens, abbr) ==> l in abbr.Values
    decreases |tokens|
  {
    if tokens != [] {
      ResolvedLabels(tokens[..|tokens| - 1], abbr);
    }
  }

  /** Tokens the table does not know contribute nothing. */
  lemma {:induction false} ResolvedUnknown(tokens: seq<string>, abbr: Abbreviations)
    requires forall t :: t in tokens ==> Trim(t) !in abbr
    ensures Resolved(tokens, abbr) == []
    decreases |tokens|
  {
    if tokens != [] {
      assert forall t :: t in tokens[..|tokens| - 1] ==> t in tokens;
      ResolvedUnknown(tokens[..|tokens| - 1], abbr);
    }
  }

  /** When every token is known, each one contributes its own label, in order. */
  lemma {:induction false} ResolvedKnown(tokens: seq<string>, abbr: Abbreviations)
    requires forall t :: t in tokens ==> Trim(t) in abbr
    ensures |Resolved(tokens, abbr)| == |tokens|
    ensures forall i :: 0 <= i < |tokens| ==> Resolved(tokens, abbr)[i] == abbr[Trim(tokens[i])]
    decreases |tokens|
  {
    if tokens != [] {
      var init := tokens[..|tokens| - 1];
      KnownInit(tokens, abbr);
      ResolvedKnown(init, abbr);
      ResolvedKnownLast(tokens, abbr);
    }
  }

  /** Every token before the last is known when every token is. */
  lemma KnownInit(tokens: seq<string>, abbr: Abbreviations)
    requires tokens != [] && forall t :: t in tokens ==> Trim(t) in abbr
    ensures forall t :: t in tokens[..|tokens| - 1] ==> Trim(t) in abbr
  {
    assert forall t :: t in tokens[..|tokens| - 1] ==> t in tokens;
  }

  /** A known last token adds its label after those of the tokens before it. */
  lemma ResolvedKnownLast(tokens: seq<string>, abbr: Abbreviations)
    requires tokens != [] && forall t :: t in tokens ==> Trim(t) in abbr
    requires var init := tokens[..|tokens| - 1];
      |Resolved(init, abbr)| == |init| &&
      forall i :: 0 <= i < |init| ==> Resolved(init, abbr)[i] == abbr[Trim(init[i])]
    ensures |Resolved(tokens, abbr)| == |tokens|
    ensures forall i :: 0 <= i < |tokens| ==> Resolved(tokens, abbr)[i] == abbr[Trim(tokens[i])]
  {
    var init := tokens[..|tokens| - 1];
    var last := abbr[Trim(tokens[|tokens| - 1])];
    var r := Resolved(init, abbr) + [last];
    assert Lookup(abbr, Trim(tokens[|tokens| - 1])) == Some(last);
    assert Resolved(tokens, abbr) == r;
    forall i | 0 <= i < |tokens|
      ensures r[i] == abbr[Trim(tokens[i])]
    {
      if i < |init| {
        assert tokens[i] == init[i];
      }
    }
  }

  /** A single abbreviation resolves to its label, or to nothing when the table lacks it. */
  lemma ResolveOne(key: string, abbr: Abbreviations)
    requires '&' !in key && key == Trim(key) && '\n' !in key
    ensures key in abbr ==> Resolved(Tokens(key), abbr) == [abbr[key]]
    ensures key !in abbr ==> Resolved(Tokens(key), abbr) == []
  {
    ReplaceAllAbsent(key, "\n", " ") by {
      HeadAbsent(key, "\n");
    }
    assert IndexOf(key, "&", 0) == -1 by {
      HeadAbsent(key, "&");
    }
    assert Tokens(key) == [key];
    assert [key][..0] == [];
  }

  /** The labels one `<pos>` hit contributes: none when it lies inside a `<def>`. */
  function LabelsOf(h: Hit, abbr: Abbreviations): seq<string>
  {
    if InsideDef(h.ancestors) then [] else Resolved(Tokens(TextContent(h.node)), abbr)
  }

  /** The part-of-speech labels of a list of `<pos>` hits, in document order. */
  function PosLabels(hits: seq<Hit>, abbr: Abbreviations): seq<string>
  {
    if hits == [] then []
    else PosLabels(hits[..|hits| - 1], abbr) + LabelsOf(hits[|hits| - 1], abbr)
  }

  /** Every part of speech an entry gets is a canonical label of the table. */
  lemma {:induction false} PosLabelsAreLabels(hits: seq<Hit>, abbr: Abbreviations)
    ensures forall l :: l in PosLabels(hits, abbr) ==> l in abbr.Values
    decreases |hits|
  {
    if hits != [] {
      PosLabelsAreLabels(hits[..|hits| - 1], abbr);
      ResolvedLabels(Tokens(TextContent(hits[|hits| - 1].node)), abbr);
    }
  }

  /** The labels of a list with one more hit at the end. */
  lemma PosLabelsSnoc(hits: seq<Hit>, h: Hit, abbr: Abbreviations)
    ensures PosLabels(hits + [h], abbr) == PosLabels(hits, abbr) + LabelsOf(h, abbr)
  {
    assert (hits + [h])[..|hits|] == hits;
  }

  /** A `<pos>` inside a `<def>` adds nothing, wherever it stands in the list. */
  lemma {:induction false} PosLabelsSkipsDef(hits: seq<Hit>, h: Hit, more: seq<Hit>, abbr: Abbreviations)
    requires InsideDef(h.ancestors)
    ensures PosLabels(hits + [h] + more, abbr) == PosLabels(hits + more, abbr)
    decreases |more|
  {
    if more == [] {
      assert hits + [h] + more == hits + [h];
      assert hits + more == hits;
      PosLabelsSnoc(hits, h, abbr);
      assert PosLabels(hits, abbr) + [] == PosLabels(hits, abbr);
    } else {
      var init := more[..|more| - 1];
      var last := more[|more| - 1];
      var left := hits + [h] + init;
      var right := hits + init;
      assert hits + [h] + more == left + [last];
      assert hits + more == right + [last];
      PosLabelsSnoc(left, last, abbr);
      PosLabelsSnoc(right, last, abbr);
      PosLabelsSkipsDef(hits, h, init, abbr);
    }
  }

  // ---------------------------------------------------------------------
  // Synonyms
  // ---------------------------------------------------------------------

  /** The characters the regex `.` does not match: the line terminators of java.util.regex. */
  predicate IsLineTerminator(c: char)
  {
    c == '\n' || c == '\r' || c == '\U{0085}' || c == '\U{2028}' || c == '\U{2029}'
  }

  /** `s` starts with `Syn`, any one character but a line terminator, then `lit`. */
  predicate SynMarker(s: string, lit: string)
  {
    |s| >= 4 + |lit| && s[..3] == "Syn" && !IsLineTerminator(s[3]) && s[4..4 + |lit|] == lit
  }

  /** The length of the run of plain spaces `s` starts with. */
  function BlankRun(s: string): (n: nat)
    ensures n <= |s|
    ensures forall k :: 0 <= k < n ==> s[k] == ' '
    ensures n == |s| || s[n] != ' '
  {
    if s != [] && s[0] == ' ' then 1 + BlankRun(s[1..]) else 0
  }

  /** `.replaceAll("Syn. --[ ]*", "")`: each marker and the spaces after it are deleted. */
  function RemoveSynDashes(s: string): (r: string)
    ensures |r| <= |s|
    decreases |s|
  {
    if s == [] then []
    else if SynMarker(s, " --") then RemoveSynDashes(s[7 + BlankRun(s[7..])..])
    else [s[0]] + RemoveSynDashes(s[1..])
  }

  /** `.replaceAll("Syn. -- ", "")`: each marker with exactly one space after it is deleted. */
  function RemoveSynDashSpace(s: string): (r: string)
    ensures |r| <= |s|
    decreases |s|
  {
    if s == [] then []
    else if SynMarker(s, " -- ") then RemoveSynDashSpace(s[8..])
    else [s[0]] + RemoveSynDashSpace(s[1..])
  }

  /** A leading marker goes, with every space after it. */
  lemma SynDashesLead(c: char, blanks: string, rest: string)
    requires !IsLineTerminator(c)
    requires forall k :: 0 <= k < |blanks| ==> blanks[k] == ' '
    requires rest == [] || rest[0] != ' '
    ensures RemoveSynDashes(("Syn" + [c] + " --") + (blanks + rest)) == RemoveSynDashes(rest)
  {
    var m := "Syn" + [c] + " --";
    var t := blanks + rest;
    var s := m + t;
    assert |m| == 7 && m[..3] == "Syn" && m[3] == c && m[4..7] == " --";
    assert s[..3] == m[..3] && s[3] == m[3] && s[4..7] == m[4..7];
    assert SynMarker(s, " --");
    assert s[7..] == t;
    BlankRunOf(blanks, rest);
    assert t[|blanks|..] == rest;
    assert s[7 + |blanks|..] == rest;
  }

  lemma {:induction false} BlankRunOf(blanks: string, rest: string)
    requires forall k :: 0 <= k < |blanks| ==> blanks[k] == ' '
    requires rest == [] || rest[0] != ' '
    ensures BlankRun(blanks + rest) == |blanks|
    decreases |blanks|
  {
    if blanks != [] {
      assert (blanks + rest)[1..] == blanks[1..] + rest;
      BlankRunOf(blanks[1..], rest);
    } else {
      assert blanks + rest == rest;
    }
  }

  /** A leading strict marker goes, and only the one space after it. */
  lemma SynDashSpaceLead(c: char, rest: string)
    requires !IsLineTerminator(c)
    ensures RemoveSynDashSpace("Syn" + [c] + " -- " + rest) == RemoveSynDashSpace(rest)
  {
    var s := "Syn" + [c] + " -- " + rest;
    assert s[..3] == "Syn" && s[3] == c && s[4..8] == " -- ";
    assert s[8..] == rest;
  }

  /** Text without the letter `S` is left alone by both marker rules. */
  lemma SynMarkersAbsent(s: string)
    requires 'S' !in s
    ensures RemoveSynDashes(s) == s && RemoveSynDashSpace(s) == s
  {
    SynDashesAbsent(s);
    SynDashSpaceAbsent(s);
  }

  lemma {:induction false} SynDashesAbsent(s: string)
    requires 'S' !in s
    ensures RemoveSynDashes(s) == s
    decreases |s|
  {
    if s != [] {
      assert !SynMarker(s, " --") by {
        if |s| >= 3 {
          assert s[..3][0] == s[0];
        }
      }
      SynDashesAbsent(s[1..]);
    }
  }

  lemma {:induction false} SynDashSpaceAbsent(s: string)
    requires 'S' !in s
    ensures RemoveSynDashSpace(s) == s
    decreases |s|
  {
    if s != [] {
      assert !SynMarker(s, " -- ") by {
        if |s| >= 3 {
          assert s[..3][0] == s[0];
        }
      }
      SynDashSpaceAbsent(s[1..]);
    }
  }

  // ---------------------------------------------------------------------
  // Verb morphology
  // ---------------------------------------------------------------------

  /** One label slot per token; a token the table does not know keeps an empty slot. */
  function Slots(tokens: seq<string>, abbr: Abbreviations): (r: seq<Option<string>>)
    ensures |r| == |tokens|
  {
    seq(|tokens|, i requires 0 <= i < |tokens| => Lookup(abbr, Trim(tokens[i])))
  }

  /**
   * The i-th `<conjf>` is paired with the i-th `<pos>` under the same
   * `<vmorph>`; a form past the last `<pos>` gets no labels.
   */
  function MorphEntries(conjfs: seq<Hit>, poss: seq<Hit>, abbr: Abbreviations): (r: seq<VerbMorphologyEntry>)
    ensures |r| == |conjfs|
  {
    seq(|conjfs|, i requires 0 <= i < |conjfs| =>
      VerbMorphologyEntry(TextContent(conjfs[i].node),
        if i < |poss| then Slots(Tokens(TextContent(poss[i].node)), abbr) else []))
  }

  /** Each entry carries its own form and as many label slots as its `<pos>` has tokens. */
  lemma MorphPairing(conjfs: seq<Hit>, poss: seq<Hit>, abbr: Abbreviations, i: nat)
    requires i < |conjfs|
    ensures MorphEntries(conjfs, poss, abbr)[i].conjugatedForm == TextContent(conjfs[i].node)
    ensures i >= |poss| ==> MorphEntries(conjfs, poss, abbr)[i].partsOfSpeech == []
    ensures i < |poss| ==> |MorphEntries(conjfs, poss, abbr)[i].partsOfSpeech| == |Tokens(TextContent(poss[i].node))|
    ensures forall j :: 0 <= j < |MorphEntries(conjfs, poss, abbr)[i].partsOfSpeech| ==>
      (MorphEntries(conjfs, poss, abbr)[i].partsOfSpeech[j].Some? <==> Trim(Tokens(TextContent(poss[i].node))[j]) in abbr)
  {
  }

  /** The verb morphology of a `<vmorph>` hit. */
  function VerbMorphology(vm: Hit, abbr: Abbreviations): seq<VerbMorphologyEntry>
  {
    MorphEntries(DescendantsByTag(vm, "conjf"), DescendantsByTag(vm, "pos"), abbr)
  }

  // ---------------------------------------------------------------------
  // parseDefinition
  // ---------------------------------------------------------------------

  /** The first tag's text, cleaned by `f`, when the tag is present. */
  function Optional(root: Node, tag: string, f: string -> string): Option<string>
  {
    if HasTag(root, tag) then Some(f(FirstText(root, tag))) else None
  }

  /** The definition a new entry gets from its block: only with a `<def>`, whose source is not trimmed. */
  function FirstDefinition(root: Node): (r: seq<Definition>)
    ensures |r| <= 1
    ensures |r| == 1 <==> HasTag(root, "def")
  {
    if HasTag(root, "def") then
      [Definition(CleanQuotes(Clean(FirstText(root, "def"))), None, Optional(root, "source", Fold))]
    else []
  }

  /**
   * The definition a new entry gets: its text folded, trimmed and with the
   * quote markers converted; no mark; a source exactly when the block has a
   * `<source>`, folded character by character but not trimmed.
   */
  lemma FirstDefinitionContent(root: Node)
    requires HasTag(root, "def")
    ensures var d := FirstDefinition(root)[0];
      d.definition == CleanQuotes(Clean(FirstText(root, "def"))) &&
      '\n' !in d.definition && TrimmedEnds(d.definition) && QuotesConverted(d.definition) &&
      d.mark == None &&
      (d.source.Some? <==> HasTag(root, "source")) &&
      (d.source.Some? ==> var raw := FirstText(root, "source");
        |d.source.value| == |raw| &&
        forall k :: 0 <= k < |raw| ==> d.source.value[k] == if raw[k] == '\n' then ' ' else raw[k])
  {
    CleanSpec(FirstText(root, "def"));
    CleanQuotesSpec(Clean(FirstText(root, "def")));
    if HasTag(root, "source") {
      FoldSpec(FirstText(root, "source"));
    }
  }

  /** The synonyms a new entry gets from its first `<syn>`: split on `,`, not trimmed. */
  function FirstSynonyms(root: Node): seq<string>
  {
    if HasTag(root, "syn") then Split(RemoveSynDashes(Fold(FirstText(root, "syn"))), ",") else []
  }

  /**
   * What parseDefinition makes of a parsed block: nothing without an
   * `<ent>`, otherwise a new entry whose fields come from the first tag of
   * each kind, with every `<pos>` outside a `<def>` contributing labels.
   */
  function DefinitionEntry(root: Node, abbr: Abbreviations): (r: Option<EntryValue>)
    ensures r.None? <==> !HasTag(root, "ent")
    ensures r.Some? ==> r.value.entryWord == Some(Clean(FirstText(root, "ent")))
    ensures r.Some? ==> |r.value.definitions| <= 1 && r.value.quotes == [] && r.value.synonym.source == None
  {
    if !HasTag(root, "ent") then None
    else
      Some(EntryValue(
        Some(Clean(FirstText(root, "ent"))),
        Optional(root, "hw", NormalizeHeadword),
        Optional(root, "ety", Clean),
        FirstDefinition(root),
        PosLabels(ByTag(root, "pos"), abbr),
        Synonym(FirstSynonyms(root), None),
        if HasTag(root, "vmorph") then VerbMorphology(ByTag(root, "vmorph")[0], abbr) else [],
        []))
  }

  // ---------------------------------------------------------------------
  // The continuation mergers
  // ---------------------------------------------------------------------

  /** parseQuote on values: one quote appended exactly when the block has a `<q>`. */
  function WithQuote(v: EntryValue, root: Node): (r: EntryValue)
    ensures r.(quotes := v.quotes) == v
    ensures |r.quotes| == |v.quotes| + (if HasTag(root, "q") then 1 else 0)
    ensures r.quotes[..|v.quotes|] == v.quotes
  {
    if HasTag(root, "q") then
      var quote := Quote(Trim(FirstText(root, "q")), Optional(root, "qau", Clean), Optional(root, "source", Clean));
      v.(quotes := v.quotes + [quote])
    else v
  }

  /**
   * An optional field filled from the first `tag`: present exactly when the
   * block has that tag, and then its text folded and trimmed.
   */
  predicate CleanedTag(o: Option<string>, root: Node, tag: string)
  {
    (o.Some? <==> HasTag(root, tag)) &&
    (o.Some? ==>
       HasTag(root, tag) && o.value == Clean(FirstText(root, tag)) && '\n' !in o.value && TrimmedEnds(o.value))
  }

  /** Optional with Clean gives a cleaned field. */
  lemma OptionalCleaned(root: Node, tag: string)
    ensures CleanedTag(Optional(root, tag, Clean), root, tag)
  {
    if HasTag(root, tag) {
      CleanSpec(FirstText(root, tag));
    }
  }

  /**
   * The quote parseQuote appends: the `<q>` text trimmed but not folded, an
   * author exactly with a `<qau>` and a source exactly with a `<source>`,
   * both folded and trimmed.
   */
  lemma WithQuoteContent(v: EntryValue, root: Node)
    requires HasTag(root, "q")
    ensures var q := WithQuote(v, root).quotes[|v.quotes|];
      q.text == Trim(FirstText(root, "q")) && TrimmedEnds(q.text) &&
      CleanedTag(q.author, root, "qau") && CleanedTag(q.source, root, "source")
  {
    TrimSpec(FirstText(root, "q"));
    OptionalCleaned(root, "qau");
    OptionalCleaned(root, "source");
  }

  /** parseMoreDefinition on values: one definition appended exactly when the block has both `<sn>` and `<def>`. */
  function WithMoreDefinition(v: EntryValue, root: Node): (r: EntryValue)
    ensures r.(definitions := v.definitions) == v
    ensures |r.definitions| == |v.definitions| + (if HasTag(root, "sn") && HasTag(root, "def") then 1 else 0)
    ensures r.definitions[..|v.definitions|] == v.definitions
  {
    if HasTag(root, "sn") && HasTag(root, "def") then
      var definition := Definition(CleanQuotes(Clean(FirstText(root, "def"))),
        Optional(root, "mark", Clean), Optional(root, "source", Clean));
      v.(definitions := v.definitions + [definition])
    else v
  }

  /**
   * The definition parseMoreDefinition appends: its text folded, trimmed and
   * with the quote markers converted; a mark exactly with a `<mark>` and a
   * source exactly with a `<source>`, both folded and trimmed.
   */
  lemma WithMoreDefinitionContent(v: EntryValue, root: Node)
    requires HasTag(root, "sn") && HasTag(root, "def")
    ensures var d := WithMoreDefinition(v, root).definitions[|v.definitions|];
      d.definition == CleanQuotes(Clean(FirstText(root, "def"))) &&
      '\n' !in d.definition && TrimmedEnds(d.definition) && QuotesConverted(d.definition) &&
      CleanedTag(d.mark, root, "mark") && CleanedTag(d.source, root, "source")
  {
    CleanSpec(FirstText(root, "def"));
    CleanQuotesSpec(Clean(FirstText(root, "def")));
    OptionalCleaned(root, "mark");
    OptionalCleaned(root, "source");
  }

  /** The pieces parseMoreSynonyms appends: marker removed, every `.` removed, split on `"; "`. */
  function MoreSynonyms(root: Node): seq<string>
    requires HasTag(root, "syn")
  {
    var text := ReplaceAll(RemoveSynDashSpace(Fold(FirstText(root, "syn"))), ".", "");
    Split(text, "; ")
  }

  /**
   * parseMoreSynonyms on values: with a `<syn>`, its pieces are appended
   * after the existing synonyms and the source is replaced when the block
   * has a `<source>`; without one nothing changes.
   */
  function WithMoreSynonyms(v: EntryValue, root: Node): (r: EntryValue)
    ensures r.(synonym := v.synonym) == v
    ensures !HasTag(root, "syn") ==> r == v
    ensures |r.synonym.synonymList| >= |v.synonym.synonymList|
    ensures r.synonym.synonymList[..|v.synonym.synonymList|] == v.synonym.synonymList
    ensures r.synonym.source != v.synonym.source ==> HasTag(root, "syn") && HasTag(root, "source")
    ensures forall k :: |v.synonym.synonymList| <= k < |r.synonym.synonymList| ==> '.' !in r.synonym.synonymList[k]
  {
    if HasTag(root, "syn") then
      var text := ReplaceAll(RemoveSynDashSpace(Fold(FirstText(root, "syn"))), ".", "");
      ReplaceCharRemoves(RemoveSynDashSpace(Fold(FirstText(root, "syn"))), '.', "");
      SplitPieces(text, "; ");
      var list := v.synonym.synonymList + MoreSynonyms(root);
      var source := if HasTag(root, "source") then Some(Trim(FirstText(root, "source"))) else v.synonym.source;
      v.(synonym := Synonym(list, source))
    else v
  }

  /**
   * With a `<syn>`, parseMoreSynonyms appends exactly the pieces of its
   * text, none holding a `.` or the separator `"; "`, and the source becomes
   * the trimmed `<source>` text when there is one and stays as it was
   * otherwise.
   */
  lemma WithMoreSynonymsContent(v: EntryValue, root: Node)
    requires HasTag(root, "syn")
    ensures var r := WithMoreSynonyms(v, root);
      r.synonym.synonymList == v.synonym.synonymList + MoreSynonyms(root) &&
      (HasTag(root, "source") ==> r.synonym.source == Some(Trim(FirstText(root, "source")))) &&
      (!HasTag(root, "source") ==> r.synonym.source == v.synonym.source)
    ensures forall k :: 0 <= k < |MoreSynonyms(root)| ==>
      '.' !in MoreSynonyms(root)[k] && !Contains(MoreSynonyms(root)[k], "; ")
  {
    var text := ReplaceAll(RemoveSynDashSpace(Fold(FirstText(root, "syn"))), ".", "");
    ReplaceCharRemoves(RemoveSynDashSpace(Fold(FirstText(root, "syn"))), '.', "");
    SplitPieces(text, "; ");
  }

  /** What a continuation block does to the previous entry: quote, then definition, then synonyms. */
  function Continue(v: EntryValue, root: Node): EntryValue
  {
    WithMoreSynonyms(WithMoreDefinition(WithQuote(v, root), root), root)
  }

  /** A continuation changes only the quotes, definitions and synonyms, and only by appending. */
  lemma ContinueAppends(v: EntryValue, root: Node)
    ensures var r := Continue(v, root);
      r.entryWord == v.entryWord && r.headWord == v.headWord && r.etymology == v.etymology &&
      r.partsOfSpeech == v.partsOfSpeech && r.verbMorphologyEntries == v.verbMorphologyEntries &&
      r.quotes[..|v.quotes|] == v.quotes && r.definitions[..|v.definitions|] == v.definitions &&
      r.synonym.synonymList[..|v.synonym.synonymList|] == v.synonym.synonymList
  {
  }
}
