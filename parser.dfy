/**
 * XmlParserDOMImpl: the methods that parse one block and fill in an Entry
 * object field by field. Each is proved to leave the entry exactly as the
 * matching function on values of the Extractor module says.
 */
module DomParser {
  import opened Wrappers
  import opened Text
  import opened Dom
  import opened Entities
  import opened Extractor

  /** The result of parseDefinition: a parser error, no entry (null), or a new entry. */
  datatype Parsed = ParseError | NoEntry | Created(entry: Entry)

  /** parseDefinition. */
  method ParseDefinition(xmlData: string, parse: Parser, abbr: Abbreviations) returns (r: Parsed)
    ensures r.ParseError? <==> parse(xmlData).None?
    ensures r.NoEntry? <==> parse(xmlData).Some? && DefinitionEntry(parse(xmlData).value, abbr).None?
    ensures r.Created? ==> (fresh(r.entry) && parse(xmlData).Some? &&
      DefinitionEntry(parse(xmlData).value, abbr) == Some(r.entry.Value()))
  {
    var doc := parse(xmlData);
    if doc.None? {
      return ParseError;
    }
    var root := doc.value;
    var ents := ByTag(root, "ent");
    if |ents| == 0 {
      return NoEntry;
    }
    var entry := new Entry();
    FillEntry(entry, root, abbr);
    return Created(entry);
  }

  /** The body of parseDefinition once the block is known to have an `<ent>`. */
  method FillEntry(entry: Entry, root: Node, abbr: Abbreviations)
    requires HasTag(root, "ent") && entry.Value() == EmptyEntry
    modifies entry
    ensures Some(entry.Value()) == DefinitionEntry(root, abbr)
  {
    ghost var v := DefinitionEntry(root, abbr).value;
    SetScalars(entry, root);
    AddPartsOfSpeech(entry, ByTag(root, "pos"), abbr);
    AppendEmpty(PosLabels(ByTag(root, "pos"), abbr));
    var syns := ByTag(root, "syn");
    if |syns| > 0 {
      var text := RemoveSynDashes(Fold(TextContent(syns[0].node)));
      entry.synonym := entry.synonym.(synonymList := entry.synonym.synonymList + Split(text, ","));
      AppendEmpty(Split(text, ","));
    }
    assert entry.synonym == v.synonym;
    var vmorphs := ByTag(root, "vmorph");
    if |vmorphs| > 0 {
      AddVerbMorphology(entry, vmorphs[0], abbr);
      AppendEmpty(VerbMorphology(vmorphs[0], abbr));
    }
    assert entry.verbMorphologyEntries == v.verbMorphologyEntries;
  }

  /** The word, headword, first definition and etymology of a new entry. */
  method SetScalars(entry: Entry, root: Node)
    requires HasTag(root, "ent") && entry.Value() == EmptyEntry
    modifies entry
    ensures entry.Value() == EmptyEntry.(entryWord := Some(Clean(FirstText(root, "ent"))),
      headWord := Optional(root, "hw", NormalizeHeadword), etymology := Optional(root, "ety", Clean),
      definitions := FirstDefinition(root))
  {
    var ents := ByTag(root, "ent");
    entry.entryWord := Some(Clean(TextContent(ents[0].node)));
    SetHeadword(entry, root);
    SetFirstDefinition(entry, root);
    SetEtymology(entry, root);
  }

  /** The headword of a new entry, cleaned, when the block has an `<hw>`. */
  method SetHeadword(entry: Entry, root: Node)
    requires entry.headWord == None
    modifies entry
    ensures entry.Value() == old(entry.Value()).(headWord := Optional(root, "hw", NormalizeHeadword))
  {
    var hws := ByTag(root, "hw");
    if |hws| > 0 {
      entry.headWord := Some(NormalizeHeadword(TextContent(hws[0].node)));
    }
  }

  /** The etymology of a new entry, cleaned, when the block has an `<ety>`. */
  method SetEtymology(entry: Entry, root: Node)
    requires entry.etymology == None
    modifies entry
    ensures entry.Value() == old(entry.Value()).(etymology := Optional(root, "ety", Clean))
  {
    var etys := ByTag(root, "ety");
    if |etys| > 0 {
      entry.etymology := Some(Clean(TextContent(etys[0].node)));
    }
  }

  /** The first definition of a new entry, when the block has a `<def>`. */
  method SetFirstDefinition(entry: Entry, root: Node)
    requires entry.definitions == []
    modifies entry
    ensures entry.Value() == old(entry.Value()).(definitions := FirstDefinition(root))
  {
    var defs := ByTag(root, "def");
    if |defs| > 0 {
      var text := CleanQuotes(Clean(TextContent(defs[0].node)));
      var sources := ByTag(root, "source");
      var source := if |sources| > 0 then Some(Fold(TextContent(sources[0].node))) else None;
      entry.definitions := entry.definitions + [Definition(text, None, source)];
      AppendEmpty([Definition(text, None, source)]);
    }
  }

  /** The `<pos>` loop of parseDefinition: skip those inside a `<def>`, append resolved labels. */
  method AddPartsOfSpeech(entry: Entry, posNodes: seq<Hit>, abbr: Abbreviations)
    modifies entry
    ensures entry.Value() == old(entry.Value()).(partsOfSpeech := old(entry.partsOfSpeech) + PosLabels(posNodes, abbr))
  {
    assert PosLabels(posNodes[..0], abbr) == [] by {
      assert posNodes[..0] == [];
    }
    AppendNothing(entry.partsOfSpeech);
    for i := 0 to |posNodes|
      invariant entry.partsOfSpeech == old(entry.partsOfSpeech) + PosLabels(posNodes[..i], abbr)
      invariant entry.Value() == old(entry.Value()).(partsOfSpeech := entry.partsOfSpeech)
    {
      PosLabelsStep(posNodes, i, abbr);
      AddHitLabels(entry, posNodes[i], abbr);
      AppendAssoc(old(entry.partsOfSpeech), PosLabels(posNodes[..i], abbr), LabelsOf(posNodes[i], abbr));
    }
    assert posNodes[..|posNodes|] == posNodes;
  }

  /** One pass of the `<pos>` loop: nothing for a tag inside a `<def>`, else its resolved labels. */
  method AddHitLabels(entry: Entry, h: Hit, abbr: Abbreviations)
    modifies entry
    ensures entry.Value() == old(entry.Value()).(partsOfSpeech := old(entry.partsOfSpeech) + LabelsOf(h, abbr))
  {
    var inside := IsInsideDef(h.ancestors);
    if inside {
      AppendNothing(entry.partsOfSpeech);
    } else {
      AddLabels(entry, Tokens(TextContent(h.node)), abbr);
    }
  }

  /** The token loop for one `<pos>`: each known abbreviation appends its label. */
  method AddLabels(entry: Entry, tokens: seq<string>, abbr: Abbreviations)
    modifies entry
    ensures entry.Value() == old(entry.Value()).(partsOfSpeech := old(entry.partsOfSpeech) + Resolved(tokens, abbr))
  {
    assert Resolved(tokens[..0], abbr) == [] by {
      assert tokens[..0] == [];
    }
    AppendNothing(entry.partsOfSpeech);
    for j := 0 to |tokens|
      invariant entry.partsOfSpeech == old(entry.partsOfSpeech) + Resolved(tokens[..j], abbr)
      invariant entry.Value() == old(entry.Value()).(partsOfSpeech := entry.partsOfSpeech)
    {
      assert tokens[..j + 1][..j] == tokens[..j];
      var mapped := Lookup(abbr, Trim(tokens[j]));
      if mapped.Some? {
        entry.partsOfSpeech := entry.partsOfSpeech + [mapped.value];
        AppendAssoc(old(entry.partsOfSpeech), Resolved(tokens[..j], abbr), [mapped.value]);
      }
    }
    assert tokens[..|tokens|] == tokens;
  }

  /** The `<vmorph>` loop of parseDefinition: one entry per `<conjf>`, labels paired by position. */
  method AddVerbMorphology(entry: Entry, vm: Hit, abbr: Abbreviations)
    modifies entry
    ensures entry.Value() == old(entry.Value()).(verbMorphologyEntries := old(entry.verbMorphologyEntries) + VerbMorphology(vm, abbr))
  {
    var conjfs := DescendantsByTag(vm, "conjf");
    var poss := DescendantsByTag(vm, "pos");
    ghost var all := MorphEntries(conjfs, poss, abbr);
    assert all[..0] == [];
    AppendNothing(entry.verbMorphologyEntries);
    for i := 0 to |conjfs|
      invariant entry.verbMorphologyEntries == old(entry.verbMorphologyEntries) + all[..i]
      invariant entry.Value() == old(entry.Value()).(verbMorphologyEntries := entry.verbMorphologyEntries)
    {
      var slots := [];
      if |poss| > i {
        slots := LabelSlots(Tokens(TextContent(poss[i].node)), abbr);
      }
      var morphology := VerbMorphologyEntry(TextContent(conjfs[i].node), slots);
      MorphStep(conjfs, poss, abbr, i, morphology);
      entry.verbMorphologyEntries := entry.verbMorphologyEntries + [morphology];
      AppendAssoc(old(entry.verbMorphologyEntries), all[..i], [morphology]);
    }
    assert all[..|conjfs|] == all;
  }

  /** The entry built for the i-th `<conjf>` extends the entries built before it. */
  lemma MorphStep(conjfs: seq<Hit>, poss: seq<Hit>, abbr: Abbreviations, i: nat, m: VerbMorphologyEntry)
    requires i < |conjfs|
    requires m == VerbMorphologyEntry(TextContent(conjfs[i].node),
      if i < |poss| then Slots(Tokens(TextContent(poss[i].node)), abbr) else [])
    ensures MorphEntries(conjfs, poss, abbr)[..i + 1] == MorphEntries(conjfs, poss, abbr)[..i] + [m]
  {
    var all := MorphEntries(conjfs, poss, abbr);
    assert all[i] == m;
    assert all[..i + 1] == all[..i] + [all[i]];
  }

  /** The label slots of one `<pos>` under a `<vmorph>`, filled token by token. */
  method LabelSlots(tokens: seq<string>, abbr: Abbreviations) returns (slots: seq<Option<string>>)
    ensures slots == Slots(tokens, abbr)
  {
    slots := [];
    for j := 0 to |tokens|
      invariant slots == Slots(tokens, abbr)[..j]
    {
      slots := slots + [Lookup(abbr, Trim(tokens[j]))];
    }
  }

  lemma PosLabelsStep(hits: seq<Hit>, i: nat, abbr: Abbreviations)
    requires i < |hits|
    ensures PosLabels(hits[..i + 1], abbr) == PosLabels(hits[..i], abbr) + LabelsOf(hits[i], abbr)
  {
    assert hits[..i + 1][..i] == hits[..i];
  }

  lemma AppendAssoc<T>(a: seq<T>, b: seq<T>, c: seq<T>)
    ensures a + b + c == a + (b + c)
  {
  }

  lemma AppendEmpty<T>(a: seq<T>)
    ensures [] + a == a
  {
  }

  lemma AppendNothing<T>(a: seq<T>)
    ensures a + [] == a
  {
  }

  /** parseQuote. */
  method ParseQuote(xmlData: string, parse: Parser, entry: Entry) returns (ok: bool)
    modifies entry
    ensures ok <==> parse(xmlData).Some?
    ensures ok ==> entry.Value() == WithQuote(old(entry.Value()), parse(xmlData).value)
    ensures !ok ==> entry.Value() == old(entry.Value())
  {
    var doc := parse(xmlData);
    if doc.None? {
      return false;
    }
    var root := doc.value;
    var qs := ByTag(root, "q");
    if |qs| > 0 {
      var text := Trim(TextContent(qs[0].node));
      var qaus := ByTag(root, "qau");
      var author := if |qaus| > 0 then Some(Clean(TextContent(qaus[0].node))) else None;
      var sources := ByTag(root, "source");
      var source := if |sources| > 0 then Some(Clean(TextContent(sources[0].node))) else None;
      entry.quotes := entry.quotes + [Quote(text, author, source)];
    }
    return true;
  }

  /** parseMoreDefinition. */
  method ParseMoreDefinition(xmlData: string, parse: Parser, entry: Entry) returns (ok: bool)
    modifies entry
    ensures ok <==> parse(xmlData).Some?
    ensures ok ==> entry.Value() == WithMoreDefinition(old(entry.Value()), parse(xmlData).value)
    ensures !ok ==> entry.Value() == old(entry.Value())
  {
    var doc := parse(xmlData);
    if doc.None? {
      return false;
    }
    var root := doc.value;
    var sns := ByTag(root, "sn");
    if |sns| > 0 {
      var defs := ByTag(root, "def");
      if |defs| > 0 {
        var text := Clean(TextContent(defs[0].node));
        var marks := ByTag(root, "mark");
        var mark := if |marks| > 0 then Some(Clean(TextContent(marks[0].node))) else None;
        var sources := ByTag(root, "source");
        var source := if |sources| > 0 then Some(Clean(TextContent(sources[0].node))) else None;
        var definition := Definition(text, mark, source);
        definition := definition.(definition := CleanQuotes(definition.definition));
        entry.definitions := entry.definitions + [definition];
      }
    }
    return true;
  }

  /** parseMoreSynonyms. */
  method ParseMoreSynonyms(xmlData: string, parse: Parser, entry: Entry) returns (ok: bool)
    modifies entry
    ensures ok <==> parse(xmlData).Some?
    ensures ok ==> entry.Value() == WithMoreSynonyms(old(entry.Value()), parse(xmlData).value)
    ensures !ok ==> entry.Value() == old(entry.Value())
  {
    var doc := parse(xmlData);
    if doc.None? {
      return false;
    }
    var root := doc.value;
    var syns := ByTag(root, "syn");
    if |syns| > 0 {
      var text := RemoveSynDashSpace(Fold(TextContent(syns[0].node)));
      text := ReplaceAll(text, ".", "");
      entry.synonym := entry.synonym.(synonymList := entry.synonym.synonymList + Split(text, "; "));
      var sources := ByTag(root, "source");
      if |sources| > 0 {
        entry.synonym := entry.synonym.(source := Some(Trim(TextContent(sources[0].node))));
      }
    }
    return true;
  }
}
