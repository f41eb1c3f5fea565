/**
 * DictionaryEntryMapper: the field-by-field copy between the entry the
 * parser fills in (models.DictionaryEntry, class Entry) and the storage
 * record (data.DictionaryEntry, class StoredEntry). Both directions copy the
 * same fields the same way, and neither copies the etymology.
 */
module Mapper {
  import opened Wrappers
  import opened Entities

  /**
   * data.DictionaryEntry: the storage record, with the same fields as the
   * parser's entry.
   */
  class StoredEntry {
    var entryWord: Option<string>
    var headWord: Option<string>
    var etymology: Option<string>
    var definitions: seq<Definition>
    var partsOfSpeech: seq<string>
    var synonym: Synonym
    var verbMorphologyEntries: seq<VerbMorphologyEntry>
    var quotes: seq<Quote>

    /** A new record: no scalar field set, every list empty. */
    constructor ()
      ensures Value() == EmptyEntry
    {
      entryWord := None;
      headWord := None;
      etymology := None;
      definitions := [];
      partsOfSpeech := [];
      synonym := Synonym([], None);
      verbMorphologyEntries := [];
      quotes := [];
    }

    function Value(): EntryValue
      reads this
    {
      EntryValue(entryWord, headWord, etymology, definitions, partsOfSpeech,
        synonym, verbMorphologyEntries, quotes)
    }
  }

  /**
   * What either direction of the mapper produces from the fields of its
   * argument: every field copied except the etymology, which stays unset.
   */
  function Mapped(v: EntryValue): EntryValue
  {
    EntryValue(v.entryWord, v.headWord, None, v.definitions, v.partsOfSpeech,
      Synonym(v.synonym.synonymList, v.synonym.source), v.verbMorphologyEntries, v.quotes)
  }

  /** The mapper keeps every field but the etymology, and leaves that one unset. */
  lemma MappedDropsEtymology(v: EntryValue)
    ensures Mapped(v).etymology.None?
    ensures Mapped(v).(etymology := v.etymology) == v
  {
  }

  /** toPojo(toEntity(p)) agrees with p on every field except the etymology. */
  lemma MappedRoundTrip(v: EntryValue)
    ensures Mapped(Mapped(v)) == v.(etymology := None)
    ensures Mapped(Mapped(v)) == Mapped(v)
  {
  }

  /** Two entries map to the same record exactly when they differ at most in their etymology. */
  lemma MappedEqual(a: EntryValue, b: EntryValue)
    ensures Mapped(a) == Mapped(b) <==> a.(etymology := None) == b.(etymology := None)
  {
  }

  /** A definition copied field by field into a new object. */
  function CopyDefinition(d: Definition): Definition
  {
    Definition(d.definition, d.mark, d.source)
  }

  /** A quote copied field by field into a new object. */
  function CopyQuote(q: Quote): Quote
  {
    Quote(q.text, q.author, q.source)
  }

  /** A verb-morphology entry copied into a new object whose label list starts empty and receives addAll. */
  function CopyVerb(m: VerbMorphologyEntry): VerbMorphologyEntry
  {
    VerbMorphologyEntry(m.conjugatedForm, [] + m.partsOfSpeech)
  }

  /** Copying a verb-morphology entry into a new object keeps its value. */
  lemma CopyVerbKeeps(m: VerbMorphologyEntry)
    ensures CopyVerb(m) == m
  {
    assert [] + m.partsOfSpeech == m.partsOfSpeech;
  }

  /** toEntity: a new storage record holding the mapped fields of `pojo`, each list filled by its own loop. */
  method ToEntity(pojo: Entry) returns (entity: StoredEntry)
    ensures fresh(entity)
    ensures entity.Value() == Mapped(pojo.Value())
  {
    entity := new StoredEntry();
    entity.entryWord := pojo.entryWord;
    entity.headWord := pojo.headWord;
    ghost var named := EmptyEntry.(entryWord := pojo.entryWord, headWord := pojo.headWord);
    for i := 0 to |pojo.definitions|
      invariant entity.Value() == named.(definitions := pojo.definitions[..i])
    {
      entity.definitions := entity.definitions + [CopyDefinition(pojo.definitions[i])];
      assert pojo.definitions[..i + 1] == pojo.definitions[..i] + [pojo.definitions[i]];
    }
    assert pojo.definitions[..|pojo.definitions|] == pojo.definitions;
    entity.partsOfSpeech := pojo.partsOfSpeech;
    entity.synonym := Synonym(pojo.synonym.synonymList, pojo.synonym.source);
    ghost var listed := Mapped(pojo.Value()).(verbMorphologyEntries := [], quotes := []);
    for i := 0 to |pojo.verbMorphologyEntries|
      invariant entity.Value() == listed.(verbMorphologyEntries := pojo.verbMorphologyEntries[..i])
    {
      entity.verbMorphologyEntries := entity.verbMorphologyEntries + [CopyVerb(pojo.verbMorphologyEntries[i])];
      CopyVerbKeeps(pojo.verbMorphologyEntries[i]);
      assert pojo.verbMorphologyEntries[..i + 1] == pojo.verbMorphologyEntries[..i] + [pojo.verbMorphologyEntries[i]];
    }
    assert pojo.verbMorphologyEntries[..|pojo.verbMorphologyEntries|] == pojo.verbMorphologyEntries;
    for i := 0 to |pojo.quotes|
      invariant entity.Value() == listed.(verbMorphologyEntries := pojo.verbMorphologyEntries, quotes := pojo.quotes[..i])
    {
      entity.quotes := entity.quotes + [CopyQuote(pojo.quotes[i])];
      assert pojo.quotes[..i + 1] == pojo.quotes[..i] + [pojo.quotes[i]];
    }
    assert pojo.quotes[..|pojo.quotes|] == pojo.quotes;
  }

  /** toPojo: a new parser-side entry holding the mapped fields of the storage record `rec`. */
  method ToPojo(rec: StoredEntry) returns (entry: Entry)
    ensures fresh(entry)
    ensures entry.Value() == Mapped(rec.Value())
  {
    entry := new Entry();
    entry.entryWord := rec.entryWord;
    entry.headWord := rec.headWord;
    ghost var named := EmptyEntry.(entryWord := rec.entryWord, headWord := rec.headWord);
    for i := 0 to |rec.definitions|
      invariant entry.Value() == named.(definitions := rec.definitions[..i])
    {
      entry.definitions := entry.definitions + [CopyDefinition(rec.definitions[i])];
      assert rec.definitions[..i + 1] == rec.definitions[..i] + [rec.definitions[i]];
    }
    assert rec.definitions[..|rec.definitions|] == rec.definitions;
    entry.partsOfSpeech := rec.partsOfSpeech;
    entry.synonym := Synonym(rec.synonym.synonymList, rec.synonym.source);
    ghost var listed := Mapped(rec.Value()).(verbMorphologyEntries := [], quotes := []);
    for i := 0 to |rec.verbMorphologyEntries|
      invariant entry.Value() == listed.(verbMorphologyEntries := rec.verbMorphologyEntries[..i])
    {
      entry.verbMorphologyEntries := entry.verbMorphologyEntries + [CopyVerb(rec.verbMorphologyEntries[i])];
      CopyVerbKeeps(rec.verbMorphologyEntries[i]);
      assert rec.verbMorphologyEntries[..i + 1] == rec.verbMorphologyEntries[..i] + [rec.verbMorphologyEntries[i]];
    }
    assert rec.verbMorphologyEntries[..|rec.verbMorphologyEntries|] == rec.verbMorphologyEntries;
    for i := 0 to |rec.quotes|
      invariant entry.Value() == listed.(verbMorphologyEntries := rec.verbMorphologyEntries, quotes := rec.quotes[..i])
    {
      entry.quotes := entry.quotes + [CopyQuote(rec.quotes[i])];
      assert rec.quotes[..i + 1] == rec.quotes[..i] + [rec.quotes[i]];
    }
    assert rec.quotes[..|rec.quotes|] == rec.quotes;
  }
}
