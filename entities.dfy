/**
 * The dictionary entry the extractor fills in (models.DictionaryEntry) and
 * the records it holds. The records are values; the entry itself is an
 * object whose lists the parse methods append to in place.
 */
module Entities {
  import opened Wrappers

  /** models.Definition: the sense text, with an optional usage mark and source. */
  datatype Definition = Definition(definition: string, mark: Option<string>, source: Option<string>)

  /** models.Quote: a citation with its optional author and source. */
  datatype Quote = Quote(text: string, author: Option<string>, source: Option<string>)

  /** The synonym list of an entry and the source it was taken from (data.Synonym's shape). */
  datatype Synonym = Synonym(synonymList: seq<string>, source: Option<string>)

  /**
   * models.VerbMorphologyEntry: an inflected form and the part-of-speech
   * labels paired with it; an abbreviation the table does not know is kept
   * as an absent label.
   */
  datatype VerbMorphologyEntry = VerbMorphologyEntry(conjugatedForm: string, partsOfSpeech: seq<Option<string>>)

  /** The fields of an entry at one moment. */
  datatype EntryValue = EntryValue(
    entryWord: Option<string>,
    headWord: Option<string>,
    etymology: Option<string>,
    definitions: seq<Definition>,
    partsOfSpeech: seq<string>,
    synonym: Synonym,
    verbMorphologyEntries: seq<VerbMorphologyEntry>,
    quotes: seq<Quote>)

  /** A newly constructed entry: no scalar field set, every list empty. */
  const EmptyEntry := EntryValue(None, None, None, [], [], Synonym([], None), [], [])

  /** models.DictionaryEntry. */
  class Entry {
    var entryWord: Option<string>
    var headWord: Option<string>
    var etymology: Option<string>
    var definitions: seq<Definition>
    var partsOfSpeech: seq<string>
    var synonym: Synonym
    var verbMorphologyEntries: seq<VerbMorphologyEntry>
    var quotes: seq<Quote>

    constructor ()
      ensures Value() == EmptyEntry
    {
      entryWord := None;
      headWord := None;
      etymology := None;
      definitions := [];
      partsOfSpeech := [];
      synonym := Synonym([], None);
      verbMorphologyEntries := [];
      quotes := [];
    }

    function Value(): EntryValue
      reads this
    {
      EntryValue(entryWord, headWord, etymology, definitions, partsOfSpeech,
        synonym, verbMorphologyEntries, quotes)
    }
  }

  /** The fields of a list of entries, in order. */
  function Values(entries: seq<Entry>): (r: seq<EntryValue>)
    reads set e | e in entries
    ensures |r| == |entries|
  {
    if entries == [] then []
    else Values(entries[..|entries| - 1]) + [entries[|entries| - 1].Value()]
  }

  /** The i-th value is the fields of the i-th entry. */
  lemma {:induction false} ValuesAt(entries: seq<Entry>)
    ensures forall i :: 0 <= i < |entries| ==> Values(entries)[i] == entries[i].Value()
    decreases |entries|
  {
    if entries != [] {
      ValuesAt(entries[..|entries| - 1]);
    }
  }

  /** Appending an entry appends its fields. */
  lemma ValuesSnoc(entries: seq<Entry>, e: Entry)
    ensures Values(entries + [e]) == Values(entries) + [e.Value()]
  {
    assert (entries + [e])[..|entries|] == entries;
  }
}
