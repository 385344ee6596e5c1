/** pkg/translator: the same reordering for the translator the
    cmd/nicotrans server uses, whose pieces carry only the translated text. */
module PkgTranslator {
  import opened Common
  import opened Sorting

  /** One translated chunk: its position among the chunks and the text
      received. */
  datatype TranslatedSequence = TranslatedSequence(index: int, text: bytes)

  function IndexOf(s: TranslatedSequence): int { s.index }

  /** `sortTranslatedSequence`: ascending by chunk position, in place. */
  method SortTranslatedSequence(sequences: array<TranslatedSequence>)
    modifies sequences
    ensures SortedBy(sequences[..], IndexOf)
    ensures multiset(sequences[..]) == multiset(old(sequences[..]))
  {
    SortByKey(sequences, IndexOf);
  }
}
