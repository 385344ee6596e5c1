/** internal/translator: the translated pieces of a request, each tagged
    with the position of the chunk it was cut from, and their reordering
    into request order once every concurrent translation has come back. */
module InternalTranslator {
  import opened Common
  import opened Sorting

  /** One translated chunk: its position among the chunks, the text sent
      and the text received. */
  datatype TranslatedSequence = TranslatedSequence(index: int, original: bytes, translated: bytes)

  function IndexOf(s: TranslatedSequence): int { s.index }

  /** `SortTranslatedSequence`: ascending by chunk position, in place. */
  method SortTranslatedSequence(sequences: array<TranslatedSequence>)
    modifies sequences
    ensures SortedBy(sequences[..], IndexOf)
    ensures multiset(sequences[..]) == multiset(old(sequences[..]))
  {
    SortByKey(sequences, IndexOf);
  }

  /** When every chunk's translation came back exactly once, the sorted
      pieces are in request order: the k-th piece is the k-th chunk's. */
  lemma RequestOrder(sequences: seq<TranslatedSequence>)
    requires SortedBy(sequences, IndexOf) && DistinctKeys(sequences, IndexOf)
    requires forall k :: 0 <= k < |sequences| ==> 0 <= sequences[k].index < |sequences|
    ensures forall k :: 0 <= k < |sequences| ==> sequences[k].index == k
  {
    var keys := seq(|sequences|, k requires 0 <= k < |sequences| => sequences[k].index);
    forall p, q | 0 <= p < q < |keys| ensures keys[p] < keys[q] {
      assert IndexOf(sequences[p]) <= IndexOf(sequences[q]);
      assert IndexOf(sequences[p]) != IndexOf(sequences[q]);
    }
    PositionsInOrder(keys);
    forall k | 0 <= k < |sequences| ensures sequences[k].index == k {
      assert keys[k] == sequences[k].index;
    }
  }
}
