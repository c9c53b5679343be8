/** The cache decision of `load_or_build_inverted_index`
    (src/InvertedIndexes.py:84-115). The two cache files are modelled as a
    store whose entries may be absent; the archive checksum is an opaque
    string computed by the caller. */
module IndexCache {
  import opened Wrappers
  import opened InvertedIndex

  /** The saved index file and the saved checksum file, each present or not. */
  datatype Store = Store(index: Option<Index>, checksum: Option<string>)

  /** Both files exist and the stored checksum equals the current one
      (lines 93-98). */
  predicate Reusable(store: Store, current: string) {
    store.index.Some? && store.checksum == Some(current)
  }

  /** Returns the saved index when it is reusable; otherwise builds the index
      from the corpus and saves it with the current checksum. Either way the
      store afterwards holds the returned index under the current checksum,
      so a second call with the same checksum reuses it. */
  method LoadOrBuild(current: string, corpus: Corpus, store: Store) returns (idx: Index, after: Store)
    ensures Reusable(store, current) ==> idx == store.index.value && after == store
    ensures !Reusable(store, current) ==>
      && (forall k :: Lookup(idx, k) == CorpusHits(k, corpus))
      && WellFormed(idx)
    ensures Reusable(after, current) && after.index == Some(idx)
  {
    if Reusable(store, current) {
      return store.index.value, store;
    }
    idx := BuildInvertedIndex(corpus);
    after := Store(Some(idx), Some(current));
  }
}
