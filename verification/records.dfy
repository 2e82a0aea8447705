/** The index entries `index_file` produces and the translator reads back. */
module Records {
  import opened Wrappers

  /** A metadata value: the indexer writes file paths and chunk positions;
      callers may add values of either kind. */
  datatype MetaValue = Str(s: string) | Int(n: int)

  type Metadata = map<string, MetaValue>

  /** One index entry: the chunk's text (an entry loaded from a saved index
      may lack it), its embedding vector and its metadata. */
  datatype ChunkRecord<V> = ChunkRecord(text: Option<string>, embedding: seq<V>, metadata: Metadata)

  /** The entry's text, or "" when it has none. */
  function TextOf<V>(c: ChunkRecord<V>): string {
    c.text.GetOr("")
  }
}
