/** `index_file` and `index_directory`: turning files into index entries.
    The file system, the JSON parser and the embedding service are
    parameters: `Files` answers reads, `embed` returns a vector (empty when
    the service fails), and a directory is the list its recursive walk
    yields. */
module Indexer {
  import opened Wrappers
  import opened Text
  import opened Records
  import Chunker
  import Normalizer

  /** The file-reading side of the system: `read` gives a file's text and
      `readJson` its parsed object, or None when the file cannot be opened,
      decoded or parsed. */
  datatype Files = Files(read: string -> Option<string>, readJson: string -> Option<Normalizer.JsonObject>)

  // ---------------------------------------------------------------------
  // Path suffixes
  // ---------------------------------------------------------------------

  /** The last component of a slash-separated path. */
  function BaseName(path: string): (name: string)
    ensures |name| <= |path| && path == path[..|path| - |name|] + name
    ensures forall i :: 0 <= i < |name| ==> name[i] != '/'
    ensures |name| < |path| ==> path[|path| - |name| - 1] == '/'
  {
    path[RFind(path, '/') + 1..]
  }

  /** `pathlib`'s suffix: from the last dot of the last component on, unless
      that dot opens the name (a hidden file) or ends it. What it returns is
      stated in `SuffixSpec`. */
  function Suffix(path: string): string {
    var name := BaseName(path);
    var dot := RFind(name, '.');
    if 0 < dot < |name| - 1 then name[dot..] else []
  }

  /** The end of a string's end is an end of the string. */
  lemma EndOfEnd(s: string, n: nat, k: nat)
    requires n <= |s| && k <= n
    ensures s[|s| - n..][k..] == s[|s| - (n - k)..]
  {
  }

  /** The part of a name from its last dot on holds no other dot and no
      slash. */
  lemma AfterLastDot(name: string, dot: nat)
    requires dot < |name| && name[dot] == '.'
    requires forall k :: dot < k < |name| ==> name[k] != '.'
    requires forall k :: 0 <= k < |name| ==> name[k] != '/'
    ensures name[dot..][0] == '.'
    ensures forall i :: 1 <= i < |name[dot..]| ==> name[dot..][i] != '.' && name[dot..][i] != '/'
  {
    forall i | 1 <= i < |name[dot..]| ensures name[dot..][i] != '.' && name[dot..][i] != '/' {
      assert name[dot..][i] == name[dot + i];
    }
  }

  /** A suffix is a dot followed by at least one character, ends the path,
      and holds no other dot and no slash. */
  lemma SuffixSpec(path: string)
    ensures Suffix(path) != [] ==> 2 <= |Suffix(path)| <= |path| && Suffix(path)[0] == '.'
    ensures Suffix(path) != [] ==> path[|path| - |Suffix(path)|..] == Suffix(path)
    ensures forall i :: 1 <= i < |Suffix(path)| ==> Suffix(path)[i] != '.' && Suffix(path)[i] != '/'
  {
    var name := BaseName(path);
    var dot := RFind(name, '.');
    if 0 < dot < |name| - 1 {
      assert Suffix(path) == name[dot..];
      assert name == path[|path| - |name|..];
      EndOfEnd(path, |name|, dot);
      AfterLastDot(name, dot);
    } else {
      assert Suffix(path) == [];
    }
  }

  /** The last component of a path is whatever follows its last slash. */
  lemma BaseNameAfterSlash(dir: string, name: string)
    requires forall i :: 0 <= i < |name| ==> name[i] != '/'
    ensures BaseName(dir + "/" + name) == name
  {
    var path := dir + "/" + name;
    forall j | |dir| < j < |path| ensures path[j] != '/' {
      assert path[j] == name[j - |dir| - 1];
    }
    RFindLast(path, '/', |dir|);
    assert path[|dir| + 1..] == name;
  }

  /** A suffix is recovered from any path that ends in a non-empty stem and
      that suffix. */
  lemma SuffixOfPath(dir: string, stem: string, ext: string)
    requires stem != [] && forall i :: 0 <= i < |stem| ==> stem[i] != '/'
    requires 2 <= |ext| && ext[0] == '.'
    requires forall i :: 1 <= i < |ext| ==> ext[i] != '.' && ext[i] != '/'
    ensures Suffix(dir + "/" + stem + ext) == ext
  {
    var name := stem + ext;
    forall i | 0 <= i < |name| ensures name[i] != '/' {
      if i >= |stem| {
        assert name[i] == ext[i - |stem|];
      }
    }
    assert dir + "/" + stem + ext == dir + "/" + name;
    BaseNameAfterSlash(dir, name);
    forall j | |stem| < j < |name| ensures name[j] != '.' {
      assert name[j] == ext[j - |stem|];
    }
    RFindLast(name, '.', |stem|);
    assert name[|stem|..] == ext;
  }

  /** A path without a directory part is its own last component. */
  lemma BaseNameWithoutSlash(name: string)
    requires forall i :: 0 <= i < |name| ==> name[i] != '/'
    ensures BaseName(name) == name
  {
    assert RFind(name, '/') == -1;
    assert name[0..] == name;
  }

  /** A suffix is recovered from a bare file name, as the walk of a relative
      directory such as `.` yields them. */
  lemma SuffixOfFileName(stem: string, ext: string)
    requires stem != [] && forall i :: 0 <= i < |stem| ==> stem[i] != '/'
    requires 2 <= |ext| && ext[0] == '.'
    requires forall i :: 1 <= i < |ext| ==> ext[i] != '.' && ext[i] != '/'
    ensures Suffix(stem + ext) == ext
  {
    var name := stem + ext;
    forall i | 0 <= i < |name| ensures name[i] != '/' {
      if i >= |stem| {
        assert name[i] == ext[i - |stem|];
      }
    }
    BaseNameWithoutSlash(name);
    forall j | |stem| < j < |name| ensures name[j] != '.' {
      assert name[j] == ext[j - |stem|];
    }
    RFindLast(name, '.', |stem|);
    assert name[|stem|..] == ext;
  }

  /** A file whose name starts with its only dot has no suffix. */
  lemma HiddenFileHasNoSuffix(dir: string, rest: string)
    requires forall i :: 0 <= i < |rest| ==> rest[i] != '.' && rest[i] != '/'
    ensures Suffix(dir + "/." + rest) == []
  {
    var name := "." + rest;
    forall i | 0 <= i < |name| ensures name[i] != '/' {
      if i > 0 {
        assert name[i] == rest[i - 1];
      }
    }
    assert dir + "/." + rest == dir + "/" + name;
    BaseNameAfterSlash(dir, name);
    forall j | 0 < j < |name| ensures name[j] != '.' {
      assert name[j] == rest[j - 1];
    }
    RFindLast(name, '.', 0);
  }

  /** `index_file` treats a file as JSON by its suffix, in any letter case. */
  predicate IsJson(path: string) {
    Lower(Suffix(path)) == ".json"
  }

  // ---------------------------------------------------------------------
  // index_file
  // ---------------------------------------------------------------------

  /** The chunks of one file: a JSON file goes through the document builder,
      any other file is split as plain text; an unreadable file gives none. */
  function FileChunks(files: Files, path: string): seq<string> {
    if IsJson(path) then Normalizer.ProcessJson(files.readJson(path))
    else match files.read(path)
      case None => []
      case Some(text) => Chunker.Split(text, Chunker.ChunkSize, Chunker.ChunkOverlap)
  }

  /** The metadata of chunk `i` of `path`: the file and the chunk's position,
      overridden by whatever the caller passed. */
  function ChunkMetadata(path: string, i: nat, extra: Metadata): Metadata {
    map["file" := Str(path), "chunk_index" := Int(i)] + extra
  }

  /** The metadata has the caller's keys plus "file" and "chunk_index"; the
      caller's values are kept as given, and the indexer's own two values
      appear only where the caller did not supply that key. */
  lemma ChunkMetadataSpec(path: string, i: nat, extra: Metadata)
    ensures ChunkMetadata(path, i, extra).Keys == extra.Keys + {"file", "chunk_index"}
    ensures forall k :: k in extra ==> ChunkMetadata(path, i, extra)[k] == extra[k]
    ensures "file" !in extra ==> ChunkMetadata(path, i, extra)["file"] == Str(path)
    ensures "chunk_index" !in extra ==> ChunkMetadata(path, i, extra)["chunk_index"] == Int(i)
  {
  }

  /** A chunk is indexed when it is not blank and its embedding is not empty. */
  predicate Kept<V>(chunk: string, embed: string -> seq<V>) {
    Strip(chunk) != [] && |embed(chunk)| > 0
  }

  /** `Kept` as a test on the chunk alone. */
  function KeepsChunk<V>(embed: string -> seq<V>): string -> bool {
    c => Kept(c, embed)
  }

  /** The entry written for chunk `i`. */
  function Record<V>(path: string, extra: Metadata, chunk: string, embed: string -> seq<V>, i: nat): ChunkRecord<V> {
    ChunkRecord(Some(chunk), embed(chunk), ChunkMetadata(path, i, extra))
  }

  /** The positions, from `i` on, of the chunks that are kept: increasing,
      and holding every kept position and nothing else. */
  function KeptFrom(chunks: seq<string>, keep: string -> bool, i: nat): (ks: seq<nat>)
    requires i <= |chunks|
    ensures |ks| <= |chunks| - i
    ensures forall j :: 0 <= j < |ks| ==> i <= ks[j] < |chunks|
    decreases |chunks| - i
  {
    if i == |chunks| then []
    else (if keep(chunks[i]) then [i] else []) + KeptFrom(chunks, keep, i + 1)
  }

  /** Unfolding `KeptFrom` once. */
  lemma KeptFromStep(chunks: seq<string>, keep: string -> bool, i: nat)
    requires i < |chunks|
    ensures keep(chunks[i]) ==> KeptFrom(chunks, keep, i) == [i] + KeptFrom(chunks, keep, i + 1)
    ensures !keep(chunks[i]) ==> KeptFrom(chunks, keep, i) == KeptFrom(chunks, keep, i + 1)
  {
  }

  /** Every kept position holds a kept chunk. */
  lemma {:induction false} KeptFromAreKept(chunks: seq<string>, keep: string -> bool, i: nat)
    requires i <= |chunks|
    ensures forall j :: 0 <= j < |KeptFrom(chunks, keep, i)| ==> keep(chunks[KeptFrom(chunks, keep, i)[j]])
    decreases |chunks| - i
  {
    if i < |chunks| {
      KeptFromAreKept(chunks, keep, i + 1);
      KeptFromStep(chunks, keep, i);
      var ks, ks0 := KeptFrom(chunks, keep, i + 1), KeptFrom(chunks, keep, i);
      forall j | 0 <= j < |ks0| ensures keep(chunks[ks0[j]]) {
        if keep(chunks[i]) && j > 0 {
          assert ks0[j] == ks[j - 1];
        }
      }
    }
  }

  /** The positions strictly increase. */
  predicate Increasing(ks: seq<nat>) {
    forall j, k :: 0 <= j < k < |ks| ==> ks[j] < ks[k]
  }

  /** A position below all of an increasing sequence can be put in front. */
  lemma IncreasingCons(i: nat, ks: seq<nat>)
    requires Increasing(ks) && forall m :: 0 <= m < |ks| ==> i < ks[m]
    ensures Increasing([i] + ks)
  {
    var ks0 := [i] + ks;
    forall j, k | 0 <= j < k < |ks0| ensures ks0[j] < ks0[k] {
      assert ks0[k] == ks[k - 1];
      if j > 0 {
        assert ks0[j] == ks[j - 1];
      }
    }
  }

  /** The kept positions strictly increase. */
  lemma {:induction false} KeptFromIncreasing(chunks: seq<string>, keep: string -> bool, i: nat)
    requires i <= |chunks|
    ensures Increasing(KeptFrom(chunks, keep, i))
    decreases |chunks| - i
  {
    if i < |chunks| {
      KeptFromIncreasing(chunks, keep, i + 1);
      KeptFromStep(chunks, keep, i);
      if keep(chunks[i]) {
        IncreasingCons(i, KeptFrom(chunks, keep, i + 1));
      }
    }
  }

  /** Every kept position from `i` on is among the kept positions. */
  lemma {:induction false} KeptFromComplete(chunks: seq<string>, keep: string -> bool, i: nat)
    requires i <= |chunks|
    ensures forall k :: i <= k < |chunks| && keep(chunks[k]) ==> k in KeptFrom(chunks, keep, i)
    decreases |chunks| - i
  {
    if i < |chunks| {
      KeptFromComplete(chunks, keep, i + 1);
      KeptFromStep(chunks, keep, i);
      var ks, ks0 := KeptFrom(chunks, keep, i + 1), KeptFrom(chunks, keep, i);
      forall k | i <= k < |chunks| && keep(chunks[k]) ensures k in ks0 {
        if k > i {
          assert k in ks;
        } else {
          assert ks0[0] == i;
        }
      }
    }
  }

  /** The kept positions are increasing, each is kept, and every kept
      position is among them. */
  lemma KeptFromSpec(chunks: seq<string>, keep: string -> bool, i: nat)
    requires i <= |chunks|
    ensures forall j :: 0 <= j < |KeptFrom(chunks, keep, i)| ==> keep(chunks[KeptFrom(chunks, keep, i)[j]])
    ensures forall j, k :: 0 <= j < k < |KeptFrom(chunks, keep, i)| ==> KeptFrom(chunks, keep, i)[j] < KeptFrom(chunks, keep, i)[k]
    ensures forall k :: i <= k < |chunks| && keep(chunks[k]) ==> k in KeptFrom(chunks, keep, i)
  {
    KeptFromAreKept(chunks, keep, i);
    KeptFromIncreasing(chunks, keep, i);
    KeptFromComplete(chunks, keep, i);
  }

  /** The loop of `index_file` from chunk `i` on. */
  function RecordsFrom<V>(path: string, extra: Metadata, chunks: seq<string>, embed: string -> seq<V>, keep: string -> bool, i: nat): (rs: seq<ChunkRecord<V>>)
    requires i <= |chunks|
    ensures |rs| <= |chunks| - i
    decreases |chunks| - i
  {
    if i == |chunks| then []
    else
      (if keep(chunks[i]) then [Record(path, extra, chunks[i], embed, i)] else [])
      + RecordsFrom(path, extra, chunks, embed, keep, i + 1)
  }

  /** Unfolding `RecordsFrom` and `KeptFrom` once, together. */
  lemma RecordsFromStep<V>(path: string, extra: Metadata, chunks: seq<string>, embed: string -> seq<V>, keep: string -> bool, i: nat)
    requires i < |chunks|
    ensures keep(chunks[i]) ==>
      && RecordsFrom(path, extra, chunks, embed, keep, i)
         == [Record(path, extra, chunks[i], embed, i)] + RecordsFrom(path, extra, chunks, embed, keep, i + 1)
      && KeptFrom(chunks, keep, i) == [i] + KeptFrom(chunks, keep, i + 1)
    ensures !keep(chunks[i]) ==>
      && RecordsFrom(path, extra, chunks, embed, keep, i) == RecordsFrom(path, extra, chunks, embed, keep, i + 1)
      && KeptFrom(chunks, keep, i) == KeptFrom(chunks, keep, i + 1)
  {
    KeptFromStep(chunks, keep, i);
  }

  /** One entry per kept chunk, in chunk order, each recording that chunk's
      text, embedding and position. */
  lemma {:induction false} RecordsFromSpec<V>(path: string, extra: Metadata, chunks: seq<string>, embed: string -> seq<V>, keep: string -> bool, i: nat)
    requires i <= |chunks|
    ensures |RecordsFrom(path, extra, chunks, embed, keep, i)| == |KeptFrom(chunks, keep, i)|
    ensures forall j :: 0 <= j < |KeptFrom(chunks, keep, i)| ==>
      RecordsFrom(path, extra, chunks, embed, keep, i)[j]
      == Record(path, extra, chunks[KeptFrom(chunks, keep, i)[j]], embed, KeptFrom(chunks, keep, i)[j])
    decreases |chunks| - i
  {
    if i < |chunks| {
      RecordsFromSpec(path, extra, chunks, embed, keep, i + 1);
      RecordsFromStep(path, extra, chunks, embed, keep, i);
      var ks, rs := KeptFrom(chunks, keep, i + 1), RecordsFrom(path, extra, chunks, embed, keep, i + 1);
      var ks0, rs0 := KeptFrom(chunks, keep, i), RecordsFrom(path, extra, chunks, embed, keep, i);
      if keep(chunks[i]) {
        forall j | 1 <= j < |ks0|
          ensures rs0[j] == Record(path, extra, chunks[ks0[j]], embed, ks0[j])
        {
          assert ks0[j] == ks[j - 1] && rs0[j] == rs[j - 1];
        }
      }
    }
  }

  /** `index_file(path, extra)`. */
  function IndexFile<V>(files: Files, embed: string -> seq<V>, path: string, extra: Metadata): (rs: seq<ChunkRecord<V>>)
    ensures |rs| <= |FileChunks(files, path)|
  {
    RecordsFrom(path, extra, FileChunks(files, path), embed, KeepsChunk(embed), 0)
  }

  /** The entries of a file are, in order, one per chunk that is neither
      blank nor without an embedding; each holds the chunk's text and its
      embedding, and its metadata names the file and the chunk's position
      among all the file's chunks (skipped ones included). */
  lemma IndexFileSpec<V>(files: Files, embed: string -> seq<V>, path: string, extra: Metadata)
    ensures |IndexFile(files, embed, path, extra)| == |KeptFrom(FileChunks(files, path), KeepsChunk(embed), 0)|
    ensures forall j :: 0 <= j < |IndexFile(files, embed, path, extra)| ==>
      && KeptFrom(FileChunks(files, path), KeepsChunk(embed), 0)[j] < |FileChunks(files, path)|
      && IndexFile(files, embed, path, extra)[j].text
         == Some(FileChunks(files, path)[KeptFrom(FileChunks(files, path), KeepsChunk(embed), 0)[j]])
      && IndexFile(files, embed, path, extra)[j].embedding
         == embed(FileChunks(files, path)[KeptFrom(FileChunks(files, path), KeepsChunk(embed), 0)[j]])
      && IndexFile(files, embed, path, extra)[j].metadata
         == ChunkMetadata(path, KeptFrom(FileChunks(files, path), KeepsChunk(embed), 0)[j], extra)
  {
    RecordsFromSpec(path, extra, FileChunks(files, path), embed, KeepsChunk(embed), 0);
  }

  /** Every entry has a non-blank text and a non-empty embedding. */
  lemma IndexFileEntriesUsable<V>(files: Files, embed: string -> seq<V>, path: string, extra: Metadata)
    ensures forall j :: 0 <= j < |IndexFile(files, embed, path, extra)| ==>
      && IndexFile(files, embed, path, extra)[j].text.Some?
      && Strip(IndexFile(files, embed, path, extra)[j].text.value) != []
      && |IndexFile(files, embed, path, extra)[j].embedding| > 0
  {
    var chunks, rs := FileChunks(files, path), IndexFile(files, embed, path, extra);
    var ks := KeptFrom(chunks, KeepsChunk(embed), 0);
    IndexFileSpec(files, embed, path, extra);
    KeptFromAreKept(chunks, KeepsChunk(embed), 0);
    forall j | 0 <= j < |rs|
      ensures rs[j].text.Some? && Strip(rs[j].text.value) != [] && |rs[j].embedding| > 0
    {
      var c := chunks[ks[j]];
      assert KeepsChunk(embed)(c);
      assert rs[j].text == Some(c) && rs[j].embedding == embed(c);
    }
  }

  /** A file that cannot be read (or, for JSON, parsed) gives no entries. */
  lemma IndexFileUnreadable<V>(files: Files, embed: string -> seq<V>, path: string, extra: Metadata)
    requires if IsJson(path) then files.readJson(path).None? else files.read(path).None?
    ensures IndexFile(files, embed, path, extra) == []
  {
  }

  /** Without caller overrides, every entry of a chunk list names its file
      and the chunk positions strictly increase. */
  lemma RecordsPositions<V>(path: string, extra: Metadata, chunks: seq<string>, embed: string -> seq<V>, keep: string -> bool)
    requires "file" !in extra && "chunk_index" !in extra
    ensures |RecordsFrom(path, extra, chunks, embed, keep, 0)| == |KeptFrom(chunks, keep, 0)|
    ensures forall j :: 0 <= j < |KeptFrom(chunks, keep, 0)| ==>
      && "file" in RecordsFrom(path, extra, chunks, embed, keep, 0)[j].metadata
      && RecordsFrom(path, extra, chunks, embed, keep, 0)[j].metadata["file"] == Str(path)
      && "chunk_index" in RecordsFrom(path, extra, chunks, embed, keep, 0)[j].metadata
      && RecordsFrom(path, extra, chunks, embed, keep, 0)[j].metadata["chunk_index"] == Int(KeptFrom(chunks, keep, 0)[j])
    ensures forall j, k :: 0 <= j < k < |KeptFrom(chunks, keep, 0)| ==>
      KeptFrom(chunks, keep, 0)[j] < KeptFrom(chunks, keep, 0)[k]
  {
    RecordsFromSpec(path, extra, chunks, embed, keep, 0);
    KeptFromSpec(chunks, keep, 0);
    var ks := KeptFrom(chunks, keep, 0);
    forall j | 0 <= j < |ks|
      ensures "file" in ChunkMetadata(path, ks[j], extra)
      ensures ChunkMetadata(path, ks[j], extra)["file"] == Str(path)
      ensures "chunk_index" in ChunkMetadata(path, ks[j], extra)
      ensures ChunkMetadata(path, ks[j], extra)["chunk_index"] == Int(ks[j])
    {
      ChunkMetadataSpec(path, ks[j], extra);
    }
  }

  /** Without caller overrides, every entry names its file and the chunk
      positions strictly increase. */
  lemma IndexFilePositions<V>(files: Files, embed: string -> seq<V>, path: string, extra: Metadata)
    requires "file" !in extra && "chunk_index" !in extra
    ensures var rs := IndexFile(files, embed, path, extra);
      forall j :: 0 <= j < |rs| ==>
        && "file" in rs[j].metadata && rs[j].metadata["file"] == Str(path)
        && "chunk_index" in rs[j].metadata && rs[j].metadata["chunk_index"].Int?
    ensures var rs := IndexFile(files, embed, path, extra);
      forall j, k :: 0 <= j < k < |rs| ==>
        && "chunk_index" in rs[j].metadata && rs[j].metadata["chunk_index"].Int?
        && "chunk_index" in rs[k].metadata && rs[k].metadata["chunk_index"].Int?
        && rs[j].metadata["chunk_index"].n < rs[k].metadata["chunk_index"].n
  {
    var chunks := FileChunks(files, path);
    assert IndexFile(files, embed, path, extra) == RecordsFrom(path, extra, chunks, embed, KeepsChunk(embed), 0);
    RecordsPositions(path, extra, chunks, embed, KeepsChunk(embed));
  }

  /** Caller metadata wins over the indexer's own keys, "file" and
      "chunk_index" included. */
  lemma IndexFileCallerWins<V>(files: Files, embed: string -> seq<V>, path: string, extra: Metadata)
    ensures forall j, k :: 0 <= j < |IndexFile(files, embed, path, extra)| && k in extra ==>
      k in IndexFile(files, embed, path, extra)[j].metadata
      && IndexFile(files, embed, path, extra)[j].metadata[k] == extra[k]
  {
    IndexFileSpec(files, embed, path, extra);
    var ks := KeptFrom(FileChunks(files, path), KeepsChunk(embed), 0);
    forall j | 0 <= j < |ks|
      ensures extra.Keys <= ChunkMetadata(path, ks[j], extra).Keys
      ensures forall k :: k in extra ==> ChunkMetadata(path, ks[j], extra)[k] == extra[k]
    {
      ChunkMetadataSpec(path, ks[j], extra);
    }
  }

  /** An embedding service that fails on the chunk "b". */
  function SampleEmbedding(s: string): seq<int> {
    if s == "b" then [] else [1]
  }

  /** A worked example: of three chunks the middle one gets no embedding, so
      only positions 0 and 2 are indexed. */
  lemma SkipsFailedEmbedding()
    ensures KeptFrom(["a", "b", "c"], KeepsChunk(SampleEmbedding), 0) == [0, 2]
  {
    var chunks := ["a", "b", "c"];
    SampleKept();
    assert chunks[0] == "a" && chunks[1] == "b" && chunks[2] == "c";
    KeptFromThree(chunks, KeepsChunk(SampleEmbedding));
  }

  /** Of three chunks, the first and last kept and the middle one not, the
      kept positions are 0 and 2. */
  lemma KeptFromThree(chunks: seq<string>, keep: string -> bool)
    requires |chunks| == 3 && keep(chunks[0]) && !keep(chunks[1]) && keep(chunks[2])
    ensures KeptFrom(chunks, keep, 0) == [0, 2]
  {
    KeptFromStep(chunks, keep, 2);
    assert KeptFrom(chunks, keep, 2) == [2];
    KeptFromStep(chunks, keep, 1);
    KeptFromStep(chunks, keep, 0);
    assert KeptFrom(chunks, keep, 0) == [0] + [2];
  }

  /** Which chunks of the worked example are kept. */
  lemma SampleKept()
    ensures KeepsChunk(SampleEmbedding)("a") && KeepsChunk(SampleEmbedding)("c")
    ensures !KeepsChunk(SampleEmbedding)("b")
  {
    StripTrimmed("a");
    StripTrimmed("c");
  }

  // ---------------------------------------------------------------------
  // index_directory
  // ---------------------------------------------------------------------

  /** The suffixes indexed when the caller gives none. */
  const DefaultExtensions: seq<string> := [".txt", ".md", ".py", ".js", ".html", ".css", ".json"]

  /** One path yielded by the recursive walk of the directory. */
  datatype Entry = Entry(path: string, isFile: bool)

  /** The directory filter: regular files whose suffix, compared with its
      letter case, is one of the extensions. */
  predicate Selected(e: Entry, extensions: seq<string>) {
    e.isFile && Suffix(e.path) in extensions
  }

  /** `index_file` without caller metadata, as `index_directory` calls it. */
  function FileIndexer<V>(files: Files, embed: string -> seq<V>): string -> seq<ChunkRecord<V>> {
    path => IndexFile(files, embed, path, map[])
  }

  /** The directory filter for the given extensions. */
  function SelectorFor(extensions: seq<string>): Entry -> bool {
    e => Selected(e, extensions)
  }

  /** What one path of the walk adds: its entries when `select` keeps it,
      nothing otherwise. */
  function Contribution<V>(indexFile: string -> seq<ChunkRecord<V>>, select: Entry -> bool, e: Entry): seq<ChunkRecord<V>> {
    if select(e) then indexFile(e.path) else []
  }

  /** The entries of every path of the walk that `select` keeps, in walk
      order, each produced by `indexFile`. */
  function IndexEntries<V>(indexFile: string -> seq<ChunkRecord<V>>, select: Entry -> bool, walk: seq<Entry>): seq<ChunkRecord<V>>
    decreases |walk|
  {
    if |walk| == 0 then []
    else
      Contribution(indexFile, select, walk[0]) + IndexEntries(indexFile, select, walk[1..])
  }

  /** `index_directory(directory, extensions)`: nothing when the directory
      does not exist; otherwise the entries of the selected files, with the
      default extensions when none are given. */
  function IndexDirectory<V>(files: Files, embed: string -> seq<V>, rootExists: bool, walk: seq<Entry>,
                             extensions: Option<seq<string>>): (rs: seq<ChunkRecord<V>>)
    ensures !rootExists ==> rs == []
    ensures rootExists && walk == [] ==> rs == []
  {
    if !rootExists then []
    else IndexEntries(FileIndexer(files, embed), SelectorFor(extensions.GetOr(DefaultExtensions)), walk)
  }

  /** Indexing a walk is indexing its parts one after another. */
  lemma {:induction false} IndexEntriesConcat<V>(indexFile: string -> seq<ChunkRecord<V>>, select: Entry -> bool, a: seq<Entry>, b: seq<Entry>)
    ensures IndexEntries(indexFile, select, a + b)
      == IndexEntries(indexFile, select, a) + IndexEntries(indexFile, select, b)
    decreases |a|
  {
    if |a| > 0 {
      IndexEntriesConcat(indexFile, select, a[1..], b);
      assert (a + b)[1..] == a[1..] + b;
    } else {
      assert a + b == b;
    }
  }

  /** Each selected path contributes exactly its own entries, at its place
      in the walk; an unselected path contributes nothing. */
  lemma IndexEntriesAt<V>(indexFile: string -> seq<ChunkRecord<V>>, select: Entry -> bool, walk: seq<Entry>, i: nat)
    requires i < |walk|
    ensures IndexEntries(indexFile, select, walk)
      == IndexEntries(indexFile, select, walk[..i])
         + Contribution(indexFile, select, walk[i])
         + IndexEntries(indexFile, select, walk[i + 1..])
  {
    IndexEntriesSplitAt(indexFile, select, walk, i);
    var from := walk[i..];
    assert from[0] == walk[i] && from[1..] == walk[i + 1..];
    IndexEntriesStep(indexFile, select, from);
    Regroup(IndexEntries(indexFile, select, walk[..i]), Contribution(indexFile, select, walk[i]),
            IndexEntries(indexFile, select, walk[i + 1..]));
  }

  /** Indexing a walk is indexing the paths before position `i`, then the
      rest. */
  lemma IndexEntriesSplitAt<V>(indexFile: string -> seq<ChunkRecord<V>>, select: Entry -> bool, walk: seq<Entry>, i: nat)
    requires i <= |walk|
    ensures IndexEntries(indexFile, select, walk)
      == IndexEntries(indexFile, select, walk[..i]) + IndexEntries(indexFile, select, walk[i..])
  {
    assert walk == walk[..i] + walk[i..];
    IndexEntriesConcat(indexFile, select, walk[..i], walk[i..]);
  }

  lemma Regroup<T>(a: seq<T>, b: seq<T>, c: seq<T>)
    ensures a + (b + c) == a + b + c
  {
  }

  /** Unfolding `IndexEntries` once. */
  lemma IndexEntriesStep<V>(indexFile: string -> seq<ChunkRecord<V>>, select: Entry -> bool, walk: seq<Entry>)
    requires |walk| > 0
    ensures IndexEntries(indexFile, select, walk)
      == Contribution(indexFile, select, walk[0]) + IndexEntries(indexFile, select, walk[1..])
  {
  }

  /** When no path is selected the result is empty. */
  lemma {:induction false} IndexEntriesNoneSelected<V>(indexFile: string -> seq<ChunkRecord<V>>, select: Entry -> bool, walk: seq<Entry>)
    requires forall i :: 0 <= i < |walk| ==> !select(walk[i])
    ensures IndexEntries(indexFile, select, walk) == []
    decreases |walk|
  {
    if |walk| > 0 {
      IndexEntriesNoneSelected(indexFile, select, walk[1..]);
    }
  }

  /** Every entry `indexFile` produces for a path names that path. */
  ghost predicate NamesItsFile<V>(indexFile: string -> seq<ChunkRecord<V>>) {
    forall path, j :: 0 <= j < |indexFile(path)| ==>
      "file" in indexFile(path)[j].metadata && indexFile(path)[j].metadata["file"] == Str(path)
  }

  /** The position in the walk of the path that entry `j` comes from. */
  lemma {:induction false} SourceOf<V>(indexFile: string -> seq<ChunkRecord<V>>, select: Entry -> bool, walk: seq<Entry>, j: nat)
    returns (i: nat)
    requires NamesItsFile(indexFile)
    requires j < |IndexEntries(indexFile, select, walk)|
    ensures i < |walk| && select(walk[i])
    ensures "file" in IndexEntries(indexFile, select, walk)[j].metadata
    ensures IndexEntries(indexFile, select, walk)[j].metadata["file"] == Str(walk[i].path)
    decreases |walk|
  {
    var head := Contribution(indexFile, select, walk[0]);
    var rest := IndexEntries(indexFile, select, walk[1..]);
    IndexEntriesStep(indexFile, select, walk);
    var all := IndexEntries(indexFile, select, walk);
    assert all == head + rest;
    if j < |head| {
      assert all[j] == indexFile(walk[0].path)[j];
      i := 0;
    } else {
      assert all[j] == rest[j - |head|];
      var k := SourceOf(indexFile, select, walk[1..], j - |head|);
      assert walk[1..][k] == walk[k + 1];
      i := k + 1;
    }
  }

  /** The entry names a path of the walk that `select` keeps. */
  ghost predicate ComesFrom<V>(r: ChunkRecord<V>, select: Entry -> bool, walk: seq<Entry>) {
    exists i :: 0 <= i < |walk| && select(walk[i]) && "file" in r.metadata && r.metadata["file"] == Str(walk[i].path)
  }

  /** Every entry of a walk comes from a selected path, and names it. */
  lemma IndexEntriesProvenance<V>(indexFile: string -> seq<ChunkRecord<V>>, select: Entry -> bool, walk: seq<Entry>)
    requires NamesItsFile(indexFile)
    ensures forall j :: 0 <= j < |IndexEntries(indexFile, select, walk)| ==>
      ComesFrom(IndexEntries(indexFile, select, walk)[j], select, walk)
  {
    forall j | 0 <= j < |IndexEntries(indexFile, select, walk)|
      ensures ComesFrom(IndexEntries(indexFile, select, walk)[j], select, walk)
    {
      var i := SourceOf(indexFile, select, walk, j);
    }
  }

  /** The file indexer as the directory uses it names each entry's file. */
  lemma FileIndexerNamesItsFile<V>(files: Files, embed: string -> seq<V>)
    ensures NamesItsFile(FileIndexer(files, embed))
  {
    forall path {
      IndexFilePositions(files, embed, path, map[]);
    }
  }

  /** Every entry of an indexed directory comes from a regular file of the
      walk whose suffix is one of the extensions, and names that file. */
  lemma IndexDirectoryProvenance<V>(files: Files, embed: string -> seq<V>, walk: seq<Entry>, extensions: Option<seq<string>>)
    ensures forall j :: 0 <= j < |IndexDirectory(files, embed, true, walk, extensions)| ==>
      ComesFrom(IndexDirectory(files, embed, true, walk, extensions)[j], SelectorFor(extensions.GetOr(DefaultExtensions)), walk)
  {
    var exts := extensions.GetOr(DefaultExtensions);
    FileIndexerNamesItsFile(files, embed);
    IndexEntriesProvenance(FileIndexer(files, embed), SelectorFor(exts), walk);
  }

  /** With the directory present, each selected file contributes its own
      `index_file` entries at its place in the walk. */
  lemma IndexDirectoryAt<V>(files: Files, embed: string -> seq<V>, walk: seq<Entry>, extensions: Option<seq<string>>, i: nat)
    requires i < |walk|
    ensures IndexDirectory(files, embed, true, walk, extensions)
      == IndexDirectory(files, embed, true, walk[..i], extensions)
         + (if Selected(walk[i], extensions.GetOr(DefaultExtensions)) then IndexFile(files, embed, walk[i].path, map[]) else [])
         + IndexDirectory(files, embed, true, walk[i + 1..], extensions)
  {
    IndexEntriesAt(FileIndexer(files, embed), SelectorFor(extensions.GetOr(DefaultExtensions)), walk, i);
  }

  /** A walk with no file of a listed suffix gives nothing. */
  lemma IndexDirectoryNoneSelected<V>(files: Files, embed: string -> seq<V>, walk: seq<Entry>, extensions: Option<seq<string>>)
    requires forall i :: 0 <= i < |walk| ==> !Selected(walk[i], extensions.GetOr(DefaultExtensions))
    ensures IndexDirectory(files, embed, true, walk, extensions) == []
  {
    IndexEntriesNoneSelected(FileIndexer(files, embed), SelectorFor(extensions.GetOr(DefaultExtensions)), walk);
  }

  /** The suffix keeps its letter case: a file `STEM.JSON` in any directory
      has the suffix ".JSON". */
  lemma UpperCaseSuffix(dir: string, stem: string)
    requires stem != [] && forall i :: 0 <= i < |stem| ==> stem[i] != '/'
    ensures Suffix(dir + "/" + stem + ".JSON") == ".JSON"
  {
    SuffixOfPath(dir, stem, ".JSON");
  }

  /** ".JSON" is not among the default extensions, which are lower case. */
  lemma UpperJsonNotDefault()
    ensures ".JSON" !in DefaultExtensions
  {
    forall i | 0 <= i < |DefaultExtensions| ensures DefaultExtensions[i] != ".JSON" {
      assert DefaultExtensions[i][1] != 'J';
    }
  }

  /** ".JSON" lower-cased is ".json". */
  lemma LowerUpperJson()
    ensures Lower(".JSON") == ".json"
  {
    assert Lower(".JSON")[1] == 'j';
    assert Lower(".JSON")[2] == 's';
    assert Lower(".JSON")[3] == 'o';
    assert Lower(".JSON")[4] == 'n';
  }

  /** The directory filter compares suffixes with their letter case: a file
      whose suffix is ".JSON" is not picked up with the default extensions. */
  lemma UpperCaseNotSelected(path: string)
    requires Suffix(path) == ".JSON"
    ensures !Selected(Entry(path, true), DefaultExtensions)
  {
    UpperJsonNotDefault();
  }

  /** `index_file` lower-cases the suffix, so the same file indexed on its
      own is read as JSON. */
  lemma UpperCaseIsJson(path: string)
    requires Suffix(path) == ".JSON"
    ensures IsJson(path)
  {
    LowerUpperJson();
  }
}
