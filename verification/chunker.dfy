/** The text splitter of rag_index.py (`split_text`): a cursor walks over the
    text, cutting windows of at most `chunkSize` characters, backing a cut up
    to the last sentence boundary when that boundary lies past the middle of
    the window, and stepping back by `overlap` before the next window. */
module Chunker {
  import opened Text

  /** Module defaults of the indexer (CHUNK_SIZE and CHUNK_OVERLAP). */
  const ChunkSize: int := 500
  const ChunkOverlap: int := 50

  /** The characters a window may be cut after: `.`, `!`, `?` and newline. */
  predicate IsBoundary(c: char) {
    c == '.' || c == '!' || c == '?' || c == '\n'
  }

  function Max(a: int, b: int): int {
    if a < b then b else a
  }

  function Min(a: int, b: int): int {
    if a < b then a else b
  }

  /** The index of the last boundary character of `text[lo..hi]`, or `lo - 1`
      if that stretch has none. Its characterisation is `LastBoundarySpec`. */
  function LastBoundary(text: string, lo: nat, hi: nat): (k: int)
    requires lo <= hi <= |text|
    ensures lo - 1 <= k < hi
    decreases hi - lo
  {
    if hi == lo then lo - 1
    else if IsBoundary(text[hi - 1]) then hi - 1
    else LastBoundary(text, lo, hi - 1)
  }

  /** `LastBoundary` finds a boundary character, and none lies after it. */
  lemma {:induction false} LastBoundarySpec(text: string, lo: nat, hi: nat)
    requires lo <= hi <= |text|
    ensures var k := LastBoundary(text, lo, hi);
      && (k >= lo ==> IsBoundary(text[k]))
      && (forall j :: k < j < hi ==> !IsBoundary(text[j]))
    decreases hi - lo
  {
    if hi > lo && !IsBoundary(text[hi - 1]) {
      LastBoundarySpec(text, lo, hi - 1);
    }
  }

  /** The source's search for a cut point in a window `w`: the largest of
      four `rfind` results, one per boundary character. */
  function LastBoundaryByRFind(w: string): int {
    Max(Max(RFind(w, '.'), RFind(w, '!')), Max(RFind(w, '?'), RFind(w, '\n')))
  }

  /** The largest `rfind` result is a boundary character of `w`, or -1,
      and no boundary character comes after it. */
  lemma LastBoundaryByRFindSpec(w: string)
    ensures -1 <= LastBoundaryByRFind(w) < |w|
    ensures LastBoundaryByRFind(w) >= 0 ==> IsBoundary(w[LastBoundaryByRFind(w)])
    ensures forall j :: LastBoundaryByRFind(w) < j < |w| ==> !IsBoundary(w[j])
  {
  }

  /** The largest of the four `rfind` results on the window `text[lo..hi]`
      is the offset of `LastBoundary` within the window. */
  lemma LastBoundaryIsMaxOfRFinds(text: string, lo: nat, hi: nat)
    requires lo <= hi <= |text|
    ensures LastBoundary(text, lo, hi) - lo == LastBoundaryByRFind(text[lo..hi])
  {
    var w := text[lo..hi];
    var k, m := LastBoundary(text, lo, hi), LastBoundaryByRFind(w);
    LastBoundarySpec(text, lo, hi);
    LastBoundaryByRFindSpec(w);
    assert forall j :: lo <= j < hi ==> w[j - lo] == text[j];
    if m >= 0 {
      assert IsBoundary(text[lo + m]);
    }
    if k >= lo {
      assert IsBoundary(w[k - lo]);
    }
  }

  /** The configurations under which the cursor moves forward on every
      text: the chunk size is positive, the overlap is below it (so a full
      window moves the cursor), and the overlap is at most one more than
      half the chunk size (so a window cut back to just past its middle still
      moves it). `StallOutsideValidConfig` shows that for every other
      non-negative overlap below the chunk size some text stalls the cursor.
      The source default (500, 50) is valid. */
  predicate ValidConfig(chunkSize: int, overlap: int) {
    0 < chunkSize && overlap < chunkSize && 2 * overlap <= chunkSize + 2
  }

  /** Where the window starting at `start` ends, stated without reference to
      how it is computed: a window that reaches the end of the text keeps its
      full length; otherwise it ends right after a boundary character lying
      past the middle of the window with no boundary after it, or, when the
      window has no boundary past its middle, it keeps its full length. */
  ghost predicate CutRule(text: string, chunkSize: int, start: nat, end: int) {
    if start + chunkSize >= |text| then end == start + chunkSize
    else
      && start < end <= start + chunkSize
      && (forall k :: end <= k < start + chunkSize ==> !IsBoundary(text[k]))
      && (|| (2 * (end - 1 - start) > chunkSize && IsBoundary(text[end - 1]))
          || (&& end == start + chunkSize
              && forall k :: start <= k < start + chunkSize && 2 * (k - start) > chunkSize ==> !IsBoundary(text[k])))
  }

  /** The end of the window starting at `start` (Python's `end`, which may
      lie past the end of the text), computed as the loop body does. */
  function CutEnd(text: string, start: nat, chunkSize: int): (end: int)
    requires start < |text| && 0 < chunkSize
    ensures start < end <= start + chunkSize
    ensures end < start + chunkSize ==> 2 * (end - 1 - start) > chunkSize
    ensures end < start + chunkSize ==> end <= |text| && IsBoundary(text[end - 1])
  {
    var end := start + chunkSize;
    if end < |text| then
      LastBoundarySpec(text, start, end);
      var p := LastBoundary(text, start, end) - start;
      if 2 * p > chunkSize then start + p + 1 else end
    else end
  }

  /** The cut rule admits exactly one end, and it is the one the loop
      computes. */
  lemma CutRuleDeterminesEnd(text: string, chunkSize: int, start: nat, end: int)
    requires start < |text| && 0 < chunkSize
    ensures CutRule(text, chunkSize, start, end) <==> end == CutEnd(text, start, chunkSize)
  {
    var e := CutEnd(text, start, chunkSize);
    if start + chunkSize < |text| {
      LastBoundarySpec(text, start, start + chunkSize);
      assert CutRule(text, chunkSize, start, e);
    }
  }

  /** One cut: `text[start..stop]` clipped to the text, where `stop` is
      Python's (unclamped) `end`. */
  datatype Window = Window(start: nat, stop: nat)

  /** A window that starts inside the text and is not empty. */
  predicate InText(text: string, w: Window) {
    w.start < |text| && w.start < w.stop
  }

  /** The characters a window covers, as Python's slice `text[start:end]`. */
  function Raw(text: string, w: Window): (s: string)
    requires InText(text, w)
    ensures 0 < |s| <= w.stop - w.start
  {
    text[w.start..Min(w.stop, |text|)]
  }

  /** The windows the loop cuts once its cursor is at `start`; that they
      form a window chain is proved in `WindowsChain`. */
  function WindowsFrom(text: string, chunkSize: int, overlap: int, start: nat): (ws: seq<Window>)
    requires ValidConfig(chunkSize, overlap)
    ensures |ws| == 0 <==> start >= |text|
    ensures forall i :: 0 <= i < |ws| ==> start <= ws[i].start < ws[i].stop <= ws[i].start + chunkSize && ws[i].start < |text|
    decreases |text| - start
  {
    if start >= |text| then []
    else
      var stop := CutEnd(text, start, chunkSize);
      [Window(start, stop)] + WindowsFrom(text, chunkSize, overlap, stop - overlap)
  }

  /** Under a valid configuration every window moves the cursor forward. */
  lemma Progress(text: string, chunkSize: int, overlap: int, start: nat)
    requires ValidConfig(chunkSize, overlap) && start < |text|
    ensures CutEnd(text, start, chunkSize) - overlap > start
  {
  }

  /** The facts that make `ws` the window sequence of a cursor starting at
      `start`: there are windows exactly when `start` is inside the text, the
      first starts at `start`, each lies in the text and is at most
      `chunkSize` long, each next one starts
      `overlap` before the previous end, starts strictly increase, and the
      last one ends at least `overlap` past the end of the text. */
  ghost predicate IsWindowChain(text: string, chunkSize: int, overlap: int, start: nat, ws: seq<Window>) {
    && 0 < chunkSize
    && (|ws| == 0 <==> start >= |text|)
    && (|ws| > 0 ==> ws[0].start == start)
    && (forall i :: 0 <= i < |ws| ==>
          && start <= ws[i].start < |text|
          && ws[i].start < ws[i].stop <= ws[i].start + chunkSize)
    && (forall i :: 0 <= i < |ws| - 1 ==> ws[i + 1].start == ws[i].stop - overlap)
    && (forall i, j :: 0 <= i < j < |ws| ==> ws[i].start < ws[j].start)
    && (|ws| > 0 ==> ws[|ws| - 1].stop - overlap >= |text|)
  }

  /** Unfolding `WindowsFrom` once: the first window, then the windows
      from the next cursor position, which lies strictly after `start`. */
  lemma WindowsFromStep(text: string, chunkSize: int, overlap: int, start: nat)
    requires ValidConfig(chunkSize, overlap) && start < |text|
    ensures CutEnd(text, start, chunkSize) - overlap > start
    ensures WindowsFrom(text, chunkSize, overlap, start)
      == [Window(start, CutEnd(text, start, chunkSize))]
         + WindowsFrom(text, chunkSize, overlap, CutEnd(text, start, chunkSize) - overlap)
  {
  }

  /** Each next window starts `overlap` before the previous one ends. */
  lemma {:induction false} WindowsLinked(text: string, chunkSize: int, overlap: int, start: nat)
    requires ValidConfig(chunkSize, overlap)
    ensures var ws := WindowsFrom(text, chunkSize, overlap, start);
      forall i :: 0 <= i < |ws| - 1 ==> ws[i + 1].start == ws[i].stop - overlap
    decreases |text| - start
  {
    if start < |text| {
      var next := CutEnd(text, start, chunkSize) - overlap;
      WindowsFromStep(text, chunkSize, overlap, start);
      WindowsLinked(text, chunkSize, overlap, next);
      var ws, rest := WindowsFrom(text, chunkSize, overlap, start), WindowsFrom(text, chunkSize, overlap, next);
      forall i | 0 <= i < |ws| - 1 ensures ws[i + 1].start == ws[i].stop - overlap {
        assert ws[i + 1] == rest[i];
        if i > 0 {
          assert ws[i] == rest[i - 1];
        }
      }
    }
  }

  /** Window starts strictly increase. */
  lemma WindowsStartsIncrease(text: string, chunkSize: int, overlap: int, start: nat)
    requires ValidConfig(chunkSize, overlap)
    ensures var ws := WindowsFrom(text, chunkSize, overlap, start);
      forall i, j :: 0 <= i < j < |ws| ==> ws[i].start < ws[j].start
  {
    var ws := WindowsFrom(text, chunkSize, overlap, start);
    forall i, j | 0 <= i < j < |ws| ensures ws[i].start < ws[j].start {
      WindowStartsFrom(text, chunkSize, overlap, start, i);
      var later := ws[i + 1..];
      assert ws[j] == later[j - i - 1];
    }
  }

  /** The windows after window `i` are the windows from the next cursor
      position. */
  lemma {:induction false} WindowStartsFrom(text: string, chunkSize: int, overlap: int, start: nat, i: nat)
    requires ValidConfig(chunkSize, overlap)
    requires i < |WindowsFrom(text, chunkSize, overlap, start)|
    ensures WindowsFrom(text, chunkSize, overlap, start)[i].stop - overlap
      > WindowsFrom(text, chunkSize, overlap, start)[i].start
    ensures WindowsFrom(text, chunkSize, overlap, start)[i + 1..]
      == WindowsFrom(text, chunkSize, overlap, WindowsFrom(text, chunkSize, overlap, start)[i].stop - overlap)
    decreases |text| - start
  {
    WindowsFromStep(text, chunkSize, overlap, start);
    var next := CutEnd(text, start, chunkSize) - overlap;
    var ws, rest := WindowsFrom(text, chunkSize, overlap, start), WindowsFrom(text, chunkSize, overlap, next);
    if i == 0 {
      assert ws[1..] == rest;
    } else {
      WindowStartsFrom(text, chunkSize, overlap, next, i - 1);
      assert ws[i] == rest[i - 1];
      assert ws[i + 1..] == rest[i..];
    }
  }

  /** The last window ends at least `overlap` past the end of the text. */
  lemma {:induction false} WindowsLastStop(text: string, chunkSize: int, overlap: int, start: nat)
    requires ValidConfig(chunkSize, overlap)
    ensures var ws := WindowsFrom(text, chunkSize, overlap, start);
      |ws| > 0 ==> ws[|ws| - 1].stop - overlap >= |text|
    decreases |text| - start
  {
    if start < |text| {
      var next := CutEnd(text, start, chunkSize) - overlap;
      WindowsFromStep(text, chunkSize, overlap, start);
      WindowsLastStop(text, chunkSize, overlap, next);
      var ws, rest := WindowsFrom(text, chunkSize, overlap, start), WindowsFrom(text, chunkSize, overlap, next);
      if |rest| > 0 {
        assert ws[|ws| - 1] == rest[|rest| - 1];
      }
    }
  }

  /** The windows from any cursor position form a window chain. */
  lemma WindowsChain(text: string, chunkSize: int, overlap: int, start: nat)
    requires ValidConfig(chunkSize, overlap)
    ensures IsWindowChain(text, chunkSize, overlap, start, WindowsFrom(text, chunkSize, overlap, start))
  {
    if start < |text| {
      WindowsFromStep(text, chunkSize, overlap, start);
    }
    WindowsLinked(text, chunkSize, overlap, start);
    WindowsStartsIncrease(text, chunkSize, overlap, start);
    WindowsLastStop(text, chunkSize, overlap, start);
  }

  /** Every window ends where the cut rule puts it. */
  lemma {:induction false} WindowsFollowCutRule(text: string, chunkSize: int, overlap: int, start: nat)
    requires ValidConfig(chunkSize, overlap)
    ensures forall i :: 0 <= i < |WindowsFrom(text, chunkSize, overlap, start)| ==>
      CutRule(text, chunkSize, WindowsFrom(text, chunkSize, overlap, start)[i].start, WindowsFrom(text, chunkSize, overlap, start)[i].stop)
    decreases |text| - start
  {
    if start < |text| {
      var stop := CutEnd(text, start, chunkSize);
      var next := stop - overlap;
      WindowsFollowCutRule(text, chunkSize, overlap, next);
      var ws := WindowsFrom(text, chunkSize, overlap, start);
      var rest := WindowsFrom(text, chunkSize, overlap, next);
      assert ws == [Window(start, stop)] + rest;
      CutRuleDeterminesEnd(text, chunkSize, start, stop);
      forall i | 0 <= i < |ws|
        ensures CutRule(text, chunkSize, ws[i].start, ws[i].stop)
      {
        if i > 0 {
          assert ws[i] == rest[i - 1];
        }
      }
    }
  }

  /** All windows of `text`, the cursor starting at 0. */
  function Windows(text: string, chunkSize: int, overlap: int): seq<Window>
    requires ValidConfig(chunkSize, overlap)
  {
    WindowsFrom(text, chunkSize, overlap, 0)
  }

  /** The stripped text of each window, in order. */
  function ChunksOf(text: string, ws: seq<Window>): (chunks: seq<string>)
    requires forall i :: 0 <= i < |ws| ==> InText(text, ws[i])
    ensures |chunks| == |ws|
    decreases |ws|
  {
    if |ws| == 0 then [] else [Strip(Raw(text, ws[0]))] + ChunksOf(text, ws[1..])
  }

  lemma {:induction false} ChunksOfSpec(text: string, ws: seq<Window>)
    requires forall i :: 0 <= i < |ws| ==> InText(text, ws[i])
    ensures forall i :: 0 <= i < |ws| ==> ChunksOf(text, ws)[i] == Strip(Raw(text, ws[i]))
    decreases |ws|
  {
    if |ws| > 0 {
      ChunksOfSpec(text, ws[1..]);
      forall i | 1 <= i < |ws|
        ensures ChunksOf(text, ws)[i] == Strip(Raw(text, ws[i]))
      {
        assert ChunksOf(text, ws)[i] == ChunksOf(text, ws[1..])[i - 1];
        assert ws[i] == ws[1..][i - 1];
      }
    }
  }

  /** `split_text(text, chunkSize, overlap)`: one stripped chunk per window;
      there are chunks exactly when the text is non-empty. */
  function Split(text: string, chunkSize: int, overlap: int): (chunks: seq<string>)
    requires ValidConfig(chunkSize, overlap)
    ensures |chunks| > 0 <==> |text| > 0
  {
    ChunksOf(text, Windows(text, chunkSize, overlap))
  }

  /** The chunks still to come once the cursor is at `start`. */
  function ChunksFrom(text: string, chunkSize: int, overlap: int, start: nat): seq<string>
    requires ValidConfig(chunkSize, overlap)
  {
    ChunksOf(text, WindowsFrom(text, chunkSize, overlap, start))
  }

  /** One turn of the cursor loop: the chunks from `start` are the stripped
      first window followed by the chunks from the next cursor position,
      which lies strictly after `start`. */
  lemma ChunksStep(text: string, chunkSize: int, overlap: int, start: nat, stop: nat)
    requires ValidConfig(chunkSize, overlap)
    requires start < |text| && stop == CutEnd(text, start, chunkSize)
    ensures stop - overlap > start
    ensures ChunksFrom(text, chunkSize, overlap, start)
      == [Strip(text[start..Min(stop, |text|)])] + ChunksFrom(text, chunkSize, overlap, stop - overlap)
  {
    var ws := WindowsFrom(text, chunkSize, overlap, start);
    var rest := WindowsFrom(text, chunkSize, overlap, stop - overlap);
    assert ws == [Window(start, stop)] + rest;
    assert ws[1..] == rest;
  }

  /** Empty text gives no chunks, and a non-empty text no longer than
      `chunkSize` and than `chunkSize - overlap` gives exactly one chunk, the
      whole text stripped. */
  lemma SplitShortText(text: string, chunkSize: int, overlap: int)
    requires ValidConfig(chunkSize, overlap)
    requires |text| <= chunkSize && |text| <= chunkSize - overlap
    ensures text == [] ==> Split(text, chunkSize, overlap) == []
    ensures text != [] ==> Split(text, chunkSize, overlap) == [Strip(text)]
  {
    if text != [] {
      var stop := CutEnd(text, 0, chunkSize);
      assert stop == chunkSize;
      assert WindowsFrom(text, chunkSize, overlap, stop - overlap) == [];
      assert Windows(text, chunkSize, overlap) == [Window(0, chunkSize)];
      assert Raw(text, Window(0, chunkSize)) == text;
    }
  }

  /** A text longer than `chunkSize - overlap` but no longer than `chunkSize`
      fits in one window, yet the cursor stepped back by `overlap` is still
      inside it, so a second chunk repeats its tail from `chunkSize - overlap`
      on (when the overlap is at most half the chunk size, nothing follows). */
  lemma SplitTailChunk(text: string, chunkSize: int, overlap: int)
    requires ValidConfig(chunkSize, overlap) && 2 * overlap <= chunkSize
    requires chunkSize - overlap < |text| <= chunkSize
    ensures Split(text, chunkSize, overlap) == [Strip(text), Strip(text[chunkSize - overlap..])]
  {
    var second := chunkSize - overlap;
    var stop := CutEnd(text, second, chunkSize);
    assert stop == second + chunkSize;
    assert WindowsFrom(text, chunkSize, overlap, stop - overlap) == [];
    assert WindowsFrom(text, chunkSize, overlap, second) == [Window(second, stop)];
    assert CutEnd(text, 0, chunkSize) == chunkSize;
    assert Windows(text, chunkSize, overlap) == [Window(0, chunkSize), Window(second, stop)];
    assert Raw(text, Window(0, chunkSize)) == text;
    assert Raw(text, Window(second, stop)) == text[second..];
    assert ChunksOf(text, [Window(0, chunkSize), Window(second, stop)])
      == [Strip(text)] + ChunksOf(text, [Window(second, stop)]);
  }

  /** Index `k` of the text lies in one of the raw windows `ws`. */
  ghost predicate Covered(ws: seq<Window>, k: int) {
    exists i :: 0 <= i < |ws| && ws[i].start <= k < ws[i].stop
  }

  /** With a non-negative overlap the windows from `start` leave no gap: every
      index from `start` to the end of the text lies in some window. */
  lemma {:induction false} WindowsCoverFrom(text: string, chunkSize: int, overlap: int, start: nat)
    requires ValidConfig(chunkSize, overlap) && 0 <= overlap
    ensures forall k :: start <= k < |text| ==> Covered(WindowsFrom(text, chunkSize, overlap, start), k)
    decreases |text| - start
  {
    if start < |text| {
      var stop := CutEnd(text, start, chunkSize);
      var next := stop - overlap;
      Progress(text, chunkSize, overlap, start);
      WindowsCoverFrom(text, chunkSize, overlap, next);
      var ws := WindowsFrom(text, chunkSize, overlap, start);
      var rest := WindowsFrom(text, chunkSize, overlap, next);
      assert ws == [Window(start, stop)] + rest;
      forall k | start <= k < |text|
        ensures Covered(ws, k)
      {
        if k < stop {
          assert ws[0].start <= k < ws[0].stop;
        } else {
          assert Covered(rest, k);
          var i :| 0 <= i < |rest| && rest[i].start <= k < rest[i].stop;
          assert ws[i + 1] == rest[i];
        }
      }
    }
  }

  /** Coverage of the whole text: every character of a text lies in at
      least one of the raw windows its chunks are cut from. */
  lemma SplitCoversText(text: string, chunkSize: int, overlap: int)
    requires ValidConfig(chunkSize, overlap) && 0 <= overlap
    ensures forall k :: 0 <= k < |text| ==> Covered(Windows(text, chunkSize, overlap), k)
  {
    WindowsCoverFrom(text, chunkSize, overlap, 0);
  }

  /** Each chunk is the stripped slice `text[s..e]` of its window, the slice
      is at most `chunkSize` long, and its start is where the cursor was. */
  lemma SplitChunksAreStrippedWindows(text: string, chunkSize: int, overlap: int)
    requires ValidConfig(chunkSize, overlap)
    ensures |Split(text, chunkSize, overlap)| == |Windows(text, chunkSize, overlap)|
    ensures forall i :: 0 <= i < |Windows(text, chunkSize, overlap)| ==>
      && Windows(text, chunkSize, overlap)[i].start < Min(Windows(text, chunkSize, overlap)[i].stop, |text|) <= |text|
      && Min(Windows(text, chunkSize, overlap)[i].stop, |text|) - Windows(text, chunkSize, overlap)[i].start <= chunkSize
      && Split(text, chunkSize, overlap)[i]
         == Strip(text[Windows(text, chunkSize, overlap)[i].start..Min(Windows(text, chunkSize, overlap)[i].stop, |text|)])
    ensures forall i :: 0 <= i < |Split(text, chunkSize, overlap)| ==> |Split(text, chunkSize, overlap)[i]| <= chunkSize
  {
    var ws := Windows(text, chunkSize, overlap);
    ChunksOfSpec(text, ws);
  }

  /** Every window ends where the cut rule puts it: a window is cut back only
      when it does not reach the end of the text, and then it ends right
      after the last boundary past its middle; otherwise it is full length. */
  lemma SplitWindowsFollowCutRule(text: string, chunkSize: int, overlap: int)
    requires ValidConfig(chunkSize, overlap)
    ensures forall i :: 0 <= i < |Windows(text, chunkSize, overlap)| ==>
      CutRule(text, chunkSize, Windows(text, chunkSize, overlap)[i].start, Windows(text, chunkSize, overlap)[i].stop)
  {
    WindowsFollowCutRule(text, chunkSize, overlap, 0);
  }

  /** The cursor positions: the first window starts at 0, each next one
      starts `overlap` before the previous end, starts strictly increase (so
      the loop ends), and the last window ends at least `overlap` past the
      end of the text. */
  lemma SplitWindowsChain(text: string, chunkSize: int, overlap: int)
    requires ValidConfig(chunkSize, overlap)
    ensures IsWindowChain(text, chunkSize, overlap, 0, Windows(text, chunkSize, overlap))
  {
    WindowsChain(text, chunkSize, overlap, 0);
  }

  /** Outside the valid configurations the loop can stall: for every
      non-negative overlap below the chunk size that exceeds half the chunk
      size plus one, a text with a boundary at offset `overlap - 1` makes the
      first window end exactly `overlap` characters after its start, so the
      cursor returns to 0 and the loop never ends. */
  lemma StallOutsideValidConfig(chunkSize: int, overlap: int)
    requires 0 <= overlap < chunkSize && !ValidConfig(chunkSize, overlap)
    ensures var text := seq(overlap - 1, _ => 'a') + ['.'] + seq(chunkSize - overlap + 1, _ => 'a');
      CutEnd(text, 0, chunkSize) - overlap == 0
  {
    var text := seq(overlap - 1, _ => 'a') + ['.'] + seq(chunkSize - overlap + 1, _ => 'a');
    assert |text| == chunkSize + 1;
    LastBoundarySpec(text, 0, chunkSize);
    assert IsBoundary(text[overlap - 1]);
    assert forall j :: overlap - 1 < j < chunkSize ==> text[j] == 'a';
  }

  /** The windows of the worked example below. */
  lemma ScenarioWindows()
    ensures Windows(ScenarioText, 5, 1) == [Window(0, 5), Window(4, 8), Window(7, 12)]
  {
    var text := ScenarioText;
    assert LastBoundary(text, 0, 5) == 4;
    assert CutEnd(text, 0, 5) == 5;
    assert LastBoundary(text, 4, 9) == 7;
    assert CutEnd(text, 4, 5) == 8;
    assert CutEnd(text, 7, 5) == 12;
    assert WindowsFrom(text, 5, 1, 11) == [];
    assert WindowsFrom(text, 5, 1, 7) == [Window(7, 12)];
    assert WindowsFrom(text, 5, 1, 4) == [Window(4, 8), Window(7, 12)];
  }

  /** The text of the worked example below. */
  const ScenarioText: string := "A. B! C? D"

  /** The stripped slice of each window of the worked example. */
  lemma ScenarioChunk0()
    ensures Strip(Raw(ScenarioText, Window(0, 5))) == "A. B!"
  {
    assert Raw(ScenarioText, Window(0, 5)) == "A. B!";
    StripTrimmed("A. B!");
  }

  lemma ScenarioChunk1()
    ensures Strip(Raw(ScenarioText, Window(4, 8))) == "! C?"
  {
    assert Raw(ScenarioText, Window(4, 8)) == "! C?";
    StripTrimmed("! C?");
  }

  lemma ScenarioChunk2()
    ensures Strip(Raw(ScenarioText, Window(7, 12))) == "? D"
  {
    assert Raw(ScenarioText, Window(7, 12)) == "? D";
    StripTrimmed("? D");
  }

  /** The stripped slices of those windows. */
  lemma ScenarioChunks()
    ensures ChunksOf(ScenarioText, [Window(0, 5), Window(4, 8), Window(7, 12)]) == ["A. B!", "! C?", "? D"]
  {
    ChunksOfSpec(ScenarioText, [Window(0, 5), Window(4, 8), Window(7, 12)]);
    ScenarioChunk0();
    ScenarioChunk1();
    ScenarioChunk2();
  }

  /** A worked example: the first two windows are cut back to end at a
      boundary, the next cursor steps back one character onto it, and the
      last window runs past the end of the text. */
  lemma SplitScenario()
    ensures Split(ScenarioText, 5, 1) == ["A. B!", "! C?", "? D"]
  {
    ScenarioWindows();
    ScenarioChunks();
  }

  /** The body of the cursor loop up to the emitted chunk: the raw window of
      `chunkSize` characters, cut back after the last boundary when that
      boundary lies past the middle of a window that does not reach the end
      of the text. It returns the new `end` and the raw chunk. */
  method CutWindow(text: string, start: nat, chunkSize: int) returns (end: int, chunk: string)
    requires start < |text| && 0 < chunkSize
    ensures end == CutEnd(text, start, chunkSize)
    ensures chunk == text[start..Min(end, |text|)]
  {
    end := start + chunkSize;
    chunk := text[start..Min(end, |text|)];
    if end < |text| {
      var lastSentence := LastBoundary(text, start, end) - start;
      if 2 * lastSentence > chunkSize {
        chunk := chunk[..lastSentence + 1];
        end := start + lastSentence + 1;
      }
    }
  }

  /** Before the cursor loop: no chunks produced yet, all still to come. */
  lemma LoopStart(text: string, chunkSize: int, overlap: int)
    requires ValidConfig(chunkSize, overlap)
    ensures [] + ChunksFrom(text, chunkSize, overlap, 0) == Split(text, chunkSize, overlap)
  {
    assert [] + ChunksFrom(text, chunkSize, overlap, 0) == ChunksFrom(text, chunkSize, overlap, 0);
  }

  /** One turn of the cursor loop keeps the chunks produced so far followed
      by the chunks still to come equal to the same sequence. */
  lemma LoopTurn(text: string, chunkSize: int, overlap: int, all: seq<string>,
                 chunks: seq<string>, start: nat, end: int, chunk: string)
    requires ValidConfig(chunkSize, overlap)
    requires start < |text| && end == CutEnd(text, start, chunkSize)
    requires chunk == text[start..Min(end, |text|)]
    requires chunks + ChunksFrom(text, chunkSize, overlap, start) == all
    ensures end - overlap > start
    ensures (chunks + [Strip(chunk)]) + ChunksFrom(text, chunkSize, overlap, end - overlap) == all
  {
    ChunksStep(text, chunkSize, overlap, start, end);
    var head, rest := [Strip(chunk)], ChunksFrom(text, chunkSize, overlap, end - overlap);
    assert chunks + (head + rest) == (chunks + head) + rest;
  }

  /** After the cursor loop: once the cursor is past the end of the text,
      the chunks produced are all the chunks. */
  lemma LoopEnd(text: string, chunkSize: int, overlap: int, all: seq<string>, chunks: seq<string>, start: nat)
    requires ValidConfig(chunkSize, overlap) && start >= |text|
    requires chunks + ChunksFrom(text, chunkSize, overlap, start) == all
    ensures chunks == all
  {
    assert ChunksFrom(text, chunkSize, overlap, start) == [];
    assert chunks + [] == chunks;
  }

  /** The cursor loop of `split_text` as written: it produces exactly the
      chunks of the window-by-window definition. */
  method SplitText(text: string, chunkSize: int, overlap: int) returns (chunks: seq<string>)
    requires ValidConfig(chunkSize, overlap)
    ensures chunks == Split(text, chunkSize, overlap)
  {
    chunks := [];
    var start: nat := 0;
    ghost var all := Split(text, chunkSize, overlap);
    LoopStart(text, chunkSize, overlap);
    while start < |text|
      invariant chunks + ChunksFrom(text, chunkSize, overlap, start) == all
      decreases |text| - start
    {
      var end, chunk := CutWindow(text, start, chunkSize);
      LoopTurn(text, chunkSize, overlap, all, chunks, start, end, chunk);
      chunks := chunks + [Strip(chunk)];
      start := end - overlap;
    }
    LoopEnd(text, chunkSize, overlap, all, chunks, start);
  }
}
