/** Splitting a document into overlapping chunks. */
module Chunking {

  import opened Text

  datatype Chunk = Chunk(id: string, content: string, index: nat)

  /** The part of the document a chunk is cut from: from `start` up to, not including, `end`. */
  datatype Window = Window(start: nat, end: nat)

  predicate WordBreak(c: char) {
    c == ' ' || c == '\n'
  }

  function Min(a: int, b: int): int {
    if a < b then a else b
  }

  /** Where a window may end: at the end of the document; or at the last word break in its second
      half; or, for want of one, at full size. */
  predicate EndsWell(content: string, w: Window, chunkSize: nat) {
    && w.start < w.end <= Min(w.start + chunkSize, |content|)
    && (w.end < |content| ==>
          || (WordBreak(content[w.end]) && w.end > w.start + chunkSize / 2
              && forall i :: w.end < i <= w.start + chunkSize && i < |content| ==> !WordBreak(content[i]))
          || (w.end == w.start + chunkSize
              && forall i :: w.start + chunkSize / 2 < i <= w.start + chunkSize && i < |content| ==> !WordBreak(content[i])))
    && (w.start + chunkSize >= |content| ==> w.end == |content|)
  }

  function NextStart(w: Window, chunkSize: nat, overlap: nat): int {
    if w.end - overlap <= w.start then w.start + (if chunkSize / 2 > 1 then chunkSize / 2 else 1) else w.end - overlap
  }

  function ChunkID(docID: string, index: nat): string {
    docID + "_chunk_" + Decimal(index)
  }

  predicate Inside(content: string, windows: seq<Window>) {
    forall i :: 0 <= i < |windows| ==> windows[i].start <= windows[i].end <= |content|
  }

  /** A piece of the document becomes the next chunk, unless it is blank. */
  function WithPiece(docID: string, chunks: seq<Chunk>, text: string): seq<Chunk> {
    if text == "" then chunks else chunks + [Chunk(ChunkID(docID, |chunks|), text, |chunks|)]
  }

  /** The chunks of a sequence of windows: the trimmed text of each, blank ones skipped, numbered on. */
  function ChunksOf(docID: string, content: string, windows: seq<Window>): (chunks: seq<Chunk>)
    requires Inside(content, windows)
  {
    if windows == [] then []
    else
      var w := windows[|windows| - 1];
      WithPiece(docID, ChunksOf(docID, content, windows[..|windows| - 1]), TrimSpace(content[w.start..w.end]))
  }

  lemma ChunksSnoc(docID: string, content: string, windows: seq<Window>, w: Window)
    requires Inside(content, windows) && w.start <= w.end <= |content|
    ensures Inside(content, windows + [w])
    ensures ChunksOf(docID, content, windows + [w])
         == WithPiece(docID, ChunksOf(docID, content, windows), TrimSpace(content[w.start..w.end]))
  {
    hide TrimSpace, WithPiece;
    assert (windows + [w])[..|windows + [w]| - 1] == windows;
  }

  /** Where the loop stands after these windows, having not yet reached the end of the document. */
  ghost predicate NextAt(content: string, windows: seq<Window>, chunkSize: nat, overlap: nat, start: int) {
    if windows == [] then start == 0
    else
      var w := windows[|windows| - 1];
      w.end < |content| && start == NextStart(w, chunkSize, overlap)
  }

  /** Windows that march through the whole document without leaving a gap. */
  ghost predicate Marches(content: string, windows: seq<Window>, chunkSize: nat, overlap: nat) {
    forall k :: 0 <= k < |windows| ==>
      && EndsWell(content, windows[k], chunkSize)
      && NextAt(content, windows[..k], chunkSize, overlap, windows[k].start)
  }

  lemma MarchesSnoc(content: string, windows: seq<Window>, chunkSize: nat, overlap: nat, w: Window)
    requires Marches(content, windows, chunkSize, overlap) && NextAt(content, windows, chunkSize, overlap, w.start)
    requires EndsWell(content, w, chunkSize)
    ensures Marches(content, windows + [w], chunkSize, overlap)
  {
    hide EndsWell, NextAt;
    var longer := windows + [w];
    forall k | 0 <= k < |longer|
      ensures EndsWell(content, longer[k], chunkSize)
      ensures NextAt(content, longer[..k], chunkSize, overlap, longer[k].start)
    {
      assert longer[k] == if k < |windows| then windows[k] else w;
      assert longer[..k] == windows[..k];
    }
  }

  /** The end of the window that starts here. */
  method WindowEnd(content: string, start: nat, chunkSize: nat) returns (end: nat)
    requires start < |content| && chunkSize >= 1
    ensures EndsWell(content, Window(start, end), chunkSize) && start < end <= |content|
  {
    end := start + chunkSize;
    if end > |content| {
      end := |content|;
    }
    if end < |content| && end > start {
      var originalEnd := end;
      var i := end;
      while i > start + chunkSize / 2 && i < |content|
        invariant start + chunkSize / 2 <= i <= originalEnd && end == originalEnd
        invariant forall j :: i < j <= originalEnd ==> !WordBreak(content[j])
      {
        if WordBreak(content[i]) {
          end := i;
          break;
        }
        i := i - 1;
      }
      if end <= start {
        end := originalEnd;
      }
    }
  }

  /** Window k starts `overlap` characters before the previous one ended, unless that is no longer than
      the overlap: then it starts half a window later than it, and at least one character. */
  predicate Overlap(windows: seq<Window>, k: nat, chunkSize: nat, overlap: nat)
    requires 0 < k < |windows|
  {
    var a, b := windows[k - 1], windows[k];
    && (a.end - a.start > overlap ==> b.start == a.end - overlap)
    && (a.end - a.start <= overlap && chunkSize >= 2 ==> b.start == a.start + chunkSize / 2)
    && (a.end - a.start <= overlap && chunkSize < 2 ==> b.start == a.start + 1)
  }

  lemma AllOverlap(content: string, windows: seq<Window>, chunkSize: nat, overlap: nat)
    requires Marches(content, windows, chunkSize, overlap)
    ensures forall k :: 0 < k < |windows| ==> Overlap(windows, k, chunkSize, overlap)
  {
    hide EndsWell;
    forall k | 0 < k < |windows| ensures Overlap(windows, k, chunkSize, overlap) {
      assert NextAt(content, windows[..k], chunkSize, overlap, windows[k].start);
      assert windows[..k][k - 1] == windows[k - 1];
    }
  }

  /** So the last `overlap` characters of a long enough window are the first of the next, as far as the
      next one reaches. */
  lemma SharedText(content: string, windows: seq<Window>, chunkSize: nat, overlap: nat, k: nat)
    requires Inside(content, windows) && 0 < k < |windows| && Overlap(windows, k, chunkSize, overlap)
    requires windows[k - 1].end - windows[k - 1].start > overlap
    ensures var a, b := windows[k - 1], windows[k];
      var earlier, later := content[a.start..a.end], content[b.start..b.end];
      && (overlap <= |later| ==> earlier[|earlier| - overlap..] == later[..overlap])
      && (overlap > |later| ==> later <= earlier[|earlier| - overlap..])
  {
    hide Overlap;
    var a, b := windows[k - 1], windows[k];
    assert a.start <= a.end <= |content| && b.start <= b.end <= |content|;
    OverlapStart(windows, k, chunkSize, overlap);
    hide Inside;
    var earlier, later := content[a.start..a.end], content[b.start..b.end];
    SliceOfSlice(content, a.start, a.end, |earlier| - overlap, |earlier|);
    assert earlier[|earlier| - overlap..|earlier|] == earlier[|earlier| - overlap..];
    if overlap <= |later| {
      SliceOfSlice(content, b.start, b.end, 0, overlap);
      assert later[0..overlap] == later[..overlap];
    } else {
      SliceOfSlice(content, b.start, a.end, 0, |later|);
      assert content[b.start..a.end][0..|later|] == content[b.start..a.end][..|later|];
    }
  }

  lemma OverlapStart(windows: seq<Window>, k: nat, chunkSize: nat, overlap: nat)
    requires 0 < k < |windows| && Overlap(windows, k, chunkSize, overlap)
    requires windows[k - 1].end - windows[k - 1].start > overlap
    ensures windows[k].start == windows[k - 1].end - overlap
  {
  }

  method ChunkDocument(docID: string, content: string, chunkSize: nat, overlap: nat)
    returns (chunks: seq<Chunk>, ghost windows: seq<Window>)
    requires chunkSize >= 1
    ensures Marches(content, windows, chunkSize, overlap) && Inside(content, windows)
    ensures content != "" ==> windows != [] && windows[|windows| - 1].end == |content|
    ensures content == "" ==> windows == []
    ensures chunks == ChunksOf(docID, content, windows)
    ensures forall i :: 0 <= i < |chunks| ==>
              chunks[i].index == i && chunks[i].id == docID + "_chunk_" + Decimal(i) && chunks[i].content != ""
    ensures forall p :: 0 <= p < |content| && !IsSpace(content[p]) ==> Held(content, chunks, p)
    ensures forall k :: 0 < k < |windows| ==> Overlap(windows, k, chunkSize, overlap)
  {
    hide Marches, EndsWell, ChunksOf, TrimSpace, Decimal, ChunkID, Held, IsSpace, Overlap;
    chunks, windows := [], [];
    assert Marches(content, [], chunkSize, overlap) && ChunksOf(docID, content, []) == [] by {
      EmptyMarch(docID, content, chunkSize, overlap);
    }
    var start, index := 0, 0;
    while start < |content|
      invariant 0 <= start < |content| || content == ""
      invariant Marches(content, windows, chunkSize, overlap) && Inside(content, windows)
      invariant NextAt(content, windows, chunkSize, overlap, start)
      invariant chunks == ChunksOf(docID, content, windows) && index == |chunks|
      decreases |content| - start
    {
      var end := WindowEnd(content, start, chunkSize);
      var chunkContent := TrimSpace(content[start..end]);
      MarchesSnoc(content, windows, chunkSize, overlap, Window(start, end));
      ChunksSnoc(docID, content, windows, Window(start, end));
      if chunkContent != "" {
        chunks := chunks + [Chunk(ChunkID(docID, index), chunkContent, index)];
        index := index + 1;
      }
      windows := windows + [Window(start, end)];
      if end >= |content| {
        break;
      }
      NextAdvances(content, Window(start, end), chunkSize, overlap);
      var nextStart := end - overlap;
      if nextStart <= start {
        nextStart := start + if chunkSize / 2 > 1 then chunkSize / 2 else 1;
      }
      start := nextStart;
    }
    ChunksNumbered(docID, content, windows);
    AllOverlap(content, windows, chunkSize, overlap);
    if content != "" {
      NothingLost(docID, content, windows, chunkSize, overlap);
    }
  }

  lemma EmptyMarch(docID: string, content: string, chunkSize: nat, overlap: nat)
    ensures Marches(content, [], chunkSize, overlap) && ChunksOf(docID, content, []) == []
  {
  }

  /** The next window starts later than this one, and no later than this one ended. */
  lemma NextAdvances(content: string, w: Window, chunkSize: nat, overlap: nat)
    requires chunkSize >= 1 && EndsWell(content, w, chunkSize) && w.end < |content|
    ensures w.start < NextStart(w, chunkSize, overlap) <= w.end
  {
  }

  // ----- What the chunks are worth -----

  lemma Consecutive(content: string, windows: seq<Window>, chunkSize: nat, overlap: nat, k: nat)
    requires chunkSize >= 1 && Marches(content, windows, chunkSize, overlap) && 0 < k < |windows|
    ensures windows[k - 1].start < windows[k].start <= windows[k - 1].end
  {
    hide EndsWell, NextStart;
    assert NextAt(content, windows[..k], chunkSize, overlap, windows[k].start);
    assert windows[..k][k - 1] == windows[k - 1];
    NextAdvances(content, windows[k - 1], chunkSize, overlap);
  }

  /** Every window is neither empty nor oversized; starts strictly increase, and there is no gap. */
  lemma {:induction false} WindowsAdvance(content: string, windows: seq<Window>, chunkSize: nat, overlap: nat, i: nat, j: nat)
    requires chunkSize >= 1 && Marches(content, windows, chunkSize, overlap) && i <= j < |windows|
    ensures 1 <= windows[j].end - windows[j].start <= chunkSize
    ensures i < j ==> windows[i].start < windows[j].start
    ensures j == i + 1 ==> windows[j].start <= windows[i].end
    decreases j
  {
    hide NextAt;
    assert EndsWell(content, windows[j], chunkSize);
    hide *;
    if i < j {
      Consecutive(content, windows, chunkSize, overlap, j);
      WindowsAdvance(content, windows, chunkSize, overlap, i, j - 1);
    }
  }

  /** Every place before the end of window k lies in one of the windows up to k. */
  lemma {:induction false} NoGap(content: string, windows: seq<Window>, chunkSize: nat, overlap: nat, k: nat, p: nat)
    returns (i: nat)
    requires chunkSize >= 1 && Marches(content, windows, chunkSize, overlap) && k < |windows| && p < windows[k].end
    ensures i <= k && windows[i].start <= p < windows[i].end
    decreases k
  {
    hide EndsWell;
    if windows[k].start <= p {
      i := k;
    } else {
      Consecutive(content, windows, chunkSize, overlap, k);
      i := NoGap(content, windows, chunkSize, overlap, k - 1, p);
    }
  }

  /** The chunk holds a stretch of the document around place p. */
  ghost predicate HoldsPlace(content: string, c: Chunk, p: nat) {
    exists a, b :: 0 <= a <= p < b <= |content| && c.content == content[a..b]
  }

  /** A window's chunk is in the list, and holds every visible character of the window. */
  lemma {:induction false} WindowHasChunk(docID: string, content: string, windows: seq<Window>, i: nat, p: nat)
    returns (n: nat)
    requires Inside(content, windows)
    requires i < |windows| && windows[i].start <= p < windows[i].end && !IsSpace(content[p])
    ensures n < |ChunksOf(docID, content, windows)|
    ensures HoldsPlace(content, ChunksOf(docID, content, windows)[n], p)
    decreases |windows|
  {
    hide TrimSpace, ChunkID;
    var k := |windows| - 1;
    if i < k {
      n := WindowHasChunk(docID, content, windows[..k], i, p);
    } else {
      var w := windows[k];
      var text := content[w.start..w.end];
      var a, b := TrimCuts(text);
      assert text[p - w.start] == content[p];
      SliceOfSlice(content, w.start, w.end, a, b);
      n := |ChunksOf(docID, content, windows[..k])|;
    }
  }

  /** Some chunk holds a stretch of the document around place p. */
  ghost predicate Held(content: string, chunks: seq<Chunk>, p: nat) {
    exists n :: 0 <= n < |chunks| && HoldsPlace(content, chunks[n], p)
  }

  /** Every visible character of a chunked document is in some chunk. */
  lemma NothingLost(docID: string, content: string, windows: seq<Window>, chunkSize: nat, overlap: nat)
    requires chunkSize >= 1 && Marches(content, windows, chunkSize, overlap) && Inside(content, windows)
    requires windows != [] && windows[|windows| - 1].end == |content|
    ensures forall p :: 0 <= p < |content| && !IsSpace(content[p]) ==> Held(content, ChunksOf(docID, content, windows), p)
  {
    hide Marches, Inside, ChunksOf, IsSpace, HoldsPlace;
    forall p | 0 <= p < |content| && !IsSpace(content[p]) ensures Held(content, ChunksOf(docID, content, windows), p) {
      var i := NoGap(content, windows, chunkSize, overlap, |windows| - 1, p);
      var n := WindowHasChunk(docID, content, windows, i, p);
    }
  }

  /** Chunks are numbered 0, 1, 2, ... and so have distinct IDs. */
  lemma {:induction false} ChunksNumbered(docID: string, content: string, windows: seq<Window>)
    requires Inside(content, windows)
    ensures forall i :: 0 <= i < |ChunksOf(docID, content, windows)| ==>
              && ChunksOf(docID, content, windows)[i].index == i
              && ChunksOf(docID, content, windows)[i].id == docID + "_chunk_" + Decimal(i)
              && ChunksOf(docID, content, windows)[i].content != ""
  {
    if windows != [] {
      ChunksNumbered(docID, content, windows[..|windows| - 1]);
    }
  }

  /** How many of the windows hold anything visible. */
  function Visible(content: string, windows: seq<Window>): nat
    requires Inside(content, windows)
  {
    if windows == [] then 0
    else
      var w := windows[|windows| - 1];
      Visible(content, windows[..|windows| - 1]) + if TrimSpace(content[w.start..w.end]) == "" then 0 else 1
  }

  /** Chunks are the trimmed texts of the windows in order, one for each that holds anything visible. */
  lemma {:induction false} ChunkOfWindow(docID: string, content: string, windows: seq<Window>, k: nat)
    requires Inside(content, windows) && k < |windows|
    ensures |ChunksOf(docID, content, windows)| == Visible(content, windows)
    ensures var w := windows[k]; var text := TrimSpace(content[w.start..w.end]);
      text != "" ==>
        && Visible(content, windows[..k]) < Visible(content, windows)
        && ChunksOf(docID, content, windows)[Visible(content, windows[..k])].content == text
    decreases |windows|
  {
    hide TrimSpace, ChunkID;
    var n := |windows| - 1;
    var front := windows[..n];
    if front == [] {
      assert Visible(content, front) == 0 && ChunksOf(docID, content, front) == [];
    } else {
      ChunkOfWindow(docID, content, front, if k < n then k else n - 1);
    }
    if k < n { assert front[..k] == windows[..k]; }
  }
}
