/**
 * The chunked GEDCOM import of Tree::importGedcomFile.
 *
 * The file arrives as a sequence of blocks. After each block is appended to a
 * buffer, the buffer is cut just before the last level-0 line that starts at
 * an index of at least 1. The part before the cut is stored as a chunk and the
 * rest is kept. When the stream ends, whatever remains is stored as the last
 * chunk.
 */
module GedcomImport {
  import opened Strings

  predicate IsLineBreak(c: char) {
    c == '\n' || c == '\r'
  }

  /** `p` starts a level-0 line: a '0' directly after a line break, at index 1 or more. */
  predicate IsCut(buf: string, p: int) {
    1 <= p < |buf| && buf[p] == '0' && IsLineBreak(buf[p - 1])
  }

  /** No level-0 line starts in `buf` at index 1 or more. */
  predicate NoCut(buf: string) {
    forall p :: 0 <= p < |buf| ==> !IsCut(buf, p)
  }

  /** The backward scan from index `p` down to 1: the first cut met, or 0. */
  function ScanBack(buf: string, p: nat): (q: nat)
    requires p < |buf|
    ensures q <= p
    ensures q == 0 || IsCut(buf, q)
    ensures forall j :: q < j <= p ==> !IsCut(buf, j)
    decreases p
  {
    if p == 0 then 0 else if IsCut(buf, p) then p else ScanBack(buf, p - 1)
  }

  /**
   * The value of `$pos` after the scan: -1 for an empty buffer (the loop
   * starts at strlen - 1), otherwise the last cut, or 0 if there is none.
   */
  function Boundary(buf: string): (pos: int)
    ensures pos == -1 <==> buf == []
    ensures -1 <= pos < |buf|
    ensures pos >= 1 ==> IsCut(buf, pos) && forall j :: pos < j ==> !IsCut(buf, j)
    ensures pos == 0 ==> NoCut(buf)
  {
    if buf == [] then -1 else ScanBack(buf, |buf| - 1)
  }

  /** The backward `for` loop over `$pos`. */
  method LastBoundary(buf: string) returns (pos: int)
    ensures pos == Boundary(buf)
  {
    pos := |buf| - 1;
    while pos > 0
      invariant -1 <= pos < |buf|
      invariant pos == -1 <==> buf == []
      invariant forall j :: pos < j ==> !IsCut(buf, j)
      decreases pos
    {
      if buf[pos] == '0' && IsLineBreak(buf[pos - 1]) {
        break;
      }
      pos := pos - 1;
    }
    BoundaryUnique(buf, pos);
  }

  /** The three conditions of Boundary's contract determine it. */
  lemma BoundaryUnique(buf: string, pos: int)
    requires pos == -1 <==> buf == []
    requires -1 <= pos < |buf|
    requires pos >= 1 ==> IsCut(buf, pos)
    requires forall j :: pos < j ==> !IsCut(buf, j)
    ensures pos == Boundary(buf)
  {
    var b := Boundary(buf);
    if b >= 1 && pos < b {
      assert IsCut(buf, b);
    }
    if pos >= 1 && b < pos {
      assert IsCut(buf, pos);
    }
  }

  /** The stored chunks so far and the carried-over buffer `$file_data`. */
  datatype ImportState = ImportState(chunks: seq<string>, buffer: string)

  /**
   * One iteration of the `while` loop. A zero `$pos` is falsy, so nothing is
   * stored. A `$pos` of -1 is truthy; the buffer is then empty and both
   * substrings are empty, so an empty chunk is stored.
   */
  function Step(st: ImportState, block: string): ImportState {
    var data := st.buffer + block;
    var pos := Boundary(data);
    if pos == 0 then ImportState(st.chunks, data)
    else if pos == -1 then ImportState(st.chunks + [""], "")
    else ImportState(st.chunks + [data[..pos]], data[pos..])
  }

  /** The state after the loop has consumed all of `blocks`. */
  function Run(blocks: seq<string>): ImportState
    decreases |blocks|
  {
    if blocks == [] then ImportState([], "")
    else Step(Run(blocks[..|blocks| - 1]), blocks[|blocks| - 1])
  }

  /** Run consumes the blocks one at a time, from the first. */
  lemma RunSnoc(blocks: seq<string>, i: nat)
    requires i < |blocks|
    ensures Run(blocks[..i + 1]) == Step(Run(blocks[..i]), blocks[i])
  {
    assert blocks[..i + 1][..i] == blocks[..i];
  }

  /** One step, with the position -1 of empty data read as a cut at 0. */
  lemma StepCut(st: ImportState, block: string)
    ensures var data := st.buffer + block;
      var pos := Boundary(data);
      var cut := if pos < 0 then 0 else pos;
      Step(st, block) ==
        if pos == 0 then ImportState(st.chunks, data)
        else ImportState(st.chunks + [data[..cut]], data[cut..])
  {
  }

  /** Every chunk inserted into gedcom_chunk, in insertion order. */
  function ImportChunks(blocks: seq<string>): seq<string> {
    Run(blocks).chunks + [Run(blocks).buffer]
  }

  /** One step moves text from the buffer to the chunks and loses none. */
  lemma StepPreservesText(st: ImportState, block: string)
    ensures Concat(Step(st, block).chunks) + Step(st, block).buffer == Concat(st.chunks) + st.buffer + block
  {
    StepCut(st, block);
    var data := st.buffer + block;
    var pos := Boundary(data);
    var cut := if pos < 0 then 0 else pos;
    if pos != 0 {
      ConcatSnoc(st.chunks, data[..cut]);
      assert data[..cut] + data[cut..] == data;
    }
  }

  lemma {:induction false} RunPreservesText(blocks: seq<string>)
    ensures Concat(Run(blocks).chunks) + Run(blocks).buffer == Concat(blocks)
    decreases |blocks|
  {
    if blocks != [] {
      var init := blocks[..|blocks| - 1];
      var block := blocks[|blocks| - 1];
      assert blocks == init + [block];
      ConcatSnoc(init, block);
      RunPreservesText(init);
      StepPreservesText(Run(init), block);
    }
  }

  /** Concatenating the stored chunks, in order, gives back the whole file. */
  lemma ImportRoundTrip(blocks: seq<string>)
    ensures Concat(ImportChunks(blocks)) == Concat(blocks)
  {
    RunPreservesText(blocks);
    ConcatSnoc(Run(blocks).chunks, Run(blocks).buffer);
  }

  /**
   * The shape every state of the loop keeps: each stored chunk is empty or
   * ends with a line break; a chunk that follows a non-empty chunk starts a
   * level-0 line; after a non-empty chunk the buffer starts a level-0 line;
   * the buffer never holds a cut.
   */
  predicate WellCut(st: ImportState) {
    && (forall i :: 0 <= i < |st.chunks| ==>
          st.chunks[i] == "" || IsLineBreak(st.chunks[i][|st.chunks[i]| - 1]))
    && (forall i :: 0 < i < |st.chunks| && st.chunks[i - 1] != "" ==>
          st.chunks[i] != "" && st.chunks[i][0] == '0')
    && (|st.chunks| > 0 && st.chunks[|st.chunks| - 1] != "" ==>
          st.buffer != "" && st.buffer[0] == '0')
    && NoCut(st.buffer)
  }

  /** The part after the last cut holds no further cut and starts with '0'. */
  lemma SuffixAfterLastCut(data: string, pos: int)
    requires IsCut(data, pos) && forall j :: pos < j ==> !IsCut(data, j)
    ensures data[pos..] != "" && data[pos..][0] == '0' && NoCut(data[pos..])
  {
    var rest := data[pos..];
    forall j | 0 <= j < |rest|
      ensures !IsCut(rest, j)
    {
      if IsCut(rest, j) {
        assert IsCut(data, pos + j);
      }
    }
  }

  lemma StepWellCut(st: ImportState, block: string)
    requires WellCut(st)
    ensures WellCut(Step(st, block))
  {
    var data := st.buffer + block;
    var pos := Boundary(data);
    if pos >= 1 {
      SuffixAfterLastCut(data, pos);
      var chunk := data[..pos];
      assert chunk != "" && IsLineBreak(chunk[|chunk| - 1]);
      if |st.chunks| > 0 && st.chunks[|st.chunks| - 1] != "" {
        assert chunk[0] == data[0] == st.buffer[0];
      }
      StepAppendsChunk(st, chunk, data[pos..]);
    } else if pos == -1 {
      assert st.buffer == "";
      StepAppendsChunk(st, "", "");
    }
  }

  /** Appending a chunk keeps the shape when the chunk and the new buffer fit it. */
  lemma StepAppendsChunk(st: ImportState, chunk: string, rest: string)
    requires WellCut(st)
    requires chunk == "" || IsLineBreak(chunk[|chunk| - 1])
    requires |st.chunks| > 0 && st.chunks[|st.chunks| - 1] != "" ==> chunk != "" && chunk[0] == '0'
    requires chunk != "" ==> rest != "" && rest[0] == '0'
    requires NoCut(rest)
    ensures WellCut(ImportState(st.chunks + [chunk], rest))
  {
    var cs := st.chunks + [chunk];
    forall i | 0 < i < |cs| && cs[i - 1] != ""
      ensures cs[i] != "" && cs[i][0] == '0'
    {
      if i < |st.chunks| {
        assert cs[i] == st.chunks[i] && cs[i - 1] == st.chunks[i - 1];
      }
    }
    forall i | 0 <= i < |cs|
      ensures cs[i] == "" || IsLineBreak(cs[i][|cs[i]| - 1])
    {
      if i < |st.chunks| {
        assert cs[i] == st.chunks[i];
      }
    }
  }

  lemma {:induction false} RunWellCut(blocks: seq<string>)
    ensures WellCut(Run(blocks))
    decreases |blocks|
  {
    if blocks != [] {
      RunWellCut(blocks[..|blocks| - 1]);
      StepWellCut(Run(blocks[..|blocks| - 1]), blocks[|blocks| - 1]);
    }
  }

  /**
   * Chunk boundaries fall only before a level-0 line: every chunk but the
   * last is empty or ends with a line break, and every chunk that follows a
   * non-empty chunk is non-empty and starts with '0'.
   */
  lemma ImportChunksAtRecordBoundaries(blocks: seq<string>)
    ensures var cs := ImportChunks(blocks);
      && (forall i :: 0 <= i < |cs| - 1 ==> cs[i] == "" || IsLineBreak(cs[i][|cs[i]| - 1]))
      && (forall i :: 0 < i < |cs| && cs[i - 1] != "" ==> cs[i] != "" && cs[i][0] == '0')
  {
    RunWellCut(blocks);
    var st := Run(blocks);
    var cs := ImportChunks(blocks);
    assert cs[..|cs| - 1] == st.chunks;
    forall i | 0 < i < |cs| && cs[i - 1] != ""
      ensures cs[i] != "" && cs[i][0] == '0'
    {
      if i == |cs| - 1 {
        assert st.chunks[|st.chunks| - 1] == cs[i - 1];
      } else {
        assert cs[i] == st.chunks[i] && cs[i - 1] == st.chunks[i - 1];
      }
    }
  }

  /** The carried-over buffer never contains a level-0 line at index 1 or more. */
  lemma CarriedBufferHasNoCut(blocks: seq<string>)
    ensures NoCut(Run(blocks).buffer)
  {
    RunWellCut(blocks);
  }

  /**
   * A buffer with no level-0 line at index 1 or more is carried over whole and
   * nothing is stored.
   */
  lemma NoCutKeepsBuffer(st: ImportState, block: string)
    requires st.buffer + block != [] && NoCut(st.buffer + block)
    ensures Step(st, block) == ImportState(st.chunks, st.buffer + block)
  {
  }

  /**
   * When a cut exists, the chunk stored is everything before the last cut,
   * it ends with a line break, and the new buffer starts with '0'.
   */
  lemma CutStoresPrefix(st: ImportState, block: string, p: int)
    requires IsCut(st.buffer + block, p)
    ensures var data := st.buffer + block;
      var next := Step(st, block);
      exists q :: p <= q < |data| && IsCut(data, q)
        && next.chunks == st.chunks + [data[..q]] && next.buffer == data[q..]
        && next.buffer[0] == '0' && IsLineBreak(data[q - 1])
  {
    var data := st.buffer + block;
    var q := Boundary(data);
    assert q >= 1;
  }
}
