/**
 * `text_to_chunk`: cut a text into 50-character pieces and join them with the
 * two-character string "/n" (a slash and the letter n; not a newline).
 */
module Chunking {
  import opened Seqs

  const ChunkWidth: nat := 50

  /** A slash followed by the letter n. */
  const ChunkSeparator: string := "/n"

  /** The pieces text[i:i+50] for i = 0, 50, 100, ... */
  function ChunkPieces(text: string): seq<string>
  {
    Slices(text, ChunkWidth)
  }

  function TextToChunk(text: string): string
  {
    Join(ChunkPieces(text), ChunkSeparator)
  }

  /** The inverse of TextToChunk: keep 50 characters, drop the two separator
      characters after them, repeat. */
  function Unchunk(chunked: string): string
    decreases |chunked|
  {
    if |chunked| <= ChunkWidth then chunked
    else if |chunked| <= ChunkWidth + |ChunkSeparator| then chunked[..ChunkWidth]
    else chunked[..ChunkWidth] + Unchunk(chunked[ChunkWidth + |ChunkSeparator|..])
  }

  /** There are ceil(|text| / 50) pieces; each has 1 to 50 characters and all
      but the last exactly 50; and the pieces put back together are the text. */
  lemma ChunkPiecesPartition(text: string)
    ensures |ChunkPieces(text)| == (|text| + 49) / 50
    ensures forall k :: 0 <= k < |ChunkPieces(text)| ==> 0 < |ChunkPieces(text)[k]| <= 50
    ensures forall k :: 0 <= k < |ChunkPieces(text)| - 1 ==> |ChunkPieces(text)[k]| == 50
    ensures Concat(ChunkPieces(text)) == text
  {
    SlicesPartition(text, ChunkWidth);
    SlicesCount(text, ChunkWidth);
  }

  /** Character t of piece k is character 50 * k + t of the text. */
  lemma ChunkPieceAt(text: string, k: nat, t: nat)
    requires k < |ChunkPieces(text)| && t < |ChunkPieces(text)[k]|
    ensures 50 * k + t < |text| && ChunkPieces(text)[k][t] == text[50 * k + t]
  {
    SlicesAt(text, ChunkWidth, k, t);
  }

  /** Empty text gives "", text of at most 50 characters comes back unchanged,
      and otherwise each of the n pieces adds its characters and each of the
      n - 1 separators adds two. */
  lemma TextToChunkLength(text: string)
    ensures text == [] ==> TextToChunk(text) == []
    ensures 0 < |text| <= 50 ==> TextToChunk(text) == text
    ensures |text| > 0 ==> |TextToChunk(text)| == |text| + 2 * (|ChunkPieces(text)| - 1)
  {
    if |text| > 0 {
      SlicesPartition(text, ChunkWidth);
      JoinLength(ChunkPieces(text), ChunkSeparator);
    }
  }

  /** Dropping the separators recovers the text: nothing is lost or reordered. */
  lemma {:induction false} UnchunkTextToChunk(text: string)
    ensures Unchunk(TextToChunk(text)) == text
    decreases |text|
  {
    if |text| > ChunkWidth {
      var rest := text[ChunkWidth..];
      var tail := ChunkPieces(rest);
      assert |tail| > 0;
      assert ChunkPieces(text) == [text[..ChunkWidth]] + tail;
      JoinCons(text[..ChunkWidth], tail, ChunkSeparator);
      var out := TextToChunk(text);
      assert out == text[..ChunkWidth] + ChunkSeparator + TextToChunk(rest);
      TextToChunkLength(rest);
      assert out[..ChunkWidth] == text[..ChunkWidth];
      assert out[ChunkWidth + |ChunkSeparator|..] == TextToChunk(rest);
      UnchunkTextToChunk(rest);
      assert text == text[..ChunkWidth] + rest;
    }
  }
}
