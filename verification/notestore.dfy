/**
 * The records `insertNote` (rough-app/src/lib/pineconeUtils.js) upserts:
 * one record per chunk vector, keyed `"<noteId>-<i>"`, and the `"count"`
 * record that holds the next note id. The note id read from the index
 * and the embedding vectors are given; the two upserts are the returned
 * `NoteWrite`.
 */
module NoteStore {
  import opened Wrappers
  import opened Strings
  import opened Chunker

  /** A record's metadata: a note chunk's, or the counter's. */
  datatype Metadata =
    | ChunkMeta(noteId: nat, fullText: string, chunkIndex: nat)
    | CountMeta(count: nat)

  /** A record of the index. `values` is `None` where JavaScript would
      store `undefined` (the counter of a note without vectors). */
  datatype Record<V> = Record(id: string, values: Option<V>, metadata: Metadata)

  /** The two batches `insertNote` upserts, in the order it sends them. */
  datatype NoteWrite<V> = NoteWrite(chunks: seq<Record<V>>, counter: Record<V>)

  /** The id of the counter record. */
  const CountId: string := "count"

  /** `${noteId}-${i}`. */
  function ChunkId(noteId: nat, i: nat): (id: string)
  {
    NatToString(noteId) + "-" + NatToString(i)
  }

  /** Splitting `a + "-" + b` at its first dash, when `a` holds none. */
  lemma {:induction false} DashSplit(a1: string, b1: string, a2: string, b2: string)
    requires '-' !in a1 && '-' !in a2
    requires a1 + "-" + b1 == a2 + "-" + b2
    ensures a1 == a2 && b1 == b2
  {
    var s := a1 + "-" + b1;
    if |a1| < |a2| {
      DashAt(a1, b1, a2, b2);
      assert false;
    } else if |a2| < |a1| {
      DashAt(a2, b2, a1, b1);
      assert false;
    } else {
      assert a1 == s[..|a1|] == a2;
      assert b1 == s[|a1| + 1..] == b2;
    }
  }

  /** Where the shorter prefix ends, the longer one would hold the dash. */
  lemma DashAt(a1: string, b1: string, a2: string, b2: string)
    requires |a1| < |a2| && a1 + "-" + b1 == a2 + "-" + b2
    ensures a2[|a1|] == '-'
  {
    assert (a1 + "-" + b1)[|a1|] == '-';
    assert (a2 + "-" + b2)[|a1|] == a2[|a1|];
  }

  /** A chunk id names its note and its index: no two chunks of any notes
      share an id. */
  lemma ChunkIdInjective(n1: nat, i1: nat, n2: nat, i2: nat)
    ensures ChunkId(n1, i1) == ChunkId(n2, i2) <==> n1 == n2 && i1 == i2
  {
    if ChunkId(n1, i1) == ChunkId(n2, i2) {
      NatToStringNoDash(n1);
      NatToStringNoDash(n2);
      DashSplit(NatToString(n1), NatToString(i1), NatToString(n2), NatToString(i2));
      NatToStringInjective(n1, n2);
      NatToStringInjective(i1, i2);
    }
  }

  /** Every chunk id holds a dash; the counter id holds none. */
  lemma ChunkIdDash(noteId: nat, i: nat)
    ensures '-' in ChunkId(noteId, i)
    ensures '-' !in CountId
    ensures ChunkId(noteId, i) != CountId
  {
  }

  /** Record `i` of a note: its vector, and the note's text and id. */
  function ChunkRecord<V>(noteId: nat, fullText: string, i: nat, v: V): (r: Record<V>)
  {
    Record(ChunkId(noteId, i), Some(v), ChunkMeta(noteId, fullText, i))
  }

  /** The chunk records of a note, one per vector. */
  function ChunkRecords<V>(noteId: nat, fullText: string, vectors: seq<V>): (records: seq<Record<V>>)
  {
    seq(|vectors|, i requires 0 <= i < |vectors| => ChunkRecord(noteId, fullText, i, vectors[i]))
  }

  /** The loop of `insertNote` that pushes one record per vector. */
  method BuildChunkRecords<V>(noteId: nat, fullText: string, vectors: seq<V>)
    returns (records: seq<Record<V>>)
    ensures |records| == |vectors|
    ensures forall i :: 0 <= i < |records| ==>
      && records[i].id == ChunkId(noteId, i)
      && records[i].values == Some(vectors[i])
      && records[i].metadata == ChunkMeta(noteId, fullText, i)
    ensures records == ChunkRecords(noteId, fullText, vectors)
  {
    records := [];
    var i := 0;
    while i < |vectors|
      invariant 0 <= i <= |vectors|
      invariant records == ChunkRecords(noteId, fullText, vectors[..i])
    {
      assert vectors[..i + 1][..i] == vectors[..i];
      records := records + [ChunkRecord(noteId, fullText, i, vectors[i])];
      i := i + 1;
    }
    assert vectors[..i] == vectors;
  }

  /** The chunk records of one note have pairwise distinct ids, none of
      them the counter's. */
  lemma ChunkRecordIdsDistinct<V>(noteId: nat, fullText: string, vectors: seq<V>)
    ensures forall i, j :: 0 <= i < j < |ChunkRecords(noteId, fullText, vectors)| ==>
      ChunkRecords(noteId, fullText, vectors)[i].id != ChunkRecords(noteId, fullText, vectors)[j].id
    ensures forall i :: 0 <= i < |ChunkRecords(noteId, fullText, vectors)| ==>
      ChunkRecords(noteId, fullText, vectors)[i].id != CountId
  {
    var records := ChunkRecords(noteId, fullText, vectors);
    forall i, j | 0 <= i < j < |records|
      ensures records[i].id != records[j].id
    {
      ChunkIdInjective(noteId, i, noteId, j);
    }
    forall i | 0 <= i < |records|
      ensures records[i].id != CountId
    {
      ChunkIdDash(noteId, i);
    }
  }

  /**
   * The counter record written after the chunks: `count` is
   * `parseInt(noteId) + 1`, and `values` is the first vector, or
   * `undefined` when there is none.
   */
  function CounterRecord<V>(noteId: nat, vectors: seq<V>): (r: Record<V>)
    ensures r.id == CountId
    ensures r.metadata == CountMeta(noteId + 1)
    ensures |vectors| == 0 <==> r.values == None
    ensures |vectors| > 0 ==> r.values == Some(vectors[0])
  {
    ParseNatToString(noteId);
    var first := if |vectors| > 0 then Some(vectors[0]) else None;
    Record(CountId, first, CountMeta(ParseNat(NatToString(noteId)) + 1))
  }

  /** Both upserts of `insertNote`, for the note id read from the counter. */
  function InsertNote<V>(noteId: nat, fullText: string, vectors: seq<V>): (w: NoteWrite<V>)
  {
    NoteWrite(ChunkRecords(noteId, fullText, vectors), CounterRecord(noteId, vectors))
  }

  /**
   * `insertNote` from the result of fetching the `"count"` record. When
   * the index holds no such record, reading `metadata.count` of it throws
   * before either upsert, so nothing is written (`None`).
   */
  function InsertNoteFetched<V>(fetched: Option<nat>, fullText: string, vectors: seq<V>)
    : (w: Option<NoteWrite<V>>)
    ensures w.None? <==> fetched.None?
    ensures w.Some? ==> |w.value.chunks| == |vectors|
    ensures w.Some? ==> forall i :: 0 <= i < |vectors| ==>
      w.value.chunks[i].metadata == ChunkMeta(fetched.value, fullText, i)
    ensures w.Some? ==> w.value.counter.id == CountId
    ensures w.Some? ==> w.value.counter.metadata == CountMeta(fetched.value + 1)
  {
    match fetched
    case None => None
    case Some(noteId) => Some(InsertNote(noteId, fullText, vectors))
  }

  /**
   * Chunking the note and embedding it with a length-preserving model
   * gives at least one vector, so the counter record carries a real
   * vector and there is one chunk record per chunk.
   */
  lemma InsertNoteAfterChunking<V>(noteId: nat, fullText: string, vectors: seq<V>)
    requires |vectors| == |ChunkText(fullText, DefaultChunkSize)|
    ensures |InsertNote(noteId, fullText, vectors).chunks| == |ChunkText(fullText, DefaultChunkSize)|
    ensures InsertNote(noteId, fullText, vectors).counter.values == Some(vectors[0])
    ensures InsertNote(noteId, fullText, vectors).counter.metadata.count == noteId + 1
  {
  }

  /** The ids a later note writes never collide with this note's. */
  lemma NotesDoNotCollide<V>(n1: nat, t1: string, v1: seq<V>, n2: nat, t2: string, v2: seq<V>)
    requires n1 != n2
    ensures forall i, j :: 0 <= i < |v1| && 0 <= j < |v2| ==>
      InsertNote(n1, t1, v1).chunks[i].id != InsertNote(n2, t2, v2).chunks[j].id
  {
    forall i, j | 0 <= i < |v1| && 0 <= j < |v2|
      ensures InsertNote(n1, t1, v1).chunks[i].id != InsertNote(n2, t2, v2).chunks[j].id
    {
      ChunkIdInjective(n1, i, n2, j);
    }
  }
}
