/**
 * The local part of `searchNotes` (rough-app/src/lib/pineconeUtils.js):
 * of the matches the index returns, keep those whose id contains `'-'`,
 * take `metadata?.full_text` of each, and return each distinct value once
 * in first-occurrence order (`[...new Set(matches)]`). The query itself
 * is remote; its matches are the input.
 */
module NoteSearch {
  import opened Wrappers
  import opened Sequences
  import opened NoteStore

  /** A query match: its id and, when present, its metadata. */
  datatype Match = Match(id: string, metadata: Option<Metadata>)

  /** `match.id.includes("-")`. */
  predicate IsNoteMatch(m: Match)
  {
    '-' in m.id
  }

  /** `metadata?.full_text`: `undefined` without metadata or without the field. */
  function FullText(metadata: Option<Metadata>): (t: Option<string>)
    ensures t.Some? <==> metadata.Some? && metadata.value.ChunkMeta?
    ensures t.Some? ==> t.value == metadata.value.fullText
  {
    match metadata
    case Some(ChunkMeta(_, text, _)) => Some(text)
    case _ => None
  }

  /** `t` is the full text of some match whose id has a dash. */
  predicate FromNoteMatch(matches: seq<Match>, t: Option<string>)
  {
    exists i :: 0 <= i < |matches| && IsNoteMatch(matches[i]) && t == FullText(matches[i].metadata)
  }

  /** The loop that pushes the full text of every note match, in order. */
  function KeptTexts(matches: seq<Match>): (texts: seq<Option<string>>)
    ensures |texts| <= |matches|
    decreases |matches|
  {
    if |matches| == 0 then []
    else
      var kept := KeptTexts(matches[..|matches| - 1]);
      var m := matches[|matches| - 1];
      if IsNoteMatch(m) then kept + [FullText(m.metadata)] else kept
  }

  /** The match that kept text `k` came from: a note match whose full text it is. */
  lemma {:induction false} KeptSource(matches: seq<Match>, k: nat) returns (i: nat)
    requires k < |KeptTexts(matches)|
    ensures i < |matches| && IsNoteMatch(matches[i])
    ensures KeptTexts(matches)[k] == FullText(matches[i].metadata)
    decreases |matches|
  {
    var n := |matches| - 1;
    var prefix := matches[..n];
    if k < |KeptTexts(prefix)| {
      i := KeptSource(prefix, k);
      assert matches[i] == prefix[i];
    } else {
      i := n;
    }
  }

  /** Where the full text of note match `i` sits among the kept texts. */
  lemma {:induction false} KeptPosition(matches: seq<Match>, i: nat) returns (k: nat)
    requires i < |matches| && IsNoteMatch(matches[i])
    ensures k < |KeptTexts(matches)|
    ensures KeptTexts(matches)[k] == FullText(matches[i].metadata)
    decreases |matches|
  {
    var n := |matches| - 1;
    var prefix := matches[..n];
    if i < n {
      assert matches[i] == prefix[i];
      k := KeptPosition(prefix, i);
    } else {
      k := |KeptTexts(prefix)|;
    }
  }

  /** Every kept text is the full text of a note match, and the full text
      of every note match is kept. */
  lemma KeptTextsMembers(matches: seq<Match>)
    ensures forall k :: 0 <= k < |KeptTexts(matches)| ==> FromNoteMatch(matches, KeptTexts(matches)[k])
    ensures forall i :: 0 <= i < |matches| && IsNoteMatch(matches[i]) ==>
      FullText(matches[i].metadata) in KeptTexts(matches)
  {
    forall k | 0 <= k < |KeptTexts(matches)|
      ensures FromNoteMatch(matches, KeptTexts(matches)[k])
    {
      var i := KeptSource(matches, k);
    }
    forall i | 0 <= i < |matches| && IsNoteMatch(matches[i])
      ensures FullText(matches[i].metadata) in KeptTexts(matches)
    {
      var k := KeptPosition(matches, i);
    }
  }


  /** One match contributes its full text exactly when its id has a dash. */
  lemma KeptTextsOne(m: Match)
    ensures KeptTexts([m]) == if IsNoteMatch(m) then [FullText(m.metadata)] else []
  {
    assert [m][..0] == [];
  }

  /** The kept texts of consecutive runs of matches follow each other, so
      kept texts keep the order of the matches. */
  lemma {:induction false} KeptTextsAppend(a: seq<Match>, b: seq<Match>)
    ensures KeptTexts(a + b) == KeptTexts(a) + KeptTexts(b)
    decreases |b|
  {
    if |b| == 0 {
      assert a + b == a;
    } else {
      var ab := a + b;
      var b' := b[..|b| - 1];
      assert ab[..|ab| - 1] == a + b';
      assert ab[|ab| - 1] == b[|b| - 1];
      KeptTextsAppend(a, b');
    }
  }

  /** The result of `searchNotes` for the matches the query returned. */
  function SearchNotes(matches: seq<Match>): (result: seq<Option<string>>)
    ensures NoDuplicates(result)
    ensures forall k :: 0 <= k < |result| ==> FromNoteMatch(matches, result[k])
    ensures forall i :: 0 <= i < |matches| && IsNoteMatch(matches[i]) ==>
      FullText(matches[i].metadata) in result
    ensures |matches| == 0 ==> result == []
  {
    var kept := KeptTexts(matches);
    KeptTextsMembers(matches);
    var result := Dedup(kept);
    assert forall k :: 0 <= k < |result| ==> result[k] in kept;
    result
  }

  /** The results come in the order their texts first occur among the
      kept matches. */
  lemma SearchOrder(matches: seq<Match>)
    ensures forall i, j :: 0 <= i < j < |SearchNotes(matches)| ==>
      FirstIndex(KeptTexts(matches), SearchNotes(matches)[i])
        < FirstIndex(KeptTexts(matches), SearchNotes(matches)[j])
  {
    DedupOrder(KeptTexts(matches));
  }

  /** What a query match of a stored record looks like. */
  function MatchOf<V>(r: Record<V>): (m: Match)
  {
    Match(r.id, Some(r.metadata))
  }

  /** Every chunk record of a note is kept, and yields the note's text. */
  lemma ChunkRecordFound<V>(noteId: nat, fullText: string, vectors: seq<V>, i: nat)
    requires i < |vectors|
    ensures IsNoteMatch(MatchOf(InsertNote(noteId, fullText, vectors).chunks[i]))
    ensures FullText(MatchOf(InsertNote(noteId, fullText, vectors).chunks[i]).metadata) == Some(fullText)
  {
  }

  /** The counter record is never kept, so its metadata never reaches a result. */
  lemma CounterNeverFound<V>(noteId: nat, vectors: seq<V>)
    ensures !IsNoteMatch(MatchOf(CounterRecord(noteId, vectors)))
    ensures KeptTexts([MatchOf(CounterRecord(noteId, vectors))]) == []
  {
  }

  /** The matches a query can return for the records of one note write. */
  function MatchesOf<V>(w: NoteWrite<V>): (ms: seq<Match>)
  {
    seq(|w.chunks|, i requires 0 <= i < |w.chunks| => MatchOf(w.chunks[i])) + [MatchOf(w.counter)]
  }

  /** Of the records of one note, only chunk records are kept, each
      yielding that note's text. */
  lemma KeptOneNote<V>(noteId: nat, fullText: string, vectors: seq<V>, matches: seq<Match>)
    requires forall k :: 0 <= k < |matches| ==> matches[k] in MatchesOf(InsertNote(noteId, fullText, vectors))
    ensures forall k :: 0 <= k < |KeptTexts(matches)| ==> KeptTexts(matches)[k] == Some(fullText)
  {
    var kept := KeptTexts(matches);
    KeptTextsMembers(matches);
    forall k | 0 <= k < |kept|
      ensures kept[k] == Some(fullText)
    {
      var i := KeptSource(matches, k);
      FromOneNote(noteId, fullText, vectors, matches[i]);
    }
  }

  /** A dash match among one note's record matches carries the note's text. */
  lemma FromOneNote<V>(noteId: nat, fullText: string, vectors: seq<V>, m: Match)
    requires m in MatchesOf(InsertNote(noteId, fullText, vectors)) && IsNoteMatch(m)
    ensures FullText(m.metadata) == Some(fullText)
  {
    var w := InsertNote(noteId, fullText, vectors);
    var all := MatchesOf(w);
    var p :| 0 <= p < |all| && all[p] == m;
    if p < |w.chunks| {
      assert m == MatchOf(w.chunks[p]);
    } else {
      CounterNeverFound(noteId, vectors);
    }
  }

  /**
   * A query that returns only records of one inserted note, in any order
   * and any number, finds that note's text once, or nothing when only
   * its counter came back.
   */
  lemma SearchOneNote<V>(noteId: nat, fullText: string, vectors: seq<V>, matches: seq<Match>)
    requires forall k :: 0 <= k < |matches| ==> matches[k] in MatchesOf(InsertNote(noteId, fullText, vectors))
    ensures SearchNotes(matches) == [] || SearchNotes(matches) == [Some(fullText)]
  {
    KeptOneNote(noteId, fullText, vectors, matches);
    DedupConstant(KeptTexts(matches), Some(fullText));
  }
}
