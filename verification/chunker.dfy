/**
 * `chunkText` (rough-app/src/lib/pineconeUtils.js): a note is split on the
 * single space character into words, consecutive words are grouped
 * `chunkSize` at a time, and each group is joined back with single spaces.
 */
module Chunker {
  import opened Strings
  import opened Sequences

  /** A `{text}` object handed to the embedder. */
  datatype Chunk = Chunk(text: string)

  /** The default `chunkSize` of `chunkText`. */
  const DefaultChunkSize: nat := 30

  const Space: char := ' '

  function Min(a: int, b: int): (m: int)
  {
    if a <= b then a else b
  }

  /** `c` is ceil(n / d): `c` steps of `d` reach `n`, one fewer does not. */
  predicate IsCeilDiv(c: nat, n: nat, d: nat)
  {
    n <= c * d && (c == 0 || (c - 1) * d < n)
  }

  lemma MulSucc(a: nat, b: nat)
    ensures (a + 1) * b == a * b + b
  {
  }

  /** The word groups `words.slice(i, i + size)` for i = 0, size, 2*size, ...;
      the lemmas below give their number, extent and concatenation. */
  function Groups(words: seq<string>, size: nat): (gs: seq<seq<string>>)
    requires size > 0
    ensures |words| > 0 ==> |gs| >= 1
    ensures forall k :: 0 <= k < |gs| ==> 1 <= |gs[k]| <= size
    decreases |words|
  {
    if |words| == 0 then []
    else if |words| <= size then [words]
    else [words[..size]] + Groups(words[size..], size)
  }

  /** There are ceil(|words| / size) groups. */
  lemma {:induction false} GroupsCount(words: seq<string>, size: nat)
    requires size > 0
    ensures IsCeilDiv(|Groups(words, size)|, |words|, size)
    decreases |words|
  {
    if |words| > size {
      var rest := Groups(words[size..], size);
      GroupsCount(words[size..], size);
      MulSucc(|rest|, size);
      MulSucc(|rest| - 1, size);
    }
  }

  /** Concatenating the groups gives the words back. */
  lemma {:induction false} GroupsFlatten(words: seq<string>, size: nat)
    requires size > 0
    ensures Flatten(Groups(words, size)) == words
    decreases |words|
  {
    if |words| > size {
      var gs := Groups(words, size);
      GroupsFlatten(words[size..], size);
      assert gs[1..] == Groups(words[size..], size);
      assert words[..size] + words[size..] == words;
    }
  }

  /** Group `k` is the slice of the words starting at `k * size`. */
  lemma {:induction false} GroupSlice(words: seq<string>, size: nat, k: nat)
    requires size > 0 && k < |Groups(words, size)|
    ensures k * size < |words|
    ensures Groups(words, size)[k] == words[k * size .. Min(k * size + size, |words|)]
    decreases k
  {
    var gs := Groups(words, size);
    if k > 0 {
      var tail := words[size..];
      assert gs == [words[..size]] + Groups(tail, size);
      GroupSlice(tail, size, k - 1);
      var j := (k - 1) * size;
      MulSucc(k - 1, size);
      SliceShift(words, size, j, Min(j + size, |tail|));
    }
  }

  /** Slicing after the first `size` words is slicing the whole, shifted. */
  lemma SliceShift(words: seq<string>, size: nat, lo: nat, hi: nat)
    requires size <= |words| && lo <= hi <= |words| - size
    ensures words[size..][lo..hi] == words[lo + size .. hi + size]
  {
  }

  /** All groups at once. */
  lemma GroupsSlices(words: seq<string>, size: nat)
    requires size > 0
    ensures forall k :: 0 <= k < |Groups(words, size)| ==>
      k * size < |words| &&
      Groups(words, size)[k] == words[k * size .. Min(k * size + size, |words|)]
  {
    forall k | 0 <= k < |Groups(words, size)|
      ensures k * size < |words|
      ensures Groups(words, size)[k] == words[k * size .. Min(k * size + size, |words|)]
    {
      GroupSlice(words, size, k);
    }
  }

  /** Every group but the last is full. */
  lemma {:induction false} GroupsFull(words: seq<string>, size: nat)
    requires size > 0
    ensures forall k :: 0 <= k < |Groups(words, size)| - 1 ==> |Groups(words, size)[k]| == size
    decreases |words|
  {
    if |words| > size {
      GroupsFull(words[size..], size);
      var gs := Groups(words, size);
      assert forall k :: 1 <= k < |gs| ==> gs[k] == Groups(words[size..], size)[k - 1];
    }
  }

  /** The chunk objects `chunkText(text, chunkSize)` returns: chunk `k`
      is words `k * chunkSize` up to the next multiple, joined by spaces. */
  function ChunkText(text: string, chunkSize: nat): (chunks: seq<Chunk>)
    requires chunkSize > 0
    ensures |chunks| >= 1
    ensures IsCeilDiv(|chunks|, |Split(text, Space)|, chunkSize)
    ensures forall k :: 0 <= k < |chunks| ==>
      var words := Split(text, Space);
      k * chunkSize < |words| &&
      chunks[k].text == Join(words[k * chunkSize .. Min(k * chunkSize + chunkSize, |words|)], Space)
  {
    var words := Split(text, Space);
    var gs := Groups(words, chunkSize);
    GroupsCount(words, chunkSize);
    GroupsSlices(words, chunkSize);
    seq(|gs|, k requires 0 <= k < |gs| => Chunk(Join(gs[k], Space)))
  }

  /** The words of chunk `k` are group `k`: at most `chunkSize` of them,
      exactly `chunkSize` in every chunk but the last. */
  lemma ChunkWords(text: string, chunkSize: nat)
    requires chunkSize > 0
    ensures forall k :: 0 <= k < |ChunkText(text, chunkSize)| ==>
      1 <= |Split(ChunkText(text, chunkSize)[k].text, Space)| <= chunkSize
    ensures forall k :: 0 <= k < |ChunkText(text, chunkSize)| - 1 ==>
      |Split(ChunkText(text, chunkSize)[k].text, Space)| == chunkSize
  {
    var words := Split(text, Space);
    var gs := Groups(words, chunkSize);
    var chunks := ChunkText(text, chunkSize);
    GroupsFull(words, chunkSize);
    forall k | 0 <= k < |chunks|
      ensures Split(chunks[k].text, Space) == gs[k]
    {
      GroupSlice(words, chunkSize, k);
      var lo := k * chunkSize;
      SliceNoSeparator(words, lo, Min(lo + chunkSize, |words|));
      SplitJoin(gs[k], Space);
    }
  }

  /** A slice of split pieces holds no separator either. */
  lemma SliceNoSeparator(words: seq<string>, lo: nat, hi: nat)
    requires lo <= hi <= |words|
    requires forall j :: 0 <= j < |words| ==> Space !in words[j]
    ensures forall j :: 0 <= j < hi - lo ==> Space !in words[lo..hi][j]
  {
  }

  /** A count characterised by `IsCeilDiv` is the rounded-up quotient. */
  lemma CeilDivIsQuotient(c: nat, n: nat, d: nat)
    requires d > 0 && n > 0 && IsCeilDiv(c, n, d)
    ensures c == (n + d - 1) / d
  {
    MulSucc(c - 1, d);
    MulSucc(c, d);
    DivBetween(n + d - 1, c, d);
  }

  /** A number between `c * d` and the next multiple has quotient `c`. */
  lemma DivBetween(x: nat, c: nat, d: nat)
    requires d > 0 && c * d <= x < c * d + d
    ensures x / d == c
  {
    var q := x / d;
    assert q * d <= x < q * d + d;
    if q < c {
      MulLe(q + 1, c, d);
      MulSucc(q, d);
    } else if q > c {
      MulLe(c + 1, q, d);
      MulSucc(c, d);
    }
  }

  /** The number of chunks is ceil(word count / chunkSize). */
  lemma ChunkCount(text: string, chunkSize: nat)
    requires chunkSize > 0
    ensures |ChunkText(text, chunkSize)|
      == (|Split(text, Space)| + chunkSize - 1) / chunkSize
  {
    CeilDivIsQuotient(|ChunkText(text, chunkSize)|, |Split(text, Space)|, chunkSize);
  }

  /** The empty note still yields one chunk, and its text is empty. */
  lemma ChunkEmpty(chunkSize: nat)
    requires chunkSize > 0
    ensures ChunkText("", chunkSize) == [Chunk("")]
  {
  }

  /** A note of 65 words in chunks of 30 gives chunks of 30, 30 and 5 words. */
  lemma ChunkSixtyFiveWords(text: string)
    requires |Split(text, Space)| == 65
    ensures |ChunkText(text, DefaultChunkSize)| == 3
    ensures |Split(ChunkText(text, DefaultChunkSize)[0].text, Space)| == 30
    ensures |Split(ChunkText(text, DefaultChunkSize)[1].text, Space)| == 30
    ensures |Split(ChunkText(text, DefaultChunkSize)[2].text, Space)| == 5
  {
    var words := Split(text, Space);
    var chunks := ChunkText(text, DefaultChunkSize);
    ChunkCount(text, DefaultChunkSize);
    ChunkWords(text, DefaultChunkSize);
    var last := words[60..65];
    assert chunks[2].text == Join(last, Space);
    assert forall j :: 0 <= j < |last| ==> Space !in last[j];
    SplitJoin(last, Space);
  }

  /** `"a b c d e"` in chunks of two gives `"a b"`, `"c d"` and `"e"`. */
  lemma ChunkFiveLetters()
    ensures Texts(ChunkText("a b c d e", 2)) == ["a b", "c d", "e"]
  {
    var words := ["a", "b", "c", "d", "e"];
    FiveLettersSplit(words);
    var gs := [["a", "b"], ["c", "d"], ["e"]];
    FiveLettersGroups(words, gs);
    TextsOfGroups("a b c d e", 2, gs);
    JoinThree(gs);
  }

  lemma JoinThree(gs: seq<seq<string>>)
    requires gs == [["a", "b"], ["c", "d"], ["e"]]
    ensures seq(|gs|, k requires 0 <= k < |gs| => Join(gs[k], Space)) == ["a b", "c d", "e"]
  {
    assert Join(gs[0], Space) == "a b";
    assert Join(gs[1], Space) == "c d";
  }

  /** The chunk texts are the word groups, each joined with spaces. */
  lemma TextsOfGroups(text: string, chunkSize: nat, gs: seq<seq<string>>)
    requires chunkSize > 0 && gs == Groups(Split(text, Space), chunkSize)
    ensures Texts(ChunkText(text, chunkSize)) == seq(|gs|, k requires 0 <= k < |gs| => Join(gs[k], Space))
  {
  }

  lemma FiveLettersSplit(words: seq<string>)
    requires words == ["a", "b", "c", "d", "e"]
    ensures Split("a b c d e", Space) == words
  {
    assert Join(words[4..], Space) == "e";
    assert Join(words[3..], Space) == "d e";
    assert Join(words[2..], Space) == "c d e";
    assert Join(words[1..], Space) == "b c d e";
    assert Join(words, Space) == "a b c d e";
    SplitJoin(words, Space);
  }

  lemma FiveLettersGroups(words: seq<string>, gs: seq<seq<string>>)
    requires words == ["a", "b", "c", "d", "e"]
    requires gs == [["a", "b"], ["c", "d"], ["e"]]
    ensures Groups(words, 2) == gs
  {
    assert words[2..][2..] == words[4..] == ["e"];
    assert Groups(words[4..], 2) == gs[2..];
    assert words[2..][..2] == gs[1] && gs[1..] == [gs[1]] + gs[2..];
    assert Groups(words[2..], 2) == gs[1..];
    assert words[..2] == gs[0] && gs == [gs[0]] + gs[1..];
  }

  /** The texts of the chunks, in order. */
  function Texts(chunks: seq<Chunk>): (texts: seq<string>)
    ensures |texts| == |chunks|
    ensures forall k :: 0 <= k < |chunks| ==> texts[k] == chunks[k].text
  {
    seq(|chunks|, k requires 0 <= k < |chunks| => chunks[k].text)
  }

  /** Joining the joined groups equals joining the words they came from. */
  lemma {:induction false} JoinGroups(gs: seq<seq<string>>)
    requires |gs| >= 1
    requires forall k :: 0 <= k < |gs| ==> |gs[k]| >= 1
    ensures Join(seq(|gs|, k requires 0 <= k < |gs| => Join(gs[k], Space)), Space)
      == Join(Flatten(gs), Space)
    decreases |gs|
  {
    var joined := seq(|gs|, k requires 0 <= k < |gs| => Join(gs[k], Space));
    if |gs| > 1 {
      var rest := gs[1..];
      var joinedRest := seq(|rest|, k requires 0 <= k < |rest| => Join(rest[k], Space));
      JoinGroups(rest);
      assert joined[1..] == joinedRest;
      assert Flatten(gs) == gs[0] + Flatten(rest);
      FlattenNonEmpty(rest);
      JoinAppend(gs[0], Flatten(rest), Space);
    }
  }

  lemma {:induction false} FlattenNonEmpty(gs: seq<seq<string>>)
    requires |gs| >= 1 && |gs[0]| >= 1
    ensures |Flatten(gs)| >= 1
  {
  }

  /** Joining all chunk texts with one space gives back the text exactly,
      empty words from repeated spaces included. */
  lemma ChunkRoundTrip(text: string, chunkSize: nat)
    requires chunkSize > 0
    ensures Join(Texts(ChunkText(text, chunkSize)), Space) == text
  {
    var words := Split(text, Space);
    var gs := Groups(words, chunkSize);
    JoinGroups(gs);
    assert Texts(ChunkText(text, chunkSize))
      == seq(|gs|, k requires 0 <= k < |gs| => Join(gs[k], Space));
    GroupsFlatten(words, chunkSize);
    JoinSplit(text, Space);
  }

  /** The loop of `chunkText`: `i` steps by `chunkSize` while below the
      word count, and each step pushes the joined slice from `i`. */
  method ChunkTextLoop(text: string, chunkSize: nat) returns (chunks: seq<Chunk>)
    requires chunkSize > 0
    ensures chunks == ChunkText(text, chunkSize)
  {
    var words := Split(text, Space);
    ghost var expected := ChunkText(text, chunkSize);
    chunks := [];
    var i := 0;
    while i < |words|
      invariant |chunks| <= |expected|
      invariant i == |chunks| * chunkSize
      invariant chunks == expected[..|chunks|]
      decreases |words| - i
    {
      BelowCount(|chunks|, |expected|, chunkSize, |words|);
      MulSucc(|chunks|, chunkSize);
      chunks := chunks + [Chunk(Join(words[i .. Min(i + chunkSize, |words|)], Space))];
      i := i + chunkSize;
    }
    assert |chunks| == |expected|;
  }

  /** A step that starts below the word count is not past the last chunk. */
  lemma BelowCount(c: nat, e: nat, d: nat, n: nat)
    requires c * d < n <= e * d
    ensures c < e
  {
    if c >= e {
      MulLe(e, c, d);
    }
  }

  /** Two counts that both satisfy `IsCeilDiv` are equal. */
  lemma CeilDivUnique(a: nat, b: nat, n: nat, d: nat)
    requires d > 0 && IsCeilDiv(a, n, d) && IsCeilDiv(b, n, d)
    ensures a == b
  {
    if a < b {
      MulLe(a, b - 1, d);
    } else if b < a {
      MulLe(b, a - 1, d);
    }
  }

  lemma MulLe(a: nat, b: nat, d: nat)
    requires a <= b
    ensures a * d <= b * d
  {
  }
}
