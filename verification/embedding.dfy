/**
 * `getEmbedding` (rough-app/src/lib/pineconeUtils.js): the chunk texts go
 * to the remote embedding model in one batch, and the `values` field of
 * each element of the response's `data` array is collected in order. The
 * remote call is a parameter; the vectors are opaque values of type `V`.
 */
module Embedding {
  import opened Chunker

  /** One element of the response's `data` array. */
  datatype Embedded<V> = Embedded(values: V)

  /** The loop over `response.data`, pushing each element's `values`. */
  method UnpackEmbeddings<V>(data: seq<Embedded<V>>) returns (arr: seq<V>)
    ensures |arr| == |data|
    ensures forall i :: 0 <= i < |data| ==> arr[i] == data[i].values
  {
    arr := [];
    var i := 0;
    while i < |data|
      invariant 0 <= i <= |data|
      invariant |arr| == i
      invariant forall k :: 0 <= k < i ==> arr[k] == data[k].values
    {
      arr := arr + [data[i].values];
      i := i + 1;
    }
  }

  /**
   * The whole of `getEmbedding`, with the remote model as `embed`: it is
   * sent the chunk texts in order, and its answer is unpacked.
   */
  method GetEmbedding<V>(embed: seq<string> -> seq<Embedded<V>>, chunks: seq<Chunk>)
    returns (vectors: seq<V>)
    ensures |vectors| == |embed(Texts(chunks))|
    ensures forall i :: 0 <= i < |vectors| ==> vectors[i] == embed(Texts(chunks))[i].values
  {
    var response := embed(Texts(chunks));
    vectors := UnpackEmbeddings(response);
  }
}
