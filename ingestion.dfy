/** `process_documents`: chunk texts are embedded, paired with ids
    `doc_0`, `doc_1`, ... and upserted in consecutive batches of at most
    100. */
module Ingestion {
  import opened Wrappers
  import opened Text
  import opened Embeddings

  const BatchSize: nat := 100

  const EmbeddingFailure: string := "Failed to generate embeddings"

  /** One upserted vector: its id, its values and the `metadata` text. */
  datatype VectorRecord = VectorRecord(id: string, values: Embedding, text: string)

  function DocId(i: nat): string
  {
    "doc_" + NatToString(i)
  }

  /** The `vectors` list: record i pairs `texts[i]` with its embedding. */
  function Records(texts: seq<string>, embeddings: seq<Embedding>): seq<VectorRecord>
    requires |texts| == |embeddings|
  {
    seq(|texts|, i requires 0 <= i < |texts| => VectorRecord(DocId(i), embeddings[i], texts[i]))
  }

  /** `[vectors[i:i + 100] for i in range(0, len(vectors), 100)]`. */
  function Batches(vs: seq<VectorRecord>): seq<seq<VectorRecord>>
    decreases |vs|
  {
    if |vs| == 0 then []
    else if |vs| <= BatchSize then [vs]
    else [vs[..BatchSize]] + Batches(vs[BatchSize..])
  }

  function Flatten(bs: seq<seq<VectorRecord>>): seq<VectorRecord>
  {
    if bs == [] then [] else bs[0] + Flatten(bs[1..])
  }

  /** The batches, put back together, are the vectors in their order; each
      holds between 1 and 100 vectors, and every batch but the last holds
      exactly 100. */
  lemma {:induction false} BatchesPartition(vs: seq<VectorRecord>)
    ensures Flatten(Batches(vs)) == vs
    ensures forall k :: 0 <= k < |Batches(vs)| ==> 1 <= |Batches(vs)[k]| <= BatchSize
    ensures forall k :: 0 <= k < |Batches(vs)| - 1 ==> |Batches(vs)[k]| == BatchSize
    ensures |Batches(vs)| == (|vs| + BatchSize - 1) / BatchSize
    decreases |vs|
  {
    if |vs| > BatchSize {
      BatchesPartition(vs[BatchSize..]);
      var bs := Batches(vs);
      assert bs[1..] == Batches(vs[BatchSize..]);
      assert vs == vs[..BatchSize] + vs[BatchSize..];
    }
  }

  /** Batch k is the slice that starts at 100 * k. */
  lemma {:induction false} BatchAt(vs: seq<VectorRecord>, k: nat)
    requires BatchSize * k < |vs|
    ensures k < |Batches(vs)|
    ensures Batches(vs)[k] == vs[BatchSize * k..if BatchSize * k + BatchSize < |vs| then BatchSize * k + BatchSize else |vs|]
    decreases |vs|
  {
    if k > 0 {
      BatchAt(vs[BatchSize..], k - 1);
      assert vs[BatchSize..][BatchSize * (k - 1)..] == vs[BatchSize * k..];
    }
  }

  /** What upserting the batches from batch k on leads to: the first
      batch whose upsert raises ends the run (its message propagates);
      `sent` is every batch handed to the store. */
  datatype IngestOutcome = Ingested(sent: seq<seq<VectorRecord>>) | IngestFailed(message: string, sent: seq<seq<VectorRecord>>)

  function UpsertFrom(batches: seq<seq<VectorRecord>>, k: nat, upsert: seq<VectorRecord> -> Option<string>): IngestOutcome
    requires k <= |batches|
    decreases |batches| - k
  {
    if k == |batches| then Ingested(batches)
    else match upsert(batches[k])
      case Some(message) => IngestFailed(message, batches[..k + 1])
      case None => UpsertFrom(batches, k + 1, upsert)
  }

  /** The batches sent are a prefix of all batches; a success sent them
      all, and a failure stops right after the first batch whose upsert
      raised. */
  lemma {:induction false} UpsertStopsAtFirstFailure(batches: seq<seq<VectorRecord>>, k: nat, upsert: seq<VectorRecord> -> Option<string>)
    requires k <= |batches|
    ensures var o := UpsertFrom(batches, k, upsert);
      && k <= |o.sent| <= |batches| && o.sent == batches[..|o.sent|]
      && (o.Ingested? <==> forall j :: k <= j < |batches| ==> upsert(batches[j]).None?)
      && (o.Ingested? ==> o.sent == batches)
      && (o.IngestFailed? ==>
            && k < |o.sent|
            && upsert(batches[|o.sent| - 1]) == Some(o.message)
            && forall j :: k <= j < |o.sent| - 1 ==> upsert(batches[j]).None?)
    decreases |batches| - k
  {
    if k < |batches| && upsert(batches[k]).None? {
      UpsertStopsAtFirstFailure(batches, k + 1, upsert);
    }
  }

  /** `process_documents` on the chunk texts of the loaded documents. An
      empty embedding list is falsy, so a document with no chunks fails like
      a failed embedding. */
  function Ingest(texts: seq<string>, embed: string -> Option<Embedding>, upsert: seq<VectorRecord> -> Option<string>): IngestOutcome
  {
    match EmbedAll(texts, embed)
    case None => IngestFailed(EmbeddingFailure, [])
    case Some(embeddings) =>
      if embeddings == [] then IngestFailed(EmbeddingFailure, [])
      else UpsertFrom(Batches(Records(texts, embeddings)), 0, upsert)
  }

  method ProcessDocuments(texts: seq<string>, embed: string -> Option<Embedding>, upsert: seq<VectorRecord> -> Option<string>)
    returns (r: IngestOutcome)
    ensures r == Ingest(texts, embed, upsert)
  {
    var embeddings, _ := GenerateEmbeddings(texts, embed);
    if embeddings.None? || embeddings.value == [] {
      return IngestFailed(EmbeddingFailure, []);
    }
    var es := embeddings.value;
    var bad := CheckDimensions(es);
    // every embedding `GenerateEmbeddings` returns has dimension 768
    assert bad.None?;
    var vectors := BuildVectors(texts, es);
    r := UpsertBatches(vectors, upsert);
  }

  /** The second dimension check: the index of the first embedding whose
      dimension is not 768, where the source raises `ValueError`, or None
      when there is none. */
  method CheckDimensions(es: seq<Embedding>) returns (bad: Option<nat>)
    ensures bad.None? <==> forall i :: 0 <= i < |es| ==> |es[i]| == VectorDimension
    ensures bad.Some? ==>
              && bad.value < |es| && |es[bad.value]| != VectorDimension
              && forall i :: 0 <= i < bad.value ==> |es[i]| == VectorDimension
  {
    var d := 0;
    while d < |es|
      invariant 0 <= d <= |es|
      invariant forall i :: 0 <= i < d ==> |es[i]| == VectorDimension
    {
      if |es[d]| != VectorDimension {
        return Some(d);
      }
      d := d + 1;
    }
    return None;
  }

  /** The loop that pairs every text with its embedding and id. */
  method BuildVectors(texts: seq<string>, es: seq<Embedding>) returns (vectors: seq<VectorRecord>)
    requires |texts| == |es|
    ensures vectors == Records(texts, es)
  {
    vectors := [];
    var i := 0;
    while i < |texts|
      invariant 0 <= i <= |texts| && vectors == Records(texts, es)[..i]
    {
      vectors := vectors + [VectorRecord(DocId(i), es[i], texts[i])];
      i := i + 1;
    }
  }

  /** The batch loop: `range(0, len(vectors), 100)`, one upsert per slice,
      and the first error ends it. */
  method UpsertBatches(vectors: seq<VectorRecord>, upsert: seq<VectorRecord> -> Option<string>)
    returns (r: IngestOutcome)
    ensures r == UpsertFrom(Batches(vectors), 0, upsert)
  {
    ghost var batches := Batches(vectors);
    var sent: seq<seq<VectorRecord>> := [];
    var k := 0;
    while BatchSize * k < |vectors|
      invariant k <= |batches| && sent == batches[..k]
      invariant UpsertFrom(batches, 0, upsert) == UpsertFrom(batches, k, upsert)
      decreases |vectors| - BatchSize * k
    {
      var start := BatchSize * k;
      var end := if start + BatchSize < |vectors| then start + BatchSize else |vectors|;
      var batch := vectors[start..end];
      BatchAt(vectors, k);
      assert batches[..k + 1] == batches[..k] + [batch];
      sent := sent + [batch];
      var error := upsert(batch);
      if error.Some? {
        return IngestFailed(error.value, sent);
      }
      k := k + 1;
    }
    BatchesPartition(vectors);
    assert k == |batches|;
    r := Ingested(sent);
  }

  /** Distinct positions get distinct ids. */
  lemma DocIdInjective(i: nat, j: nat)
    requires DocId(i) == DocId(j)
    ensures i == j
  {
    assert NatToString(i) == DocId(i)[4..];
    assert NatToString(j) == DocId(j)[4..];
    NatToStringInjective(i, j);
  }

  /** Every vector sent carries id `doc_i` and metadata `texts[i]` for its
      position i, and no two vectors of one call share an id. */
  lemma IdsAndTexts(texts: seq<string>, embed: string -> Option<Embedding>, upsert: seq<VectorRecord> -> Option<string>)
    requires Ingest(texts, embed, upsert).Ingested?
    ensures var vs := Flatten(Ingest(texts, embed, upsert).sent);
      && |vs| == |texts|
      && (forall i :: 0 <= i < |vs| ==> vs[i].id == DocId(i) && vs[i].text == texts[i] && |vs[i].values| == VectorDimension)
      && (forall i, j :: 0 <= i < j < |vs| ==> vs[i].id != vs[j].id)
  {
    var es := EmbedAll(texts, embed).value;
    var vs := Records(texts, es);
    UpsertStopsAtFirstFailure(Batches(vs), 0, upsert);
    BatchesPartition(vs);
    assert Flatten(Ingest(texts, embed, upsert).sent) == vs;
    forall i, j | 0 <= i < j < |vs| ensures vs[i].id != vs[j].id {
      if vs[i].id == vs[j].id {
        DocIdInjective(i, j);
      }
    }
  }

  /** Nothing is upserted when some text gets no acceptable embedding, or
      there are no texts at all. */
  lemma NoEmbeddingsNothingSent(texts: seq<string>, embed: string -> Option<Embedding>, upsert: seq<VectorRecord> -> Option<string>)
    requires texts == [] || exists i :: 0 <= i < |texts| && !Acceptable(embed(texts[i]))
    ensures Ingest(texts, embed, upsert) == IngestFailed(EmbeddingFailure, [])
  {
  }

  /** Ids restart at `doc_0` on every call, so the chunks of a later upload
      reuse the ids of an earlier one in the same namespace. */
  lemma IdsRestartPerCall(texts1: seq<string>, es1: seq<Embedding>, texts2: seq<string>, es2: seq<Embedding>)
    requires |texts1| == |es1| > 0 && |texts2| == |es2| > 0
    ensures Records(texts1, es1)[0].id == Records(texts2, es2)[0].id == "doc_0"
  {
  }
}
