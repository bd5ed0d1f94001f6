/** `generate_gemini_embeddings`: each text is sent to the embedding service
    and every vector must have the index's dimension. */
module Embeddings {
  import opened Wrappers

  const VectorDimension: nat := 768

  type Embedding = seq<real>

  /** A reply of the embedding service that the code keeps: present (the
      call did not raise) and of the index's dimension. */
  predicate Acceptable(e: Option<Embedding>)
  {
    e.Some? && |e.value| == VectorDimension
  }

  /** One text's step: the vector, or None when the call raised or the
      vector has the wrong dimension. In the list loop a None ends the loop;
      on its own it is the single-string form, whose `ValueError` the same
      handler turns into None. */
  function EmbedOne(content: string, embed: string -> Option<Embedding>): (r: Option<Embedding>)
    ensures r.Some? <==> Acceptable(embed(content))
    ensures r.Some? ==> r == embed(content) && |r.value| == VectorDimension
  {
    var e := embed(content);
    if e.Some? && |e.value| != VectorDimension then None else e
  }

  /** The list form's result: every vector, in order, when every text got an
      acceptable one; otherwise None. */
  function EmbedAll(texts: seq<string>, embed: string -> Option<Embedding>): Option<seq<Embedding>>
  {
    if forall i :: 0 <= i < |texts| ==> EmbedOne(texts[i], embed).Some?
    then Some(seq(|texts|, i requires 0 <= i < |texts| => EmbedOne(texts[i], embed).value))
    else None
  }

  /** The list form, texts sent one at a time. `asked` is the texts sent to
      the service: the first failure ends the loop, so later texts are never
      sent. */
  method GenerateEmbeddings(texts: seq<string>, embed: string -> Option<Embedding>)
    returns (r: Option<seq<Embedding>>, asked: seq<string>)
    ensures r == EmbedAll(texts, embed)
    ensures r.Some? ==> |r.value| == |texts| && forall i :: 0 <= i < |texts| ==> |r.value[i]| == VectorDimension
    ensures |asked| <= |texts| && asked == texts[..|asked|]
    ensures r.Some? ==> asked == texts
    ensures r.None? ==> asked != [] && !Acceptable(embed(asked[|asked| - 1]))
    ensures forall i :: 0 <= i < |asked| - 1 ==> Acceptable(embed(asked[i]))
  {
    var vectors: seq<Embedding> := [];
    var i := 0;
    while i < |texts|
      invariant 0 <= i <= |texts| && |vectors| == i
      invariant forall k :: 0 <= k < i ==> EmbedOne(texts[k], embed).Some? && vectors[k] == EmbedOne(texts[k], embed).value
    {
      var e := EmbedOne(texts[i], embed);
      if e.None? {
        return None, texts[..i + 1];
      }
      vectors := vectors + [e.value];
      i := i + 1;
    }
    assert vectors == seq(|texts|, k requires 0 <= k < |texts| => EmbedOne(texts[k], embed).value);
    r, asked := Some(vectors), texts;
  }
}
