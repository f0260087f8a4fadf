/** The text vectoriser (src/services/vectorizer.py): the abstract
    `Vectorizer` interface the services call, and the E5 implementation's
    blank-input guard and dimension check around an abstract encoder. */
module Vectorizer {

  import opened Wrappers
  import opened Text

  type Vector = seq<real>

  /** Why `embed_text` raised: the encoder itself failed, or it produced a
      vector of the wrong size (the `ValueError` of the E5 vectoriser). */
  datatype VectorizerError =
    | EncoderFailed(message: string)
    | SizeMismatch(actual: nat, expected: int, modelName: string)

  /** The `Vectorizer` interface as the services see it: a model
      identifier and a text-to-vector call that may raise. */
  datatype Port = Port(modelName: string, embed: string -> Result<Vector, VectorizerError>)

  /** An E5 vectoriser: the configured model identifier and dimension, and
      the sentence-transformer's `encode` (normalised embeddings), which may
      raise. */
  datatype E5Vectorizer = E5Vectorizer(
    modelName: string,
    dimension: int,
    encode: string -> Result<Vector, string>)

  /** `E5Vectorizer.embed_text`. Blank text gives the empty vector without
      consulting the encoder; otherwise the encoder sees the stripped text,
      and a vector whose length is not the configured dimension is an
      error naming both sizes. */
  function EmbedText(v: E5Vectorizer, text: string): (r: Result<Vector, VectorizerError>)
    ensures AllSpace(text) ==> r == Success([])
    ensures !AllSpace(text) && v.encode(Strip(text)).Failure? ==>
      r == Failure(EncoderFailed(v.encode(Strip(text)).error))
    ensures !AllSpace(text) && v.encode(Strip(text)).Success? ==>
      var vector := v.encode(Strip(text)).value;
      (|vector| == v.dimension ==> r == Success(vector))
      && (|vector| != v.dimension ==> r == Failure(SizeMismatch(|vector|, v.dimension, v.modelName)))
    ensures r.Success? && r.value != [] ==> |r.value| == v.dimension
  {
    var cleaned := Strip(text);
    if cleaned == [] then Success([])
    else
      match v.encode(cleaned)
      case Failure(message) => Failure(EncoderFailed(message))
      case Success(vector) =>
        if |vector| != v.dimension then Failure(SizeMismatch(|vector|, v.dimension, v.modelName))
        else Success(vector)
  }

  /** The E5 vectoriser behind the interface. */
  function AsPort(v: E5Vectorizer): (p: Port)
    ensures p.modelName == v.modelName
    ensures forall text :: p.embed(text) == EmbedText(v, text)
  {
    Port(v.modelName, text => EmbedText(v, text))
  }

  /** Blank text never reaches the model: two vectorisers with different
      encoders agree on it. */
  lemma BlankTextSkipsEncoder(v: E5Vectorizer, w: E5Vectorizer, text: string)
    requires AllSpace(text)
    ensures EmbedText(v, text) == EmbedText(w, text) == Success([])
  {
  }

  /** Only the stripped text matters: embedding it again gives the same
      outcome. */
  lemma EmbedStrippedText(v: E5Vectorizer, text: string)
    ensures EmbedText(v, Strip(text)) == EmbedText(v, text)
  {
    var s := Strip(text);
    assert Strip(s) == s;
    if AllSpace(s) {
      assert s == [];
    }
  }

  /** Two vectorisers whose encoders agree on the stripped text agree on
      the outcome: the encoder is consulted on that text only. */
  lemma EncoderSeesStrippedText(v: E5Vectorizer, w: E5Vectorizer, text: string)
    requires v.modelName == w.modelName && v.dimension == w.dimension
    requires v.encode(Strip(text)) == w.encode(Strip(text))
    ensures EmbedText(v, text) == EmbedText(w, text)
  {
  }
}
