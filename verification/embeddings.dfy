/** The embedding front end of app/core/embeddings.py: the lazily initialised model slot,
    the deterministic hash-based fallback embedder and the zero-vector error path.

    Vector entries are kept as integer thousandths: the source's `float(n) / 1000.0` is
    represented by `n`. Python's per-process `hash()` is a parameter. */
module Embeddings {
  import opened Wrappers

  /** Dimension of every vector (that of the all-MiniLM-L6-v2 model). */
  const Dim := 384

  /** Denominator of the fallback entries. */
  const Scale := 1000

  /** The module-global `_model`: unset, the "simple" sentinel, or a loaded model. */
  datatype ModelSlot = Unset | Simple | Loaded

  /** `get_model()`: returns the new slot, which is also the value handed back. The first call
      decides: no library or a failing load caches "simple", a successful load caches the
      model; later calls return the cached value whatever the environment says. */
  function GetModel(slot: ModelSlot, libraryAvailable: bool, loadSucceeds: bool): (r: ModelSlot)
    ensures r != Unset
    ensures slot != Unset ==> r == slot
    ensures slot == Unset ==> (r == Loaded <==> libraryAvailable && loadSucceeds)
  {
    if slot != Unset then slot
    else if !libraryAvailable then Simple
    else if loadSucceeds then Loaded
    else Simple
  }

  /** Initialisation happens once: a second call returns what the first one cached. */
  lemma GetModelIdempotent(slot: ModelSlot, a1: bool, l1: bool, a2: bool, l2: bool)
    ensures GetModel(GetModel(slot, a1, l1), a2, l2) == GetModel(slot, a1, l1)
  {
  }

  /** The fallback vector of a text whose hash is `h`: entry `i` is `(h + i) mod 1000`
      thousandths. Python's `%` and Dafny's agree for the positive divisor 1000, also for a
      negative `h`. */
  function FallbackVector(h: int): (v: seq<int>)
    ensures |v| == Dim
    ensures forall i :: 0 <= i < Dim ==> 0 <= v[i] < Scale
  {
    seq(Dim, i => (h + i) % Scale)
  }

  /** The fallback branch of `embed_texts`, loop for loop. */
  method EmbedFallback(texts: seq<string>, hash: string -> int) returns (embeddings: seq<seq<int>>)
    ensures |embeddings| == |texts|
    ensures forall j :: 0 <= j < |texts| ==> embeddings[j] == FallbackVector(hash(texts[j]))
  {
    embeddings := [];
    var j := 0;
    while j < |texts|
      invariant 0 <= j <= |texts|
      invariant |embeddings| == j
      invariant forall k :: 0 <= k < j ==> embeddings[k] == FallbackVector(hash(texts[k]))
    {
      var hashVal := hash(texts[j]);
      var embedding: seq<int> := [];
      var i := 0;
      while i < Dim
        invariant 0 <= i <= Dim
        invariant embedding == FallbackVector(hashVal)[..i]
      {
        embedding := embedding + [(hashVal + i) % Scale];
        i := i + 1;
      }
      assert embedding == FallbackVector(hashVal);
      embeddings := embeddings + [embedding];
      j := j + 1;
    }
  }

  function Zeros(n: nat): (v: seq<int>)
    ensures |v| == n && forall i :: 0 <= i < n ==> v[i] == 0
  {
    seq(n, _ => 0)
  }

  /** `embed_texts` with the model already obtained. `encoded` is what `model.encode` gives
      for the batch, None when it raises. */
  function EmbedTexts(texts: seq<string>, model: ModelSlot, hash: string -> int, encoded: Option<seq<seq<int>>>): (r: seq<seq<int>>)
    requires model != Unset
    ensures model == Simple ==> |r| == |texts| && forall j :: 0 <= j < |texts| ==> r[j] == FallbackVector(hash(texts[j]))
    ensures model == Loaded && encoded.None? ==> |r| == |texts| && forall j :: 0 <= j < |texts| ==> r[j] == Zeros(Dim)
    ensures model == Loaded && encoded.Some? ==> r == encoded.value
  {
    if model == Simple then seq(|texts|, j requires 0 <= j < |texts| => FallbackVector(hash(texts[j])))
    else match encoded
      case Some(vs) => vs
      case None => seq(|texts|, _ => Zeros(Dim))
  }

  /** A whole `embed_texts(texts)` call: obtain the model (possibly initialising the slot),
      then embed. Returns the new slot and the vectors. */
  function EmbedCall(slot: ModelSlot, libraryAvailable: bool, loadSucceeds: bool, texts: seq<string>,
                     hash: string -> int, encoded: Option<seq<seq<int>>>): (r: (ModelSlot, seq<seq<int>>))
    ensures r.0 == GetModel(slot, libraryAvailable, loadSucceeds)
    ensures !libraryAvailable && slot == Unset ==> r.1 == EmbedTexts(texts, Simple, hash, encoded)
    ensures encoded.None? ==> |r.1| == |texts| && forall j :: 0 <= j < |texts| ==> |r.1[j]| == Dim
  {
    var m := GetModel(slot, libraryAvailable, loadSucceeds);
    (m, EmbedTexts(texts, m, hash, encoded))
  }

  // ---------------------------------------------------------------------------------
  // Properties of the fallback.

  /** Consecutive numerators step by one, wrapping from 999 to 0. */
  lemma FallbackSteps(h: int, i: nat)
    requires i + 1 < Dim
    ensures FallbackVector(h)[i + 1] == (FallbackVector(h)[i] + 1) % Scale
    ensures FallbackVector(h)[i] == Scale - 1 ==> FallbackVector(h)[i + 1] == 0
    ensures FallbackVector(h)[i] < Scale - 1 ==> FallbackVector(h)[i + 1] == FallbackVector(h)[i] + 1
  {
    var a := (h + i) % Scale;
    var q := (h + i) / Scale;
    assert h + i == q * Scale + a;
    assert h + i + 1 == q * Scale + (a + 1);
    if a + 1 < Scale {
      assert (h + i + 1) % Scale == a + 1;
    } else {
      assert h + i + 1 == (q + 1) * Scale;
      assert (h + i + 1) % Scale == 0;
    }
  }

  /** The vector depends on the hash only through its residue modulo 1000. */
  lemma FallbackPeriodic(h: int, k: int)
    ensures FallbackVector(h + k * Scale) == FallbackVector(h)
  {
    forall i | 0 <= i < Dim ensures FallbackVector(h + k * Scale)[i] == FallbackVector(h)[i] {
      ModShift(h + i, k);
      assert h + k * Scale + i == (h + i) + k * Scale;
    }
  }

  lemma ModShift(x: int, k: int)
    ensures (x + k * Scale) % Scale == x % Scale
  {
    var a := x % Scale;
    var q := x / Scale;
    assert x + k * Scale == (q + k) * Scale + a;
  }

  /** The first entry determines the vector: it is the hash modulo 1000. */
  lemma FallbackFirstEntry(h: int, h': int)
    requires FallbackVector(h)[0] == FallbackVector(h')[0]
    ensures FallbackVector(h) == FallbackVector(h')
  {
    var k := (h - h') / Scale;
    assert h % Scale == h' % Scale;
    assert h == h' + k * Scale by {
      assert h == (h / Scale) * Scale + h % Scale;
      assert h' == (h' / Scale) * Scale + h' % Scale;
    }
    FallbackPeriodic(h', k);
  }

  /** Equal texts get identical vectors within one batch (and one process). */
  lemma FallbackDeterministic(texts: seq<string>, hash: string -> int, j: nat, k: nat)
    requires j < |texts| && k < |texts| && texts[j] == texts[k]
    ensures EmbedTexts(texts, Simple, hash, None)[j] == EmbedTexts(texts, Simple, hash, None)[k]
  {
  }

  /** Whatever happens, the batch gets one vector per text, each of dimension 384, unless
      the model itself returned something else. */
  lemma EmbedShape(texts: seq<string>, model: ModelSlot, hash: string -> int)
    requires model != Unset
    ensures |EmbedTexts(texts, model, hash, None)| == |texts|
    ensures forall j :: 0 <= j < |texts| ==> |EmbedTexts(texts, model, hash, None)[j]| == Dim
  {
  }
}
