/** `extractive_summary` of app/core/summarizer.py. The sentences come from
    `Sentences.SplitSentences` (the same split as `split_sentences`); the TF-IDF scores and
    numpy's argsort are oracles, constrained only by what they promise. */
module Summarizer {
  import opened Wrappers
  import opened Text
  import opened Sentences

  /** The vectoriser raises when no sentence has a word outside the stop list. */
  datatype SummaryError = EmptyVocabulary

  /** `order` is an argsort of `scores`: a permutation of the positions, ascending by score
      (ties in any order). */
  predicate IsArgsort(scores: seq<real>, order: seq<nat>) {
    && |order| == |scores|
    && (forall i :: 0 <= i < |order| ==> order[i] < |scores|)
    && (forall i, j :: 0 <= i < j < |order| ==> order[i] != order[j])
    && (forall p :: 0 <= p < |scores| ==> p in order)
    && (forall i, j :: 0 <= i < j < |order| ==> scores[order[i]] <= scores[order[j]])
  }

  /** Where Python's `a[-n:]` starts in a list of `len` elements. */
  function SliceStart(len: nat, n: int): (s: nat)
    ensures s <= len
    ensures n > 0 && n <= len ==> len - s == n
    ensures n == 0 ==> s == 0
  {
    if n > 0 then (if n <= len then len - n else 0)
    else if -n <= len then -n else len
  }

  function Reverse<T>(s: seq<T>): (r: seq<T>)
    ensures |r| == |s| && forall i :: 0 <= i < |s| ==> r[i] == s[|s| - 1 - i]
  {
    seq(|s|, i requires 0 <= i < |s| => s[|s| - 1 - i])
  }

  /** The positions picked: `argsort(scores)[-n:][::-1]`. */
  function Picked(order: seq<nat>, n: int): (pos: seq<nat>)
    ensures |pos| == |order| - SliceStart(|order|, n)
  {
    Reverse(order[SliceStart(|order|, n)..])
  }

  /** `extractive_summary(text, num_sentences)`. `scores` is what the vectoriser gives for
      the sentences (None when it raises), `order` what argsort gives for those scores; both
      are consulted only when there are more sentences than asked for. */
  function ExtractiveSummary(text: string, n: int, scores: Option<seq<real>>, order: seq<nat>): (r: Result<seq<string>, SummaryError>)
    requires |SplitSentences(text)| > n && scores.Some? ==>
      |scores.value| == |SplitSentences(text)| && IsArgsort(scores.value, order)
    ensures |SplitSentences(text)| <= n ==> r == Ok(SplitSentences(text))
    ensures r.Err? <==> |SplitSentences(text)| > n && scores.None?
    ensures r.Ok? ==> forall i :: 0 <= i < |r.value| ==> r.value[i] in SplitSentences(text)
  {
    var sents := SplitSentences(text);
    if |sents| <= n then Ok(sents)
    else match scores
      case None => Err(EmptyVocabulary)
      case Some(_) =>
        var pos := Picked(order, n);
        Ok(seq(|pos|, i requires 0 <= i < |pos| => sents[pos[i]]))
  }

  // ---------------------------------------------------------------------------------
  // Properties.

  /** The picked positions are distinct positions of the input, by non-increasing score; every
      position left out scores no higher than any picked one. */
  lemma PickedAreTop(scores: seq<real>, order: seq<nat>, n: int)
    requires IsArgsort(scores, order)
    ensures var pos := Picked(order, n);
      && (forall i :: 0 <= i < |pos| ==> pos[i] < |scores|)
      && (forall i, j :: 0 <= i < j < |pos| ==> pos[i] != pos[j])
      && (forall i, j :: 0 <= i < j < |pos| ==> scores[pos[i]] >= scores[pos[j]])
      && (forall p, i :: 0 <= p < |scores| && p !in pos && 0 <= i < |pos| ==> scores[p] <= scores[pos[i]])
  {
    var s := SliceStart(|order|, n);
    var pos := Picked(order, n);
    assert forall i :: 0 <= i < |pos| ==> pos[i] == order[|order| - 1 - i];
    assert forall k :: s <= k < |order| ==> order[k] in pos by {
      forall k | s <= k < |order| ensures order[k] in pos {
        assert pos[|order| - 1 - k] == order[k];
      }
    }
    forall p, i | 0 <= p < |scores| && p !in pos && 0 <= i < |pos|
      ensures scores[p] <= scores[pos[i]]
    {
      assert p in order;
      var t :| 0 <= t < |order| && order[t] == p;
      assert t < |order| - 1 - i;
    }
  }

  /** With at least one sentence asked for and more available, the summary has exactly that
      many sentences: the top-scoring ones, from distinct positions, best first. */
  lemma SummaryIsTopN(text: string, n: int, scores: seq<real>, order: seq<nat>) returns (pos: seq<nat>)
    requires n >= 1 && |SplitSentences(text)| > n
    requires |scores| == |SplitSentences(text)| && IsArgsort(scores, order)
    ensures ExtractiveSummary(text, n, Some(scores), order).Ok?
    ensures |pos| == n && |ExtractiveSummary(text, n, Some(scores), order).value| == n
    ensures forall i :: 0 <= i < n ==> pos[i] < |scores| && ExtractiveSummary(text, n, Some(scores), order).value[i] == SplitSentences(text)[pos[i]]
    ensures forall i, j :: 0 <= i < j < n ==> pos[i] != pos[j] && scores[pos[i]] >= scores[pos[j]]
    ensures forall p, i :: 0 <= p < |scores| && p !in pos && 0 <= i < n ==> scores[p] <= scores[pos[i]]
  {
    pos := Picked(order, n);
    PickedAreTop(scores, order, n);
  }

  /** `num_sentences = 0` selects the whole argsort: every sentence comes back, once each,
      best first. */
  lemma ZeroSelectsAll(text: string, scores: seq<real>, order: seq<nat>) returns (pos: seq<nat>)
    requires |SplitSentences(text)| > 0
    requires |scores| == |SplitSentences(text)| && IsArgsort(scores, order)
    ensures |ExtractiveSummary(text, 0, Some(scores), order).value| == |SplitSentences(text)|
    ensures |pos| == |scores| && forall i :: 0 <= i < |pos| ==> pos[i] < |scores|
    ensures forall p :: 0 <= p < |scores| ==> p in pos
    ensures forall i :: 0 <= i < |pos| ==> ExtractiveSummary(text, 0, Some(scores), order).value[i] == SplitSentences(text)[pos[i]]
    ensures forall i, j :: 0 <= i < j < |pos| ==> pos[i] != pos[j] && scores[pos[i]] >= scores[pos[j]]
  {
    pos := Picked(order, 0);
    PickedAreTop(scores, order, 0);
    forall p | 0 <= p < |scores| ensures p in pos {
      assert p in order;
      var t :| 0 <= t < |order| && order[t] == p;
      assert pos[|order| - 1 - t] == p;
    }
  }

  /** Text without sentences summarises to nothing, whatever is asked for. */
  lemma BlankSummary(text: string, n: int, scores: Option<seq<real>>, order: seq<nat>)
    requires n >= 0 && IsBlank(text)
    ensures ExtractiveSummary(text, n, scores, order) == Ok([])
  {
    BlankHasNoSentences(text);
  }
}
