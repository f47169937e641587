/** The naive sentence splitter shared by the chunker (app/api/chunks_backup.py) and the
    summarizer (app/core/summarizer.py): `re.split(r'(?<=[.!?])\s+', text.strip())`, then
    every piece stripped and the empty ones dropped. */
module Sentences {
  import opened Text

  predicate IsTerminal(c: char) { c == '.' || c == '!' || c == '?' }

  /** Position `k` of `t` is where the regex `(?<=[.!?])\s+` can start a match. */
  predicate IsBoundary(t: string, k: int) {
    0 < k < |t| && IsTerminal(t[k - 1]) && IsSpace(t[k])
  }

  /** No split point strictly inside `s`. */
  predicate NoInnerBoundary(s: string) {
    forall k :: 0 < k < |s| ==> !IsBoundary(s, k)
  }

  /** The characters of `s` that are not whitespace, in order. */
  function Ink(s: string): string {
    if s == [] then [] else (if IsSpace(s[0]) then [] else [s[0]]) + Ink(s[1..])
  }

  function Flatten(ss: seq<string>): string {
    if ss == [] then [] else ss[0] + Flatten(ss[1..])
  }

  /** End of the maximal whitespace run starting at `i` (the greedy `\s+`). */
  function SpaceRunEnd(t: string, i: nat): (j: nat)
    requires i <= |t|
    ensures i <= j <= |t|
    ensures forall k :: i <= k < j ==> IsSpace(t[k])
    ensures j == |t| || !IsSpace(t[j])
    decreases |t| - i
  {
    if i < |t| && IsSpace(t[i]) then SpaceRunEnd(t, i + 1) else i
  }

  /** `re.split` scanning from `i`, the current piece having begun at `start`. */
  function SplitFrom(t: string, start: nat, i: nat): (r: seq<string>)
    requires start <= i <= |t|
    requires start == 0 || !IsTerminal(t[start - 1])
    requires forall k :: start < k < i ==> !IsBoundary(t, k)
    ensures |r| >= 1
    ensures forall p :: 0 <= p < |r| ==> NoInnerBoundary(r[p])
    ensures forall p :: 0 <= p < |r| - 1 ==> r[p] != [] && IsTerminal(r[p][|r[p]| - 1])
    decreases |t| - i
  {
    if i == |t| then
      var last := t[start..];
      assert forall k :: 0 < k < |last| ==> IsBoundary(last, k) == IsBoundary(t, start + k);
      [last]
    else if IsBoundary(t, i) then
      var piece := t[start..i];
      assert forall k :: 0 < k < |piece| ==> IsBoundary(piece, k) == IsBoundary(t, start + k);
      var j := SpaceRunEnd(t, i);
      [piece] + SplitFrom(t, j, j)
    else
      SplitFrom(t, start, i + 1)
  }

  /** `re.split(r'(?<=[.!?])\s+', t)`. */
  function RegexSplit(t: string): (r: seq<string>)
    ensures |r| >= 1
    ensures forall p :: 0 <= p < |r| ==> NoInnerBoundary(r[p])
    ensures forall p :: 0 <= p < |r| - 1 ==> r[p] != [] && IsTerminal(r[p][|r[p]| - 1])
  {
    SplitFrom(t, 0, 0)
  }

  /** `[seg.strip() for seg in pieces if seg.strip()]`. */
  function StripAll(pieces: seq<string>): (r: seq<string>)
    ensures forall p :: 0 <= p < |r| ==> r[p] != [] && IsStripped(r[p])
    ensures |r| <= |pieces|
  {
    if pieces == [] then []
    else
      var s := Strip(pieces[0]);
      (if s == [] then [] else [s]) + StripAll(pieces[1..])
  }

  /** `split_sentences(text)` of app/core/summarizer.py. */
  function SplitSentences(text: string): (r: seq<string>)
    ensures forall p :: 0 <= p < |r| ==> r[p] != [] && IsStripped(r[p])
  {
    StripAll(RegexSplit(Strip(text)))
  }

  /** Empty or whitespace-only text has no sentences. */
  lemma BlankHasNoSentences(text: string)
    requires IsBlank(text)
    ensures SplitSentences(text) == []
  {
    SplitOfEmpty();
  }

  lemma SplitOfEmpty()
    ensures StripAll(RegexSplit("")) == []
  {
    assert RegexSplit("") == [""];
    assert Strip("") == "";
  }

  // ---------------------------------------------------------------------------------
  // No sentence straddles a split point, and no non-whitespace character is lost.

  lemma {:induction false} InkAppend(a: string, b: string)
    ensures Ink(a + b) == Ink(a) + Ink(b)
  {
    if a != [] {
      var h := if IsSpace(a[0]) then "" else [a[0]];
      assert (a + b)[0] == a[0];
      assert (a + b)[1..] == a[1..] + b;
      InkAppend(a[1..], b);
      assert Ink(a + b) == h + (Ink(a[1..]) + Ink(b));
      assert h + (Ink(a[1..]) + Ink(b)) == (h + Ink(a[1..])) + Ink(b);
    } else {
      assert a + b == b;
    }
  }

  lemma {:induction false} InkOfSpaces(s: string)
    requires IsBlank(s)
    ensures Ink(s) == []
  {
    if s != [] {
      InkOfSpaces(s[1..]);
    }
  }

  lemma InkSlices(t: string, a: nat, b: nat)
    requires a <= b <= |t|
    ensures Ink(t[a..]) == Ink(t[a..b]) + Ink(t[b..])
  {
    assert t[a..] == t[a..b] + t[b..];
    InkAppend(t[a..b], t[b..]);
  }

  lemma InkTrimLeft(s: string)
    ensures Ink(TrimLeft(s)) == Ink(s)
  {
    var l := TrimLeft(s);
    TrimLeftShape(s);
    var pre := s[..|s| - |l|];
    assert s == pre + l;
    assert IsBlank(pre);
    InkAppend(pre, l);
    InkOfSpaces(pre);
  }

  lemma InkTrimRight(s: string)
    ensures Ink(TrimRight(s)) == Ink(s)
  {
    var r := TrimRight(s);
    TrimRightShape(s);
    var suf := s[|r|..];
    assert s == r + suf;
    assert IsBlank(suf);
    InkAppend(r, suf);
    InkOfSpaces(suf);
  }

  lemma InkStrip(s: string)
    ensures Ink(Strip(s)) == Ink(s)
  {
    InkTrimLeft(s);
    InkTrimRight(TrimLeft(s));
  }

  lemma FlattenCons(x: string, rest: seq<string>)
    ensures Flatten([x] + rest) == x + Flatten(rest)
  {
    assert ([x] + rest)[0] == x;
    assert ([x] + rest)[1..] == rest;
  }

  /** Dropping the whitespace run `t[i..j]` loses no ink. */
  lemma InkAcrossGap(t: string, start: nat, i: nat, j: nat)
    requires start <= i <= j <= |t|
    requires IsBlank(t[i..j])
    ensures Ink(t[start..]) == Ink(t[start..i]) + Ink(t[j..])
  {
    assert t[start..] == t[start..i] + (t[i..j] + t[j..]);
    InkOfSpaces(t[i..j]);
    InkAppend(t[i..j], t[j..]);
    InkAppend(t[start..i], t[i..j] + t[j..]);
  }

  lemma {:induction false} InkFlattenSplitFrom(t: string, start: nat, i: nat)
    requires start <= i <= |t|
    requires start == 0 || !IsTerminal(t[start - 1])
    requires forall k :: start < k < i ==> !IsBoundary(t, k)
    ensures Ink(Flatten(SplitFrom(t, start, i))) == Ink(t[start..])
    decreases |t| - i
  {
    if i == |t| {
      FlattenCons(t[start..], []);
      assert t[start..] + [] == t[start..];
    } else if IsBoundary(t, i) {
      var j := SpaceRunEnd(t, i);
      var rest := SplitFrom(t, j, j);
      InkFlattenSplitFrom(t, j, j);
      FlattenCons(t[start..i], rest);
      InkAppend(t[start..i], Flatten(rest));
      InkAcrossGap(t, start, i, j);
    } else {
      InkFlattenSplitFrom(t, start, i + 1);
    }
  }

  lemma {:induction false} InkStripAll(pieces: seq<string>)
    ensures Ink(Flatten(StripAll(pieces))) == Ink(Flatten(pieces))
  {
    if pieces != [] {
      var s := Strip(pieces[0]);
      var head := if s == [] then [] else [s];
      InkStripAll(pieces[1..]);
      FlattenAppend(head, StripAll(pieces[1..]));
      InkAppend(Flatten(head), Flatten(StripAll(pieces[1..])));
      InkAppend(pieces[0], Flatten(pieces[1..]));
      InkStrip(pieces[0]);
      if s == [] {
        InkOfSpaces(pieces[0]);
      } else {
        assert head[1..] == [];
        assert Flatten(head) == s + Flatten([]);
        assert Flatten(head) == s;
      }
    }
  }

  lemma {:induction false} FlattenAppend(a: seq<string>, b: seq<string>)
    ensures Flatten(a + b) == Flatten(a) + Flatten(b)
  {
    if a != [] {
      assert (a + b)[0] == a[0];
      assert (a + b)[1..] == a[1..] + b;
      FlattenAppend(a[1..], b);
      assert Flatten(a + b) == a[0] + (Flatten(a[1..]) + Flatten(b));
      assert a[0] + (Flatten(a[1..]) + Flatten(b)) == (a[0] + Flatten(a[1..])) + Flatten(b);
    } else {
      assert a + b == b;
    }
  }

  /** Splitting keeps every non-whitespace character of the text, in order: the sentences
      differ from the input only in the whitespace that separated or surrounded them. */
  lemma SplitSentencesKeepsInk(text: string)
    ensures Ink(Flatten(SplitSentences(text))) == Ink(text)
  {
    var t := Strip(text);
    InkStripAll(RegexSplit(t));
    InkFlattenSplitFrom(t, 0, 0);
    assert t[0..] == t;
    InkStrip(text);
  }

  /** No sentence contains a terminal '.', '!' or '?' followed by whitespace. */
  lemma SentencesHaveNoInnerBoundary(text: string)
    ensures forall p :: 0 <= p < |SplitSentences(text)| ==> NoInnerBoundary(SplitSentences(text)[p])
  {
    StripAllKeepsNoBoundary(RegexSplit(Strip(text)));
  }

  lemma {:induction false} StripAllKeepsNoBoundary(pieces: seq<string>)
    requires forall p :: 0 <= p < |pieces| ==> NoInnerBoundary(pieces[p])
    ensures forall p :: 0 <= p < |StripAll(pieces)| ==> NoInnerBoundary(StripAll(pieces)[p])
  {
    if pieces != [] {
      StripAllKeepsNoBoundary(pieces[1..]);
      StripKeepsNoBoundary(pieces[0]);
      var s := Strip(pieces[0]);
      var head := if s == [] then [] else [s];
      assert StripAll(pieces) == head + StripAll(pieces[1..]);
    }
  }

  lemma StripKeepsNoBoundary(s: string)
    requires NoInnerBoundary(s)
    ensures NoInnerBoundary(Strip(s))
  {
    var l := TrimLeft(s);
    TrimLeftShape(s);
    TrimRightShape(l);
    var off := |s| - |l|;
    assert forall k :: 0 < k < |l| ==> IsBoundary(l, k) == IsBoundary(s, off + k);
    var r := TrimRight(l);
    assert forall k :: 0 < k < |r| ==> IsBoundary(r, k) == IsBoundary(l, k);
  }

  // ---------------------------------------------------------------------------------
  // The cuts are exactly the boundaries: the pieces, with the whitespace runs the regex
  // consumed put back between them, reassemble the text.

  /** `ps[0] + gs[0] + ps[1] + gs[1] + … + ps[|ps| - 1]`. */
  function Weave(ps: seq<string>, gs: seq<string>): string
    requires |ps| == |gs| + 1
  {
    if gs == [] then ps[0] else ps[0] + gs[0] + Weave(ps[1..], gs[1..])
  }

  /** What one match of `\s+` consumes: a non-empty whitespace run. */
  predicate IsGap(g: string) { g != [] && IsBlank(g) }

  lemma WeaveCons(p: string, g: string, ps: seq<string>, gs: seq<string>)
    requires |ps| == |gs| + 1
    ensures Weave([p] + ps, [g] + gs) == p + g + Weave(ps, gs)
  {
    assert ([p] + ps)[1..] == ps && ([g] + gs)[1..] == gs;
  }

  /** A weave begins with its first piece and ends with its last. */
  lemma {:induction false} WeaveEnds(ps: seq<string>, gs: seq<string>)
    requires |ps| == |gs| + 1
    ensures |ps[0]| <= |Weave(ps, gs)| && Weave(ps, gs)[..|ps[0]|] == ps[0]
    ensures |ps[|ps| - 1]| <= |Weave(ps, gs)|
    ensures Weave(ps, gs)[|Weave(ps, gs)| - |ps[|ps| - 1]|..] == ps[|ps| - 1]
  {
    if gs != [] {
      WeaveEnds(ps[1..], gs[1..]);
      var w := Weave(ps[1..], gs[1..]);
      assert Weave(ps, gs) == ps[0] + (gs[0] + w);
      assert ps[1..][|ps[1..]| - 1] == ps[|ps| - 1];
    }
  }

  /** The scan from `i` reassembles `t[start..]`: its pieces separated by whitespace runs. */
  lemma {:induction false} SplitFromWeave(t: string, start: nat, i: nat) returns (gs: seq<string>)
    requires start <= i <= |t|
    requires start == 0 || !IsTerminal(t[start - 1])
    requires forall k :: start < k < i ==> !IsBoundary(t, k)
    ensures |gs| == |SplitFrom(t, start, i)| - 1
    ensures forall p :: 0 <= p < |gs| ==> IsGap(gs[p])
    ensures Weave(SplitFrom(t, start, i), gs) == t[start..]
    decreases |t| - i
  {
    if i == |t| {
      gs := [];
    } else if IsBoundary(t, i) {
      var j := SpaceRunEnd(t, i);
      var rest := SplitFromWeave(t, j, j);
      assert SplitFrom(t, start, i) == [t[start..i]] + SplitFrom(t, j, j);
      gs := WeaveAcrossGap(t, start, i, j, SplitFrom(t, j, j), rest);
    } else {
      gs := SplitFromWeave(t, start, i + 1);
    }
  }

  /** One cut: the piece before it, the whitespace run `t[i..j]`, and a weave of `t[j..]`. */
  lemma WeaveAcrossGap(t: string, start: nat, i: nat, j: nat, tail: seq<string>, rest: seq<string>)
    returns (gs: seq<string>)
    requires start <= i < j <= |t|
    requires forall k :: i <= k < j ==> IsSpace(t[k])
    requires |tail| == |rest| + 1 && Weave(tail, rest) == t[j..]
    requires forall p :: 0 <= p < |rest| ==> IsGap(rest[p])
    ensures |gs| == |tail| && forall p :: 0 <= p < |gs| ==> IsGap(gs[p])
    ensures Weave([t[start..i]] + tail, gs) == t[start..]
  {
    var g := t[i..j];
    assert IsGap(g) by {
      assert g[0] == t[i];
      assert forall k :: 0 <= k < |g| ==> g[k] == t[i + k];
    }
    gs := [g] + rest;
    WeaveCons(t[start..i], g, tail, rest);
    assert t[start..] == t[start..i] + g + t[j..];
  }

  /** The first piece of the scan is a prefix of `t[start..]`. */
  lemma {:induction false} SplitFromFirst(t: string, start: nat, i: nat)
    requires start <= i <= |t|
    requires start == 0 || !IsTerminal(t[start - 1])
    requires forall k :: start < k < i ==> !IsBoundary(t, k)
    ensures start + |SplitFrom(t, start, i)[0]| <= |t|
    ensures SplitFrom(t, start, i)[0] == t[start..start + |SplitFrom(t, start, i)[0]|]
    decreases |t| - i
  {
    if i < |t| && !IsBoundary(t, i) {
      SplitFromFirst(t, start, i + 1);
    }
  }

  /** The whitespace runs are maximal: every piece after the first starts at a non-space. */
  lemma {:induction false} SplitFromGreedy(t: string, start: nat, i: nat)
    requires start <= i <= |t|
    requires start == 0 || !IsTerminal(t[start - 1])
    requires forall k :: start < k < i ==> !IsBoundary(t, k)
    ensures forall p :: 0 < p < |SplitFrom(t, start, i)| ==>
      SplitFrom(t, start, i)[p] == [] || !IsSpace(SplitFrom(t, start, i)[p][0])
    decreases |t| - i
  {
    if i < |t| && IsBoundary(t, i) {
      var j := SpaceRunEnd(t, i);
      SplitFromGreedy(t, j, j);
      SplitFromFirst(t, j, j);
      var tail := SplitFrom(t, j, j);
      assert SplitFrom(t, start, i) == [t[start..i]] + tail;
      if tail[0] != [] {
        assert tail[0][0] == t[j];
      }
    } else if i < |t| {
      SplitFromGreedy(t, start, i + 1);
    }
  }

  /** When `t` ends in a non-space, so does the scan's last piece: it is never empty. */
  lemma {:induction false} SplitFromLast(t: string, start: nat, i: nat)
    requires start <= i <= |t|
    requires start == 0 || !IsTerminal(t[start - 1])
    requires forall k :: start < k < i ==> !IsBoundary(t, k)
    requires start < |t| && !IsSpace(t[|t| - 1])
    ensures SplitFrom(t, start, i)[|SplitFrom(t, start, i)| - 1] != []
    decreases |t| - i
  {
    if i < |t| && IsBoundary(t, i) {
      var j := SpaceRunEnd(t, i);
      SplitFromLast(t, j, j);
      assert SplitFrom(t, start, i) == [t[start..i]] + SplitFrom(t, j, j);
    } else if i < |t| {
      SplitFromLast(t, start, i + 1);
    }
  }

  /** `re.split(r'(?<=[.!?])\s+', t)` cuts only at boundaries: putting back the whitespace runs
      it consumed gives `t` again. */
  lemma RegexSplitReassembles(t: string) returns (gs: seq<string>)
    ensures |gs| == |RegexSplit(t)| - 1
    ensures forall p :: 0 <= p < |gs| ==> IsGap(gs[p])
    ensures Weave(RegexSplit(t), gs) == t
    ensures forall p :: 0 < p < |RegexSplit(t)| ==> RegexSplit(t)[p] == [] || !IsSpace(RegexSplit(t)[p][0])
  {
    gs := SplitFromWeave(t, 0, 0);
    SplitFromGreedy(t, 0, 0);
    assert t[0..] == t;
  }

  lemma {:induction false} StripAllOfStripped(pieces: seq<string>)
    requires forall p :: 0 <= p < |pieces| ==> pieces[p] != [] && IsStripped(pieces[p])
    ensures StripAll(pieces) == pieces
  {
    if pieces != [] {
      StripStripped(pieces[0]);
      StripAllOfStripped(pieces[1..]);
    }
  }

  /** The sentences of non-blank text are exactly the pieces of its stripped form, nothing
      dropped: separated by whitespace runs they give the stripped text back, and every
      sentence but the last ends in '.', '!' or '?'. */
  lemma SentencesReassemble(text: string) returns (gs: seq<string>)
    requires !IsBlank(text)
    ensures SplitSentences(text) == RegexSplit(Strip(text))
    ensures |gs| == |SplitSentences(text)| - 1
    ensures forall p :: 0 <= p < |gs| ==> IsGap(gs[p])
    ensures Weave(SplitSentences(text), gs) == Strip(text)
    ensures forall p :: 0 <= p < |SplitSentences(text)| - 1 ==> IsTerminal(SplitSentences(text)[p][|SplitSentences(text)[p]| - 1])
  {
    var t := Strip(text);
    gs := RegexSplitReassembles(t);
    var pieces := RegexSplit(t);
    SplitFromLast(t, 0, 0);
    WeaveEnds(pieces, gs);
    forall p | 0 <= p < |pieces|
      ensures pieces[p] != [] && IsStripped(pieces[p])
    {
      var s := pieces[p];
      assert s != [];
      if p == 0 {
        assert s[0] == t[0];
      }
      if p == |pieces| - 1 {
        assert s[|s| - 1] == t[|t| - 1];
      }
    }
    StripAllOfStripped(pieces);
  }
}
