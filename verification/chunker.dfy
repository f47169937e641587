/** The sentence-based greedy chunker `simple_chunk_text` of app/api/chunks_backup.py.

    The text is split into sentences (module Sentences); consecutive sentences are packed
    greedily into groups whose single-space join stays within `chunk_size` characters; a
    group's join becomes a chunk only when it is longer than 50 characters; the surviving
    chunks are numbered 1, 2, 3, ... */
module Chunker {
  import opened Text
  import opened Sentences

  /** A buffer is saved as a chunk only when its stripped length exceeds this. */
  const MinChunkLength := 50

  datatype Chunk = Chunk(text: string, chunkNumber: int, docId: string)

  function FlattenGroups(gs: seq<seq<string>>): seq<string> {
    if gs == [] then [] else gs[0] + FlattenGroups(gs[1..])
  }

  /** Length of `" ".join(g)`. */
  function JoinedLength(g: seq<string>): nat {
    |Join(" ", g)|
  }

  /** The greedy packing of `rest`, the group under construction being `cur`. A new group
      starts exactly when appending `" " + sentence` to a non-empty buffer would make it
      longer than `size`. */
  function PackFrom(rest: seq<string>, cur: seq<string>, size: int): seq<seq<string>>
    requires |cur| >= 2 ==> JoinedLength(cur) <= size
    decreases |rest|
  {
    if rest == [] then
      if cur == [] then [] else [cur]
    else if cur != [] && JoinedLength(cur) + 1 + |rest[0]| > size then
      [cur] + PackFrom(rest[1..], [rest[0]], size)
    else
      JoinSnoc(" ", cur, rest[0]);
      PackFrom(rest[1..], cur + [rest[0]], size)
  }

  /** The groups of consecutive sentences the chunker's buffer goes through. */
  function Pack(sentences: seq<string>, size: int): seq<seq<string>> {
    PackFrom(sentences, [], size)
  }

  /** The groups long enough to be saved, in order. */
  function Kept(gs: seq<seq<string>>): (ks: seq<seq<string>>)
    ensures |ks| <= |gs|
    ensures forall i :: 0 <= i < |ks| ==> JoinedLength(ks[i]) > MinChunkLength
  {
    if gs == [] then []
    else (if JoinedLength(gs[0]) > MinChunkLength then [gs[0]] else []) + Kept(gs[1..])
  }

  /** Saving the groups in order, numbering the saved ones from `n`. */
  function Emit(gs: seq<seq<string>>, n: int, doc: string): (r: seq<Chunk>)
    ensures |r| <= |gs|
    ensures forall i :: 0 <= i < |r| ==> r[i].chunkNumber == n + i && r[i].docId == doc
  {
    if gs == [] then []
    else if JoinedLength(gs[0]) > MinChunkLength then [Chunk(Join(" ", gs[0]), n, doc)] + Emit(gs[1..], n + 1, doc)
    else Emit(gs[1..], n, doc)
  }

  /** The saved chunks are exactly the joins of the kept groups, in order. */
  lemma {:induction false} EmitIsKept(gs: seq<seq<string>>, n: int, doc: string)
    ensures |Emit(gs, n, doc)| == |Kept(gs)|
    ensures forall i :: 0 <= i < |Kept(gs)| ==> Emit(gs, n, doc)[i].text == Join(" ", Kept(gs)[i])
  {
    if gs != [] {
      if JoinedLength(gs[0]) > MinChunkLength {
        EmitIsKept(gs[1..], n + 1, doc);
      } else {
        EmitIsKept(gs[1..], n, doc);
      }
    }
  }

  /** The chunks of `text`, described through the sentence groups. */
  function ChunkText(text: string, size: int, doc: string): (r: seq<Chunk>)
    ensures IsBlank(text) ==> r == []
    ensures forall i :: 0 <= i < |r| ==> r[i].chunkNumber == i + 1 && r[i].docId == doc
    ensures forall i :: 0 <= i < |r| ==> |r[i].text| > MinChunkLength && IsStripped(r[i].text)
  {
    if IsBlank(text) then []
    else
      EmittedChunksStripped(SplitSentences(text), size, doc);
      Emit(Pack(SplitSentences(text), size), 1, doc)
  }

  lemma EmittedChunksStripped(sents: seq<string>, size: int, doc: string)
    requires forall p :: 0 <= p < |sents| ==> sents[p] != [] && IsStripped(sents[p])
    ensures forall i :: 0 <= i < |Emit(Pack(sents, size), 1, doc)| ==>
      |Emit(Pack(sents, size), 1, doc)[i].text| > MinChunkLength && IsStripped(Emit(Pack(sents, size), 1, doc)[i].text)
  {
    var gs := Pack(sents, size);
    PackStripped(sents, [], size);
    EmitIsKept(gs, 1, doc);
    forall i | 0 <= i < |Kept(gs)| ensures IsStripped(Join(" ", Kept(gs)[i])) {
      var k := KeptIndex(gs, i);
      assert IsStripped(Join(" ", gs[k]));
    }
  }

  // ---------------------------------------------------------------------------------
  // What the greedy packing guarantees.

  /** The groups are the sentences, cut into consecutive runs, in order. */
  lemma {:induction false} PackFlatten(rest: seq<string>, cur: seq<string>, size: int)
    requires |cur| >= 2 ==> JoinedLength(cur) <= size
    ensures FlattenGroups(PackFrom(rest, cur, size)) == cur + rest
    decreases |rest|
  {
    if rest == [] {
      if cur != [] {
        assert [cur][1..] == [];
        assert FlattenGroups([cur]) == cur + FlattenGroups([]);
      }
    } else if cur != [] && JoinedLength(cur) + 1 + |rest[0]| > size {
      var tail := PackFrom(rest[1..], [rest[0]], size);
      PackFlatten(rest[1..], [rest[0]], size);
      assert ([cur] + tail)[1..] == tail;
      assert cur + rest == cur + ([rest[0]] + rest[1..]);
    } else {
      JoinSnoc(" ", cur, rest[0]);
      PackFlatten(rest[1..], cur + [rest[0]], size);
      assert cur + rest == (cur + [rest[0]]) + rest[1..];
    }
  }

  /** No group is empty; each group after the first opens with the sentence that did not
      fit into the group before it (the packing is greedy). */
  lemma {:induction false} PackGreedy(rest: seq<string>, cur: seq<string>, size: int)
    requires |cur| >= 2 ==> JoinedLength(cur) <= size
    ensures var gs := PackFrom(rest, cur, size);
      && (forall k :: 0 <= k < |gs| ==> gs[k] != [])
      && (forall k :: 0 <= k < |gs| - 1 ==> JoinedLength(gs[k]) + 1 + |gs[k + 1][0]| > size)
      && (cur + rest != [] ==> gs != [] && gs[0][0] == (cur + rest)[0])
    decreases |rest|
  {
    if rest == [] {
    } else if cur != [] && JoinedLength(cur) + 1 + |rest[0]| > size {
      var tail := PackFrom(rest[1..], [rest[0]], size);
      PackGreedy(rest[1..], [rest[0]], size);
      assert PackFrom(rest, cur, size) == [cur] + tail;
      assert ([cur] + tail)[0] == cur;
      assert forall k :: 0 <= k < |tail| ==> ([cur] + tail)[k + 1] == tail[k];
    } else {
      JoinSnoc(" ", cur, rest[0]);
      PackGreedy(rest[1..], cur + [rest[0]], size);
      assert (cur + [rest[0]] + rest[1..])[0] == (cur + rest)[0];
    }
  }

  /** A group of two or more sentences never exceeds `size` characters. */
  lemma {:induction false} PackBound(rest: seq<string>, cur: seq<string>, size: int)
    requires |cur| >= 2 ==> JoinedLength(cur) <= size
    ensures forall k :: 0 <= k < |PackFrom(rest, cur, size)| && |PackFrom(rest, cur, size)[k]| >= 2 ==>
      JoinedLength(PackFrom(rest, cur, size)[k]) <= size
    decreases |rest|
  {
    if rest == [] {
    } else if cur != [] && JoinedLength(cur) + 1 + |rest[0]| > size {
      var tail := PackFrom(rest[1..], [rest[0]], size);
      PackBound(rest[1..], [rest[0]], size);
      var gs := [cur] + tail;
      assert PackFrom(rest, cur, size) == gs;
      forall k | 0 <= k < |gs| && |gs[k]| >= 2 ensures JoinedLength(gs[k]) <= size {
        if k > 0 {
          assert gs[k] == tail[k - 1];
        } else {
          assert gs[0] == cur;
        }
      }
    } else {
      JoinSnoc(" ", cur, rest[0]);
      PackBound(rest[1..], cur + [rest[0]], size);
    }
  }

  /** Packing stripped, non-empty sentences gives groups whose joins are stripped. */
  lemma {:induction false} PackStripped(rest: seq<string>, cur: seq<string>, size: int)
    requires |cur| >= 2 ==> JoinedLength(cur) <= size
    requires forall m :: 0 <= m < |cur| ==> cur[m] != [] && IsStripped(cur[m])
    requires forall m :: 0 <= m < |rest| ==> rest[m] != [] && IsStripped(rest[m])
    ensures forall k :: 0 <= k < |PackFrom(rest, cur, size)| ==> IsStripped(Join(" ", PackFrom(rest, cur, size)[k]))
    decreases |rest|
  {
    JoinStripped(" ", cur);
    if rest == [] {
    } else if cur != [] && JoinedLength(cur) + 1 + |rest[0]| > size {
      var tail := PackFrom(rest[1..], [rest[0]], size);
      PackStripped(rest[1..], [rest[0]], size);
      var gs := [cur] + tail;
      assert PackFrom(rest, cur, size) == gs;
      forall k | 0 <= k < |gs| ensures IsStripped(Join(" ", gs[k])) {
        if k > 0 {
          assert gs[k] == tail[k - 1];
        } else {
          assert gs[0] == cur;
        }
      }
    } else {
      JoinSnoc(" ", cur, rest[0]);
      PackStripped(rest[1..], cur + [rest[0]], size);
      assert PackFrom(rest, cur, size) == PackFrom(rest[1..], cur + [rest[0]], size);
    }
  }

  /** A sentence of any group is one of the packed sentences. */
  lemma {:induction false} GroupMember(gs: seq<seq<string>>, k: nat, m: nat)
    requires k < |gs| && m < |gs[k]|
    ensures gs[k][m] in FlattenGroups(gs)
  {
    if k > 0 {
      GroupMember(gs[1..], k - 1, m);
    }
  }

  /** The position in `gs` of the `i`-th kept group. */
  lemma {:induction false} KeptIndex(gs: seq<seq<string>>, i: nat) returns (k: nat)
    requires i < |Kept(gs)|
    ensures k < |gs| && gs[k] == Kept(gs)[i]
  {
    var head := if JoinedLength(gs[0]) > MinChunkLength then [gs[0]] else [];
    assert Kept(gs) == head + Kept(gs[1..]);
    if i < |head| {
      k := 0;
    } else {
      var k' := KeptIndex(gs[1..], i - |head|);
      k := k' + 1;
    }
  }

  // ---------------------------------------------------------------------------------
  // The loop of `simple_chunk_text`, over a string buffer, as the source writes it.

  lemma StripAllStep(pieces: seq<string>, i: nat)
    requires i < |pieces|
    ensures StripAll(pieces[i..]) == (if Strip(pieces[i]) == [] then [] else [Strip(pieces[i])]) + StripAll(pieces[i + 1..])
  {
    assert pieces[i..][1..] == pieces[i + 1..];
  }

  lemma EmitCons(g: seq<string>, rest: seq<seq<string>>, n: int, doc: string)
    ensures Emit([g] + rest, n, doc) ==
      if JoinedLength(g) > MinChunkLength then [Chunk(Join(" ", g), n, doc)] + Emit(rest, n + 1, doc)
      else Emit(rest, n, doc)
  {
    assert ([g] + rest)[0] == g;
    assert ([g] + rest)[1..] == rest;
  }

  lemma PackCons(p: string, rest: seq<string>, cur: seq<string>, size: int)
    requires |cur| >= 2 ==> JoinedLength(cur) <= size
    ensures cur != [] && JoinedLength(cur) + 1 + |p| > size ==>
      PackFrom([p] + rest, cur, size) == [cur] + PackFrom(rest, [p], size)
    ensures !(cur != [] && JoinedLength(cur) + 1 + |p| > size) ==>
      && (|cur + [p]| >= 2 ==> JoinedLength(cur + [p]) <= size)
      && PackFrom([p] + rest, cur, size) == PackFrom(rest, cur + [p], size)
  {
    JoinSnoc(" ", cur, p);
    assert ([p] + rest)[0] == p;
    assert ([p] + rest)[1..] == rest;
  }

  /** What is still to be emitted, from piece `i` on, with `cur` in the buffer. */
  function Pending(pieces: seq<string>, i: nat, cur: seq<string>, size: int, n: int, doc: string): seq<Chunk>
    requires i <= |pieces|
    requires |cur| >= 2 ==> JoinedLength(cur) <= size
  {
    Emit(PackFrom(StripAll(pieces[i..]), cur, size), n, doc)
  }

  /** The state of the source's loop before piece `i`: the string buffer `current` is the
      join of the sentence group `cur`, and the chunks saved so far followed by what the
      rest of the pieces will produce are the chunks of the whole text. */
  ghost predicate LoopInv(pieces: seq<string>, i: nat, current: string, cur: seq<string>,
                          chunks: seq<Chunk>, n: int, size: int, doc: string, whole: seq<Chunk>)
  {
    && i <= |pieces|
    && current == Join(" ", cur)
    && (forall m :: 0 <= m < |cur| ==> cur[m] != [] && IsStripped(cur[m]))
    && (|cur| >= 2 ==> JoinedLength(cur) <= size)
    && n == |chunks| + 1
    && chunks + Pending(pieces, i, cur, size, n, doc) == whole
  }

  lemma LoopInit(text: string, size: int, doc: string)
    requires !IsBlank(text)
    ensures LoopInv(RegexSplit(Strip(text)), 0, "", [], [], 1, size, doc, ChunkText(text, size, doc))
  {
    var pieces := RegexSplit(Strip(text));
    assert pieces[0..] == pieces;
    assert [] + Pending(pieces, 0, [], size, 1, doc) == Pending(pieces, 0, [], size, 1, doc);
  }

  /** A piece that strips to nothing is skipped. */
  lemma SkipStep(pieces: seq<string>, i: nat, current: string, cur: seq<string>,
                 chunks: seq<Chunk>, n: int, size: int, doc: string, whole: seq<Chunk>)
    requires LoopInv(pieces, i, current, cur, chunks, n, size, doc, whole)
    requires i < |pieces| && Strip(pieces[i]) == []
    ensures LoopInv(pieces, i + 1, current, cur, chunks, n, size, doc, whole)
  {
    StripAllStep(pieces, i);
    assert [] + StripAll(pieces[i + 1..]) == StripAll(pieces[i + 1..]);
  }

  /** A sentence that does not fit closes the buffer, which is saved when long enough. */
  lemma CloseStep(pieces: seq<string>, i: nat, current: string, cur: seq<string>,
                  chunks: seq<Chunk>, n: int, size: int, doc: string, whole: seq<Chunk>)
    requires LoopInv(pieces, i, current, cur, chunks, n, size, doc, whole)
    requires i < |pieces| && Strip(pieces[i]) != []
    requires current != "" && |current + " " + Strip(pieces[i])| > size
    ensures Strip(current) == current
    ensures |current| > MinChunkLength ==>
      LoopInv(pieces, i + 1, Strip(pieces[i]), [Strip(pieces[i])], chunks + [Chunk(current, n, doc)], n + 1, size, doc, whole)
    ensures |current| <= MinChunkLength ==>
      LoopInv(pieces, i + 1, Strip(pieces[i]), [Strip(pieces[i])], chunks, n, size, doc, whole)
  {
    var s := Strip(pieces[i]);
    JoinStripped(" ", cur);
    StripStripped(current);
    ClosePending(pieces, i, cur, size, n, doc);
    assert Join(" ", [s]) == s;
    if |current| > MinChunkLength {
      var c := Chunk(current, n, doc);
      var tail := Pending(pieces, i + 1, [s], size, n + 1, doc);
      assert chunks + ([c] + tail) == (chunks + [c]) + tail;
    }
  }

  lemma ClosePending(pieces: seq<string>, i: nat, cur: seq<string>, size: int, n: int, doc: string)
    requires i < |pieces| && Strip(pieces[i]) != []
    requires |cur| >= 2 ==> JoinedLength(cur) <= size
    requires cur != [] && JoinedLength(cur) + 1 + |Strip(pieces[i])| > size
    ensures JoinedLength(cur) > MinChunkLength ==>
      Pending(pieces, i, cur, size, n, doc) == [Chunk(Join(" ", cur), n, doc)] + Pending(pieces, i + 1, [Strip(pieces[i])], size, n + 1, doc)
    ensures JoinedLength(cur) <= MinChunkLength ==>
      Pending(pieces, i, cur, size, n, doc) == Pending(pieces, i + 1, [Strip(pieces[i])], size, n, doc)
  {
    var rest := StripAll(pieces[i + 1..]);
    StripAllStep(pieces, i);
    PackCons(Strip(pieces[i]), rest, cur, size);
    EmitCons(cur, PackFrom(rest, [Strip(pieces[i])], size), n, doc);
  }

  /** A sentence that fits is appended to the buffer after a space. */
  lemma ExtendStep(pieces: seq<string>, i: nat, current: string, cur: seq<string>,
                   chunks: seq<Chunk>, n: int, size: int, doc: string, whole: seq<Chunk>)
    requires LoopInv(pieces, i, current, cur, chunks, n, size, doc, whole)
    requires i < |pieces| && Strip(pieces[i]) != []
    requires !(current != "" && |current + " " + Strip(pieces[i])| > size)
    ensures LoopInv(pieces, i + 1, if current != "" then current + " " + Strip(pieces[i]) else Strip(pieces[i]),
                    cur + [Strip(pieces[i])], chunks, n, size, doc, whole)
  {
    var s := Strip(pieces[i]);
    var rest := StripAll(pieces[i + 1..]);
    JoinStripped(" ", cur);
    JoinSnoc(" ", cur, s);
    StripAllStep(pieces, i);
    PackCons(s, rest, cur, size);
  }

  /** After the last piece the buffer is saved when long enough. */
  lemma LoopExit(pieces: seq<string>, current: string, cur: seq<string>,
                 chunks: seq<Chunk>, n: int, size: int, doc: string, whole: seq<Chunk>)
    requires LoopInv(pieces, |pieces|, current, cur, chunks, n, size, doc, whole)
    ensures Strip(current) == current
    ensures (if current != "" && |current| > MinChunkLength then chunks + [Chunk(current, n, doc)] else chunks) == whole
  {
    JoinStripped(" ", cur);
    StripStripped(current);
    assert pieces[|pieces|..] == [];
    if cur != [] {
      EmitCons(cur, [], n, doc);
    } else {
      assert chunks + [] == chunks;
    }
  }

  /** The loop of `simple_chunk_text`, over a string buffer, as the source writes it. */
  method SimpleChunkText(text: string, chunkSize: int, docId: string) returns (chunks: seq<Chunk>)
    ensures chunks == ChunkText(text, chunkSize, docId)
  {
    if IsBlank(text) {
      return [];
    }
    var pieces := RegexSplit(Strip(text));
    ghost var whole := ChunkText(text, chunkSize, docId);
    chunks := [];
    var current: string := "";
    ghost var cur: seq<string> := [];
    var chunkNum := 1;
    var i := 0;
    LoopInit(text, chunkSize, docId);
    while i < |pieces|
      invariant LoopInv(pieces, i, current, cur, chunks, chunkNum, chunkSize, docId, whole)
      decreases |pieces| - i
    {
      var sentence := Strip(pieces[i]);
      if sentence == "" {
        SkipStep(pieces, i, current, cur, chunks, chunkNum, chunkSize, docId, whole);
      } else if current != "" && |current + " " + sentence| > chunkSize {
        CloseStep(pieces, i, current, cur, chunks, chunkNum, chunkSize, docId, whole);
        if |Strip(current)| > MinChunkLength {
          chunks := chunks + [Chunk(Strip(current), chunkNum, docId)];
          chunkNum := chunkNum + 1;
        }
        current := sentence;
        cur := [sentence];
      } else {
        ExtendStep(pieces, i, current, cur, chunks, chunkNum, chunkSize, docId, whole);
        if current != "" {
          current := current + " " + sentence;
        } else {
          current := sentence;
        }
        cur := cur + [sentence];
      }
      i := i + 1;
    }
    LoopExit(pieces, current, cur, chunks, chunkNum, chunkSize, docId, whole);
    if Strip(current) != "" && |Strip(current)| > MinChunkLength {
      chunks := chunks + [Chunk(Strip(current), chunkNum, docId)];
    }
  }

  // ---------------------------------------------------------------------------------
  // Properties of the chunks.

  /** Each chunk is the single-space join of a group of sentences, and the groups are a
      partition of the sentence list into consecutive runs, in input order; each group after
      the first begins with the sentence that did not fit into the previous one. */
  lemma ChunksAreSentenceRuns(text: string, size: int, doc: string)
    requires !IsBlank(text)
    ensures var gs := Pack(SplitSentences(text), size);
      && FlattenGroups(gs) == SplitSentences(text)
      && (forall k :: 0 <= k < |gs| ==> gs[k] != [])
      && (forall k :: 0 <= k < |gs| - 1 ==> JoinedLength(gs[k]) + 1 + |gs[k + 1][0]| > size)
      && |ChunkText(text, size, doc)| == |Kept(gs)|
      && forall i :: 0 <= i < |Kept(gs)| ==> ChunkText(text, size, doc)[i].text == Join(" ", Kept(gs)[i])
  {
    var sents := SplitSentences(text);
    PackFlatten(sents, [], size);
    PackGreedy(sents, [], size);
    EmitIsKept(Pack(sents, size), 1, doc);
    assert [] + sents == sents;
  }

  /** A chunk longer than `size` is a single sentence, kept whole; every chunk made of two
      or more sentences respects the bound. */
  lemma OverlongChunkIsOneSentence(text: string, size: int, doc: string, i: nat)
    requires i < |ChunkText(text, size, doc)|
    requires |ChunkText(text, size, doc)[i].text| > size
    ensures ChunkText(text, size, doc)[i].text in SplitSentences(text)
  {
    var sents := SplitSentences(text);
    var gs := Pack(sents, size);
    EmitIsKept(gs, 1, doc);
    var k := KeptIndex(gs, i);
    PackBound(sents, [], size);
    PackGreedy(sents, [], size);
    assert |gs[k]| == 1;
    GroupMember(gs, k, 0);
    PackFlatten(sents, [], size);
    assert [] + sents == sents;
  }

  // ---------------------------------------------------------------------------------
  // The worked example: "A. B. " followed by one long word, with a smaller chunk size.

  /** A run of text with no whitespace and no sentence terminal in it. */
  predicate IsWord(x: string) {
    x != [] && forall k :: 0 <= k < |x| ==> !IsSpace(x[k]) && !IsTerminal(x[k])
  }

  lemma {:induction false} SplitFromNoTerminal(t: string, start: nat, i: nat)
    requires start <= i <= |t|
    requires start == 0 || !IsTerminal(t[start - 1])
    requires forall k :: start < k < i ==> !IsBoundary(t, k)
    requires forall k :: start <= k < |t| ==> !IsTerminal(t[k])
    ensures SplitFrom(t, start, i) == [t[start..]]
    decreases |t| - i
  {
    if i < |t| {
      SplitFromNoTerminal(t, start, i + 1);
    }
  }

  /** The regex cuts "A. B. " + x after each period. */
  lemma ExampleRegexSplit(x: string)
    requires IsWord(x)
    ensures RegexSplit("A. B. " + x) == ["A.", "B.", x]
  {
    var t := "A. B. " + x;
    assert t[0] == 'A' && t[1] == '.' && t[2] == ' ' && t[3] == 'B' && t[4] == '.' && t[5] == ' ';
    assert forall k :: 6 <= k < |t| ==> t[k] == x[k - 6];
    SplitFromNoTerminal(t, 6, 6);
    assert t[6..] == x;
    assert SpaceRunEnd(t, 6) == 6;
    assert SpaceRunEnd(t, 5) == 6;
    assert SplitFrom(t, 3, 5) == [t[3..5]] + SplitFrom(t, 6, 6);
    assert SplitFrom(t, 3, 3) == SplitFrom(t, 3, 4) == SplitFrom(t, 3, 5);
    assert SpaceRunEnd(t, 3) == 3;
    assert SpaceRunEnd(t, 2) == 3;
    assert SplitFrom(t, 0, 2) == [t[0..2]] + SplitFrom(t, 3, 3);
    assert SplitFrom(t, 0, 0) == SplitFrom(t, 0, 1) == SplitFrom(t, 0, 2);
    assert t[0..2] == "A." && t[3..5] == "B.";
  }

  lemma ExampleSentences(x: string)
    requires IsWord(x)
    ensures SplitSentences("A. B. " + x) == ["A.", "B.", x]
  {
    var t := "A. B. " + x;
    assert t[0] == 'A' && t[|t| - 1] == x[|x| - 1];
    StripStripped(t);
    ExampleRegexSplit(x);
    var pieces := ["A.", "B.", x];
    StripStripped("A.");
    StripStripped("B.");
    StripStripped(x);
    assert IsStripped(t);
    assert Strip(t) == t;
    assert pieces[1..] == ["B.", x];
    assert pieces[1..][1..] == [x];
    assert pieces[1..][1..][1..] == [];
    assert StripAll([x]) == [x] + StripAll([]);
    assert StripAll(["B.", x]) == ["B."] + [x];
    assert StripAll(pieces) == ["A."] + ["B.", x];
  }

  /** "A." and "B." share a buffer of 5 characters, too short to be saved; the long word
      does not fit after them and becomes chunk number 1 on its own, even when it is longer
      than the chunk size. */
  lemma ExampleChunking(x: string, size: int, doc: string)
    requires IsWord(x) && |x| > MinChunkLength
    requires 5 <= size < |x| + 6
    ensures ChunkText("A. B. " + x, size, doc) == [Chunk(x, 1, doc)]
  {
    var t := "A. B. " + x;
    assert t[0] == 'A';
    ExampleSentences(x);
    assert Join(" ", ["A."]) == "A.";
    JoinAppend(" ", ["A."], "B.");
    assert ["A."] + ["B."] == ["A.", "B."];
    assert JoinedLength(["A.", "B."]) == 5;
    assert JoinedLength([x]) == |x|;
    PackCons(x, [], ["A.", "B."], size);
    PackCons("B.", [x], ["A."], size);
    PackCons("A.", ["B.", x], [], size);
    assert [x] + [] == [x] && ["B."] + [x] == ["B.", x] && ["A."] + ["B.", x] == ["A.", "B.", x];
    assert [] + ["A."] == ["A."];
    assert PackFrom([], [x], size) == [[x]];
    var gs := [["A.", "B."], [x]];
    assert Pack(["A.", "B.", x], size) == gs;
    EmitCons(["A.", "B."], [[x]], 1, doc);
    EmitCons([x], [], 1, doc);
  }
}
