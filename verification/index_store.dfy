/** The vector index of app/storage/index_store.py as abstract state.

    Three pieces of state: the chunk mapping table (chunk id -> doc id and text, the SQLite
    database, which survives restarts), the in-memory flat L2 index with its positional id
    list, and the persisted copy of both (vectors.npy and ids.json). FAISS's float32 vectors
    are integer vectors here and its IndexFlatL2 distance is the exact squared Euclidean
    distance. uuid4 is an oracle supplying the fresh ids; the k-nearest-neighbour ordering of
    a FAISS search is an oracle constrained by `KnnLabels`. */
module IndexStore {
  import opened Wrappers

  /** The fallback dimension of an index created from an empty batch. */
  const DefaultDim := 384

  datatype Row = Row(docId: string, text: string)

  /** An IndexFlatL2: its dimension and its vectors by position. */
  datatype FlatIndex = FlatIndex(dim: nat, vectors: seq<seq<int>>)

  /** What vectors.npy and ids.json hold (both files present). */
  datatype Persisted = Persisted(dim: nat, vectors: seq<seq<int>>, ids: seq<string>)

  /** `faiss` says whether the library could be imported (fixed for the process). */
  datatype Store = Store(faiss: bool, mapping: map<string, Row>, index: Option<FlatIndex>,
                         ids: seq<string>, saved: Option<Persisted>)

  datatype AddError = ShortEmbeddings | DimensionMismatch
  datatype SearchError = QueryDimension | BadK | LabelOutOfRange

  predicate Distinct(s: seq<string>) {
    forall i, j :: 0 <= i < j < |s| ==> s[i] != s[j]
  }

  predicate AllDim(vs: seq<seq<int>>, dim: nat) {
    forall i :: 0 <= i < |vs| ==> |vs[i]| == dim
  }

  /** The consistency the store keeps between calls: one id per indexed vector, every
      indexed id has a mapping row, ids are unique, and the files mirror memory. */
  predicate Valid(st: Store) {
    && (!st.faiss ==> st.index.None?)
    && (st.index.None? ==> st.ids == [])
    && (st.index.Some? ==> |st.ids| == |st.index.value.vectors| && AllDim(st.index.value.vectors, st.index.value.dim))
    && (forall j :: 0 <= j < |st.ids| ==> st.ids[j] in st.mapping)
    && Distinct(st.ids)
    && (st.faiss && st.index.Some? ==>
          st.saved == Some(Persisted(st.index.value.dim, st.index.value.vectors, st.ids)))
    && (st.faiss && st.index.None? ==> st.saved.None?)
  }

  /** Ids the uuid oracle may hand out for a batch: pairwise distinct and not yet used. */
  predicate UnusedIds(st: Store, newIds: seq<string>) {
    Distinct(newIds) && forall j :: 0 <= j < |newIds| ==> newIds[j] !in st.mapping && newIds[j] !in st.ids
  }

  // ---------------------------------------------------------------------------------
  // Loading.

  /** A new process: memory is empty, the database and the files remain. */
  function Restart(st: Store): Store {
    st.(index := None, ids := [])
  }

  /** `_load_index()`. */
  function Load(st: Store): (r: Store)
    ensures r.mapping == st.mapping && r.saved == st.saved && r.faiss == st.faiss
    ensures st.index.Some? ==> r == st
    ensures st.index.None? && st.faiss && st.saved.Some? ==>
      r.index == Some(FlatIndex(st.saved.value.dim, st.saved.value.vectors)) && r.ids == st.saved.value.ids
    ensures st.index.None? && (!st.faiss || st.saved.None?) ==> r.index.None? && r.ids == []
  {
    if st.index.Some? then st
    else if !st.faiss then st.(index := None, ids := [])
    else match st.saved
      case Some(p) => st.(index := Some(FlatIndex(p.dim, p.vectors)), ids := p.ids)
      case None => st.(index := None, ids := [])
  }

  /** Files written by a previous valid run: consistent, and their ids have mapping rows. */
  predicate SavedOk(mapping: map<string, Row>, saved: Option<Persisted>) {
    saved.Some? ==>
      && |saved.value.ids| == |saved.value.vectors|
      && AllDim(saved.value.vectors, saved.value.dim)
      && Distinct(saved.value.ids)
      && forall j :: 0 <= j < |saved.value.ids| ==> saved.value.ids[j] in mapping
  }

  /** Starting a process on consistent files gives a valid store. */
  lemma BootIsValid(faiss: bool, mapping: map<string, Row>, saved: Option<Persisted>)
    requires SavedOk(mapping, saved)
    ensures Valid(Load(Store(faiss, mapping, None, [], saved)))
  {
  }

  /** The persisted copy always mirrors memory, so a restart rebuilds the same index and id
      list. */
  lemma RestartRoundTrip(st: Store)
    requires Valid(st) && st.faiss
    ensures Load(Restart(st)) == st
  {
  }

  // ---------------------------------------------------------------------------------
  // Inserting.

  /** The INSERT OR REPLACE statements of one batch, in order (a repeated id keeps the later
      row). */
  function InsertRows(mapping: map<string, Row>, docId: string, chunks: seq<string>, ids: seq<string>): (r: map<string, Row>)
    requires |ids| == |chunks|
    ensures forall k :: k in r <==> k in mapping || k in ids
    ensures forall k :: k in mapping && k !in ids ==> r[k] == mapping[k]
    ensures Distinct(ids) ==> forall j :: 0 <= j < |ids| ==> r[ids[j]] == Row(docId, chunks[j])
    decreases |chunks|
  {
    if chunks == [] then mapping
    else
      assert forall k :: k in ids <==> k == ids[0] || k in ids[1..];
      InsertRows(mapping[ids[0] := Row(docId, chunks[0])], docId, chunks[1..], ids[1..])
  }

  /** The embeddings a batch uses: the ones passed in, or `embed_texts(chunks)` when none
      were (an empty list counts as passed). */
  function BatchEmbeddings(chunks: seq<string>, embeddings: Option<seq<seq<int>>>, embed: seq<string> -> seq<seq<int>>): seq<seq<int>> {
    match embeddings
    case Some(e) => e
    case None => embed(chunks)
  }

  /** The dimension the index has during a batch: fixed by the first insertion. */
  function BatchDim(st: Store, embs: seq<seq<int>>): nat {
    match st.index
    case Some(ix) => ix.dim
    case None => if |embs| > 0 then |embs[0]| else DefaultDim
  }

  function Vectors(st: Store): seq<seq<int>> {
    match st.index
    case Some(ix) => ix.vectors
    case None => []
  }

  /** A batch FAISS accepts: a vector of the index's dimension for every chunk. */
  predicate BatchFits(chunks: seq<string>, embs: seq<seq<int>>, dim: nat) {
    |embs| >= |chunks| && forall i :: 0 <= i < |chunks| ==> |embs[i]| == dim
  }

  /** `add_chunks_to_index`, all or nothing: a batch FAISS would reject leaves the store
      exactly as it was. */
  function AddChunks(st: Store, docId: string, chunks: seq<string>, embeddings: Option<seq<seq<int>>>,
                     embed: seq<string> -> seq<seq<int>>, newIds: seq<string>): (r: (Store, Result<seq<string>, AddError>))
    requires |newIds| == |chunks|
    ensures r.1.Ok? ==> r.1.value == newIds
    ensures r.1.Err? ==> r.0 == st
    ensures r.0.faiss == st.faiss
    ensures !st.faiss ==> r.1 == Ok(newIds) && r.0.index == st.index && r.0.ids == st.ids && r.0.saved == st.saved
    ensures r.1.Ok? ==> r.0.mapping == InsertRows(st.mapping, docId, chunks, newIds)
    ensures st.faiss && r.1.Ok? ==>
      && r.0.ids == st.ids + newIds
      && r.0.index.Some?
      && |BatchEmbeddings(chunks, embeddings, embed)| >= |chunks|
      && r.0.index.value.vectors == Vectors(st) + BatchEmbeddings(chunks, embeddings, embed)[..|chunks|]
      && r.0.index.value.dim == BatchDim(st, BatchEmbeddings(chunks, embeddings, embed))
      && r.0.saved == Some(Persisted(r.0.index.value.dim, r.0.index.value.vectors, r.0.ids))
    ensures st.faiss ==> (r.1.Ok? <==> BatchFits(chunks, BatchEmbeddings(chunks, embeddings, embed), BatchDim(st, BatchEmbeddings(chunks, embeddings, embed))))
  {
    if !st.faiss then
      (st.(mapping := InsertRows(st.mapping, docId, chunks, newIds)), Ok(newIds))
    else
      var embs := BatchEmbeddings(chunks, embeddings, embed);
      var dim := BatchDim(st, embs);
      if |embs| < |chunks| then (st, Err(ShortEmbeddings))
      else if !BatchFits(chunks, embs, dim) then (st, Err(DimensionMismatch))
      else
        var vecs := Vectors(st) + embs[..|chunks|];
        var ids := st.ids + newIds;
        (Store(true, InsertRows(st.mapping, docId, chunks, newIds), Some(FlatIndex(dim, vecs)), ids,
               Some(Persisted(dim, vecs, ids))), Ok(newIds))
  }

  /** Every insertion keeps the store consistent. */
  lemma AddChunksPreservesValid(st: Store, docId: string, chunks: seq<string>, embeddings: Option<seq<seq<int>>>,
                                embed: seq<string> -> seq<seq<int>>, newIds: seq<string>)
    requires Valid(st) && |newIds| == |chunks| && UnusedIds(st, newIds)
    ensures Valid(AddChunks(st, docId, chunks, embeddings, embed, newIds).0)
  {
    var r := AddChunks(st, docId, chunks, embeddings, embed, newIds);
    if st.faiss && r.1.Ok? {
      var st' := r.0;
      var embs := BatchEmbeddings(chunks, embeddings, embed);
      var dim := BatchDim(st, embs);
      assert AllDim(Vectors(st), dim);
      assert AllDim(st'.index.value.vectors, dim) by {
        forall i | 0 <= i < |st'.index.value.vectors| ensures |st'.index.value.vectors[i]| == dim {
          if i >= |Vectors(st)| {
            assert st'.index.value.vectors[i] == embs[i - |Vectors(st)|];
          }
        }
      }
      IdsStayDistinct(st.ids, newIds);
      forall j | 0 <= j < |st'.ids| ensures st'.ids[j] in st'.mapping {
        if j < |st.ids| {
          assert st'.ids[j] == st.ids[j];
        } else {
          assert st'.ids[j] == newIds[j - |st.ids|];
        }
      }
    }
  }

  lemma IdsStayDistinct(ids: seq<string>, newIds: seq<string>)
    requires Distinct(ids) && Distinct(newIds)
    requires forall j :: 0 <= j < |newIds| ==> newIds[j] !in ids
    ensures Distinct(ids + newIds)
  {
    var all := ids + newIds;
    forall i, j | 0 <= i < j < |all| ensures all[i] != all[j] {
      if j >= |ids| && i < |ids| {
        assert all[j] == newIds[j - |ids|];
        assert all[i] == ids[i];
      }
    }
  }

  // ---------------------------------------------------------------------------------
  // Lookup.

  /** `get_chunk_by_id`: the stored text, or "" for an unknown id. */
  function GetChunkById(st: Store, chunkId: string): (t: string)
    ensures chunkId !in st.mapping ==> t == ""
    ensures chunkId in st.mapping ==> t == st.mapping[chunkId].text
  {
    if chunkId in st.mapping then st.mapping[chunkId].text else ""
  }

  /** Every id an insertion returns resolves to its chunk's text; older ids are unaffected. */
  lemma AddThenGet(st: Store, docId: string, chunks: seq<string>, embeddings: Option<seq<seq<int>>>,
                   embed: seq<string> -> seq<seq<int>>, newIds: seq<string>, other: string)
    requires Valid(st) && |newIds| == |chunks| && UnusedIds(st, newIds)
    requires AddChunks(st, docId, chunks, embeddings, embed, newIds).1.Ok?
    requires other in st.mapping
    ensures forall j :: 0 <= j < |chunks| ==>
      GetChunkById(AddChunks(st, docId, chunks, embeddings, embed, newIds).0, newIds[j]) == chunks[j]
    ensures GetChunkById(AddChunks(st, docId, chunks, embeddings, embed, newIds).0, other) == GetChunkById(st, other)
  {
  }

  // ---------------------------------------------------------------------------------
  // Searching.

  /** Squared Euclidean distance, the metric of IndexFlatL2. */
  function SqDist(a: seq<int>, b: seq<int>): (d: int)
    requires |a| == |b|
    ensures d >= 0
  {
    if a == [] then 0 else (a[0] - b[0]) * (a[0] - b[0]) + SqDist(a[1..], b[1..])
  }

  lemma {:induction false} SqDistZero(a: seq<int>, b: seq<int>)
    requires |a| == |b|
    ensures SqDist(a, b) == 0 <==> a == b
  {
    if a != [] {
      SqDistZero(a[1..], b[1..]);
      if a[1..] == b[1..] && a[0] == b[0] {
        assert a == [a[0]] + a[1..] && b == [b[0]] + b[1..];
      }
    }
  }

  function Min(a: int, b: int): int { if a <= b then a else b }

  /** What a FAISS flat search for `k` neighbours of `q` returns as labels: the first
      min(k, n) are distinct positions by non-decreasing distance, no position left out is
      nearer than one taken, and the rest is padded with -1. */
  predicate KnnLabels(vectors: seq<seq<int>>, q: seq<int>, k: int, labels: seq<int>)
    requires AllDim(vectors, |q|)
  {
    var m := Min(k, |vectors|);
    && 0 <= m && |labels| == k
    && (forall j :: 0 <= j < m ==> 0 <= labels[j] < |vectors|)
    && (forall j :: m <= j < k ==> labels[j] == -1)
    && (forall i, j :: 0 <= i < j < m ==> labels[i] != labels[j])
    && (forall i, j :: 0 <= i < j < m ==> SqDist(vectors[labels[i]], q) <= SqDist(vectors[labels[j]], q))
    && (forall p, j :: 0 <= p < |vectors| && 0 <= j < m && p !in labels[..m] ==>
          SqDist(vectors[labels[j]], q) <= SqDist(vectors[p], q))
  }

  /** The result loop: skip negative labels, pair each position's id with its distance. */
  function Collect(labels: seq<int>, ids: seq<string>, vectors: seq<seq<int>>, q: seq<int>): (r: Result<seq<(string, int)>, SearchError>)
    requires AllDim(vectors, |q|)
    ensures r.Ok? ==> |r.value| <= |labels|
    ensures r.Ok? ==> forall j :: 0 <= j < |r.value| ==> r.value[j].0 in ids
    ensures (forall j :: 0 <= j < |labels| ==> labels[j] < 0 || (labels[j] < |ids| && labels[j] < |vectors|)) ==> r.Ok?
  {
    if labels == [] then Ok([])
    else
      var rest := Collect(labels[1..], ids, vectors, q);
      var l := labels[0];
      if l < 0 then rest
      else if l >= |ids| || l >= |vectors| then Err(LabelOutOfRange)
      else if rest.Err? then rest
      else Ok([(ids[l], SqDist(vectors[l], q))] + rest.value)
  }

  /** `search_index(query_vec, k)`, with the labels FAISS returns given by `labels`. */
  function Search(st: Store, q: seq<int>, k: int, labels: seq<int>): (r: Result<seq<(string, int)>, SearchError>)
    ensures !st.faiss || st.index.None? || |st.index.value.vectors| == 0 ==> r == Ok([])
    ensures r.Ok? ==> forall j :: 0 <= j < |r.value| ==> r.value[j].0 in st.ids
    ensures r.Ok? && r.value != [] ==> |r.value| <= k
  {
    if !st.faiss then Ok([])
    else match st.index
      case None => Ok([])
      case Some(ix) =>
        if |ix.vectors| == 0 then Ok([])
        else if |q| != ix.dim || !AllDim(ix.vectors, ix.dim) then Err(QueryDimension)
        else if k <= 0 then Err(BadK)
        else if |labels| != k then Err(LabelOutOfRange)
        else Collect(labels, st.ids, ix.vectors, q)
  }

  lemma {:induction false} CollectKnn(labels: seq<int>, ids: seq<string>, vectors: seq<seq<int>>, q: seq<int>, m: nat)
    requires AllDim(vectors, |q|) && |ids| == |vectors|
    requires m <= |labels|
    requires forall j :: 0 <= j < m ==> 0 <= labels[j] < |vectors|
    requires forall j :: m <= j < |labels| ==> labels[j] == -1
    ensures Collect(labels, ids, vectors, q).Ok?
    ensures |Collect(labels, ids, vectors, q).value| == m
    ensures forall j :: 0 <= j < m ==>
      Collect(labels, ids, vectors, q).value[j] == (ids[labels[j]], SqDist(vectors[labels[j]], q))
  {
    if labels != [] {
      if m == 0 {
        CollectKnn(labels[1..], ids, vectors, q, 0);
      } else {
        CollectKnn(labels[1..], ids, vectors, q, m - 1);
      }
    }
  }

  /** On a valid store, a search returns min(k, n) hits, nearest first, each hit the id of
      the indexed position with its squared distance. */
  lemma SearchReturnsNearest(st: Store, q: seq<int>, k: int, labels: seq<int>)
    requires Valid(st) && st.faiss && st.index.Some? && |st.index.value.vectors| > 0
    requires |q| == st.index.value.dim && k > 0
    requires KnnLabels(st.index.value.vectors, q, k, labels)
    ensures Search(st, q, k, labels).Ok?
    ensures |Search(st, q, k, labels).value| == Min(k, |st.ids|)
    ensures forall j :: 0 <= j < Min(k, |st.ids|) ==>
      Search(st, q, k, labels).value[j] == (st.ids[labels[j]], SqDist(st.index.value.vectors[labels[j]], q))
    ensures forall i, j :: 0 <= i < j < Min(k, |st.ids|) ==>
      Search(st, q, k, labels).value[i].1 <= Search(st, q, k, labels).value[j].1
  {
    CollectKnn(labels, st.ids, st.index.value.vectors, q, Min(k, |st.ids|));
  }

  /** Searching for a stored vector finds a hit at distance 0 first. */
  lemma ExactMatchComesFirst(st: Store, q: seq<int>, k: int, labels: seq<int>, p: nat)
    requires Valid(st) && st.faiss && st.index.Some? && p < |st.index.value.vectors|
    requires st.index.value.vectors[p] == q && k > 0
    requires KnnLabels(st.index.value.vectors, q, k, labels)
    ensures Search(st, q, k, labels).Ok? && Search(st, q, k, labels).value != []
    ensures Search(st, q, k, labels).value[0].1 == 0
  {
    var vs := st.index.value.vectors;
    var m := Min(k, |vs|);
    SearchReturnsNearest(st, q, k, labels);
    SqDistZero(q, q);
    if p !in labels[..m] {
      assert SqDist(vs[labels[0]], q) <= SqDist(vs[p], q);
    } else {
      var j :| 0 <= j < m && labels[..m][j] == p;
      if j > 0 {
        assert SqDist(vs[labels[0]], q) <= SqDist(vs[labels[j]], q);
      }
    }
  }

  /** Without FAISS, insertions still store and return ids, but nothing becomes searchable:
      search stays empty while lookups succeed. */
  lemma DegradedMode(st: Store, docId: string, chunks: seq<string>, embeddings: Option<seq<seq<int>>>,
                     embed: seq<string> -> seq<seq<int>>, newIds: seq<string>, q: seq<int>, k: int, labels: seq<int>)
    requires Valid(st) && !st.faiss && |newIds| == |chunks| && Distinct(newIds)
    ensures AddChunks(st, docId, chunks, embeddings, embed, newIds).1 == Ok(newIds)
    ensures Search(AddChunks(st, docId, chunks, embeddings, embed, newIds).0, q, k, labels) == Ok([])
    ensures forall j :: 0 <= j < |chunks| ==>
      GetChunkById(AddChunks(st, docId, chunks, embeddings, embed, newIds).0, newIds[j]) == chunks[j]
  {
  }

  // ---------------------------------------------------------------------------------
  // The insertion loop as the source writes it.

  /** The loop over the batch: the vector of chunk `i` is added to the index and its id to
      the id list one chunk at a time; a missing vector (IndexError) or one of the wrong
      dimension (rejected by FAISS) stops the loop, with what was added so far staying
      added. Returns the vectors, the ids and whether the loop completed. */
  function AddLoop(vecs: seq<seq<int>>, ids: seq<string>, chunks: seq<string>, embs: seq<seq<int>>,
                   newIds: seq<string>, dim: nat, i: nat): (r: (seq<seq<int>>, seq<string>, bool))
    requires |newIds| == |chunks| && i <= |chunks|
    ensures |r.0| - |vecs| == |r.1| - |ids| <= |chunks| - i
    ensures r.2 ==> |r.1| - |ids| == |chunks| - i
    decreases |chunks| - i
  {
    if i == |chunks| then (vecs, ids, true)
    else if i >= |embs| || |embs[i]| != dim then (vecs, ids, false)
    else AddLoop(vecs + [embs[i]], ids + [newIds[i]], chunks, embs, newIds, dim, i + 1)
  }

  /** `add_chunks_to_index` as written: the index is created and vectors and ids are added
      before the mapping rows are committed, so a failing batch leaves in-memory ids whose
      rows were rolled back, and memory no longer matches the files. */
  function AddChunksAsWritten(st: Store, docId: string, chunks: seq<string>, embeddings: Option<seq<seq<int>>>,
                              embed: seq<string> -> seq<seq<int>>, newIds: seq<string>): (r: (Store, Result<seq<string>, AddError>))
    requires |newIds| == |chunks|
    ensures r.1.Ok? ==> r.1.value == newIds
    ensures r.0.faiss == st.faiss
  {
    if !st.faiss then
      (st.(mapping := InsertRows(st.mapping, docId, chunks, newIds)), Ok(newIds))
    else
      var embs := BatchEmbeddings(chunks, embeddings, embed);
      var dim := BatchDim(st, embs);
      var loop := AddLoop(Vectors(st), st.ids, chunks, embs, newIds, dim, 0);
      if loop.2 then
        (Store(true, InsertRows(st.mapping, docId, chunks, newIds), Some(FlatIndex(dim, loop.0)), loop.1,
               Some(Persisted(dim, loop.0, loop.1))), Ok(newIds))
      else
        var err := if |loop.1| - |st.ids| >= |embs| then ShortEmbeddings else DimensionMismatch;
        (st.(index := Some(FlatIndex(dim, loop.0)), ids := loop.1), Err(err))
  }

  /** A batch of two chunks with a single embedding on an empty store: the first id is
      indexed, its row is rolled back, the store is no longer valid, and a search finds an
      id whose text cannot be looked up. */
  lemma AsWrittenLosesRows()
    ensures var st := Store(true, map[], None, [], None);
      var r := AddChunksAsWritten(st, "d", ["a", "b"], Some([[1, 2]]), _ => [], ["c1", "c2"]);
      && Valid(st)
      && r.1.Err?
      && r.0.ids == ["c1"]
      && "c1" !in r.0.mapping
      && !Valid(r.0)
      && Search(r.0, [1, 2], 1, [0]) == Ok([("c1", 0)])
      && GetChunkById(r.0, "c1") == ""
  {
    var st := Store(true, map[], None, [], None);
    AsWrittenFailingBatch();
    assert SqDist([1, 2], [1, 2]) == 0;
    assert Collect([], ["c1"], [[1, 2]], [1, 2]) == Ok([]);
    assert [("c1", 0)] + [] == [("c1", 0)];
    assert Collect([0], ["c1"], [[1, 2]], [1, 2]) == Ok([("c1", 0)]);
  }

  lemma AsWrittenFailingBatch()
    ensures AddChunksAsWritten(Store(true, map[], None, [], None), "d", ["a", "b"], Some([[1, 2]]), _ => [], ["c1", "c2"])
         == (Store(true, map[], Some(FlatIndex(2, [[1, 2]])), ["c1"], None), Err(ShortEmbeddings))
  {
    var st := Store(true, map[], None, [], None);
    var embs: seq<seq<int>> := [[1, 2]];
    assert BatchDim(st, embs) == 2;
    var l1 := AddLoop([[1, 2]], ["c1"], ["a", "b"], embs, ["c1", "c2"], 2, 1);
    assert l1 == ([[1, 2]], ["c1"], false);
    assert [] + [[1, 2]] == [[1, 2]] && [] + ["c1"] == ["c1"];
    assert AddLoop([], [], ["a", "b"], embs, ["c1", "c2"], 2, 0) == l1;
  }

  /** When the batch fits, the source's loop and the all-or-nothing insertion agree. */
  lemma {:induction false} AddLoopFits(vecs: seq<seq<int>>, ids: seq<string>, chunks: seq<string>, embs: seq<seq<int>>,
                                       newIds: seq<string>, dim: nat, i: nat)
    requires |newIds| == |chunks| && i <= |chunks|
    requires BatchFits(chunks, embs, dim)
    ensures AddLoop(vecs, ids, chunks, embs, newIds, dim, i) == (vecs + embs[i..|chunks|], ids + newIds[i..], true)
    decreases |chunks| - i
  {
    if i == |chunks| {
      assert embs[i..|chunks|] == [] && newIds[i..] == [];
      assert vecs + [] == vecs && ids + [] == ids;
    } else {
      AddLoopFits(vecs + [embs[i]], ids + [newIds[i]], chunks, embs, newIds, dim, i + 1);
      assert vecs + [embs[i]] + embs[i + 1..|chunks|] == vecs + embs[i..|chunks|];
      assert ids + [newIds[i]] + newIds[i + 1..] == ids + newIds[i..];
    }
  }

  /** The loop fails exactly when the batch does not fit. */
  lemma {:induction false} AddLoopFails(vecs: seq<seq<int>>, ids: seq<string>, chunks: seq<string>, embs: seq<seq<int>>,
                                        newIds: seq<string>, dim: nat, i: nat, bad: nat)
    requires |newIds| == |chunks| && i <= bad < |chunks|
    requires bad >= |embs| || |embs[bad]| != dim
    ensures !AddLoop(vecs, ids, chunks, embs, newIds, dim, i).2
    decreases |chunks| - i
  {
    if !(i >= |embs| || |embs[i]| != dim) {
      AddLoopFails(vecs + [embs[i]], ids + [newIds[i]], chunks, embs, newIds, dim, i + 1, bad);
    }
  }

  /** On every batch that fits, the source's insertion and the all-or-nothing one leave the
      same store; they differ only on the failing batches. */
  lemma AsWrittenAgreesWhenBatchFits(st: Store, docId: string, chunks: seq<string>, embeddings: Option<seq<seq<int>>>,
                                     embed: seq<string> -> seq<seq<int>>, newIds: seq<string>)
    requires |newIds| == |chunks|
    ensures var embs := BatchEmbeddings(chunks, embeddings, embed);
      BatchFits(chunks, embs, BatchDim(st, embs)) || !st.faiss ==>
        AddChunksAsWritten(st, docId, chunks, embeddings, embed, newIds) == AddChunks(st, docId, chunks, embeddings, embed, newIds)
    ensures st.faiss && AddChunks(st, docId, chunks, embeddings, embed, newIds).1.Err? ==>
      AddChunksAsWritten(st, docId, chunks, embeddings, embed, newIds).1.Err?
  {
    var embs := BatchEmbeddings(chunks, embeddings, embed);
    var dim := BatchDim(st, embs);
    if st.faiss {
      if BatchFits(chunks, embs, dim) {
        AddLoopFits(Vectors(st), st.ids, chunks, embs, newIds, dim, 0);
        assert newIds[0..] == newIds;
        assert embs[0..|chunks|] == embs[..|chunks|];
      } else {
        var bad :| 0 <= bad < |chunks| && (bad >= |embs| || |embs[bad]| != dim);
        AddLoopFails(Vectors(st), st.ids, chunks, embs, newIds, dim, 0, bad);
      }
    }
  }
}
