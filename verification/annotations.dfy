/** app/storage/annotations_store.py: one JSON list of annotations per document, with an
    upsert keyed by the annotation's "id". The directory of JSON files is a map from document
    id to the stored list; a document without a file is absent from the map. */
module Annotations {
  import opened Wrappers

  /** An annotation: its "id" (`annotation.get("id")`, None when the key is missing) and the
      rest of the record. */
  datatype Annotation = Annotation(id: Option<string>, body: string)

  type Files = map<string, seq<Annotation>>

  /** `load_annotations`: the stored list, or [] when the document has no file. */
  function LoadAnnotations(files: Files, docId: string): (r: seq<Annotation>)
    ensures docId !in files ==> r == []
    ensures docId in files ==> r == files[docId]
  {
    if docId in files then files[docId] else []
  }

  /** Position of the first annotation whose id equals `id`. Two missing ids compare equal,
      as `None == None` does in the source. */
  function FirstMatch(anns: seq<Annotation>, id: Option<string>): (r: Option<nat>)
    ensures r.None? <==> forall i :: 0 <= i < |anns| ==> anns[i].id != id
    ensures r.Some? ==> r.value < |anns| && anns[r.value].id == id
    ensures r.Some? ==> forall i :: 0 <= i < r.value ==> anns[i].id != id
  {
    if anns == [] then None
    else if anns[0].id == id then Some(0)
    else
      var m := FirstMatch(anns[1..], id);
      assert forall i :: 1 <= i < |anns| ==> anns[i] == anns[1..][i - 1];
      match m
      case None => None
      case Some(k) => Some(k + 1)
  }

  /** The first match is the one the three conditions describe. */
  lemma FirstMatchAt(anns: seq<Annotation>, id: Option<string>, i: nat)
    requires i < |anns| && anns[i].id == id
    requires forall j :: 0 <= j < i ==> anns[j].id != id
    ensures FirstMatch(anns, id) == Some(i)
  {
    var m := FirstMatch(anns, id);
    assert m.Some?;
    assert m.value >= i;
    assert anns[m.value].id == id;
  }

  /** The upsert: replace the first entry with the same id, else append. */
  function Upsert(anns: seq<Annotation>, a: Annotation): (r: seq<Annotation>)
    ensures FirstMatch(anns, a.id).Some? ==> |r| == |anns| && r == anns[FirstMatch(anns, a.id).value := a]
    ensures FirstMatch(anns, a.id).None? ==> r == anns + [a]
    ensures a in r
    ensures forall j :: 0 <= j < |anns| && anns[j].id != a.id ==> anns[j] in r
  {
    match FirstMatch(anns, a.id)
    case Some(i) =>
      var r := anns[i := a];
      assert r[i] == a;
      assert forall j :: 0 <= j < |anns| && j != i ==> r[j] == anns[j];
      r
    case None => anns + [a]
  }

  /** `save_annotation`: the document's list after the upsert is written back, and the
      argument is returned. */
  function SaveAnnotation(files: Files, docId: string, a: Annotation): (r: (Files, Annotation))
    ensures r.1 == a
    ensures docId in r.0 && r.0[docId] == Upsert(LoadAnnotations(files, docId), a)
    ensures forall d :: d != docId ==> (d in r.0 <==> d in files) && (d in files ==> r.0[d] == files[d])
  {
    (files[docId := Upsert(LoadAnnotations(files, docId), a)], a)
  }

  // ---------------------------------------------------------------------------------
  // Properties.

  /** The saved annotation is in the list afterwards, at the position of the first entry that
      had its id, or at the end. */
  lemma SavedIsFound(files: Files, docId: string, a: Annotation)
    ensures var after := LoadAnnotations(SaveAnnotation(files, docId, a).0, docId);
      FirstMatch(after, a.id).Some? && after[FirstMatch(after, a.id).value] == a
  {
    var before := LoadAnnotations(files, docId);
    var after := Upsert(before, a);
    match FirstMatch(before, a.id)
    case Some(i) =>
      assert after[i] == a;
      assert forall j :: 0 <= j < i ==> after[j] == before[j];
    case None =>
      assert after[|before|] == a;
      assert forall j :: 0 <= j < |before| ==> after[j] == before[j];
  }

  /** Saving the same annotation twice gives the list saving it once gives. */
  lemma UpsertIdempotent(anns: seq<Annotation>, a: Annotation)
    ensures Upsert(Upsert(anns, a), a) == Upsert(anns, a)
  {
    var once := Upsert(anns, a);
    match FirstMatch(anns, a.id)
    case Some(i) =>
      assert forall j :: 0 <= j < i ==> once[j] == anns[j];
      FirstMatchAt(once, a.id, i);
    case None =>
      assert forall j :: 0 <= j < |anns| ==> once[j] == anns[j];
      FirstMatchAt(once, a.id, |anns|);
  }

  /** An entry with another id keeps its position and its value. */
  lemma UpsertKeepsOthers(anns: seq<Annotation>, a: Annotation, i: nat)
    requires i < |anns| && anns[i].id != a.id
    ensures i < |Upsert(anns, a)| && Upsert(anns, a)[i] == anns[i]
  {
  }

  /** Ids that are pairwise distinct stay pairwise distinct. */
  lemma UpsertKeepsIdsDistinct(anns: seq<Annotation>, a: Annotation)
    requires forall i, j :: 0 <= i < j < |anns| ==> anns[i].id != anns[j].id
    ensures var r := Upsert(anns, a);
      forall i, j :: 0 <= i < j < |r| ==> r[i].id != r[j].id
  {
    var r := Upsert(anns, a);
    match FirstMatch(anns, a.id)
    case Some(k) =>
      forall i, j | 0 <= i < j < |r| ensures r[i].id != r[j].id {
        if i == k {
          assert anns[k].id == a.id;
          assert r[j].id == anns[j].id;
        } else if j == k {
          assert anns[k].id == a.id;
          assert r[i].id == anns[i].id;
        }
      }
    case None =>
      forall i, j | 0 <= i < j < |r| ensures r[i].id != r[j].id {
        if j == |anns| {
          assert r[i] == anns[i];
        }
      }
  }

  /** An annotation without an id replaces the first stored annotation without one. */
  lemma MissingIdsCollide(b1: string, b2: string, others: seq<Annotation>)
    ensures Upsert([Annotation(None, b1)] + others, Annotation(None, b2))
         == [Annotation(None, b2)] + others
  {
    assert ([Annotation(None, b1)] + others)[0].id == None;
    var s := [Annotation(None, b1)] + others;
    assert s[0 := Annotation(None, b2)] == [Annotation(None, b2)] + others;
  }
}
