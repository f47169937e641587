/** app/storage/file_metadata.py: the per-document metadata kept in file_metadata.json, and
    the listing of uploaded files built from it.

    The JSON object is an insertion-ordered dictionary, modelled as a list of (doc id,
    record) pairs with distinct keys; the metadata file is None while it does not exist. The
    storage directory is a map from file name to file size. */
module FileMetadata {
  import opened Wrappers
  import opened PdfStore

  /** A stored record. Records written by `add_file_metadata` have every key; older files
      may lack some, hence the options. */
  datatype Info = Info(originalFilename: Option<string>, fileType: Option<string>, fileSize: Option<int>,
                       uploadTimestamp: Option<string>, docId: Option<string>)

  type Metadata = seq<(string, Info)>

  predicate KeysDistinct(m: Metadata) {
    forall i, j :: 0 <= i < j < |m| ==> m[i].0 != m[j].0
  }

  predicate HasKey(m: Metadata, k: string) {
    exists i :: 0 <= i < |m| && m[i].0 == k
  }

  /** `load_metadata`: the stored dictionary, or {} when there is no file. */
  function LoadMetadata(file: Option<Metadata>): (m: Metadata)
    ensures file.None? ==> m == []
    ensures file.Some? ==> m == file.value
  {
    file.GetOr([])
  }

  /** Position of the first entry with key `k`, if any. */
  function Find(m: Metadata, k: string): (r: Option<nat>)
    ensures r.None? <==> !HasKey(m, k)
    ensures r.Some? ==> r.value < |m| && m[r.value].0 == k
    ensures r.Some? ==> forall j :: 0 <= j < r.value ==> m[j].0 != k
  {
    if m == [] then None
    else if m[0].0 == k then Some(0)
    else
      assert forall i :: 1 <= i < |m| ==> m[i] == m[1..][i - 1];
      match Find(m[1..], k)
      case None => None
      case Some(i) => Some(i + 1)
  }

  /** The first entry with key `k` is the one the three conditions describe. */
  lemma FindAt(m: Metadata, k: string, i: nat)
    requires i < |m| && m[i].0 == k
    requires forall j :: 0 <= j < i ==> m[j].0 != k
    ensures Find(m, k) == Some(i)
  {
    assert HasKey(m, k);
  }

  /** `metadata[k] = v`: an existing key keeps its place, a new key goes last. */
  function Set(m: Metadata, k: string, v: Info): (r: Metadata)
    ensures Find(m, k).Some? ==> r == m[Find(m, k).value := (k, v)]
    ensures Find(m, k).None? ==> r == m + [(k, v)]
  {
    match Find(m, k)
    case Some(i) => m[i := (k, v)]
    case None => m + [(k, v)]
  }

  /** `del metadata[k]`. */
  function Remove(m: Metadata, k: string): (r: Metadata)
    ensures |r| <= |m|
    ensures forall i :: 0 <= i < |r| ==> r[i].0 != k
    ensures forall i :: 0 <= i < |m| && m[i].0 != k ==> m[i] in r
    ensures forall i :: 0 <= i < |r| ==> r[i] in m
  {
    if m == [] then []
    else if m[0].0 == k then Remove(m[1..], k)
    else [m[0]] + Remove(m[1..], k)
  }

  /** `add_file_metadata`; `now` is the ISO timestamp of the call. */
  function AddFileMetadata(file: Option<Metadata>, docId: string, originalFilename: string, fileType: string,
                           fileSize: int, now: string): (r: Metadata)
    ensures Find(r, docId).Some?
    ensures r[Find(r, docId).value].1 == Info(Some(originalFilename), Some(fileType), Some(fileSize), Some(now), Some(docId))
  {
    var info := Info(Some(originalFilename), Some(fileType), Some(fileSize), Some(now), Some(docId));
    var m := LoadMetadata(file);
    var r := Set(m, docId, info);
    match Find(m, docId)
    case Some(i) =>
      FindAt(r, docId, i);
      r
    case None =>
      FindAt(r, docId, |m|);
      r
  }

  /** `get_file_metadata`: the record, or None for an unknown id. */
  function GetFileMetadata(file: Option<Metadata>, docId: string): (r: Option<Info>)
    ensures r.None? <==> !HasKey(LoadMetadata(file), docId)
    ensures r.Some? ==> exists i :: 0 <= i < |LoadMetadata(file)| && LoadMetadata(file)[i] == (docId, r.value)
  {
    match Find(LoadMetadata(file), docId)
    case Some(i) => Some(LoadMetadata(file)[i].1)
    case None => None
  }

  /** `delete_file_metadata`: the new file contents and whether it was written. An unknown id
      leaves the file as it was and does not write it. */
  function DeleteFileMetadata(file: Option<Metadata>, docId: string): (r: (Option<Metadata>, bool))
    ensures r.1 <==> HasKey(LoadMetadata(file), docId)
    ensures !r.1 ==> r.0 == file
    ensures r.1 ==> r.0 == Some(Remove(LoadMetadata(file), docId))
  {
    var m := LoadMetadata(file);
    if Find(m, docId).Some? then (Some(Remove(m, docId)), true) else (file, false)
  }

  // ---------------------------------------------------------------------------------
  // Properties of the dictionary operations.

  /** With distinct keys, a key's position is the only one `Find` can give. */
  lemma FindUnique(m: Metadata, k: string, i: nat)
    requires KeysDistinct(m) && i < |m| && m[i].0 == k
    ensures Find(m, k) == Some(i)
  {
    FindAt(m, k, i);
  }

  /** Setting a key keeps the keys distinct, leaves every other entry where it was, and
      makes `get` return the new value. */
  lemma SetProperties(m: Metadata, k: string, v: Info)
    requires KeysDistinct(m)
    ensures KeysDistinct(Set(m, k, v))
    ensures Find(Set(m, k, v), k).Some? && Set(m, k, v)[Find(Set(m, k, v), k).value] == (k, v)
    ensures forall i :: 0 <= i < |m| && m[i].0 != k ==> Set(m, k, v)[i] == m[i]
  {
    var r := Set(m, k, v);
    match Find(m, k)
    case Some(i) =>
      FindUnique(r, k, i);
    case None =>
      assert forall i :: 0 <= i < |m| ==> m[i].0 != k;
      FindUnique(r, k, |m|);
  }

  /** After `add`, `get` returns the new record; other ids keep theirs. */
  lemma AddThenGet(file: Option<Metadata>, docId: string, name: string, fileType: string, size: int, now: string, other: string)
    requires KeysDistinct(LoadMetadata(file)) && other != docId
    ensures GetFileMetadata(Some(AddFileMetadata(file, docId, name, fileType, size, now)), docId)
         == Some(Info(Some(name), Some(fileType), Some(size), Some(now), Some(docId)))
    ensures GetFileMetadata(Some(AddFileMetadata(file, docId, name, fileType, size, now)), other) == GetFileMetadata(file, other)
  {
    var m := LoadMetadata(file);
    var info := Info(Some(name), Some(fileType), Some(size), Some(now), Some(docId));
    var r := Set(m, docId, info);
    SetProperties(m, docId, info);
    match Find(m, other)
    case Some(i) =>
      FindUnique(r, other, i);
    case None =>
      forall j | 0 <= j < |r| ensures r[j].0 != other {
        if j < |m| && m[j].0 != docId {
          assert r[j] == m[j];
        }
      }
  }

  /** Deleting removes exactly that id: it is gone afterwards, and every other entry is
      still there. */
  lemma DeleteRemovesOnly(file: Option<Metadata>, docId: string, other: string)
    requires other != docId
    ensures !HasKey(LoadMetadata(DeleteFileMetadata(file, docId).0), docId)
    ensures HasKey(LoadMetadata(DeleteFileMetadata(file, docId).0), other) <==> HasKey(LoadMetadata(file), other)
  {
    var m := LoadMetadata(file);
    if Find(m, docId).Some? {
      var r := Remove(m, docId);
      if HasKey(m, other) {
        var i :| 0 <= i < |m| && m[i].0 == other;
        var j :| 0 <= j < |r| && r[j] == m[i];
      }
      if HasKey(r, other) {
        var j :| 0 <= j < |r| && r[j].0 == other;
        var i :| 0 <= i < |m| && m[i] == r[j];
      }
    }
  }

  // ---------------------------------------------------------------------------------
  // The listing.

  /** One entry of `get_all_files_metadata`. */
  datatype Listed = Listed(docId: string, originalFilename: string, fileType: string, fileSizeBytes: nat, uploadTimestamp: string)

  const DefaultType := "pdf"
  const UnknownTimestamp := "unknown"

  predicate FileExists(dir: map<string, nat>, docId: string) {
    PdfName(docId) in dir || JsonName(docId) in dir
  }

  /** The listing's existence test and size agree with the storage layer: a record is listed
      exactly when `get_pdf_path` resolves its id, and the size is that file's. */
  lemma FileExistsIffResolvable(dir: map<string, nat>, docId: string)
    ensures FileExists(dir, docId) <==> GetPdfPath(dir.Keys, docId).Some?
    ensures FileExists(dir, docId) ==> GetPdfPath(dir.Keys, docId).value in dir
  {
  }

  /** The entry of one record whose file exists: the size of the .pdf if there is one, else of
      the .json; defaults for the missing keys. */
  function MakeListed(dir: map<string, nat>, docId: string, info: Info): (e: Listed)
    requires FileExists(dir, docId)
    ensures e.docId == docId
    ensures e.fileSizeBytes == if PdfName(docId) in dir then dir[PdfName(docId)] else dir[JsonName(docId)]
    ensures GetPdfPath(dir.Keys, docId).Some? && e.fileSizeBytes == dir[GetPdfPath(dir.Keys, docId).value]
    ensures info.fileType.Some? ==> e.fileType == info.fileType.value
    ensures info.fileType.None? ==> e.fileType == DefaultType
    ensures info.uploadTimestamp.Some? ==> e.uploadTimestamp == info.uploadTimestamp.value
    ensures info.uploadTimestamp.None? ==> e.uploadTimestamp == UnknownTimestamp
    ensures info.originalFilename.Some? ==> e.originalFilename == info.originalFilename.value
    ensures info.originalFilename.None? ==> e.originalFilename == docId + "." + e.fileType
    ensures info.originalFilename.None? && info.fileType.None? ==> e.originalFilename == docId + "." + DefaultType
  {
    Listed(docId,
           info.originalFilename.GetOr(docId + "." + info.fileType.GetOr(DefaultType)),
           info.fileType.GetOr(DefaultType),
           if PdfName(docId) in dir then dir[PdfName(docId)] else dir[JsonName(docId)],
           info.uploadTimestamp.GetOr(UnknownTimestamp))
  }

  /** How many stored records have their .pdf or .json in the directory. */
  function CountExisting(m: Metadata, dir: map<string, nat>): nat {
    if m == [] then 0 else (if FileExists(dir, m[0].0) then 1 else 0) + CountExisting(m[1..], dir)
  }

  /** The loop over `metadata.items()`: records whose file still exists, in dictionary order. */
  function Collect(m: Metadata, dir: map<string, nat>): (r: seq<Listed>)
    ensures |r| <= |m|
    ensures |r| == CountExisting(m, dir)
    ensures forall i :: 0 <= i < |r| ==> FileExists(dir, r[i].docId) && HasKey(m, r[i].docId)
  {
    if m == [] then []
    else
      var rest := Collect(m[1..], dir);
      assert forall i :: 0 <= i < |rest| ==> HasKey(m, rest[i].docId) by {
        forall i | 0 <= i < |rest| ensures HasKey(m, rest[i].docId) {
          var j :| 0 <= j < |m[1..]| && m[1..][j].0 == rest[i].docId;
          assert m[j + 1].0 == rest[i].docId;
        }
      }
      (if FileExists(dir, m[0].0) then [MakeListed(dir, m[0].0, m[0].1)] else []) + rest
  }

  /** Every record whose file exists is listed. */
  lemma {:induction false} CollectComplete(m: Metadata, dir: map<string, nat>, i: nat)
    requires i < |m| && FileExists(dir, m[i].0)
    ensures MakeListed(dir, m[i].0, m[i].1) in Collect(m, dir)
  {
    if i > 0 {
      CollectComplete(m[1..], dir, i - 1);
    }
  }

  // Python compares strings by code point, lexicographically.

  predicate Less(a: string, b: string) {
    if b == [] then false
    else if a == [] then true
    else if a[0] != b[0] then a[0] < b[0]
    else Less(a[1..], b[1..])
  }

  lemma {:induction false} LessIrreflexive(a: string)
    ensures !Less(a, a)
  {
    if a != [] {
      LessIrreflexive(a[1..]);
    }
  }

  lemma {:induction false} LessTransitive(a: string, b: string, c: string)
    requires Less(a, b) && Less(b, c)
    ensures Less(a, c)
  {
    if a != [] && a[0] == b[0] && b[0] == c[0] {
      LessTransitive(a[1..], b[1..], c[1..]);
    }
  }

  lemma {:induction false} LessTotal(a: string, b: string)
    requires a != b
    ensures Less(a, b) || Less(b, a)
  {
    if a != [] && b != [] && a[0] == b[0] {
      assert a[1..] != b[1..] by {
        assert a == [a[0]] + a[1..] && b == [b[0]] + b[1..];
      }
      LessTotal(a[1..], b[1..]);
    }
  }

  lemma {:induction false} LessAsymmetric(a: string, b: string)
    ensures Less(a, b) ==> !Less(b, a)
  {
    if a != [] && b != [] && a[0] == b[0] {
      LessAsymmetric(a[1..], b[1..]);
    }
  }

  /** "Not smaller" chains: the order is total. */
  lemma NotLessChain(a: string, b: string, c: string)
    requires !Less(a, b) && !Less(b, c)
    ensures !Less(a, c)
  {
    if a != b && b != c {
      LessTotal(a, b);
      LessTotal(b, c);
      LessTransitive(c, b, a);
      LessAsymmetric(c, a);
    }
  }

  /** `a` sorts no later than `b` in the descending order: its timestamp is not smaller. */
  predicate NotAfter(a: Listed, b: Listed) { !Less(a.uploadTimestamp, b.uploadTimestamp) }

  predicate SortedDesc(s: seq<Listed>) {
    forall i, j :: 0 <= i < j < |s| ==> NotAfter(s[i], s[j])
  }

  /** Places `x` before the first element whose timestamp is not greater than its own. */
  function InsertDesc(x: Listed, s: seq<Listed>): (r: seq<Listed>)
    ensures multiset(r) == multiset(s) + multiset{x}
    ensures |r| == |s| + 1
  {
    if s != [] && Less(x.uploadTimestamp, s[0].uploadTimestamp) then
      assert s == [s[0]] + s[1..];
      [s[0]] + InsertDesc(x, s[1..])
    else [x] + s
  }

  lemma {:induction false} InsertDescSorted(x: Listed, s: seq<Listed>)
    requires SortedDesc(s)
    ensures SortedDesc(InsertDesc(x, s))
  {
    var r := InsertDesc(x, s);
    if s != [] && Less(x.uploadTimestamp, s[0].uploadTimestamp) {
      InsertDescSorted(x, s[1..]);
      forall j | 0 < j < |r| ensures NotAfter(r[0], r[j]) {
        assert r[j] in multiset(s[1..]) + multiset{x} by {
          assert r[j] in InsertDesc(x, s[1..]);
        }
        if r[j] == x {
          LessAsymmetric(x.uploadTimestamp, s[0].uploadTimestamp);
        } else {
          assert r[j] in s[1..];
          var k :| 0 <= k < |s[1..]| && s[1..][k] == r[j];
          assert s[k + 1] == r[j];
        }
      }
    } else {
      forall j | 1 < j < |r| ensures NotAfter(r[0], r[j]) {
        assert r[j] == s[j - 1];
        NotLessChain(x.uploadTimestamp, s[0].uploadTimestamp, s[j - 1].uploadTimestamp);
      }
    }
  }

  /** `sorted(..., key=timestamp, reverse=True)`, by insertion from the back. */
  function SortDesc(s: seq<Listed>): (r: seq<Listed>)
    ensures multiset(r) == multiset(s) && |r| == |s|
  {
    if s == [] then []
    else
      assert s == [s[0]] + s[1..];
      InsertDesc(s[0], SortDesc(s[1..]))
  }

  lemma {:induction false} SortDescSorted(s: seq<Listed>)
    ensures SortedDesc(SortDesc(s))
  {
    if s != [] {
      SortDescSorted(s[1..]);
      InsertDescSorted(s[0], SortDesc(s[1..]));
    }
  }

  /** `get_all_files_metadata`. */
  function GetAllFilesMetadata(file: Option<Metadata>, dir: map<string, nat>): (r: seq<Listed>)
    ensures multiset(r) == multiset(Collect(LoadMetadata(file), dir))
  {
    SortDesc(Collect(LoadMetadata(file), dir))
  }

  /** The listing is ordered newest first and holds exactly the records whose file exists,
      each with its defaults filled in, one entry per such record. */
  lemma ListingIsSortedSelection(file: Option<Metadata>, dir: map<string, nat>)
    ensures SortedDesc(GetAllFilesMetadata(file, dir))
    ensures |GetAllFilesMetadata(file, dir)| == CountExisting(LoadMetadata(file), dir)
    ensures forall e :: e in GetAllFilesMetadata(file, dir) ==> FileExists(dir, e.docId) && HasKey(LoadMetadata(file), e.docId)
    ensures forall i :: 0 <= i < |LoadMetadata(file)| && FileExists(dir, LoadMetadata(file)[i].0) ==>
      MakeListed(dir, LoadMetadata(file)[i].0, LoadMetadata(file)[i].1) in GetAllFilesMetadata(file, dir)
  {
    var m := LoadMetadata(file);
    var c := Collect(m, dir);
    SortDescSorted(c);
    assert |multiset(GetAllFilesMetadata(file, dir))| == |multiset(c)|;
    forall e | e in GetAllFilesMetadata(file, dir) ensures FileExists(dir, e.docId) && HasKey(m, e.docId) {
      assert e in multiset(c);
    }
    forall i | 0 <= i < |m| && FileExists(dir, m[i].0) ensures MakeListed(dir, m[i].0, m[i].1) in GetAllFilesMetadata(file, dir) {
      CollectComplete(m, dir, i);
      assert MakeListed(dir, m[i].0, m[i].1) in multiset(GetAllFilesMetadata(file, dir));
    }
  }

  // ---------------------------------------------------------------------------------
  // The metadata file shares the upload directory.

  /** `METADATA_FILE`: file_metadata.json, kept in the directory that holds the uploads. */
  const MetadataFile := "file_metadata.json"

  /** Since the metadata file ends in ".json", both listings report it as a document: the
      listing as written as "file_metadata.", the corrected one as "file_metadata". */
  lemma MetadataFileIsListed(dir: set<string>, listing: seq<string>)
    requires IsListing(dir, listing) && MetadataFile in dir
    ensures "file_metadata." in ListPdfs(listing)
    ensures "file_metadata" in ListDocs(listing)
    ensures GetPdfPath(dir, "file_metadata").Some?
  {
    var i :| 0 <= i < |listing| && listing[i] == MetadataFile;
    assert MetadataFile == JsonName("file_metadata");
    NameEndsWith("file_metadata");
    ListDocsHas(listing, i);
    ListPdfsHas(listing, i);
    assert MetadataFile[..|MetadataFile| - 4] == "file_metadata.";
  }
}
