/** app/storage/pdf_store.py: where a document's uploaded file lives and which documents the
    storage directory holds. The directory is the set of its file names; `os.listdir` is a list
    of those names in some order. Paths are file names (the directory prefix is left off). */
module PdfStore {
  import opened Wrappers
  import opened Text

  const PdfSuffix := ".pdf"
  const JsonSuffix := ".json"

  function PdfName(docId: string): string { docId + PdfSuffix }
  function JsonName(docId: string): string { docId + JsonSuffix }

  /** `listing` is what `os.listdir` may return for `dir`: each name once. */
  predicate IsListing(dir: set<string>, listing: seq<string>) {
    && (forall i, j :: 0 <= i < j < |listing| ==> listing[i] != listing[j])
    && (forall i :: 0 <= i < |listing| ==> listing[i] in dir)
    && (forall fn :: fn in dir ==> fn in listing)
  }

  /** `get_pdf_path`: the .pdf if it exists, else the .json if it exists, else None. */
  function GetPdfPath(dir: set<string>, docId: string): (r: Option<string>)
    ensures r.Some? ==> r.value in dir
    ensures r.None? <==> PdfName(docId) !in dir && JsonName(docId) !in dir
    ensures PdfName(docId) in dir ==> r == Some(PdfName(docId))
  {
    if PdfName(docId) in dir then Some(PdfName(docId))
    else if JsonName(docId) in dir then Some(JsonName(docId))
    else None
  }

  /** `get_file_type`, with the same precedence. */
  function GetFileType(dir: set<string>, docId: string): (r: Option<string>)
    ensures r.None? || r == Some("pdf") || r == Some("json")
    ensures r == Some("json") ==> JsonName(docId) in dir && PdfName(docId) !in dir
  {
    if PdfName(docId) in dir then Some("pdf")
    else if JsonName(docId) in dir then Some("json")
    else None
  }

  /** The type and the path always describe the same file: the type is the path's extension,
      and a .pdf wins over a .json. */
  lemma TypeMatchesPath(dir: set<string>, docId: string)
    ensures GetFileType(dir, docId).None? <==> GetPdfPath(dir, docId).None?
    ensures GetFileType(dir, docId) == Some("pdf") <==> GetPdfPath(dir, docId) == Some(PdfName(docId))
    ensures GetFileType(dir, docId) == Some("json") <==> GetPdfPath(dir, docId) == Some(JsonName(docId))
  {
    assert PdfName(docId) != JsonName(docId) by {
      assert PdfName(docId)[|docId| + 1] == 'p' && JsonName(docId)[|docId| + 1] == 'j';
    }
  }

  predicate IsDocFile(fn: string) { EndsWith(fn, PdfSuffix) || EndsWith(fn, JsonSuffix) }

  /** `list_pdfs` as written: every .pdf or .json name loses its last four characters. */
  function ListPdfs(listing: seq<string>): (r: seq<string>)
    ensures |r| <= |listing|
    ensures forall i :: 0 <= i < |r| ==> PdfName(r[i]) in listing || r[i] + "json" in listing
  {
    if listing == [] then []
    else
      var fn := listing[0];
      var rest := ListPdfs(listing[1..]);
      assert forall x :: x in listing[1..] ==> x in listing;
      if IsDocFile(fn) then
        var id := fn[..|fn| - 4];
        assert fn == id + fn[|fn| - 4..];
        assert EndsWith(fn, PdfSuffix) ==> fn == PdfName(id);
        assert !EndsWith(fn, PdfSuffix) ==> fn == id + "json" by {
          if !EndsWith(fn, PdfSuffix) {
            assert fn[|fn| - 4..] == fn[|fn| - 5..][1..];
          }
        }
        [id] + rest
      else
        rest
  }

  lemma {:induction false} ListPdfsHas(listing: seq<string>, i: nat)
    requires i < |listing| && IsDocFile(listing[i])
    ensures listing[i][..|listing[i]| - 4] in ListPdfs(listing)
  {
    if i > 0 {
      ListPdfsHas(listing[1..], i - 1);
    }
  }

  /** Stripping the right extension: the listing the function evidently intends. */
  function StripExtension(fn: string): (id: string)
    requires IsDocFile(fn)
    ensures fn == PdfName(id) || fn == JsonName(id)
  {
    if EndsWith(fn, PdfSuffix) then
      assert fn == fn[..|fn| - 4] + fn[|fn| - 4..];
      fn[..|fn| - 4]
    else
      assert fn == fn[..|fn| - 5] + fn[|fn| - 5..];
      fn[..|fn| - 5]
  }

  /** `list_pdfs` with each extension removed whole. */
  function ListDocs(listing: seq<string>): (r: seq<string>)
    ensures |r| <= |listing|
    ensures forall i :: 0 <= i < |r| ==> PdfName(r[i]) in listing || JsonName(r[i]) in listing
  {
    if listing == [] then []
    else
      var fn := listing[0];
      var rest := ListDocs(listing[1..]);
      assert forall x :: x in listing[1..] ==> x in listing;
      (if IsDocFile(fn) then [StripExtension(fn)] else []) + rest
  }

  lemma {:induction false} ListDocsHas(listing: seq<string>, i: nat)
    requires i < |listing| && IsDocFile(listing[i])
    ensures StripExtension(listing[i]) in ListDocs(listing)
  {
    if i > 0 {
      ListDocsHas(listing[1..], i - 1);
    }
  }

  lemma NameEndsWith(docId: string)
    ensures EndsWith(PdfName(docId), PdfSuffix) && StripExtension(PdfName(docId)) == docId
    ensures EndsWith(JsonName(docId), JsonSuffix) && !EndsWith(JsonName(docId), PdfSuffix)
    ensures StripExtension(JsonName(docId)) == docId
  {
    var j := JsonName(docId);
    assert j[|j| - 4..] != PdfSuffix by {
      assert j[|j| - 4..][0] == 'j';
    }
    assert j[..|j| - 5] == docId;
  }

  /** The corrected listing holds exactly the documents whose file can be resolved. */
  lemma ListedIffResolvable(dir: set<string>, listing: seq<string>, docId: string)
    requires IsListing(dir, listing)
    ensures docId in ListDocs(listing) <==> GetPdfPath(dir, docId).Some?
  {
    NameEndsWith(docId);
    if GetPdfPath(dir, docId).Some? {
      var fn := GetPdfPath(dir, docId).value;
      var i :| 0 <= i < |listing| && listing[i] == fn;
      ListDocsHas(listing, i);
    }
  }

  /** The listing as written names a .pdf by its id ... */
  lemma {:induction false} AsWrittenListsPdf(listing: seq<string>, docId: string)
    requires PdfName(docId) in listing
    ensures docId in ListPdfs(listing)
  {
    NameEndsWith(docId);
    if listing[0] != PdfName(docId) {
      AsWrittenListsPdf(listing[1..], docId);
    } else {
      assert listing[0][..|listing[0]| - 4] == docId;
    }
  }

  /** ... but a document stored only as JSON appears with a trailing dot, so its own id is not
      listed although `get_pdf_path` finds it. */
  lemma AsWrittenMissesJson()
    ensures ListPdfs(["d.json"]) == ["d."]
    ensures GetPdfPath({"d.json"}, "d") == Some("d.json")
    ensures "d" !in ListPdfs(["d.json"])
    ensures "d" in ListDocs(["d.json"])
  {
    var fn := "d.json";
    assert EndsWith(fn, JsonSuffix) by {
      assert fn[|fn| - 5..] == ".json";
    }
    assert ListPdfs(["d.json"]) == [fn[..2]] + ListPdfs([]);
    assert fn[..2] == "d.";
    assert fn == JsonName("d");
    assert PdfName("d") != fn by {
      assert |PdfName("d")| == 5;
    }
    NameEndsWith("d");
    ListDocsHas(["d.json"], 0);
  }
}
