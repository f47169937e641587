/** The outline builders of app/core/pdf_outline_extractor.py around `is_heading`: the
    classifier for OCR text, the grouping of a page's characters into lines by their y
    coordinate, the per-page heading scan, and the choice of the document title. */
module Outline {
  import opened Wrappers
  import opened Text
  import opened Heading

  /** One outline entry: {"level", "text", "page"}. */
  datatype Entry = Entry(level: Level, text: string, page: int)

  // ---------------------------------------------------------------------------------
  // Headings from OCR text.

  const OcrMinLength := 4

  /** The level of a stripped OCR line, or None when the line is skipped. */
  function OcrLevel(clean: string): (r: Option<Level>)
    ensures r == Some(H1) <==> IsUpperCase(clean) && |Words(clean)| <= 10
    ensures r.Some? <==>
      || (IsUpperCase(clean) && |Words(clean)| <= 10)
      || (IsTitleCase(clean) && |Words(clean)| <= 12)
      || (|Words(clean)| > 6 && EndsWith(clean, "."))
    ensures r == Some(H3) ==> EndsWith(clean, ".")
  {
    var n := |Words(clean)|;
    if IsUpperCase(clean) && n <= 10 then Some(H1)
    else if IsTitleCase(clean) && n <= 12 then Some(H2)
    else if n > 6 && EndsWith(clean, ".") then Some(H3)
    else None
  }

  /** The entry one raw OCR line contributes, if any. */
  function OcrEntry(line: string, page: int): (r: Option<Entry>)
    ensures r.Some? ==> r.value.page == page && |r.value.text| >= OcrMinLength && IsStripped(r.value.text)
  {
    var clean := Strip(line);
    if |clean| < OcrMinLength then None
    else match OcrLevel(clean)
      case Some(level) => Some(Entry(level, clean, page))
      case None => None
  }

  /** A line yields an entry exactly when its stripped form has at least four characters and
      classifies; the entry holds the stripped line and its level. */
  lemma OcrEntryMeaning(line: string, page: int)
    ensures OcrEntry(line, page).Some? <==> |Strip(line)| >= OcrMinLength && OcrLevel(Strip(line)).Some?
    ensures OcrEntry(line, page).Some? ==>
      OcrEntry(line, page).value.text == Strip(line) && Some(OcrEntry(line, page).value.level) == OcrLevel(Strip(line))
  {
  }

  /** The entry of one line as a list of zero or one entries. */
  function Contribution(line: string, page: int): (r: seq<Entry>)
    ensures |r| <= 1
    ensures r != [] ==> r[0].page == page && |r[0].text| >= OcrMinLength && IsStripped(r[0].text)
  {
    match OcrEntry(line, page) case Some(e) => [e] case None => []
  }

  function OcrEntries(lines: seq<string>, page: int): (r: seq<Entry>)
    ensures |r| <= |lines|
    ensures forall e :: 0 <= e < |r| ==> r[e].page == page && |r[e].text| >= OcrMinLength && IsStripped(r[e].text)
  {
    if lines == [] then []
    else Contribution(lines[0], page) + OcrEntries(lines[1..], page)
  }

  /** `_extract_headings_from_ocr_text`: the outline grows by the entries of the text's lines;
      what it held before is kept. */
  function ExtractHeadingsFromOcrText(text: string, page: int, outline: seq<Entry>): (r: seq<Entry>)
    ensures |outline| <= |r| <= |outline| + |Split(text, '\n')|
    ensures r[..|outline|] == outline
    ensures forall e :: |outline| <= e < |r| ==> r[e].page == page && |r[e].text| >= OcrMinLength
  {
    outline + OcrEntries(Split(text, '\n'), page)
  }

  /** Classifying a concatenation of line lists is classifying each in turn. */
  lemma {:induction false} OcrEntriesAppend(a: seq<string>, b: seq<string>, page: int)
    ensures OcrEntries(a + b, page) == OcrEntries(a, page) + OcrEntries(b, page)
  {
    if a == [] {
      assert a + b == b;
    } else {
      var h := Contribution(a[0], page);
      assert (a + b)[0] == a[0];
      assert (a + b)[1..] == a[1..] + b;
      assert OcrEntries(a + b, page) == h + OcrEntries(a[1..] + b, page);
      OcrEntriesAppend(a[1..], b, page);
      assert h + (OcrEntries(a[1..], page) + OcrEntries(b, page)) == (h + OcrEntries(a[1..], page)) + OcrEntries(b, page);
    }
  }

  /** Every entry comes from a line of the input, at or after its own position. */
  lemma {:induction false} OcrEntrySource(lines: seq<string>, page: int, e: nat) returns (i: nat)
    requires e < |OcrEntries(lines, page)|
    ensures e <= i < |lines| && OcrEntry(lines[i], page) == Some(OcrEntries(lines, page)[e])
  {
    var head := Contribution(lines[0], page);
    var tail := OcrEntries(lines[1..], page);
    assert OcrEntries(lines, page) == head + tail;
    if e < |head| {
      i := 0;
      assert OcrEntries(lines, page)[e] == head[0];
      assert head == [OcrEntry(lines[0], page).value];
    } else {
      var i' := OcrEntrySource(lines[1..], page, e - |head|);
      assert OcrEntries(lines, page)[e] == tail[e - |head|];
      assert lines[1..][i'] == lines[i' + 1];
      i := i' + 1;
    }
  }

  /** Lines that classify all contribute, in order. */
  lemma {:induction false} OcrEntriesKeepAll(lines: seq<string>, page: int)
    requires forall i :: 0 <= i < |lines| ==> OcrEntry(lines[i], page).Some?
    ensures |OcrEntries(lines, page)| == |lines|
    ensures forall i :: 0 <= i < |lines| ==> OcrEntries(lines, page)[i] == OcrEntry(lines[i], page).value
  {
    if lines != [] {
      var tail := lines[1..];
      assert forall i :: 0 <= i < |tail| ==> tail[i] == lines[i + 1];
      OcrEntriesKeepAll(tail, page);
      var h := Contribution(lines[0], page);
      assert h == [OcrEntry(lines[0], page).value];
      assert OcrEntries(lines, page) == h + OcrEntries(tail, page);
    }
  }

  // ---------------------------------------------------------------------------------
  // Grouping characters into lines.

  /** The keys of a pdfplumber character that the scan reads; a missing key is None. */
  datatype PdfChar = PdfChar(text: Option<string>, size: Option<real>, y0: Option<real>)

  /** `char.get('y0', 0)`. */
  function Y(c: PdfChar): real { c.y0.GetOr(0.0) }

  function Abs(x: real): (r: real)
    ensures r >= 0.0 && (r == x || r == -x)
  {
    if x < 0.0 then -x else x
  }

  /** `c` stays on the line whose first character is at height `y`. */
  predicate SameLine(y: real, c: PdfChar) { Abs(Y(c) - y) <= 2.0 }

  function Concat<T>(ls: seq<seq<T>>): seq<T> {
    if ls == [] then [] else ls[0] + Concat(ls[1..])
  }

  /** A line: non-empty, every character within 2 of the first one. */
  predicate LineOk(line: seq<PdfChar>) {
    line != [] && forall j :: 0 <= j < |line| ==> SameLine(Y(line[0]), line[j])
  }

  /** Line `k` was started because its first character is more than 2 away from the first
      character of line `k - 1`. */
  predicate BreakAt(ls: seq<seq<PdfChar>>, k: nat)
    requires 0 < k < |ls|
  {
    ls[k - 1] != [] && ls[k] != [] && !SameLine(Y(ls[k - 1][0]), ls[k][0])
  }

  /** What the grouping produces: lines that concatenate to the input, each a `LineOk` run and
      each one started by a break from the previous. */
  predicate IsLineSplit(chars: seq<PdfChar>, ls: seq<seq<PdfChar>>) {
    && Concat(ls) == chars
    && (forall k :: 0 <= k < |ls| ==> LineOk(ls[k]))
    && (forall k :: 0 < k < |ls| ==> BreakAt(ls, k))
  }

  /** The lines of a page, one run at a time. */
  function Lines(chars: seq<PdfChar>): (r: seq<seq<PdfChar>>)
    ensures IsLineSplit(chars, r)
    decreases |chars|
  {
    if chars == [] then []
    else
      var y := Y(chars[0]);
      var e := RunEnd(chars, 1, c => SameLine(y, c));
      var rest := Lines(chars[e..]);
      SplitCons(chars, e, rest);
      [chars[..e]] + rest
  }

  /** A first run followed by a split of the rest is a split of the whole. */
  lemma SplitCons(chars: seq<PdfChar>, e: nat, rest: seq<seq<PdfChar>>)
    requires 0 < e <= |chars| && LineOk(chars[..e])
    requires e < |chars| ==> !SameLine(Y(chars[0]), chars[e])
    requires IsLineSplit(chars[e..], rest)
    ensures IsLineSplit(chars, [chars[..e]] + rest)
  {
    var r := [chars[..e]] + rest;
    assert r[1..] == rest;
    assert chars[..e] + chars[e..] == chars;
    assert forall k :: 0 < k < |r| ==> r[k] == rest[k - 1];
    forall k | 0 < k < |r| ensures BreakAt(r, k) {
      if k == 1 {
        assert Concat(rest) == rest[0] + Concat(rest[1..]);
        assert rest[0][0] == chars[e];
      } else {
        assert BreakAt(rest, k - 1);
      }
    }
  }

  /** The line split is unique: any split with the three properties is `Lines`. */
  lemma {:induction false} LinesUnique(chars: seq<PdfChar>, ls: seq<seq<PdfChar>>)
    requires IsLineSplit(chars, ls)
    ensures ls == Lines(chars)
    decreases |chars|
  {
    if ls != [] {
      var first := ls[0];
      var n := |first|;
      assert Concat(ls) == first + Concat(ls[1..]);
      assert chars[..n] == first && chars[n..] == Concat(ls[1..]);
      var y := Y(chars[0]);
      assert forall j :: 1 <= j < n ==> SameLine(y, chars[j]) by {
        assert LineOk(ls[0]);
        forall j | 1 <= j < n ensures SameLine(y, chars[j]) {
          assert chars[j] == ls[0][j];
        }
      }
      if |ls| > 1 {
        assert chars[n] == ls[1][0] by {
          assert Concat(ls[1..]) == ls[1] + Concat(ls[2..]);
        }
        assert BreakAt(ls, 1);
      }
      RunEndAt(chars, 1, n, c => SameLine(y, c));
      var tail := ls[1..];
      assert forall k :: 0 <= k < |tail| ==> tail[k] == ls[k + 1];
      assert forall k :: 0 < k < |tail| ==> BreakAt(tail, k) by {
        forall k | 0 < k < |tail| ensures BreakAt(tail, k) {
          assert BreakAt(ls, k + 1);
        }
      }
      LinesUnique(chars[n..], tail);
    }
  }

  lemma {:induction false} ConcatSnoc<T>(ls: seq<seq<T>>, x: seq<T>)
    ensures Concat(ls + [x]) == Concat(ls) + x
  {
    if ls == [] {
      assert [] + [x] == [x];
      assert Concat([x]) == x + Concat([x][1..]);
    } else {
      assert (ls + [x])[1..] == ls[1..] + [x];
      ConcatSnoc(ls[1..], x);
    }
  }

  /** Closing a line keeps the split well formed. */
  lemma SplitSnoc(ls: seq<seq<PdfChar>>, line: seq<PdfChar>)
    requires IsLineSplit(Concat(ls), ls)
    requires LineOk(line)
    requires ls != [] ==> !SameLine(Y(ls[|ls| - 1][0]), line[0])
    ensures IsLineSplit(Concat(ls + [line]), ls + [line])
  {
    ConcatSnoc(ls, line);
    SnocLinesOk(ls, line);
    SnocBreaks(ls, line);
  }

  lemma SnocLinesOk(ls: seq<seq<PdfChar>>, line: seq<PdfChar>)
    requires forall k :: 0 <= k < |ls| ==> LineOk(ls[k])
    requires LineOk(line)
    ensures forall k :: 0 <= k < |ls + [line]| ==> LineOk((ls + [line])[k])
  {
    var r := ls + [line];
    forall k | 0 <= k < |r| ensures LineOk(r[k]) {
      if k < |ls| {
        assert r[k] == ls[k];
      } else {
        assert r[k] == line;
      }
    }
  }

  lemma SnocBreaks(ls: seq<seq<PdfChar>>, line: seq<PdfChar>)
    requires forall k :: 0 <= k < |ls| ==> ls[k] != []
    requires forall k :: 0 < k < |ls| ==> BreakAt(ls, k)
    requires line != []
    requires ls != [] ==> !SameLine(Y(ls[|ls| - 1][0]), line[0])
    ensures forall k :: 0 < k < |ls + [line]| ==> BreakAt(ls + [line], k)
  {
    var r := ls + [line];
    forall k | 0 < k < |r| ensures BreakAt(r, k) {
      assert r[k - 1] == ls[k - 1];
      if k < |ls| {
        assert r[k] == ls[k];
        assert BreakAt(ls, k);
      } else {
        assert r[k] == line;
      }
    }
  }

  /** The loop of `_extract_page_headings` that builds the lines, statement for statement. */
  method GroupLines(chars: seq<PdfChar>) returns (lines: seq<seq<PdfChar>>)
    ensures lines == Lines(chars)
  {
    lines := [];
    var current: seq<PdfChar> := [];
    var currentY: Option<real> := None;
    var i := 0;
    while i < |chars|
      invariant 0 <= i <= |chars|
      invariant current == [] <==> i == 0
      invariant current == [] ==> lines == [] && currentY.None?
      invariant Concat(lines) + current == chars[..i]
      invariant IsLineSplit(Concat(lines), lines)
      invariant current != [] ==> currentY == Some(Y(current[0])) && LineOk(current)
      invariant current != [] && lines != [] ==> lines[|lines| - 1] != [] && !SameLine(Y(lines[|lines| - 1][0]), current[0])
    {
      var c := chars[i];
      var charY := Y(c);
      if currentY.None? {
        currentY := Some(charY);
      } else if Abs(charY - currentY.value) > 2.0 {
        if current != [] {
          SplitSnoc(lines, current);
          ConcatSnoc(lines, current);
          lines := lines + [current];
        }
        current := [];
        currentY := Some(charY);
      }
      current := current + [c];
      assert chars[..i + 1] == chars[..i] + [c];
      i := i + 1;
    }
    if current != [] {
      SplitSnoc(lines, current);
      ConcatSnoc(lines, current);
      lines := lines + [current];
    }
    assert chars[..i] == chars;
    LinesUnique(chars, lines);
  }

  // ---------------------------------------------------------------------------------
  // Headings of a page with selectable text.

  /** `''.join(char.get('text', '') ...)`. */
  function LineText(line: seq<PdfChar>): string {
    if line == [] then "" else line[0].text.GetOr("") + LineText(line[1..])
  }

  /** The sizes that count: present and truthy (non-zero). */
  function TruthySizes(line: seq<PdfChar>): (r: seq<real>)
    ensures |r| <= |line|
  {
    if line == [] then []
    else
      var s := line[0].size;
      (if s.Some? && s.value != 0.0 then [s.value] else []) + TruthySizes(line[1..])
  }

  function MaxOf(xs: seq<real>): (m: real)
    requires xs != []
    ensures (exists i :: 0 <= i < |xs| && xs[i] == m) && forall i :: 0 <= i < |xs| ==> xs[i] <= m
  {
    if |xs| == 1 then xs[0]
    else
      var m' := MaxOf(xs[1..]);
      assert forall i :: 1 <= i < |xs| ==> xs[i] == xs[1..][i - 1];
      if xs[0] >= m' then xs[0] else m'
  }

  /** The line's font size: the largest truthy size, else the page average. */
  function LineFontSize(line: seq<PdfChar>, avg: real): (f: real)
    ensures TruthySizes(line) == [] ==> f == avg
    ensures TruthySizes(line) != [] ==> f in TruthySizes(line)
    ensures forall i :: 0 <= i < |TruthySizes(line)| ==> TruthySizes(line)[i] <= f
  {
    var sizes := TruthySizes(line);
    if sizes == [] then avg else MaxOf(sizes)
  }

  /** The heading scan over the lines of a page; `prevY` is the y of the previous line. */
  function LineHeadings(lines: seq<seq<PdfChar>>, page: int, avg: real, prevY: Option<real>): (r: seq<Entry>)
    ensures |r| <= |lines|
    ensures forall e :: 0 <= e < |r| ==> r[e].page == page && IsStripped(r[e].text) && MinLength <= |r[e].text| <= MaxLength
  {
    if lines == [] then []
    else if lines[0] == [] then LineHeadings(lines[1..], page, avg, prevY)
    else
      var line := lines[0];
      var y := Y(line[0]);
      var level := IsHeading(LineText(line), LineFontSize(line, avg), avg, y, prevY);
      (if level.Some? then [Entry(level.value, Strip(LineText(line)), page)] else []) + LineHeadings(lines[1..], page, avg, Some(y))
  }

  /** `_extract_page_headings`: group, then scan; the headings gathered so far are kept. */
  function ExtractPageHeadings(chars: seq<PdfChar>, page: int, avg: real, headings: seq<Entry>): (r: seq<Entry>)
    ensures |r| >= |headings| && r[..|headings|] == headings
    ensures chars == [] ==> r == headings
    ensures forall e :: |headings| <= e < |r| ==> r[e].page == page && IsStripped(r[e].text)
  {
    headings + LineHeadings(Lines(chars), page, avg, None)
  }

  /** The first line of a page is judged without a previous line: when that is enough to
      make it a heading, it is the page's first entry. */
  lemma FirstLineHasNoPrevious(chars: seq<PdfChar>, page: int, avg: real)
    requires chars != []
    ensures Lines(chars) != []
    ensures var line := Lines(chars)[0];
      IsHeading(LineText(line), LineFontSize(line, avg), avg, Y(line[0]), None).Some? ==>
        |ExtractPageHeadings(chars, page, avg, [])| > 0 && ExtractPageHeadings(chars, page, avg, [])[0].text == Strip(LineText(line))
  {
    var ls := Lines(chars);
    assert Concat(ls) == chars;
  }

  // ---------------------------------------------------------------------------------
  // The title.

  const TitleScanLines := 10

  /** A line qualifies as a title when its stripped length is strictly between 10 and 100. */
  predicate TitleCandidate(line: string) { 10 < |Strip(line)| < 100 }

  /** The first qualifying line, stripped. */
  function FirstTitleLine(lines: seq<string>): (r: Option<string>)
    ensures r.None? <==> forall i :: 0 <= i < |lines| ==> !TitleCandidate(lines[i])
    ensures r.Some? ==> 10 < |r.value| < 100 && IsStripped(r.value)
  {
    if lines == [] then None
    else if TitleCandidate(lines[0]) then Some(Strip(lines[0]))
    else
      var r := FirstTitleLine(lines[1..]);
      assert forall i :: 1 <= i < |lines| ==> lines[i] == lines[1..][i - 1];
      r
  }

  /** `extract_title`: `metaTitle` is the document information "/Title", `firstPageText` the
      text of page 1 (None when the document has no pages or page 1 has no text). */
  function ExtractTitle(metaTitle: Option<string>, firstPageText: Option<string>): (r: Option<string>)
    ensures r.Some? ==> r.value != "" && IsStripped(r.value)
    ensures metaTitle.Some? && !IsBlank(metaTitle.value) ==> r == Some(Strip(metaTitle.value))
  {
    if metaTitle.Some? && !IsBlank(metaTitle.value) then Some(Strip(metaTitle.value))
    else match firstPageText
      case Some(text) =>
        var lines := Split(text, '\n');
        FirstTitleLine(lines[..if |lines| < TitleScanLines then |lines| else TitleScanLines])
      case None => None
  }

  /** Without a usable metadata title, the title is the first qualifying line among the first
      ten lines of page 1: this returns its index. */
  lemma {:induction false} FirstTitleLineIndex(lines: seq<string>) returns (i: nat)
    requires FirstTitleLine(lines).Some?
    ensures i < |lines| && TitleCandidate(lines[i]) && FirstTitleLine(lines) == Some(Strip(lines[i]))
    ensures forall j :: 0 <= j < i ==> !TitleCandidate(lines[j])
  {
    if TitleCandidate(lines[0]) {
      i := 0;
    } else {
      var i' := FirstTitleLineIndex(lines[1..]);
      i := i' + 1;
      assert lines[i] == lines[1..][i'];
      assert forall j :: 1 <= j < i ==> lines[j] == lines[1..][j - 1];
    }
  }

  /** Without a usable metadata title, a title comes from page 1: it is the first line among
      the first ten whose stripped length lies strictly between 10 and 100; this returns the
      line's index. */
  lemma TitleFromFirstPage(metaTitle: Option<string>, text: string) returns (i: nat)
    requires metaTitle.None? || IsBlank(metaTitle.value)
    requires ExtractTitle(metaTitle, Some(text)).Some?
    ensures i < TitleScanLines && i < |Split(text, '\n')|
    ensures TitleCandidate(Split(text, '\n')[i]) && ExtractTitle(metaTitle, Some(text)) == Some(Strip(Split(text, '\n')[i]))
    ensures forall j :: 0 <= j < i ==> !TitleCandidate(Split(text, '\n')[j])
  {
    var lines := Split(text, '\n');
    var head := lines[..if |lines| < TitleScanLines then |lines| else TitleScanLines];
    i := FirstTitleLineIndex(head);
    assert forall j :: 0 <= j <= i ==> head[j] == lines[j];
  }

  /** A blank page 1 and no usable metadata title give no title. */
  lemma NoTitleFromBlankLines(metaTitle: Option<string>, text: string)
    requires metaTitle.None? || IsBlank(metaTitle.value)
    requires forall j :: 0 <= j < |Split(text, '\n')| ==> |Strip(Split(text, '\n')[j])| <= 10
    ensures ExtractTitle(metaTitle, Some(text)).None?
  {
  }
}
