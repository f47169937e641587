/** `extract_text_from_json` of app/api/chunks_backup.py, over an already parsed result
    document: the text that is chunked when the uploaded file is a JSON analysis result. */
module JsonText {
  import opened Wrappers
  import opened Text

  /** An entry of "subsection_analysis"; a missing key is None. */
  datatype Item = Item(refinedText: Option<string>, text: Option<string>)

  /** An entry of "extracted_sections". */
  datatype Section = Section(sectionTitle: Option<string>)

  /** The two keys of a result document that the flattener reads. */
  datatype ResultDoc = ResultDoc(subsectionAnalysis: Option<seq<Item>>, extractedSections: Option<seq<Section>>)

  const PartSeparator := "\n\n"

  /** `item.get("refined_text") or item.get("text", "")`: an empty refined text counts as
      missing. */
  function ItemText(it: Item): (t: string)
    ensures t != "" <==> (it.refinedText.Some? && it.refinedText.value != "") || (it.text.Some? && it.text.value != "")
    ensures it.refinedText.Some? && it.refinedText.value != "" ==> t == it.refinedText.value
  {
    match it.refinedText
    case Some(r) => if r != "" then r else it.text.GetOr("")
    case None => it.text.GetOr("")
  }

  /** The non-empty item texts, in item order. */
  function ItemTexts(items: seq<Item>): (r: seq<string>)
    ensures |r| <= |items|
    ensures forall p :: 0 <= p < |r| ==> r[p] != ""
  {
    if items == [] then []
    else (if ItemText(items[0]) != "" then [ItemText(items[0])] else []) + ItemTexts(items[1..])
  }

  /** `s.get("section_title", "")`. */
  function TitleText(s: Section): (t: string)
    ensures t != "" <==> s.sectionTitle.Some? && s.sectionTitle.value != ""
    ensures s.sectionTitle.Some? ==> t == s.sectionTitle.value
  {
    s.sectionTitle.GetOr("")
  }

  /** The non-empty section titles, in section order. */
  function TitleTexts(sections: seq<Section>): (r: seq<string>)
    ensures |r| <= |sections|
    ensures forall p :: 0 <= p < |r| ==> r[p] != ""
  {
    if sections == [] then []
    else (if TitleText(sections[0]) != "" then [TitleText(sections[0])] else []) + TitleTexts(sections[1..])
  }

  /** The parts joined by the flattener: "subsection_analysis" when the key is present, even
      with an empty list; otherwise "extracted_sections"; otherwise nothing. */
  function TextParts(doc: ResultDoc): (r: seq<string>)
    ensures forall p :: 0 <= p < |r| ==> r[p] != ""
    ensures doc.subsectionAnalysis.None? && doc.extractedSections.None? ==> r == []
  {
    match doc.subsectionAnalysis
    case Some(items) => ItemTexts(items)
    case None =>
      match doc.extractedSections
      case Some(sections) => TitleTexts(sections)
      case None => []
  }

  function ExtractTextFromJson(doc: ResultDoc): (r: string)
    ensures r == "" <==> TextParts(doc) == []
    ensures doc.subsectionAnalysis.Some? ==> r == Join(PartSeparator, ItemTexts(doc.subsectionAnalysis.value))
    ensures doc.subsectionAnalysis.None? && doc.extractedSections.Some? ==>
      r == Join(PartSeparator, TitleTexts(doc.extractedSections.value))
    ensures doc.subsectionAnalysis.None? && doc.extractedSections.None? ==> r == ""
  {
    JoinOfNonEmpty(TextParts(doc));
    Join(PartSeparator, TextParts(doc))
  }

  lemma JoinOfNonEmpty(parts: seq<string>)
    requires forall p :: 0 <= p < |parts| ==> parts[p] != ""
    ensures Join(PartSeparator, parts) == "" <==> parts == []
  {
    if parts != [] {
      JoinLength(PartSeparator, parts);
    }
  }

  // ---------------------------------------------------------------------------------
  // Properties.

  /** When "subsection_analysis" is present, "extracted_sections" is never looked at: not
      even when no item has text, in which case the result is empty whatever the titles. */
  lemma SubsectionsTakePrecedence(items: seq<Item>, s1: Option<seq<Section>>, s2: Option<seq<Section>>)
    ensures ExtractTextFromJson(ResultDoc(Some(items), s1)) == ExtractTextFromJson(ResultDoc(Some(items), s2))
    ensures ExtractTextFromJson(ResultDoc(Some(items), s1)) == "" <==>
      forall i :: 0 <= i < |items| ==> ItemText(items[i]) == ""
  {
    if forall i :: 0 <= i < |items| ==> ItemText(items[i]) == "" {
      ItemTextsDropEmpty(items);
    } else {
      var i :| 0 <= i < |items| && ItemText(items[i]) != "";
      ItemTextsHas(items, i);
    }
  }

  /** Flattening distributes over concatenated item lists. */
  lemma {:induction false} ItemTextsAppend(a: seq<Item>, b: seq<Item>)
    ensures ItemTexts(a + b) == ItemTexts(a) + ItemTexts(b)
  {
    if a == [] {
      assert a + b == b;
    } else {
      assert (a + b)[0] == a[0];
      assert (a + b)[1..] == a[1..] + b;
      ItemTextsAppend(a[1..], b);
    }
  }

  /** Title flattening distributes over concatenated section lists as well. */
  lemma {:induction false} TitleTextsAppend(a: seq<Section>, b: seq<Section>)
    ensures TitleTexts(a + b) == TitleTexts(a) + TitleTexts(b)
  {
    if a == [] {
      assert a + b == b;
    } else {
      assert (a + b)[0] == a[0];
      assert (a + b)[1..] == a[1..] + b;
      TitleTextsAppend(a[1..], b);
    }
  }

  /** An item contributes its text exactly when that text is non-empty; when every item has
      text, nothing is dropped and the order is kept. */
  lemma {:induction false} ItemTextsKeepAll(items: seq<Item>)
    requires forall i :: 0 <= i < |items| ==> ItemText(items[i]) != ""
    ensures |ItemTexts(items)| == |items|
    ensures forall i :: 0 <= i < |items| ==> ItemTexts(items)[i] == ItemText(items[i])
  {
    if items != [] {
      ItemTextsKeepAll(items[1..]);
      assert ItemTexts(items) == [ItemText(items[0])] + ItemTexts(items[1..]);
    }
  }

  /** Items without any text contribute nothing. */
  lemma {:induction false} ItemTextsDropEmpty(items: seq<Item>)
    requires forall i :: 0 <= i < |items| ==> ItemText(items[i]) == ""
    ensures ItemTexts(items) == []
  {
    if items != [] {
      ItemTextsDropEmpty(items[1..]);
    }
  }

  /** Every part is the text of some item: the position of the item part `p` came from. */
  lemma {:induction false} ItemTextSource(items: seq<Item>, p: nat) returns (i: nat)
    requires p < |ItemTexts(items)|
    ensures p <= i < |items| && ItemTexts(items)[p] == ItemText(items[i])
  {
    var head := if ItemText(items[0]) != "" then [ItemText(items[0])] else [];
    var tail := ItemTexts(items[1..]);
    assert ItemTexts(items) == head + tail;
    if p < |head| {
      i := 0;
    } else {
      var i' := ItemTextSource(items[1..], p - |head|);
      assert items[1..][i'] == items[i' + 1];
      i := i' + 1;
    }
  }

  /** Completeness: every item with text contributes it. */
  lemma {:induction false} ItemTextsHas(items: seq<Item>, i: nat)
    requires i < |items| && ItemText(items[i]) != ""
    ensures ItemText(items[i]) in ItemTexts(items)
  {
    if i > 0 {
      ItemTextsHas(items[1..], i - 1);
      assert items[1..][i - 1] == items[i];
    }
  }

  /** Section titles: a section contributes its title exactly when the title is non-empty;
      when every section has one, nothing is dropped and the order is kept. */
  lemma {:induction false} TitleTextsKeepAll(sections: seq<Section>)
    requires forall i :: 0 <= i < |sections| ==> TitleText(sections[i]) != ""
    ensures |TitleTexts(sections)| == |sections|
    ensures forall i :: 0 <= i < |sections| ==> TitleTexts(sections)[i] == TitleText(sections[i])
  {
    if sections != [] {
      TitleTextsKeepAll(sections[1..]);
      assert TitleTexts(sections) == [TitleText(sections[0])] + TitleTexts(sections[1..]);
    }
  }

  /** Sections without a title (or with an empty one) contribute nothing. */
  lemma {:induction false} TitleTextsDropEmpty(sections: seq<Section>)
    requires forall i :: 0 <= i < |sections| ==> TitleText(sections[i]) == ""
    ensures TitleTexts(sections) == []
  {
    if sections != [] {
      TitleTextsDropEmpty(sections[1..]);
    }
  }

  /** Every title part is the title of some section: the position it came from. */
  lemma {:induction false} TitleTextSource(sections: seq<Section>, p: nat) returns (i: nat)
    requires p < |TitleTexts(sections)|
    ensures p <= i < |sections| && TitleTexts(sections)[p] == TitleText(sections[i])
  {
    var head := if TitleText(sections[0]) != "" then [TitleText(sections[0])] else [];
    var tail := TitleTexts(sections[1..]);
    assert TitleTexts(sections) == head + tail;
    if p < |head| {
      i := 0;
    } else {
      var i' := TitleTextSource(sections[1..], p - |head|);
      assert sections[1..][i'] == sections[i' + 1];
      i := i' + 1;
    }
  }

  /** Completeness: every section with a title contributes it. */
  lemma {:induction false} TitleTextsHas(sections: seq<Section>, i: nat)
    requires i < |sections| && TitleText(sections[i]) != ""
    ensures TitleText(sections[i]) in TitleTexts(sections)
  {
    if i > 0 {
      TitleTextsHas(sections[1..], i - 1);
      assert sections[1..][i - 1] == sections[i];
    }
  }

  /** Without "subsection_analysis" the titles are used, and the result is empty exactly when
      no section has a title. */
  lemma TitlesWhenNoSubsections(sections: seq<Section>)
    ensures ExtractTextFromJson(ResultDoc(None, Some(sections))) == "" <==>
      forall i :: 0 <= i < |sections| ==> TitleText(sections[i]) == ""
  {
    if forall i :: 0 <= i < |sections| ==> TitleText(sections[i]) == "" {
      TitleTextsDropEmpty(sections);
    } else {
      var i :| 0 <= i < |sections| && TitleText(sections[i]) != "";
      TitleTextsHas(sections, i);
    }
  }

  /** A single item with text flattens to exactly that text. */
  lemma SingleItem(it: Item, sections: Option<seq<Section>>)
    requires ItemText(it) != ""
    ensures ExtractTextFromJson(ResultDoc(Some([it]), sections)) == ItemText(it)
  {
    assert ItemTexts([it]) == [ItemText(it)] + ItemTexts([]);
  }

  /** Two items with text are separated by one blank line. */
  lemma TwoItems(a: Item, b: Item, sections: Option<seq<Section>>)
    requires ItemText(a) != "" && ItemText(b) != ""
    ensures ExtractTextFromJson(ResultDoc(Some([a, b]), sections)) == ItemText(a) + "\n\n" + ItemText(b)
  {
    ItemTextsKeepAll([a, b]);
    assert ItemTexts([a, b]) == [ItemText(a), ItemText(b)];
    assert [ItemText(a), ItemText(b)][1..] == [ItemText(b)];
    assert Join(PartSeparator, [ItemText(b)]) == ItemText(b);
  }
}
