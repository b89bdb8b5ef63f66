/** `extract_chemical_data` and `extract_assessment_data` (identical in OECDSIDS/TESTSTEP2.py
    and OECDSIDS/step2_extractfromxls.py): a fixed table from span id to field name yields a
    record with exactly those field names.

    The parsed page is an input: the text of the first `<span>` carrying each id, and the
    first `<a>` carrying each id. */
module FieldExtract {
  import opened Common
  import opened Strings

  /** The first `<a id=…>` of a page: its text and its `href` attribute, if any. */
  datatype IdAnchor = IdAnchor(text: string, href: Option<string>)

  datatype Doc = Doc(spans: map<string, string>, anchors: map<string, IdAnchor>)

  /** The keys the extractors write; `Key()` is the JSON key each one is saved under. */
  datatype Field =
    | CasNumber | ChemicalName | Synonyms | HpvStatus | RecognizedLowHazard | OnIccaList
    | AdditionalInformation
    | Sponsors | SponsorshipDate | CurrentStatus | AssessmentMeeting | DatePublished
    | TargetedAssessment | Category | CategoryLink | IccaNote
  {
    function Key(): string {
      match this
      case CasNumber => "cas_number"
      case ChemicalName => "chemical_name"
      case Synonyms => "synonyms"
      case HpvStatus => "hpv_status"
      case RecognizedLowHazard => "recognized_low_hazard"
      case OnIccaList => "on_icca_list"
      case AdditionalInformation => "additional_information"
      case Sponsors => "sponsors"
      case SponsorshipDate => "sponsorship_date"
      case CurrentStatus => "current_status"
      case AssessmentMeeting => "assessment_meeting"
      case DatePublished => "date_published"
      case TargetedAssessment => "targeted_assessment"
      case Category => "category"
      case CategoryLink => "category_link"
      case IccaNote => "icca_note"
    }
  }

  /** The `data` dict: field to a value or `None`. */
  type Record = map<Field, Option<string>>

  /** Span id to field, in the order of the source's `fields` dict. */
  const ChemicalFields: seq<(string, Field)> := [
    ("CasnumLabel", CasNumber),
    ("SYNONYMLLabel", ChemicalName),
    ("OtherSynonymsLabel", Synonyms),
    ("InHPVLabel", HpvStatus),
    ("RecoLowHazardLabel", RecognizedLowHazard),
    ("IndInitiativeLabel", OnIccaList),
    ("AddremarksLabel", AdditionalInformation)
  ]

  const AssessmentFields: seq<(string, Field)> := [
    ("SponsorsLabel", Sponsors),
    ("SponsorshipDateLabel", SponsorshipDate),
    ("CurrentStatusLabel", CurrentStatus),
    ("MeetingSIAMLabel", AssessmentMeeting),
    ("DatePublishedLabel", DatePublished),
    ("TargetedAssessmentLabel", TargetedAssessment)
  ]

  const CategoryId := "CategoryHL"
  const IccaId := "SidsOrganigrame_ICCA_Label"

  /** `elem.text.strip() if elem and elem.text.strip() else None`: the stripped text, or
      `None` exactly when the span is missing or holds only whitespace. */
  function SpanValue(doc: Doc, id: string): Option<string> {
    if id in doc.spans && Strip(doc.spans[id]) != "" then Some(Strip(doc.spans[id])) else None
  }

  /** `None` exactly when the span is missing or blank; otherwise the span's text stripped,
      which is never empty (`Strings.StripSpec` says what stripping keeps). */
  lemma SpanValueSpec(doc: Doc, id: string)
    ensures SpanValue(doc, id).None? <==>
      (id !in doc.spans || forall i :: 0 <= i < |doc.spans[id]| ==> IsSpace(doc.spans[id][i]))
    ensures SpanValue(doc, id).Some? ==>
      id in doc.spans && SpanValue(doc, id).value == Strip(doc.spans[id]) && SpanValue(doc, id).value != ""
  {
    if id in doc.spans {
      StripSpec(doc.spans[id]);
    }
  }

  function FieldNames(fields: seq<(string, Field)>): set<Field> {
    set i | 0 <= i < |fields| :: fields[i].1
  }

  predicate DistinctNames(fields: seq<(string, Field)>) {
    forall i, j :: 0 <= i < j < |fields| ==> fields[i].1 != fields[j].1
  }

  /** The dict the field loop builds: each table entry, in order, sets its field. */
  function FieldsRecord(fields: seq<(string, Field)>, doc: Doc): Record {
    if fields == [] then map[]
    else
      var f := fields[|fields| - 1];
      FieldsRecord(fields[..|fields| - 1], doc)[f.1 := SpanValue(doc, f.0)]
  }

  /** With distinct field names, the record has exactly the table's field names, and each
      field holds the value of its own span. */
  lemma {:induction false} FieldsRecordSpec(fields: seq<(string, Field)>, doc: Doc)
    requires DistinctNames(fields)
    ensures FieldsRecord(fields, doc).Keys == FieldNames(fields)
    ensures forall i :: 0 <= i < |fields| ==> FieldsRecord(fields, doc)[fields[i].1] == SpanValue(doc, fields[i].0)
  {
    if fields != [] {
      var init, f := fields[..|fields| - 1], fields[|fields| - 1];
      assert fields == init + [f];
      FieldsRecordSpec(init, doc);
      assert FieldNames(fields) == FieldNames(init) + {f.1} by {
        forall i | 0 <= i < |init| ensures init[i] == fields[i] { }
      }
    }
  }

  /** The `for span_id, field_name in fields.items()` loop. */
  method ExtractFields(fields: seq<(string, Field)>, doc: Doc) returns (data: Record)
    ensures data == FieldsRecord(fields, doc)
  {
    data := map[];
    for i := 0 to |fields|
      invariant data == FieldsRecord(fields[..i], doc)
    {
      assert fields[..i + 1][..i] == fields[..i];
      var (spanId, fieldName) := fields[i];
      var elem := if spanId in doc.spans then Some(doc.spans[spanId]) else None;
      data := data[fieldName := if elem.Some? && Strip(elem.value) != "" then Some(Strip(elem.value)) else None];
    }
    assert fields[..|fields|] == fields;
  }

  /** The field loop on a table with distinct field names. */
  method ExtractSpanFields(fields: seq<(string, Field)>, doc: Doc) returns (data: Record)
    requires DistinctNames(fields)
    ensures data.Keys == FieldNames(fields)
    ensures forall i :: 0 <= i < |fields| ==> data[fields[i].1] == SpanValue(doc, fields[i].0)
  {
    data := ExtractFields(fields, doc);
    FieldsRecordSpec(fields, doc);
  }

  lemma ChemicalFieldsDistinct()
    ensures DistinctNames(ChemicalFields)
    ensures FieldNames(ChemicalFields) == {CasNumber, ChemicalName, Synonyms, HpvStatus,
      RecognizedLowHazard, OnIccaList, AdditionalInformation}
  {
    var fs := ChemicalFields;
    assert fs[0].1 == CasNumber && fs[1].1 == ChemicalName && fs[2].1 == Synonyms && fs[3].1 == HpvStatus;
    assert fs[4].1 == RecognizedLowHazard && fs[5].1 == OnIccaList && fs[6].1 == AdditionalInformation;
  }

  lemma AssessmentFieldsDistinct()
    ensures DistinctNames(AssessmentFields)
    ensures FieldNames(AssessmentFields) == {Sponsors, SponsorshipDate, CurrentStatus,
      AssessmentMeeting, DatePublished, TargetedAssessment}
  {
    var fs := AssessmentFields;
    assert fs[0].1 == Sponsors && fs[1].1 == SponsorshipDate && fs[2].1 == CurrentStatus;
    assert fs[3].1 == AssessmentMeeting && fs[4].1 == DatePublished && fs[5].1 == TargetedAssessment;
  }

  /** `extract_chemical_data`: exactly the seven mapped fields, each the stripped text of its
      span, or `None` when the span is missing or blank. */
  method ExtractChemicalData(doc: Doc) returns (data: Record)
    ensures data.Keys == {CasNumber, ChemicalName, Synonyms, HpvStatus,
      RecognizedLowHazard, OnIccaList, AdditionalInformation}
    ensures forall i :: 0 <= i < |ChemicalFields| ==> data[ChemicalFields[i].1] == SpanValue(doc, ChemicalFields[i].0)
  {
    ChemicalFieldsDistinct();
    data := ExtractFields(ChemicalFields, doc);
    FieldsRecordSpec(ChemicalFields, doc);
  }

  /** The six span fields of an assessment, as the field loop leaves them. */
  function AssessmentSpans(doc: Doc): Record {
    FieldsRecord(AssessmentFields, doc)
  }

  /** The span part of an assessment has exactly the six mapped fields. */
  lemma AssessmentSpanKeys(doc: Doc)
    ensures AssessmentSpans(doc).Keys == {Sponsors, SponsorshipDate, CurrentStatus,
      AssessmentMeeting, DatePublished, TargetedAssessment}
  {
    AssessmentFieldsDistinct();
    FieldsRecordSpec(AssessmentFields, doc);
  }

  /** Each span field of an assessment is the stripped text of its span, or `None` when
      the span is missing or blank. */
  lemma AssessmentSpansSpec(doc: Doc)
    ensures forall i :: 0 <= i < |AssessmentFields| ==>
      AssessmentFields[i].1 in AssessmentSpans(doc) &&
      AssessmentSpans(doc)[AssessmentFields[i].1] == SpanValue(doc, AssessmentFields[i].0)
  {
    AssessmentFieldsDistinct();
    FieldsRecordSpec(AssessmentFields, doc);
    forall i | 0 <= i < |AssessmentFields| ensures AssessmentFields[i].1 in AssessmentSpans(doc) {
      assert AssessmentFields[i].1 in FieldNames(AssessmentFields);
    }
  }

  /** `category`: the stripped text of the category anchor, `None` without it. */
  function CategoryValue(doc: Doc): Option<string> {
    if CategoryId in doc.anchors then Some(Strip(doc.anchors[CategoryId].text)) else None
  }

  /** `category_link`: the anchor's `href`, `''` when it has none, `None` without it. */
  function CategoryLinkValue(doc: Doc): Option<string> {
    if CategoryId in doc.anchors then Some(doc.anchors[CategoryId].href.GetOr("")) else None
  }

  /** `icca_note`: the stripped text of the label, `None` without it. */
  function IccaNoteValue(doc: Doc): Option<string> {
    if IccaId in doc.spans then Some(Strip(doc.spans[IccaId])) else None
  }

  /** The anchor fields are both set exactly when the page has the category anchor; unlike
      the span fields, the ICCA note is `None` only when its label is missing, and a blank
      label gives `''`. */
  lemma AssessmentExtrasSpec(doc: Doc)
    ensures CategoryValue(doc).Some? <==> CategoryId in doc.anchors
    ensures CategoryLinkValue(doc).Some? <==> CategoryId in doc.anchors
    ensures CategoryId in doc.anchors && doc.anchors[CategoryId].href.None? ==> CategoryLinkValue(doc) == Some("")
    ensures CategoryId in doc.anchors && doc.anchors[CategoryId].href.Some? ==>
      CategoryLinkValue(doc) == doc.anchors[CategoryId].href
    ensures IccaNoteValue(doc).None? <==> IccaId !in doc.spans
    ensures IccaId in doc.spans && (forall i :: 0 <= i < |doc.spans[IccaId]| ==> IsSpace(doc.spans[IccaId][i])) ==>
      IccaNoteValue(doc) == Some("")
    ensures IccaId in doc.spans && SpanValue(doc, IccaId).Some? ==> IccaNoteValue(doc) == SpanValue(doc, IccaId)
  {
    if IccaId in doc.spans {
      StripSpec(doc.spans[IccaId]);
    }
  }

  /** `extract_assessment_data`: the six span fields as the field loop sets them, plus
      `category`, `category_link` and `icca_note`. */
  method ExtractAssessmentData(doc: Doc) returns (data: Record)
    ensures data.Keys == {Sponsors, SponsorshipDate, CurrentStatus, AssessmentMeeting,
      DatePublished, TargetedAssessment, Category, CategoryLink, IccaNote}
    ensures forall f :: f in AssessmentSpans(doc) ==> f in data && data[f] == AssessmentSpans(doc)[f]
    ensures data[Category] == CategoryValue(doc) && data[CategoryLink] == CategoryLinkValue(doc)
    ensures data[IccaNote] == IccaNoteValue(doc)
  {
    var spans := ExtractFields(AssessmentFields, doc);
    AssessmentSpanKeys(doc);
    data := AddAssessmentExtras(spans, doc);
  }

  /** The category anchor and the ICCA label of `extract_assessment_data`, added to the six
      span fields. */
  method AddAssessmentExtras(spans: Record, doc: Doc) returns (data: Record)
    requires spans.Keys == {Sponsors, SponsorshipDate, CurrentStatus, AssessmentMeeting,
      DatePublished, TargetedAssessment}
    ensures data.Keys == {Sponsors, SponsorshipDate, CurrentStatus, AssessmentMeeting,
      DatePublished, TargetedAssessment, Category, CategoryLink, IccaNote}
    ensures forall f :: f in spans ==> f in data && data[f] == spans[f]
    ensures data[Category] == CategoryValue(doc) && data[CategoryLink] == CategoryLinkValue(doc)
    ensures data[IccaNote] == IccaNoteValue(doc)
  {
    var category, categoryLink := None, None;
    if CategoryId in doc.anchors {
      var link := doc.anchors[CategoryId];
      category := Some(Strip(link.text));
      categoryLink := Some(link.href.GetOr(""));
    }
    var iccaNote := if IccaId in doc.spans then Some(Strip(doc.spans[IccaId])) else None;
    data := spans[Category := category][CategoryLink := categoryLink][IccaNote := iccaNote];
    AddExtras(spans, category, categoryLink, iccaNote);
  }

  /** Adding the three anchor and label fields to the six span fields keeps the span fields. */
  lemma AddExtras(spans: Record, category: Option<string>, categoryLink: Option<string>, iccaNote: Option<string>)
    requires spans.Keys == {Sponsors, SponsorshipDate, CurrentStatus, AssessmentMeeting,
      DatePublished, TargetedAssessment}
    ensures var data := spans[Category := category][CategoryLink := categoryLink][IccaNote := iccaNote];
      data.Keys == {Sponsors, SponsorshipDate, CurrentStatus, AssessmentMeeting,
        DatePublished, TargetedAssessment, Category, CategoryLink, IccaNote} &&
      forall f :: f in spans ==> f in data && data[f] == spans[f]
  {
  }
}
