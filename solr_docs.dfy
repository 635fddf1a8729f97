/** Documents as the harness sees them, and the content comparison between a
    submitted document and the documents a query returns. */
module SolrDocs {
  import opened Outcomes
  import opened Text

  /** A flat document: field name to string value. */
  type Doc = map<string, string>

  const IdField := "id"
  const NameField := "name"
  /** Assigned by the search system on every stored document; never compared. */
  const VersionField := "_version_"

  /** A SolrInputDocument or a SolrDocument: a mutable field map. */
  class SolrDoc {
    var fields: Doc

    /** An empty document. */
    constructor ()
      ensures fields == map[]
    {
      fields := map[];
    }

    /** addField on a field the document does not hold yet. */
    method AddField(name: string, value: string)
      requires name !in fields
      modifies this
      ensures fields == old(fields)[name := value]
    {
      fields := fields[name := value];
    }

    /** removeField / removeFields: drops the field if present. */
    method RemoveField(name: string)
      modifies this
      ensures fields == old(fields) - {name}
    {
      fields := fields - {name};
    }

    /** getFieldValue: `None` stands for Java's null. */
    function GetFieldValue(name: string): (v: Option<string>)
      reads this
      ensures v.Some? <==> name in fields
      ensures v.Some? ==> v.value == fields[name]
    {
      if name in fields then Some(fields[name]) else None
    }

    function Size(): nat
      reads this
    {
      |fields|
    }
  }

  /** The field maps of a list of documents, in list order. */
  function FieldsOf(docs: seq<SolrDoc>): (r: seq<Doc>)
    reads docs
    ensures |r| == |docs| && forall j :: 0 <= j < |docs| ==> r[j] == docs[j].fields
  {
    if docs == [] then [] else [docs[0].fields] + FieldsOf(docs[1..])
  }

  function StripVersion(d: Doc): Doc {
    d - {VersionField}
  }

  /** The document carries the given id. */
  predicate IdMatches(id: string, d: Doc) {
    IdField in d && d[IdField] == id
  }

  /** The position of the first document carrying `id`. */
  function FirstMatch(id: string, docs: seq<Doc>): (r: Option<nat>)
    ensures r.Some? ==> r.value < |docs| && IdMatches(id, docs[r.value])
                        && forall j :: 0 <= j < r.value ==> !IdMatches(id, docs[j])
    ensures r.None? ==> forall j :: 0 <= j < |docs| ==> !IdMatches(id, docs[j])
  {
    if docs == [] then None
    else if IdMatches(id, docs[0]) then Some(0)
    else match FirstMatch(id, docs[1..])
      case None => None
      case Some(i) => Some(i + 1)
  }

  /** Every field of `expected` is in `actual` with the same value. */
  predicate FieldsAgree(expected: Doc, actual: Doc) {
    forall f :: f in expected ==> f in actual && actual[f] == expected[f]
  }

  /** The comparison of one found document: equal field counts, then equal values. */
  function CompareDoc(expected: Doc, actual: Doc): Outcome {
    if |expected| != |actual| then Fail(FieldCountMismatch(|expected|, |actual|))
    else if FieldsAgree(expected, actual) then Pass
    else Fail(FieldValueMismatch)
  }

  /** Where the scan of the response documents stops. */
  datatype ScanEnd =
    | Matched(index: nat)   // the first document carrying the input's id
    | NoMatch               // the loop ran to its end
    | NullInputId           // the input has no id: `equals` on null throws at the first visit

  /** Where the scan stops for an input and the response documents' fields. */
  function ScanOf(input: Doc, resp: seq<Doc>): (r: ScanEnd)
    ensures r.Matched? <==> IdField in input && exists i :: 0 <= i < |resp| && IdMatches(input[IdField], resp[i])
    ensures r.Matched? ==> r.index < |resp| && IdMatches(input[IdField], resp[r.index])
                           && forall j :: 0 <= j < r.index ==> !IdMatches(input[IdField], resp[j])
    ensures r.NullInputId? <==> IdField !in input && resp != []
  {
    if IdField !in input then
      if resp == [] then NoMatch else NullInputId
    else
      match FirstMatch(input[IdField], resp)
      case None => NoMatch
      case Some(i) => Matched(i)
  }

  /** How many response documents the scan visits (and strips). */
  function VisitedCount(input: Doc, resp: seq<Doc>): (k: nat)
    ensures k <= |resp|
  {
    match ScanOf(input, resp)
    case Matched(i) => i + 1
    case NoMatch => |resp|
    case NullInputId => 1
  }

  /** The outcome of validateSolrDocContent on the documents' fields as they were
      before the call: only the document the scan stops at is compared. */
  function ContentOutcome(input: Doc, resp: seq<Doc>): Outcome {
    var expected := StripVersion(input);
    match ScanOf(expected, resp)
    case Matched(i) => CompareDoc(expected, StripVersion(resp[i]))
    case NoMatch => Fail(DocNotFound)
    case NullInputId => Fail(MissingInputId)
  }

  /** The field loop of validateSolrDocContent on one found document. */
  method CompareFields(solrInputDoc: SolrDoc, solrRespDoc: SolrDoc) returns (outcome: Outcome)
    ensures outcome == CompareDoc(solrInputDoc.fields, solrRespDoc.fields)
  {
    if solrInputDoc.Size() != solrRespDoc.Size() {
      return Fail(FieldCountMismatch(solrInputDoc.Size(), solrRespDoc.Size()));
    }
    var names := solrInputDoc.fields.Keys;
    while names != {}
      invariant names <= solrInputDoc.fields.Keys
      invariant forall f :: f in solrInputDoc.fields && f !in names ==>
                  f in solrRespDoc.fields && solrRespDoc.fields[f] == solrInputDoc.fields[f]
      decreases names
    {
      var field :| field in names;
      var expFieldValue := solrInputDoc.GetFieldValue(field);
      var resFieldValue := solrRespDoc.GetFieldValue(field);
      if expFieldValue != resFieldValue {
        return Fail(FieldValueMismatch);
      }
      names := names - {field};
    }
    return Pass;
  }

  /** validateSolrDocContent: strips `_version_` from the input, then scans the
      response documents, stripping each one it visits, until the first one whose
      id equals the input's; that one alone is compared. */
  method ValidateSolrDocContent(solrInputDoc: SolrDoc, solrRespDocs: seq<SolrDoc>) returns (outcome: Outcome)
    requires solrInputDoc !in solrRespDocs
    modifies solrInputDoc, solrRespDocs
    ensures outcome == ContentOutcome(old(solrInputDoc.fields), old(FieldsOf(solrRespDocs)))
    ensures ContentChecked(solrInputDoc, solrRespDocs)
  {
    ghost var before := FieldsOf(solrRespDocs);
    ghost var input := solrInputDoc.fields;
    ghost var orig := FieldMap(solrRespDocs);
    solrInputDoc.RemoveField(VersionField);
    assert StrippedFrom(solrRespDocs, 0, orig);
    var scan := ScanResponse(solrInputDoc, solrRespDocs, orig);
    ScanIgnoresVersion(input, before);
    match scan
    case Matched(i) =>
      outcome := CompareFields(solrInputDoc, solrRespDocs[i]);
    case NoMatch =>
      outcome := Fail(DocNotFound);
    case NullInputId =>
      outcome := Fail(MissingInputId);
  }

  /** The loop of validateSolrDocContent up to its comparison: visits the response
      documents in order, stripping `_version_` from each, and stops at the first
      whose id equals the input's. */
  method ScanResponse(solrInputDoc: SolrDoc, solrRespDocs: seq<SolrDoc>, ghost orig: map<SolrDoc, Doc>)
    returns (scan: ScanEnd)
    requires solrInputDoc !in solrRespDocs && StrippedFrom(solrRespDocs, 0, orig)
    modifies solrRespDocs
    ensures scan == ScanOf(solrInputDoc.fields, old(FieldsOf(solrRespDocs)))
    ensures StrippedFrom(solrRespDocs, VisitedCount(solrInputDoc.fields, old(FieldsOf(solrRespDocs))), orig)
    ensures scan.Matched? ==> solrRespDocs[scan.index].fields == StripVersion(old(solrRespDocs[scan.index].fields))
  {
    ghost var before := FieldsOf(solrRespDocs);
    ghost var input := solrInputDoc.fields;
    assert forall j :: 0 <= j < |solrRespDocs| ==> before[j] == orig[solrRespDocs[j]];
    var i := 0;
    while i < |solrRespDocs|
      invariant 0 <= i <= |solrRespDocs|
      invariant StrippedFrom(solrRespDocs, i, orig)
      invariant IdField !in input ==> i == 0
      invariant IdField in input ==> forall j :: 0 <= j < i ==> !IdMatches(input[IdField], before[j])
    {
      var solrRespDoc := solrRespDocs[i];
      StripVersionAt(solrRespDocs, i, orig);
      assert solrRespDoc.fields == StripVersion(before[i]);
      var expFieldValue := solrInputDoc.GetFieldValue(IdField);
      var resFieldValue := solrRespDoc.GetFieldValue(IdField);
      if expFieldValue.None? {
        ScanMissingId(input, before);
        return NullInputId;
      }
      if expFieldValue == resFieldValue {
        ScanFound(input, before, i);
        return Matched(i);
      }
      if IdField in input {
        NoMatchExtends(input[IdField], before, i);
      }
      i := i + 1;
    }
    ScanNotFound(input, before);
    return NoMatch;
  }

  /** The current fields of each listed document, by document. */
  ghost function FieldMap(docs: seq<SolrDoc>): (r: map<SolrDoc, Doc>)
    reads docs
    ensures forall d :: d in docs ==> d in r && r[d] == d.fields
  {
    if docs == [] then map[] else FieldMap(docs[1..])[docs[0] := docs[0].fields]
  }

  /** The documents among the first `k` have lost `_version_` from the fields
      recorded in `orig`; the others still hold those fields. */
  ghost predicate StrippedFrom(docs: seq<SolrDoc>, k: nat, orig: map<SolrDoc, Doc>)
    requires k <= |docs|
    reads docs
  {
    forall d :: d in docs ==>
      d in orig && d.fields == if d in docs[..k] then StripVersion(orig[d]) else orig[d]
  }

  /** What validateSolrDocContent does to its arguments: the input loses
      `_version_`, and so does each response document the scan visits. */
  twostate predicate ContentChecked(solrInputDoc: SolrDoc, solrRespDocs: seq<SolrDoc>)
    reads solrInputDoc, solrRespDocs
  {
    solrInputDoc.fields == StripVersion(old(solrInputDoc.fields)) &&
    StrippedFrom(solrRespDocs, VisitedCount(old(solrInputDoc.fields), old(FieldsOf(solrRespDocs))),
                 old(FieldMap(solrRespDocs)))
  }

  /** One visit of the scan: strips `_version_` from the `i`-th document. */
  method StripVersionAt(docs: seq<SolrDoc>, i: nat, ghost orig: map<SolrDoc, Doc>)
    requires i < |docs| && StrippedFrom(docs, i, orig)
    modifies docs[i]
    ensures StrippedFrom(docs, i + 1, orig)
    ensures docs[i].fields == StripVersion(orig[docs[i]])
  {
    docs[i].RemoveField(VersionField);
    forall d | d in docs
      ensures d in orig && d.fields == if d in docs[..i + 1] then StripVersion(orig[d]) else orig[d]
    {
      PrefixMembership(docs, i, d);
    }
  }

  lemma PrefixMembership<T>(s: seq<T>, i: nat, x: T)
    requires i < |s|
    ensures x in s[..i + 1] <==> x in s[..i] || x == s[i]
  {
    assert s[..i + 1] == s[..i] + [s[i]];
  }

  lemma NoMatchExtends(id: string, resp: seq<Doc>, i: nat)
    requires i < |resp| && !IdMatches(id, resp[i])
    requires forall j :: 0 <= j < i ==> !IdMatches(id, resp[j])
    ensures forall j :: 0 <= j < i + 1 ==> !IdMatches(id, resp[j])
  {
  }

  lemma ScanMissingId(input: Doc, resp: seq<Doc>)
    requires IdField !in input && resp != []
    ensures ScanOf(input, resp) == NullInputId && VisitedCount(input, resp) == 1
  {
  }

  lemma ScanFound(input: Doc, resp: seq<Doc>, i: nat)
    requires IdField in input && i < |resp| && IdMatches(input[IdField], resp[i])
    requires forall j :: 0 <= j < i ==> !IdMatches(input[IdField], resp[j])
    ensures ScanOf(input, resp) == Matched(i) && VisitedCount(input, resp) == i + 1
  {
    var r := FirstMatch(input[IdField], resp);
    assert r.Some? && r.value == i;
  }

  lemma ScanNotFound(input: Doc, resp: seq<Doc>)
    requires IdField in input ==> forall j :: 0 <= j < |resp| ==> !IdMatches(input[IdField], resp[j])
    requires IdField !in input ==> resp == []
    ensures ScanOf(input, resp) == NoMatch && VisitedCount(input, resp) == |resp|
  {
  }

  /** Dropping `_version_` from the input changes neither the scan nor what it visits. */
  lemma ScanIgnoresVersion(input: Doc, resp: seq<Doc>)
    ensures ScanOf(StripVersion(input), resp) == ScanOf(input, resp)
    ensures VisitedCount(StripVersion(input), resp) == VisitedCount(input, resp)
  {
    if IdField in input {
      assert StripVersion(input)[IdField] == input[IdField];
    }
  }

  /** createSolrTestDoc, with the random number as a parameter. */
  method CreateSolrTestDoc(randomId: int32) returns (solrInputDoc: SolrDoc)
    ensures fresh(solrInputDoc)
    ensures solrInputDoc.fields == TestDocFields(randomId)
  {
    solrInputDoc := new SolrDoc();
    var solrDocId := IntToDecimal(randomId as int);
    solrInputDoc.AddField(IdField, solrDocId);
    solrInputDoc.AddField(NameField, "testdoc" + solrDocId);
  }

  /** The fields of the test document for a given random number. */
  function TestDocFields(randomId: int32): Doc {
    map[IdField := IntToDecimal(randomId as int), NameField := "testdoc" + IntToDecimal(randomId as int)]
  }

  // ---- Properties of the content comparison ----

  /** Equal field counts and agreeing fields make the maps equal. */
  lemma AgreeingMapsAreEqual(expected: Doc, actual: Doc)
    requires |expected| == |actual| && FieldsAgree(expected, actual)
    ensures expected == actual
  {
    var a, b := expected.Keys, actual.Keys;
    assert a <= b;
    assert a * b == a;
    assert a + b == b;
    assert |b - a| == 0;
    assert b - a == {};
  }

  /** A found document passes exactly when it equals the input, `_version_` aside. */
  lemma CompareDocPassIff(expected: Doc, actual: Doc)
    ensures CompareDoc(expected, actual) == Pass <==> expected == actual
  {
    if |expected| == |actual| && FieldsAgree(expected, actual) {
      AgreeingMapsAreEqual(expected, actual);
    }
  }

  /** The comparison passes exactly when the input has an id and the first
      response document with that id equals the input once `_version_` is dropped
      from both. */
  lemma ContentPassIff(input: Doc, resp: seq<Doc>)
    ensures ContentOutcome(input, resp) == Pass <==>
      IdField in input &&
      exists i :: 0 <= i < |resp| && IdMatches(input[IdField], resp[i])
                  && (forall j :: 0 <= j < i ==> !IdMatches(input[IdField], resp[j]))
                  && StripVersion(resp[i]) == StripVersion(input)
  {
    if IdField in input {
      var expected := StripVersion(input);
      assert expected[IdField] == input[IdField];
      match FirstMatch(input[IdField], resp)
      case None =>
      case Some(i) =>
        CompareDocPassIff(expected, StripVersion(resp[i]));
        forall k | 0 <= k < |resp| && IdMatches(input[IdField], resp[k])
                   && (forall j :: 0 <= j < k ==> !IdMatches(input[IdField], resp[j]))
          ensures k == i
        {
        }
    }
  }

  /** "Doc not found" is reported exactly when the input has an id that no
      response document carries, or the response is empty. */
  lemma ContentNotFoundIff(input: Doc, resp: seq<Doc>)
    ensures ContentOutcome(input, resp) == Fail(DocNotFound) <==>
      resp == [] || (IdField in input && forall j :: 0 <= j < |resp| ==> !IdMatches(input[IdField], resp[j]))
  {
    if IdField in input {
      var expected := StripVersion(input);
      assert expected[IdField] == input[IdField];
      match FirstMatch(input[IdField], resp)
      case None =>
      case Some(i) =>
        assert IdMatches(input[IdField], resp[i]);
    }
  }

  lemma {:induction false} FirstMatchIgnoresLater(id: string, resp: seq<Doc>, rest: seq<Doc>)
    requires FirstMatch(id, resp).Some?
    ensures FirstMatch(id, resp + rest) == FirstMatch(id, resp)
  {
    if !IdMatches(id, resp[0]) {
      assert (resp + rest)[1..] == resp[1..] + rest;
      FirstMatchIgnoresLater(id, resp[1..], rest);
    }
  }

  /** Only the first document with the input's id is compared: documents after it
      cannot change the outcome. */
  lemma ContentIgnoresLaterDocs(input: Doc, resp: seq<Doc>, rest: seq<Doc>)
    requires IdField in input && FirstMatch(input[IdField], resp).Some?
    ensures ContentOutcome(input, resp + rest) == ContentOutcome(input, resp)
  {
    FirstMatchIgnoresLater(input[IdField], resp, rest);
    var i := FirstMatch(input[IdField], resp).value;
    assert (resp + rest)[i] == resp[i];
    assert StripVersion(input)[IdField] == input[IdField];
  }

  /** Comparing two single documents against each other is symmetric. */
  lemma ContentSymmetric(a: Doc, b: Doc)
    ensures ContentOutcome(a, [b]) == Pass <==> ContentOutcome(b, [a]) == Pass
  {
    ContentPassIff(a, [b]);
    ContentPassIff(b, [a]);
    if IdField in a && IdField in b && StripVersion(a) == StripVersion(b) {
      assert StripVersion(a)[IdField] == a[IdField] && StripVersion(b)[IdField] == b[IdField];
      assert IdMatches(a[IdField], [b][0]) && IdMatches(b[IdField], [a][0]);
    }
    if IdField in a && IdMatches(a[IdField], b) {
      assert IdField in b;
    }
    if IdField in b && IdMatches(b[IdField], a) {
      assert IdField in a;
    }
  }

  /** A document stored as submitted, with whatever `_version_` the system gave it,
      validates when no earlier response document carries its id. */
  lemma StoredDocValidates(input: Doc, earlier: seq<Doc>, version: string, later: seq<Doc>)
    requires IdField in input
    requires forall j :: 0 <= j < |earlier| ==> !IdMatches(input[IdField], earlier[j])
    ensures ContentOutcome(input, earlier + [input[VersionField := version]] + later) == Pass
  {
    var stored := input[VersionField := version];
    var resp := earlier + [stored] + later;
    assert resp[|earlier|] == stored;
    assert StripVersion(stored) == StripVersion(input);
    forall j | 0 <= j < |earlier| ensures !IdMatches(input[IdField], resp[j]) {
      assert resp[j] == earlier[j];
    }
    ContentPassIff(input, resp);
  }

  /** Distinct random numbers give test documents with distinct ids, so one test
      document is never found in place of another. */
  lemma TestDocsAreDistinct(a: int32, b: int32, version: string)
    requires a != b
    ensures TestDocFields(a)[IdField] != TestDocFields(b)[IdField]
    ensures ContentOutcome(TestDocFields(a), [TestDocFields(b)[VersionField := version]]) == Fail(DocNotFound)
  {
    if IntToDecimal(a as int) == IntToDecimal(b as int) {
      IntToDecimalInjective(a as int, b as int);
    }
    var resp := [TestDocFields(b)[VersionField := version]];
    assert !IdMatches(TestDocFields(a)[IdField], resp[0]);
    ContentNotFoundIff(TestDocFields(a), resp);
  }

  /** A test document read back with a `_version_` validates. */
  lemma TestDocValidates(randomId: int32, version: string)
    ensures ContentOutcome(TestDocFields(randomId), [TestDocFields(randomId)[VersionField := version]]) == Pass
  {
    StoredDocValidates(TestDocFields(randomId), [], version, []);
    assert [] + [TestDocFields(randomId)[VersionField := version]] + [] == [TestDocFields(randomId)[VersionField := version]];
  }
}
