/** The permission-verification steps of the harness. Each step reads a
    baseline document count, attempts a write as the user under test, and then
    re-reads the collection as the administrator and checks the count (and, after
    a passing update, the submitted document). The cluster is not modelled: the
    baseline count, the exception the write raised (its `toString`, if any) and
    the documents the re-read returns are parameters. */
module Verification {
  import opened Outcomes
  import opened Text
  import opened SolrDocs

  /** The signature every authorization denial carries in its message. */
  const SentryErrorMsg := "401, message:Unauthorized"

  // ---- Denial classification ----

  /** The catch block of the failing verifications. A write that raises nothing
      reaches `fail`, whose AssertionError the `catch (Exception)` does not catch. */
  function DenialOutcome(error: Option<string>): (r: Outcome)
    ensures r == Pass <==> error.Some? && IsSubstring(SentryErrorMsg, error.value)
    ensures r.Fail? ==> r.failure == (if error.None? then AccessNotDenied else WrongDenial(error.value))
  {
    match error
    case None => Fail(AccessNotDenied)
    case Some(e) => if IsSubstring(SentryErrorMsg, e) then Pass else Fail(WrongDenial(e))
  }

  method ClassifyDenial(error: Option<string>) returns (outcome: Outcome)
    ensures outcome == DenialOutcome(error)
  {
    if error.None? {
      return Fail(AccessNotDenied);
    }
    var denied := ContainsSubstring(error.value, SentryErrorMsg);
    if denied {
      outcome := Pass;
    } else {
      outcome := Fail(WrongDenial(error.value));
    }
  }

  /** Any message that embeds the signature is accepted as a denial. */
  lemma DenialAccepted(prefix: string, suffix: string)
    ensures DenialOutcome(Some(prefix + SentryErrorMsg + suffix)) == Pass
  {
    var e := prefix + SentryErrorMsg + suffix;
    assert e[|prefix|..|prefix| + |SentryErrorMsg|] == SentryErrorMsg;
    assert OccursAt(SentryErrorMsg, e, |prefix|);
  }

  /** A message shorter than the signature is never a denial. */
  lemma ShortMessageRejected(e: string)
    requires |e| < |SentryErrorMsg|
    ensures DenialOutcome(Some(e)) == Fail(WrongDenial(e))
  {
  }

  // ---- The count check and the content check ----

  /** validateSolrDocCountAndContent on the fields as they were before the call. */
  function CountAndContentOutcome(expectedDocCount: int, input: Option<Doc>, resp: seq<Doc>): Outcome {
    if |resp| != expectedDocCount then Fail(CountMismatch(expectedDocCount, |resp|))
    else if input.None? then Pass
    else ContentOutcome(input.value, resp)
  }

  /** The fields of the input document, if there is one. */
  function InputFields(solrInputDoc: SolrDoc?): Option<Doc>
    reads solrInputDoc
  {
    if solrInputDoc == null then None else Some(solrInputDoc.fields)
  }

  /** The count check, then the content check when there is an input document. */
  method ValidateSolrDocCountAndContent(expectedDocCount: int, solrInputDoc: SolrDoc?, solrRespDocs: seq<SolrDoc>)
    returns (outcome: Outcome)
    requires solrInputDoc !in solrRespDocs
    modifies if solrInputDoc == null then {} else {solrInputDoc} + set d | d in solrRespDocs
    ensures outcome == CountAndContentOutcome(expectedDocCount, old(InputFields(solrInputDoc)), old(FieldsOf(solrRespDocs)))
    ensures solrInputDoc != null && |solrRespDocs| == expectedDocCount ==> ContentChecked(solrInputDoc, solrRespDocs)
    ensures solrInputDoc == null || |solrRespDocs| != expectedDocCount ==>
              (solrInputDoc != null ==> unchanged(solrInputDoc)) && unchanged(solrRespDocs)
  {
    if |solrRespDocs| != expectedDocCount {
      return Fail(CountMismatch(expectedDocCount, |solrRespDocs|));
    }
    if solrInputDoc != null {
      outcome := ValidateSolrDocContent(solrInputDoc, solrRespDocs);
    } else {
      outcome := Pass;
    }
  }

  /** The count check alone: what the verifications other than a passing update run. */
  method ValidateSolrDocCount(expectedDocCount: int, solrRespDocs: seq<SolrDoc>) returns (outcome: Outcome)
    ensures outcome == CountAndContentOutcome(expectedDocCount, None, FieldsOf(solrRespDocs))
  {
    outcome := ValidateSolrDocCountAndContent(expectedDocCount, null, solrRespDocs);
  }

  // ---- The four verifications ----

  /** verifyUpdatePass: an exception from the write escapes the test; otherwise one
      more document than before, and the submitted one among them. */
  function UpdatePassOutcome(originalSolrDocCount: nat, updateError: Option<string>, input: Doc, resp: seq<Doc>): Outcome {
    if updateError.Some? then Fail(UnexpectedException(updateError.value))
    else CountAndContentOutcome(originalSolrDocCount + 1, Some(input), resp)
  }

  /** verifyUpdateFail: the write must be denied, and the count stays as it was. */
  function UpdateFailOutcome(originalSolrDocCount: nat, updateError: Option<string>, resp: seq<Doc>): Outcome {
    var denial := DenialOutcome(updateError);
    if denial.Fail? then denial
    else CountAndContentOutcome(originalSolrDocCount, None, resp)
  }

  /** The guard of both delete verifications: unless zero documents are allowed,
      the collection must hold at least one. */
  predicate BaselineAccepted(allowZeroDocs: bool, originalSolrDocCount: nat) {
    allowZeroDocs || originalSolrDocCount > 0
  }

  /** verifyDeletedocsPass: the guard, then a delete that raises nothing and leaves no document. */
  function DeletedocsPassOutcome(originalSolrDocCount: nat, allowZeroDocs: bool, deleteError: Option<string>,
                                 resp: seq<Doc>): Outcome {
    if !BaselineAccepted(allowZeroDocs, originalSolrDocCount) then Fail(NoDocsPresent)
    else if deleteError.Some? then Fail(UnexpectedException(deleteError.value))
    else CountAndContentOutcome(0, None, resp)
  }

  /** verifyDeletedocsFail: the guard, then a denied delete that leaves the count as it was. */
  function DeletedocsFailOutcome(originalSolrDocCount: nat, allowZeroDocs: bool, deleteError: Option<string>,
                                 resp: seq<Doc>): Outcome {
    if !BaselineAccepted(allowZeroDocs, originalSolrDocCount) then Fail(NoDocsPresent)
    else
      var denial := DenialOutcome(deleteError);
      if denial.Fail? then denial
      else CountAndContentOutcome(originalSolrDocCount, None, resp)
  }

  /** verifyUpdatePass. `originalSolrDocCount` is the size of the first query's
      result, `updateError` the exception raised by add or commit, and
      `solrRespDocs` the administrator's re-read. */
  method VerifyUpdatePass(originalSolrDocCount: nat, solrInputDoc: SolrDoc, updateError: Option<string>,
                          solrRespDocs: seq<SolrDoc>) returns (outcome: Outcome)
    requires solrInputDoc !in solrRespDocs
    modifies solrInputDoc, solrRespDocs
    ensures outcome == UpdatePassOutcome(originalSolrDocCount, updateError, old(solrInputDoc.fields), old(FieldsOf(solrRespDocs)))
    ensures updateError.None? && |solrRespDocs| == originalSolrDocCount + 1 ==> ContentChecked(solrInputDoc, solrRespDocs)
    ensures updateError.Some? || |solrRespDocs| != originalSolrDocCount + 1 ==>
              unchanged(solrInputDoc) && unchanged(solrRespDocs)
  {
    if updateError.Some? {
      return Fail(UnexpectedException(updateError.value));
    }
    outcome := ValidateSolrDocCountAndContent(originalSolrDocCount + 1, solrInputDoc, solrRespDocs);
  }

  /** verifyUpdateFail: the denial check, then the count check with no document. */
  method VerifyUpdateFail(originalSolrDocCount: nat, updateError: Option<string>, solrRespDocs: seq<SolrDoc>)
    returns (outcome: Outcome)
    ensures outcome == UpdateFailOutcome(originalSolrDocCount, updateError, FieldsOf(solrRespDocs))
  {
    outcome := ClassifyDenial(updateError);
    if outcome.Fail? {
      return;
    }
    outcome := ValidateSolrDocCount(originalSolrDocCount, solrRespDocs);
  }

  /** verifyDeletedocsPass. */
  method VerifyDeletedocsPass(originalSolrDocCount: nat, allowZeroDocs: bool, deleteError: Option<string>,
                              solrRespDocs: seq<SolrDoc>) returns (outcome: Outcome)
    ensures outcome == DeletedocsPassOutcome(originalSolrDocCount, allowZeroDocs, deleteError, FieldsOf(solrRespDocs))
  {
    if !allowZeroDocs && !(originalSolrDocCount > 0) {
      return Fail(NoDocsPresent);
    }
    if deleteError.Some? {
      return Fail(UnexpectedException(deleteError.value));
    }
    outcome := ValidateSolrDocCount(0, solrRespDocs);
  }

  /** verifyDeletedocsFail. */
  method VerifyDeletedocsFail(originalSolrDocCount: nat, allowZeroDocs: bool, deleteError: Option<string>,
                              solrRespDocs: seq<SolrDoc>) returns (outcome: Outcome)
    ensures outcome == DeletedocsFailOutcome(originalSolrDocCount, allowZeroDocs, deleteError, FieldsOf(solrRespDocs))
  {
    if !allowZeroDocs && !(originalSolrDocCount > 0) {
      return Fail(NoDocsPresent);
    }
    outcome := ClassifyDenial(deleteError);
    if outcome.Fail? {
      return;
    }
    outcome := ValidateSolrDocCount(originalSolrDocCount, solrRespDocs);
  }

  /** cleanSolrCollection: a passing delete as the administrator, empty collections allowed. */
  method CleanSolrCollection(originalSolrDocCount: nat, deleteError: Option<string>, solrRespDocs: seq<SolrDoc>)
    returns (outcome: Outcome)
    ensures outcome == Pass <==> deleteError.None? && solrRespDocs == []
  {
    outcome := VerifyDeletedocsPass(originalSolrDocCount, true, deleteError, solrRespDocs);
    DeletedocsPassIff(originalSolrDocCount, true, deleteError, FieldsOf(solrRespDocs));
  }

  /** uploadSolrDoc: a passing update of the given document, or of a fresh test
      document built from `randomId` when there is none. */
  method UploadSolrDoc(solrInputDoc: SolrDoc?, randomId: int32, originalSolrDocCount: nat,
                       updateError: Option<string>, solrRespDocs: seq<SolrDoc>) returns (outcome: Outcome)
    requires solrInputDoc !in solrRespDocs
    modifies (if solrInputDoc == null then {} else {solrInputDoc}), solrRespDocs
    ensures outcome == UpdatePassOutcome(originalSolrDocCount, updateError,
                         if solrInputDoc == null then TestDocFields(randomId) else old(solrInputDoc.fields),
                         old(FieldsOf(solrRespDocs)))
    ensures updateError.None? && |solrRespDocs| == originalSolrDocCount + 1 ==>
              if solrInputDoc == null then
                StrippedFrom(solrRespDocs, VisitedCount(TestDocFields(randomId), old(FieldsOf(solrRespDocs))),
                             old(FieldMap(solrRespDocs)))
              else ContentChecked(solrInputDoc, solrRespDocs)
    ensures updateError.Some? || |solrRespDocs| != originalSolrDocCount + 1 ==>
              (solrInputDoc != null ==> unchanged(solrInputDoc)) && unchanged(solrRespDocs)
  {
    var doc := solrInputDoc;
    if doc == null {
      doc := CreateSolrTestDoc(randomId);
    }
    outcome := VerifyUpdatePass(originalSolrDocCount, doc, updateError, solrRespDocs);
  }

  // ---- What each verification accepts ----

  /** A passing update is confirmed exactly when the write raised nothing, the
      collection grew by one, and the first document with the input's id equals
      the input once `_version_` is dropped. */
  lemma UpdatePassIff(originalSolrDocCount: nat, updateError: Option<string>, input: Doc, resp: seq<Doc>)
    ensures UpdatePassOutcome(originalSolrDocCount, updateError, input, resp) == Pass <==>
      updateError.None? && |resp| == originalSolrDocCount + 1 && IdField in input &&
      exists i :: 0 <= i < |resp| && IdMatches(input[IdField], resp[i])
                  && (forall j :: 0 <= j < i ==> !IdMatches(input[IdField], resp[j]))
                  && StripVersion(resp[i]) == StripVersion(input)
  {
    ContentPassIff(input, resp);
  }

  /** A failing update is confirmed exactly when the write was denied and the count is unchanged. */
  lemma UpdateFailIff(originalSolrDocCount: nat, updateError: Option<string>, resp: seq<Doc>)
    ensures UpdateFailOutcome(originalSolrDocCount, updateError, resp) == Pass <==>
      updateError.Some? && IsSubstring(SentryErrorMsg, updateError.value) && |resp| == originalSolrDocCount
  {
  }

  /** A passing delete is confirmed exactly when the guard holds, the delete raised
      nothing, and no document is left. */
  lemma DeletedocsPassIff(originalSolrDocCount: nat, allowZeroDocs: bool, deleteError: Option<string>, resp: seq<Doc>)
    ensures DeletedocsPassOutcome(originalSolrDocCount, allowZeroDocs, deleteError, resp) == Pass <==>
      (allowZeroDocs || originalSolrDocCount > 0) && deleteError.None? && resp == []
  {
  }

  /** A failing delete is confirmed exactly when the guard holds, the delete was
      denied, and the count is unchanged. */
  lemma DeletedocsFailIff(originalSolrDocCount: nat, allowZeroDocs: bool, deleteError: Option<string>, resp: seq<Doc>)
    ensures DeletedocsFailOutcome(originalSolrDocCount, allowZeroDocs, deleteError, resp) == Pass <==>
      (allowZeroDocs || originalSolrDocCount > 0) && deleteError.Some? &&
      IsSubstring(SentryErrorMsg, deleteError.value) && |resp| == originalSolrDocCount
  {
  }

  /** The failing verifications look at the count only: any re-read of the same
      size gives the same outcome, whatever documents it holds. */
  lemma FailingChecksSeeOnlyTheCount(originalSolrDocCount: nat, allowZeroDocs: bool, error: Option<string>,
                                     resp: seq<Doc>, resp': seq<Doc>)
    requires |resp| == |resp'|
    ensures UpdateFailOutcome(originalSolrDocCount, error, resp) == UpdateFailOutcome(originalSolrDocCount, error, resp')
    ensures DeletedocsFailOutcome(originalSolrDocCount, allowZeroDocs, error, resp)
         == DeletedocsFailOutcome(originalSolrDocCount, allowZeroDocs, error, resp')
  {
  }

  /** A write that raised nothing never confirms a failing verification. */
  lemma UndeniedWriteFails(originalSolrDocCount: nat, allowZeroDocs: bool, resp: seq<Doc>)
    ensures UpdateFailOutcome(originalSolrDocCount, None, resp) == Fail(AccessNotDenied)
    ensures BaselineAccepted(allowZeroDocs, originalSolrDocCount) ==>
              DeletedocsFailOutcome(originalSolrDocCount, allowZeroDocs, None, resp) == Fail(AccessNotDenied)
  {
  }

  /** A submitted document stored as it was, with any `_version_`, confirms a
      passing update when nothing before it carries its id. */
  lemma StoredUpdatePasses(originalSolrDocCount: nat, input: Doc, earlier: seq<Doc>, version: string, later: seq<Doc>)
    requires IdField in input
    requires |earlier| + 1 + |later| == originalSolrDocCount + 1
    requires forall j :: 0 <= j < |earlier| ==> !IdMatches(input[IdField], earlier[j])
    ensures UpdatePassOutcome(originalSolrDocCount, None, input, earlier + [input[VersionField := version]] + later) == Pass
  {
    StoredDocValidates(input, earlier, version, later);
  }

  /** An empty collection c1 receives {id: "5", name: "testdoc5"}: the re-read
      holding that document with its `_version_` confirms the update. */
  lemma UpdatePassExample(version: string)
    ensures UpdatePassOutcome(0, None, map[IdField := "5", NameField := "testdoc5"],
                              [map[IdField := "5", NameField := "testdoc5", VersionField := version]]) == Pass
  {
    var input := map[IdField := "5", NameField := "testdoc5"];
    assert input[VersionField := version] == map[IdField := "5", NameField := "testdoc5", VersionField := version];
    StoredUpdatePasses(0, input, [], version, []);
    assert [] + [input[VersionField := version]] + [] == [input[VersionField := version]];
  }

  /** A query-only user's update of {id: "6", ...} is denied with the signature,
      and the collection still holds its one document. */
  lemma UpdateFailExample(prefix: string, suffix: string, doc: Doc)
    ensures UpdateFailOutcome(1, Some(prefix + SentryErrorMsg + suffix), [doc]) == Pass
  {
    DenialAccepted(prefix, suffix);
  }
}
