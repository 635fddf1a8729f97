/** Results of the harness's checks.
    A JUnit assertion that fails, or an exception that escapes a check, ends the
    Java test method; here each such exit is a `Fail` value naming which one. */
module Outcomes {

  datatype Option<+T> = None | Some(value: T)

  /** The ways a verification step of the harness can end the test. */
  datatype Failure =
    | CountMismatch(expectedDocs: int, foundDocs: nat)    // assertEquals on the number of documents
    | DocNotFound                                   // fail("Solr doc not found in Solr collection")
    | FieldCountMismatch(expectedFields: nat, foundFields: nat)   // assertEquals on the number of fields
    | FieldValueMismatch                            // assertEquals on one field's value
    | MissingInputId                                // NullPointerException: the input document has no id
    | UnexpectedException(message: string)          // an exception escaping a write that should pass
    | AccessNotDenied                               // fail("... shouldn't get ... access!")
    | WrongDenial(message: string)                  // the exception lacks the denial signature
    | NoDocsPresent                                 // assertTrue(originalSolrDocCount > 0)

  datatype Outcome = Pass | Fail(failure: Failure)
}
