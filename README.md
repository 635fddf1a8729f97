# Sentry Solr end-to-end test base, modelled in Dafny

`AbstractSolrSentryTestBase` is the base class of the Sentry/Solr integration
tests. The tests check that Sentry's authorization provider lets each user do
exactly what the test policy grants on a collection. This project models the
logic of that base class that can be stated without the cluster:

- **User names** (`Usernames`): the policy's user names encode a collection and a
  permission set as `<collection>_<letters>`. The letters are `q`, `u` and `a`,
  in that order. The name is built with two string builders; a decoder proves
  that the encoding loses nothing.
- **The sentry-site file** (`SentrySite`): the `<configuration>` text with the
  provider class and the policy-file location. It is built by appending one
  `<property>` block per setting. A parser proves that the text holds exactly
  those two properties.
- **Document comparison** (`SolrDocs`): documents are mutable field maps. Checking
  a submitted document against the documents a query returns does the following:
  - It strips `_version_` from the input.
  - It scans the response in order, stripping `_version_` from every document it
    visits.
  - It stops at the first document whose `id` equals the input's, and demands
    equal field counts and equal values there.
  - Finding no document with the input's id fails with "doc not found".
  - The method is proved against a value-level function on the fields as they were
    before the call. Its postcondition also states which documents lost
    `_version_`; the response list may contain the same document twice.
- **The verification steps** (`Verification`): the count check, the denial
  classification (an exception whose `toString` contains
  `401, message:Unauthorized`), and the expected post-counts of the four
  `verify*` steps, `cleanSolrCollection` and `uploadSolrDoc`. The following are
  parameters, not modelled:
  - the size of the baseline query
  - the exception the write raised, if any
  - the documents the administrator's re-read returns
- **Java library pieces** (`Text`): `StringBuilder.append`, `String.contains`
  and `String.valueOf(int)`. `Outcomes` holds the outcome of a check: `Pass`, or
  the JUnit assertion or exception that ends the test.

Where the code and its documentation differ, the model follows the code:

- A failing update or failing delete re-checks the document count only, not the
  document set. `FailingChecksSeeOnlyTheCount` states this.
- Cleaning a collection runs only the passing-delete verification, as the
  administrator, with zero documents allowed.
- An input document without an `id` makes `equals` on null throw a
  NullPointerException inside the scan. This happens only when the response is
  non-empty; with an empty response the loop never runs and the result is
  "doc not found".

## Model

| member | source | states |
|---|---|---|
| Usernames.GetUsernameForPermissions | sentry-tests/sentry-tests-solr/src/test/java/org/apache/sentry/tests/e2e/solr/AbstractSolrSentryTestBase.java:170-192 | the name is the collection, `_`, then `q` if query, `u` if update, `a` if all, in that order; and it decodes back to the collection and the three flags |
| Usernames.PermissionLettersRoundTrip | sentry-tests/sentry-tests-solr/src/test/java/org/apache/sentry/tests/e2e/solr/AbstractSolrSentryTestBase.java:177-188 | the letters never contain `_` and decode back to the flags they were built from |
| Usernames.UsernameRoundTrip | sentry-tests/sentry-tests-solr/src/test/java/org/apache/sentry/tests/e2e/solr/AbstractSolrSentryTestBase.java:170-192 | decoding a generated name gives back its collection and flags, even when the collection name itself contains `_` |
| Usernames.ParsedUsernameIsGenerated | sentry-tests/sentry-tests-solr/src/test/java/org/apache/sentry/tests/e2e/solr/AbstractSolrSentryTestBase.java:170-192 | every string that decodes is the generated name of what it decodes to |
| Usernames.UsernameInjective | sentry-tests/sentry-tests-solr/src/test/java/org/apache/sentry/tests/e2e/solr/AbstractSolrSentryTestBase.java:170-192 | two different collection/permission combinations never share a user name |
| Text.StringBuilder.Append | sentry-tests/sentry-tests-solr/src/test/java/org/apache/sentry/tests/e2e/solr/AbstractSolrSentryTestBase.java:174-190 | appending keeps the previous contents as a prefix and adds exactly the argument |
| SentrySite.AddPropertyToSentry | sentry-tests/sentry-tests-solr/src/test/java/org/apache/sentry/tests/e2e/solr/AbstractSolrSentryTestBase.java:60-65 | the builder's previous contents stay as a prefix, followed by exactly the `<property>`/`<name>`/`<value>` block of the name and the value |
| SentrySite.SentrySiteData | sentry-tests/sentry-tests-solr/src/test/java/org/apache/sentry/tests/e2e/solr/AbstractSolrSentryTestBase.java:79-85 | the text is `<configuration>`, the `sentry.provider` block with the provider class, the `sentry.solr.provider.resource` block with working directory + separator + `test-authz-provider.ini`, then `</configuration>`; when the directory and separator hold no `<`, the text parses back to exactly those two properties |
| SentrySite.SentryPropertiesPlain | sentry-tests/sentry-tests-solr/src/test/java/org/apache/sentry/tests/e2e/solr/AbstractSolrSentryTestBase.java:81-84 | both property values are free of markup whenever the working directory and the separator are |
| SentrySite.PropertyRoundTrip | sentry-tests/sentry-tests-solr/src/test/java/org/apache/sentry/tests/e2e/solr/AbstractSolrSentryTestBase.java:60-65 | a block whose name and value hold no `<` reads back as that property, leaving whatever text follows it |
| SentrySite.PropertiesRoundTrip | sentry-tests/sentry-tests-solr/src/test/java/org/apache/sentry/tests/e2e/solr/AbstractSolrSentryTestBase.java:79-85 | any list of markup-free properties, rendered block after block and closed, reads back as that list |
| SentrySite.ConfigurationRoundTrip | sentry-tests/sentry-tests-solr/src/test/java/org/apache/sentry/tests/e2e/solr/AbstractSolrSentryTestBase.java:79-85 | a whole configuration text reads back as its properties |
| SolrDocs.SolrDoc.AddField | sentry-tests/sentry-tests-solr/src/test/java/org/apache/sentry/tests/e2e/solr/AbstractSolrSentryTestBase.java:431-432 | the document gains the field with that value and keeps every other field |
| SolrDocs.SolrDoc.RemoveField | sentry-tests/sentry-tests-solr/src/test/java/org/apache/sentry/tests/e2e/solr/AbstractSolrSentryTestBase.java:363-365 | the document loses that field, if present, and keeps every other one |
| SolrDocs.SolrDoc.GetFieldValue | sentry-tests/sentry-tests-solr/src/test/java/org/apache/sentry/tests/e2e/solr/AbstractSolrSentryTestBase.java:366-367 | a value exactly when the field is present (null otherwise), and then the field's value |
| SolrDocs.FirstMatch | sentry-tests/sentry-tests-solr/src/test/java/org/apache/sentry/tests/e2e/solr/AbstractSolrSentryTestBase.java:364-368 | the position found carries the id and no earlier document does; no position means no document carries it |
| SolrDocs.ScanOf | sentry-tests/sentry-tests-solr/src/test/java/org/apache/sentry/tests/e2e/solr/AbstractSolrSentryTestBase.java:364-368 | the scan stops at a match exactly when the input has an id that some response document carries, and then at the first such document; it throws on null exactly when the input has no id and the response is non-empty |
| SolrDocs.CompareFields | sentry-tests/sentry-tests-solr/src/test/java/org/apache/sentry/tests/e2e/solr/AbstractSolrSentryTestBase.java:369-376 | the field-count check and then the loop over the input's fields give the comparison outcome of the two field maps |
| SolrDocs.ScanResponse | sentry-tests/sentry-tests-solr/src/test/java/org/apache/sentry/tests/e2e/solr/AbstractSolrSentryTestBase.java:364-368 | the loop stops where the scan of the documents' previous fields stops; exactly the visited documents have lost `_version_`, each with its other fields intact, and the rest are untouched |
| SolrDocs.ValidateSolrDocContent | sentry-tests/sentry-tests-solr/src/test/java/org/apache/sentry/tests/e2e/solr/AbstractSolrSentryTestBase.java:362-383 | the outcome is the content outcome of the fields as they were before the call; the input has lost `_version_`, and so has each response document up to and including the first id match, with no other change |
| SolrDocs.ScanIgnoresVersion | sentry-tests/sentry-tests-solr/src/test/java/org/apache/sentry/tests/e2e/solr/AbstractSolrSentryTestBase.java:363-368 | stripping `_version_` from the input first changes neither where the scan stops nor how many documents it visits |
| SolrDocs.CompareDocPassIff | sentry-tests/sentry-tests-solr/src/test/java/org/apache/sentry/tests/e2e/solr/AbstractSolrSentryTestBase.java:369-376 | equal counts plus agreement on every input field pass exactly when the two field maps are equal |
| SolrDocs.ContentPassIff | sentry-tests/sentry-tests-solr/src/test/java/org/apache/sentry/tests/e2e/solr/AbstractSolrSentryTestBase.java:362-383 | the check passes exactly when the input has an id and the first response document with that id equals the input once `_version_` is dropped from both |
| SolrDocs.ContentNotFoundIff | sentry-tests/sentry-tests-solr/src/test/java/org/apache/sentry/tests/e2e/solr/AbstractSolrSentryTestBase.java:364-382 | "doc not found" exactly when the response is empty or the input's id is on no response document |
| SolrDocs.ContentIgnoresLaterDocs | sentry-tests/sentry-tests-solr/src/test/java/org/apache/sentry/tests/e2e/solr/AbstractSolrSentryTestBase.java:368-378 | once a document with the input's id is present, documents appended after it cannot change the outcome |
| SolrDocs.ContentSymmetric | sentry-tests/sentry-tests-solr/src/test/java/org/apache/sentry/tests/e2e/solr/AbstractSolrSentryTestBase.java:369-376 | one document validates against another exactly when the other validates against it |
| SolrDocs.StoredDocValidates | sentry-tests/sentry-tests-solr/src/test/java/org/apache/sentry/tests/e2e/solr/AbstractSolrSentryTestBase.java:362-383 | a document stored as submitted, with any `_version_`, validates when no earlier response document carries its id |
| SolrDocs.CreateSolrTestDoc | sentry-tests/sentry-tests-solr/src/test/java/org/apache/sentry/tests/e2e/solr/AbstractSolrSentryTestBase.java:428-434 | a new document with exactly `id` = the decimal numeral of the number and `name` = `testdoc` + that numeral |
| SolrDocs.TestDocsAreDistinct | sentry-tests/sentry-tests-solr/src/test/java/org/apache/sentry/tests/e2e/solr/AbstractSolrSentryTestBase.java:428-434 | test documents from different numbers have different ids, so one is never found among the other's results |
| SolrDocs.TestDocValidates | sentry-tests/sentry-tests-solr/src/test/java/org/apache/sentry/tests/e2e/solr/AbstractSolrSentryTestBase.java:428-434 | a test document read back with any `_version_` validates |
| Text.IntToDecimal | sentry-tests/sentry-tests-solr/src/test/java/org/apache/sentry/tests/e2e/solr/AbstractSolrSentryTestBase.java:430 | `String.valueOf(int)`: a leading minus sign exactly for negative numbers, followed by decimal digits that read back as the magnitude, with no leading zero, and the numeral `0` for zero |
| Text.NatToDecimalValue | sentry-tests/sentry-tests-solr/src/test/java/org/apache/sentry/tests/e2e/solr/AbstractSolrSentryTestBase.java:430 | the numeral of a number reads back as that number |
| Text.IntToDecimalInjective | sentry-tests/sentry-tests-solr/src/test/java/org/apache/sentry/tests/e2e/solr/AbstractSolrSentryTestBase.java:430 | different numbers give different numerals |
| Text.ContainsSubstring | sentry-tests/sentry-tests-solr/src/test/java/org/apache/sentry/tests/e2e/solr/AbstractSolrSentryTestBase.java:240 | true exactly when the signature occurs at some position of the message |
| Verification.DenialOutcome | sentry-tests/sentry-tests-solr/src/test/java/org/apache/sentry/tests/e2e/solr/AbstractSolrSentryTestBase.java:237-240 | a denial is confirmed exactly when an exception was raised and its text contains `401, message:Unauthorized`; no exception fails as "access not denied", and any other text as a wrong denial |
| Verification.ClassifyDenial | sentry-tests/sentry-tests-solr/src/test/java/org/apache/sentry/tests/e2e/solr/AbstractSolrSentryTestBase.java:234-243 | the try/fail/catch/contains sequence gives the denial outcome |
| Verification.DenialAccepted | sentry-tests/sentry-tests-solr/src/test/java/org/apache/sentry/tests/e2e/solr/AbstractSolrSentryTestBase.java:54 | any message embedding the signature, whatever surrounds it, is accepted |
| Verification.ShortMessageRejected | sentry-tests/sentry-tests-solr/src/test/java/org/apache/sentry/tests/e2e/solr/AbstractSolrSentryTestBase.java:238-240 | a message shorter than the signature is rejected as a wrong denial |
| Verification.ValidateSolrDocCountAndContent | sentry-tests/sentry-tests-solr/src/test/java/org/apache/sentry/tests/e2e/solr/AbstractSolrSentryTestBase.java:322-332 | a size other than the expected count fails with both numbers; otherwise it passes with no input document, and gives the content outcome with one; nothing changes unless the content check ran |
| Verification.ValidateSolrDocCount | sentry-tests/sentry-tests-solr/src/test/java/org/apache/sentry/tests/e2e/solr/AbstractSolrSentryTestBase.java:327-331 | with a null document only the count is checked, and no document changes |
| Verification.VerifyUpdatePass | sentry-tests/sentry-tests-solr/src/test/java/org/apache/sentry/tests/e2e/solr/AbstractSolrSentryTestBase.java:201-217 | an exception from the write ends the test; otherwise the re-read must hold one more document than the baseline and the submitted one must validate |
| Verification.VerifyUpdateFail | sentry-tests/sentry-tests-solr/src/test/java/org/apache/sentry/tests/e2e/solr/AbstractSolrSentryTestBase.java:227-247 | the write must be denied with the signature, and then the count must equal the baseline |
| Verification.VerifyDeletedocsPass | sentry-tests/sentry-tests-solr/src/test/java/org/apache/sentry/tests/e2e/solr/AbstractSolrSentryTestBase.java:258-277 | unless zero documents are allowed, the baseline must be positive; the delete must raise nothing; the re-read must be empty |
| Verification.VerifyDeletedocsFail | sentry-tests/sentry-tests-solr/src/test/java/org/apache/sentry/tests/e2e/solr/AbstractSolrSentryTestBase.java:288-311 | the same guard; the delete must be denied with the signature; the count must equal the baseline |
| Verification.CleanSolrCollection | sentry-tests/sentry-tests-solr/src/test/java/org/apache/sentry/tests/e2e/solr/AbstractSolrSentryTestBase.java:419-422 | passes exactly when the delete raised nothing and the collection is left empty, whatever the baseline |
| Verification.UploadSolrDoc | sentry-tests/sentry-tests-solr/src/test/java/org/apache/sentry/tests/e2e/solr/AbstractSolrSentryTestBase.java:443-450 | the outcome is that of a passing update of the given document, or of the test document built from the number when none is given. When the write raised nothing and the count is right, the given document and exactly the response documents the scan visited lose `_version_`; otherwise nothing changes |
| Verification.UpdatePassIff | sentry-tests/sentry-tests-solr/src/test/java/org/apache/sentry/tests/e2e/solr/AbstractSolrSentryTestBase.java:205-217 | a passing update is confirmed exactly when the write raised nothing, the count grew by one, and the first document with the input's id equals the input apart from `_version_` |
| Verification.UpdateFailIff | sentry-tests/sentry-tests-solr/src/test/java/org/apache/sentry/tests/e2e/solr/AbstractSolrSentryTestBase.java:231-247 | a failing update is confirmed exactly when the write raised an exception with the signature and the count is unchanged |
| Verification.DeletedocsPassIff | sentry-tests/sentry-tests-solr/src/test/java/org/apache/sentry/tests/e2e/solr/AbstractSolrSentryTestBase.java:261-277 | a passing delete is confirmed exactly when the guard holds, the delete raised nothing, and no document is left |
| Verification.DeletedocsFailIff | sentry-tests/sentry-tests-solr/src/test/java/org/apache/sentry/tests/e2e/solr/AbstractSolrSentryTestBase.java:291-311 | a failing delete is confirmed exactly when the guard holds, the delete raised an exception with the signature, and the count is unchanged |
| Verification.FailingChecksSeeOnlyTheCount | sentry-tests/sentry-tests-solr/src/test/java/org/apache/sentry/tests/e2e/solr/AbstractSolrSentryTestBase.java:247 | the failing verifications give the same outcome for any two re-reads of the same size |
| Verification.UndeniedWriteFails | sentry-tests/sentry-tests-solr/src/test/java/org/apache/sentry/tests/e2e/solr/AbstractSolrSentryTestBase.java:237 | a write that raised nothing ends a failing verification as "access not denied", whatever the re-read holds |
| Verification.StoredUpdatePasses | sentry-tests/sentry-tests-solr/src/test/java/org/apache/sentry/tests/e2e/solr/AbstractSolrSentryTestBase.java:205-217 | a re-read one larger than the baseline, holding the submitted document with any `_version_` and no earlier document with its id, confirms the update |
| Verification.UpdatePassExample | sentry-tests/sentry-tests-solr/src/test/java/org/apache/sentry/tests/e2e/solr/AbstractSolrSentryTestBase.java:201-217 | an empty collection that receives `{id: 5, name: testdoc5}` and reads back that document with a `_version_` confirms the update |
| Verification.UpdateFailExample | sentry-tests/sentry-tests-solr/src/test/java/org/apache/sentry/tests/e2e/solr/AbstractSolrSentryTestBase.java:227-247 | a denied update on a collection of one document that still holds one document confirms the denial |

## Left out

- The identity slot (`setAuthenticationUser`) and the user-name parameters of the `verify*` methods. The authorization decision is made by the Sentry provider outside this file; here its effect is the exception parameter.
- The Solr client calls (`getCloudSolrServer`, `getSolrDocs`, add, commit, deleteByQuery, shutdown). They are network I/O. Their results are parameters: the baseline size, the exception text and the re-read documents.
- The distributed file system, the temporary sentry-site file and `copyFromLocalFile` in `setupSentry`. These are file I/O; `SentrySiteData` returns the text that would be written, with the working directory and `File.separator` as parameters.
- The `System.setProperty`/`clearProperty` calls, the class and test lifecycle methods, and `getDataDir`, `getSolrXml`, `getCloudSolrConfig` and `getSolrHome`. They are process configuration.
- `setupCollection`, `uploadConfigDirToZk`, `createCollection` and `waitForRecoveriesToFinish`. These are ZooKeeper and cluster operations.
- The constant comparator of the extra request filters. It is wiring with no behaviour to state.
- `RANDOM.nextInt()`. The random number is the `randomId` parameter of `CreateSolrTestDoc` and `UploadSolrDoc`.
- The message texts of the JUnit assertions. A failure records which check failed and the counts it compared.
- SolrDocs.SolrDoc.AddField: does not model multi-valued fields. SolrJ's `addField` on a name already present adds a second value; the model requires a new name, and the harness only adds distinct ones.
- SolrDocs.CompareFields: does not fix the order in which the input's field names are visited. The outcome does not depend on it, because a mismatch does not record which field failed.
- SolrDocs.ValidateSolrDocContent: does not model the `(String)` casts. Values are strings, so a ClassCastException cannot arise. The input document must not be one of the response documents; in Java they have different types.
- Verification.VerifyUpdatePass: does not model the 32-bit wrap of `originalSolrDocCount + 1`. For it to matter, the collection would need 2^31 - 1 documents.
- SentrySite.SentrySiteData: the read-back holds only for a working directory and separator without `<`. The harness does not escape XML, so a `<` in those values would change the markup.
- Text.ContainsSubstring: compares Unicode scalar values, where Java's `String.contains` compares UTF-16 code units. The two agree on every message and signature without surrogate pairs, and the signature `401, message:Unauthorized` is plain ASCII.
