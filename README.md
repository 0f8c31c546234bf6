# Civic Logic Dashboard: verified model of the classifier and the Diet-record collector

This project models two pieces of the Civic Logic Dashboard (C-LOD) in Dafny and proves
properties about them:

- **The four-layer classifier** `CLODClassifier` (`classifier.dfy`, module `Classifier`).
  As written, each of the layers L1 to L4 is a placeholder that returns its argument, and
  `predict` chains them in the order 1, 2, 3, 4. The model is a class without fields, like the
  Python class. Its layer functions are generic in the data type, because the Python methods
  accept any value. The proofs say that `predict` is the identity: it adds no annotation
  field, removes none, alters none, and needs no `voice` field. They also say that it is
  idempotent and does not depend on which instance runs it.
  The dashboard reads the columns `L1_Topic`, `L2_Urgency`, `L3_Actionability` and
  `L4_Final_Status` (dashboard/app.py lines 48, 51, 63 and 99). No source file writes them,
  and the layers hold no keyword rules, so the model follows the code: no annotation field is
  ever written.
- **The record-building loop of `fetch_diet_records`** (`diet_api.dfy`, module `DietApi`).
  This is the part of ingestion/api_client.py that works on the already-decoded response of
  the parliamentary-records API. It walks the meetings, then the speeches of each meeting,
  and keeps the speeches whose text contains the keyword as a substring. Each kept speech
  becomes a record `{id, speaker, meeting, date, voice}`. The loop returns as soon as the
  record count reaches `max_records`. `FetchDietRecords` is a method with two nested `while`
  loops, proved equal to the functional specification `FirstMatches`. That specification
  has four steps:
  1. **Walk.** List the speeches visited, in meeting order and then speech order, up to the
     first ill-typed value.
  2. **Matching.** Keep the entries that contain the keyword.
  3. **Project.** Map each entry to its five-field record.
  4. **Harvest.** Cut the list at `Cap(max_records)`. This is `max_records` when it is at
     least 1, and 1 otherwise, because the `len(records) >= max_records` test runs right after
     an append.

  JSON members are three-valued (`Absent`, `Null`, `Present`) where the difference matters:
  - The `meetingRecord` and `speechRecord` lists: a missing list contributes nothing.
  - The `speech` text: a missing text is the empty string.

  The elements of both lists are `Option` values, where `None` is a `null` element.
  A `null` list, a `null` element or a `null` text makes Python raise inside the `try`
  block: a `TypeError`, or an `AttributeError` for `None.get`. The call then returns `[]` and
  drops the records already collected. That only happens if the cap has not been reached
  first. `RequestFailed` is one input value that gives `[]`. It stands for a failed HTTP
  request, a bad status, an undecodable body, or a body that decodes to something other than
  an object, where `data.get` raises. The scalar members `speechID`, `speaker`,
  `nameOfMeeting` and `date` are `Option<string>` values, because `.get` returns `None`
  whether such a member is missing or `null`.

  `FetchDietRecords` carries the source's default arguments, keyword `少子化` and limit `10`.

`wrappers.dfy` holds the `Option` type.

## Model

| member | source | states |
|---|---|---|
| `Classifier.CLODClassifier.ProcessLayer1` | analysis/classifier.py:5-7 | layer 1 returns its argument unchanged |
| `Classifier.CLODClassifier.ProcessLayer2` | analysis/classifier.py:9-11 | layer 2 returns its argument unchanged |
| `Classifier.CLODClassifier.ProcessLayer3` | analysis/classifier.py:13-15 | layer 3 returns its argument unchanged |
| `Classifier.CLODClassifier.ProcessLayer4` | analysis/classifier.py:17-19 | layer 4 returns its argument unchanged |
| `Classifier.CLODClassifier.Predict` | analysis/classifier.py:21-26 | the pipeline's result equals its input, for every input (total: no precondition) |
| `Classifier.PredictRunsLayersInOrder` | analysis/classifier.py:22-25 | each intermediate output of the chain 1, 2, 3, 4 equals the input; the order is fixed by the definition of `Predict` and, every layer being the identity, cannot be seen in the result |
| `Classifier.PredictIdempotent` | analysis/classifier.py:21-26 | `predict(predict(d)) == predict(d)` |
| `Classifier.PredictKeepsFields` | analysis/classifier.py:21-26 | on a record: same keys, same value under every key, `voice` present iff present before, no `L2_Urgency` / `L3_Actionability` added |
| `Classifier.PredictIndependentOfInstance` | analysis/classifier.py:2-3 | the constructor sets no state: two instances give the same result on every input |
| `DietApi.FetchDietRecords` | ingestion/api_client.py:15-37 | the nested loops with early return produce exactly `FirstMatches` of the fetch outcome, keyword and limit |
| `DietApi.ContainsIffOccurs` | ingestion/api_client.py:24 | Python's `keyword in text` holds iff some index of `text` starts an occurrence of `keyword` |
| `DietApi.EmptyKeywordOccursEverywhere` | ingestion/api_client.py:24 | the empty keyword is contained in every text |
| `DietApi.MissingSpeechMatchesOnlyEmptyKeyword` | ingestion/api_client.py:23-24 | a missing `speech` is read as `""`, which contains the keyword iff the keyword is empty |
| `DietApi.SpeechWalkSound` | ingestion/api_client.py:22-23 | every entry visited in a meeting is one of its speeches, in that meeting, with that speech's text |
| `DietApi.SpeechWalkInOrder` | ingestion/api_client.py:22-23 | with no `null` element or text, the walk of a meeting is its speech list, one entry per speech, in list order |
| `DietApi.SpeechWalkComplete` | ingestion/api_client.py:22-23 | a meeting's walk that did not crash met no `null` and visits every speech of the list |
| `DietApi.SpeechWalkAppend` | ingestion/api_client.py:22 | walking two concatenated speech lists walks the first, then the second (nothing after a crash) |
| `DietApi.MeetingWalkAppend` | ingestion/api_client.py:21 | walking two concatenated meeting lists walks the first, then the second: meeting order is kept |
| `DietApi.MeetingWalkSound` | ingestion/api_client.py:21-23 | every entry visited is a speech of one of the response's meetings, with its text |
| `DietApi.MeetingWalkComplete` | ingestion/api_client.py:21-23 | a walk over the meetings that did not crash visits every speech of every meeting |
| `DietApi.MissingSpeechRecordContributesNothing` | ingestion/api_client.py:22 | a meeting without `speechRecord` contributes nothing to the walk |
| `DietApi.NullElementCrashes` | ingestion/api_client.py:21-23 | a `null` element of `meetingRecord` or `speechRecord` stops the walk with a crash |
| `DietApi.MatchingIff` | ingestion/api_client.py:24 | an entry is kept iff it is visited and its text contains the keyword; non-matching speeches are never kept |
| `DietApi.MatchingAppend` | ingestion/api_client.py:21-24 | the filter keeps order: filtering a concatenation is the concatenation of the filtered parts |
| `DietApi.EmptyKeywordKeepsAll` | ingestion/api_client.py:24 | with the empty keyword the filter keeps every entry |
| `DietApi.ProjectFields` | ingestion/api_client.py:25-31 | one record per entry, in order: `id` from `speechID`, `speaker` from `speaker`, `meeting` from `nameOfMeeting`, `date` from `date`, `voice` from the text |
| `DietApi.FirstMatchesIsPrefix` | ingestion/api_client.py:21-34 | the result is a prefix of all matching records in traversal order and has at most `Cap(max_records)` records |
| `DietApi.FirstMatchesLength` | ingestion/api_client.py:32-34 | without a crash: `min(max_records, matches)` records for `max_records >= 1`; 1 record if any speech matches, else none, for `max_records <= 0` |
| `DietApi.FirstMatchesOnError` | ingestion/api_client.py:35-37 | a failed request or non-object body gives `[]`; a `null` list, element or text met before the cap gives `[]`; with a crash the result is empty or a full batch |
| `DietApi.FirstMatchesVoicesContainKeyword` | ingestion/api_client.py:23-30 | every returned record's `voice` contains the keyword |
| `DietApi.FirstMatchesSound` | ingestion/api_client.py:21-31 | every returned record is built, field by field, from a speech of the response whose text contains the keyword |
| `DietApi.FirstMatchesComplete` | ingestion/api_client.py:21-34 | without a crash and below the cap, every matching speech of every meeting appears in the result |
| `DietApi.FirstMatchesEmptyKeyword` | ingestion/api_client.py:24 | with the empty keyword every visited speech is a candidate record |
| `DietApi.DefaultCallReturnsAtMostTen` | ingestion/api_client.py:6 | called with the defaults (`少子化`, `10`, also the default arguments of `FetchDietRecords`), the function returns at most ten records |

## Left out

- The HTTP request itself (ingestion/api_client.py lines 8-18): URL, query parameters (including the server-side `maximumRecords: 3`), `raise_for_status` and JSON decoding. They are network I/O. The model takes their outcome as an input, either `RequestFailed` or the decoded body.
- `print` logging in ingestion/api_client.py and analysis/classifier.py: output only.
- JSON values of an unexpected type: a meeting or speech element that is a number, string, list or boolean; a `meetingRecord` or `speechRecord` that is a number, string or object; or a non-string `speech`. The response types cannot express them. In Python, iterating a string or dict and calling `.get` on a non-dict behave in ways the model does not cover. `null` in each of these places is modelled.
- Non-string `speechID`, `speaker`, `nameOfMeeting` or `date`, such as a number: Python copies them into the record unchanged, but `Option<string>` cannot hold them. The model covers strings, missing members and `null`.
- Object identity: the Python layers return the very object they receive. The model states value equality, so it does not capture aliasing. `app.py` passes `row.copy()` anyway.
- Keyword classification rules (topic table, commitment and evidence sets, four-level fusion) that would write the `L1_Topic` … `L4_Final_Status` fields read by dashboard/app.py: they exist in no source file, so there is nothing to model.
- ingestion/estat_client.py: a network wrapper that returns the same hard-coded table on every branch.
- ingestion/loader.py: file-existence check and CSV reading through `csv.DictReader`, which is library I/O.
- analysis/insight_generator.py: prompt construction and a call to an external language model, which is nondeterministic and foreign.
- scripts/generate_starter_pack.py: calls the fetcher for three keywords and writes JSON to disk, which is I/O glue.
- dashboard/app.py: Streamlit, pandas and Altair rendering, which is UI.
