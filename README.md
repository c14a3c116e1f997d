# OCR worker-card reconciliation, modelled in Dafny

This project models the decision logic of `lambda_function.py`, an AWS Lambda function. The function reacts to a change of a worker record in DynamoDB. It reads the worker's registration card image with Textract queries, then writes the extracted fields back to the `users` table. The model covers everything between the OCR call and the database write:

- **Block partition** (`blocks.dfy`, module `Blocks`). The loop of `get_qa_map` files the Textract blocks into the query, answer and block dictionaries, keyed by id. Python dictionaries keep insertion order. A `Dicts.Dict` is a key sequence plus a map, and re-assigning an existing key keeps its position.
- **Query-answer extraction** (`query_answers.dfy`, module `QueryAnswers`).
  - `find_answer_block` follows the ANSWER relationships, and the last id wins. A missing id raises `KeyError`.
  - `get_query_text` resolves a block to its text.
  - `get_qa_relationship` appends one answer per query block into a `defaultdict(list)`.
- **Date normalisation** (`dates.dfy`, module `Dates`).
  - `extract_date` searches for the first `dd/mm/yyyy` window, or else the first `dd-mm-yyyy` window.
  - `date_2_time` parses the window with `strptime` and converts it to a POSIX timestamp.
  - The regex search is an explicit first-index scan.
  - `strptime` is calendar validation, with a round trip between a date and the way it is written.
  - The timestamp is the proleptic Gregorian ordinal minus that of 1970-01-01, times 86400. It is proved to order dates exactly as the calendar does.
- **Expiry rule** (`expiry.dfy`, module `Expiry`).
- **Certificate history merge** (`certificates.dfy`, module `Certificates`). It is a specification function, plus the append loop as a method proved equal to it.
- **Card URL split** (`card_url.dfy`, module `CardUrl`), over a model of Python's `str.split` (`strings.dfy`, module `Strings`).
- **Event reconciliation** (`reconcile.dfy`, module `Reconcile`). `Reconcile` is the whole of `scan_worker_card` up to the write, as a function. `ScanWorkerCard` is a method that follows the source step by step, calls the loop methods, and is proved equal to `Reconcile`.

Python exceptions are values of `Wrappers.Result`: `KeyError`, `IndexError`, `ValueError`, and a service error for the collaborators.

Two collaborators are parameters:
- The S3 read together with the Textract call is a function `Location -> Result<seq<Block>>`.
- The clock is an integer `now`.

The database write is not modelled. The model ends with the field set it would send (`WorkerUpdate`).

## Behaviour worth knowing

- An ANSWER id that is missing from the answer map is not excluded by a precondition. The code raises `KeyError` on it, and so does the model (`QueryAnswers.AnswerBlock`).
- The code removes only the copies of the new certificate from the prior history. A duplicate-free prior history gives a duplicate-free result (`Certificates.MergeDistinct`). Repeats of certificates other than the new one are carried over. The new certificate can also be `None`, when the `Type` query found no answer. It is then appended as `None`.
- Every event name other than `MODIFY` is treated like an INSERT.
- With unique block ids, `query_map` and `answer_map` are disjoint and both agree with `block_map` (`Blocks.PartitionUniqueIds`). Textract ids are unique. Uniqueness is more than is needed. `query_map` and `answer_map` share a key exactly when a QUERY block and a QUERY_RESULT block share an id. A typed map disagrees with `block_map` at an id exactly when a block of its type carries that id and the last block carrying it is of another type. For example, a QUERY block and a later QUERY_RESULT block with one id put that id in both maps, and `query_map` then disagrees with `block_map` (`Blocks.RepeatedIdCounterexample`). Whatever the ids, every key of the two typed maps is a key of `block_map` (`Blocks.Partition`).
- A slash window that is not a real date (`31/02/2024`) makes `strptime` raise. The search does not fall back to a dash window.
- `CardUrl.WellFormedUrl` requires the prefix `p` to contain no `bucketName=`, so that the marker written after `p` is the first one in the URL.

## Model

| member | source | states |
|---|---|---|
| Blocks.Partition | lambda_function.py:75-86 | the three dictionaries are well formed, and every key of query_map (answer_map) is a key of block_map, filed with a response block of type QUERY (QUERY_RESULT) |
| Blocks.GetQaMap | lambda_function.py:75-88 | the loop's three dictionaries are the partition: IndexById of the QUERY blocks, of the QUERY_RESULT blocks and of all blocks |
| Blocks.OfTypeMembers | lambda_function.py:81-84 | a block is filed by type exactly when it is a block of the response with that type |
| Blocks.IndexByIdKeys | lambda_function.py:78-80 | an id is a key of the dictionary exactly when some block has that id |
| Blocks.IndexByIdValue | lambda_function.py:78-80 | each entry is a block of the response carrying its key as id |
| Blocks.IndexByIdEntry | lambda_function.py:78-80 | a later block with a repeated id overwrites earlier ones: the last block with an id is its entry |
| Blocks.IndexByIdOrder | lambda_function.py:75-86 | with unique ids, iterating the dictionary gives the blocks in response order |
| Blocks.PartitionUniqueIds | lambda_function.py:75-86 | with unique ids: every id is in block_map, query_map holds exactly the QUERY blocks and answer_map exactly the QUERY_RESULT blocks, both are sub-maps of block_map, they are disjoint, and query_map iterates in response order |
| Blocks.RepeatedIdCounterexample | lambda_function.py:78-84 | a QUERY and a QUERY_RESULT block with one id put that id in both maps, and query_map then disagrees with block_map |
| QueryAnswers.AnswerBlock | lambda_function.py:27-34 | the answer is a block of answer_map; it fails exactly when an ANSWER id is missing from answer_map, with a KeyError naming that missing id |
| QueryAnswers.AnswerBlockAllPresent | lambda_function.py:27-34 | with every ANSWER id present, the answer is the entry of the last ANSWER id, or None when there is none |
| QueryAnswers.AnswerBlockMissing | lambda_function.py:32-33 | the first missing id, in iteration order, is the one the KeyError names |
| QueryAnswers.NoAnswerRelationship | lambda_function.py:29-31 | no Relationships key, or no ANSWER relationship, gives None |
| QueryAnswers.NonAnswerIgnored | lambda_function.py:31 | inserting a relationship of another type anywhere changes nothing |
| QueryAnswers.LastAnswerIdWins | lambda_function.py:30-33 | the last id of the last non-empty ANSWER relationship decides the answer |
| QueryAnswers.FollowAnswerIds | lambda_function.py:32-33 | the inner loop stops at the first missing id, or ends on the entry of the last id |
| QueryAnswers.FindAnswerBlock | lambda_function.py:27-34 | the nested loops compute AnswerBlock |
| QueryAnswers.QueryText | lambda_function.py:36-46 | None for no block, the alias for a QUERY block, the text for a QUERY_RESULT block, the empty string otherwise |
| QueryAnswers.QaRelationship | lambda_function.py:48-55 | the multimap is a well-formed ordered dictionary |
| QueryAnswers.GetQaRelationship | lambda_function.py:48-55 | the loop over query_map computes QaRelationship of query_map's values in iteration order |
| QueryAnswers.QaErrorSticky | lambda_function.py:50-53 | a KeyError for one query block ends the extraction with that error |
| QueryAnswers.QaSucceeds | lambda_function.py:50-54 | the extraction succeeds exactly when every query block's answer lookup does |
| QueryAnswers.QaEntries | lambda_function.py:49-54 | the keys are exactly the query keys, and each key lists the answers of its query blocks in order, so duplicate aliases accumulate |
| QueryAnswers.QaTotal | lambda_function.py:50-54 | the list lengths sum to the number of query blocks |
| QueryAnswers.QaContribution | lambda_function.py:51-54 | every query block's answer, None for an answer-less query, is listed under its key |
| QueryAnswers.AnswersUnderFrom | lambda_function.py:51-54 | every listed answer is the text of some query block's answer |
| QueryAnswers.ResponseAnswers | lambda_function.py:48-55 | for a response with unique ids: the keys are the aliases of its QUERY blocks, and each answer is None or the text of one of its QUERY_RESULT blocks |
| Dicts.Put | lambda_function.py:80 | assignment keeps an existing key's position and appends a new key |
| Dicts.Append | lambda_function.py:54 | appending under a key extends that key's list and creates it, empty, when missing |
| Dicts.AppendTotal | lambda_function.py:54 | each append adds one to the total of the list lengths |
| Strings.Split | lambda_function.py:148 | str.split always returns at least one piece |
| Strings.SplitJoin | lambda_function.py:148-149 | joining the pieces with the separator gives the string back |
| Strings.SplitPiecesFree | lambda_function.py:148-149 | no piece contains the separator |
| Strings.SplitSecond | lambda_function.py:148 | the piece at index 1 starts after the leftmost separator and runs to the end or to the next separator |
| Strings.SplitOnce | lambda_function.py:149 | a separator occurring once splits `a + sep + c` into exactly `a` and `c` |
| CardUrl.SplitCardUrl | lambda_function.py:148-149 | it fails only with IndexError or ValueError, and a bucket and key it returns contain no `&fileName=` |
| CardUrl.MissingBucketMarker | lambda_function.py:148 | IndexError exactly when the URL has no `bucketName=` |
| CardUrl.WellFormedUrl | lambda_function.py:148-149 | `p + "bucketName=" + b + "&fileName=" + k`, with no separator in p, b or k, splits into (b, k) |
| CardUrl.SplitCardUrlShape | lambda_function.py:148-149 | a URL that splits continues after its first `bucketName=` with bucket, `&fileName=`, key, then ends or has another `bucketName=` |
| CardUrl.UrlExample | lambda_function.py:148-150 | the sample URL names bucket `autofill-worker-card-images` and key `0001.png` |
| Dates.Search | lambda_function.py:112 | re.search finds the leftmost window that matches the pattern, and none before it |
| Dates.FormatRead | lambda_function.py:105 | a date written as `%d<sep>%m<sep>%Y` reads back as the same date |
| Dates.ReadFormat | lambda_function.py:105 | a window whose fields form a real date is that date written out |
| Dates.Strptime | lambda_function.py:105 | it succeeds exactly on windows that are how some real date is written, and returns that date |
| Dates.TimestampOrder | lambda_function.py:105 | one timestamp is smaller than another exactly when its date is earlier, and equal exactly for the same date |
| Dates.EpochIsZero | lambda_function.py:105 | 1 January 1970 has timestamp 0 |
| Dates.DateToTime | lambda_function.py:104-105 | the timestamp (`Dates.Timestamp`, standing for `datetime.timestamp`) of the date the window writes out, or ValueError when there is none |
| Dates.ExtractDate | lambda_function.py:108-128 | an invalid result carries `now`, and the only error is ValueError |
| Dates.NoDateDegrades | lambda_function.py:121-126 | None, or a text with neither window, gives (now, False) |
| Dates.SlashDecides | lambda_function.py:112-115 | the first slash window decides, whatever dash windows exist: its date, or ValueError for a non-date |
| Dates.DashFallback | lambda_function.py:116-120 | without a slash window, the first dash window decides |
| Dates.ValidComesFromADate | lambda_function.py:108-128 | a valid result is the timestamp of a real date written in the text |
| Dates.SeparatorIrrelevant | lambda_function.py:112-120 | a date written with either separator gives its timestamp, flagged valid |
| Dates.SlashExample | lambda_function.py:112-115 | "Valid to 15/03/2024" gives 1710460800, valid |
| Dates.NotADateExample | lambda_function.py:117-119 | "31-02-2024" raises ValueError |
| Dates.NoWindowExample | lambda_function.py:121-123 | "2024.03.15" gives (now, False) |
| Expiry.ResolveExpiry | lambda_function.py:171-174 | both valid: the maximum of the two; only validity-to valid: validity-to; validity-to invalid: the expiry unchanged |
| Expiry.LaterDateWins | lambda_function.py:171-172 | for two real dates, the expiry resolved from their timestamps is the timestamp of the later date |
| Expiry.NeverBeforeValidityEnd | lambda_function.py:171-174 | once validity-to has been read, the stored expiry is at least validity-to, whatever the expiry answer |
| Expiry.NeitherDateRead | lambda_function.py:168-174 | with neither date read, the stored expiry is `now` |
| Certificates.Without | lambda_function.py:186-188 | the filter never lengthens the list |
| Certificates.WithoutConcat | lambda_function.py:186-188 | the filter distributes over concatenation, so relative order is kept |
| Certificates.WithoutCount | lambda_function.py:186-188 | every copy of the new certificate is removed, and each other entry keeps its count |
| Certificates.WithoutDistinct | lambda_function.py:186-188 | filtering a list without repeats leaves one without repeats |
| Certificates.MergeCertificates | lambda_function.py:177-189 | the list is non-empty, ends with the new certificate and is at most one longer than the prior list |
| Certificates.MergeOnce | lambda_function.py:177-189 | the new certificate appears exactly once |
| Certificates.MergeMembers | lambda_function.py:177-189 | before the new certificate stand exactly the prior certificates of the same worker that differ from it |
| Certificates.WithoutMembers | lambda_function.py:186-188 | an entry is kept exactly when it is a prior entry that differs from the new certificate |
| Certificates.MergePrefix | lambda_function.py:177-189 | everything before the new certificate is the filtered prior history for the same worker, and nothing otherwise |
| Certificates.ResetCases | lambda_function.py:178-181 | another worker, no prior value, or a prior value of another shape gives just the new certificate |
| Certificates.MergeDistinct | lambda_function.py:177-189 | a duplicate-free prior history gives a duplicate-free result |
| Certificates.MergeIdempotent | lambda_function.py:185-189 | merging the same certificate into a merged list again changes nothing |
| Certificates.ExampleScalar | lambda_function.py:181-184 | a scalar "A" and the new "B" give [A, B]; a scalar "B" gives [B] |
| Certificates.ExampleListed | lambda_function.py:185-188 | [A, B] with "C" gives [A, B, C]; [A, B] with "B" gives [A, B] |
| Certificates.CarryListed | lambda_function.py:185-188 | the loop over a prior list keeps, in order, exactly the entries that differ from the new certificate |
| Certificates.BuildCertificates | lambda_function.py:177-189 | the appending loop computes MergeCertificates |
| Reconcile.ExtractQueries | lambda_function.py:90-99 | a failure of the collaborators is passed on unchanged; a result is a well-formed dictionary holding one answer per query_map entry |
| Reconcile.FirstAnswer | lambda_function.py:158-164 | indexing the defaultdict succeeds exactly for an alias with a non-empty list and gives its first answer; otherwise IndexError |
| Reconcile.NoOpExactly | lambda_function.py:138-141 | the result is None exactly for a MODIFY whose old card URL equals the new one, whatever the OCR service and the clock |
| Reconcile.NoOpStable | lambda_function.py:138-141 | a no-op event stays a no-op when processed again with any collaborators |
| Reconcile.UpdateFields | lambda_function.py:155-216 | the update is keyed (worker, id), its names and reference number are the first answers to their queries, and its certificate list ends with the first answer to Type |
| Reconcile.UpdateDates | lambda_function.py:166-174 | the validity dates are the normalised answers, the stored expiry is the expiry rule applied to the normalised validity-to and expiry answers, and so it is never before a validity end that was read |
| Reconcile.SameWorkerMerges | lambda_function.py:178-189 | a MODIFY for the same display name and reference number keeps the differing prior certificates in order, then appends the new one |
| Reconcile.OtherwiseResets | lambda_function.py:177-189 | any other event stores one certificate only |
| Reconcile.InsertExample | lambda_function.py:166-189 | an INSERT dated 01/01/2024 to 01/01/2025, expiring 15/02/2025, stores the later expiry and [WelderCert] |
| Reconcile.ReadAnswers | lambda_function.py:158-164 | reading succeeds exactly when each of the seven aliases has a non-empty answer list, and fails only with IndexError |
| Reconcile.SameWorker | lambda_function.py:178-179 | the same worker only on a MODIFY whose old display name and reference number equal answers that were found |
| Reconcile.PriorOf | lambda_function.py:143-146 | the prior certificates are the old image's on a MODIFY, and absent otherwise |
| Reconcile.Assemble | lambda_function.py:166-216 | it fails exactly when a date answer raises, with ValueError; otherwise the fields are the event's key, the answers read, the normalised dates, an expiry that is the later of the two dates when both are read, validity-to when only it is read, and the normalised expiry answer otherwise, and a history ending with the certificate read |
| Reconcile.Reconcile | lambda_function.py:132-216 | a MODIFY without an old image raises KeyError; None only for a MODIFY with an unchanged card URL; an update only after the URL split and the OCR extraction succeeded, keyed (worker, id) |
| Reconcile.ReadAnswersFields | lambda_function.py:158-164 | each of the seven answers read is the first answer to its query |
| Reconcile.AssembleFields | lambda_function.py:198-216 | the field set carries the event's id, the answers read and the merged certificates |
| Reconcile.ScanWorkerCard | lambda_function.py:132-216 | the step-by-step handler computes Reconcile |

## Left out

- The boto3 calls are not modelled: S3 `get_object`, Textract `analyze_document` and DynamoDB `update_item`. They are network calls. The first two together are the `Ocr` parameter. The model ends with the `WorkerUpdate` the write would send, so the table's response and its `ClientError` are not modelled.
- `time.time()` is the parameter `now`, one value for all three calls.
- `datetime.timestamp` of a naive datetime uses the host's time zone. The model takes it to be UTC (the Lambda default) and ignores the float-to-int conversion, since midnight is a whole second.
- The `re` engine is replaced by a window scan. `\d` is read as the ASCII digits, while Python's `\d` also matches other Unicode decimal digits. `strptime` accepts those only in the year and in the second digit of a day starting with 1 or 2, and raises ValueError for them anywhere else. For a window holding such digits, the source therefore raises ValueError or parses the date, while the model finds no window and returns `(now, False)` (or reads a later ASCII window).
- `print_kvs` is logging only. It is not defined in the file, so the real handler would raise NameError at that call. The model treats the call as absent.
- The `try`/`except` wrappers that only re-raise are omitted. They add no behaviour.
- The DynamoDB attribute nesting of the event is flattened into the fields of `Event` and `OldImage`.
  - A missing attribute in the event or the old image, which raises KeyError in the source, is not modelled. The sole exception is an absent `OldImage` on a MODIFY event.
  - A list entry of the prior certificates without an `S` field, which would raise KeyError, is not modelled either.
  - Only `event['Records'][0]` is read. Further records of a batch are ignored, and an empty `Records` list, which raises IndexError, is not modelled. An `Event` is that first record.
  - An empty `cardImages` list in the new or the old image, which raises IndexError at the `[0]` index, is not modelled. The card URL is a plain string field.
- A block without `Id` or `BlockType`, which raises KeyError in the partition loop, is not modelled. Every `Block` carries both.
- A relationship without `Type` or `Ids`, which raises KeyError in `find_answer_block`, is not modelled. Every `Relationship` carries both.
- The hard-coded query list of `get_qa_map` is configuration, not logic. The aliases enter the model only as the seven keys `Reconcile.ReadAnswers` reads.
- The unused `blocks_map` parameter of `get_query_text` is omitted.
- Block payloads are plain fields. A QUERY block without `Query.Alias`, or a QUERY_RESULT block without `Text`, would raise KeyError in the source. That case is not modelled.
- The inner loop of `find_answer_block` over the ids is the separate method `QueryAnswers.FollowAnswerIds`, to keep each proof small. The behaviour is unchanged.
