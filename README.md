# VQA image screening service, modelled in Dafny

The system screens images with a visual question answering model. A client
posts batches of images, together with a list of yes/no questions and the
answers expected for them, to an HTTP endpoint. The server normalises the form
fields, decodes the uploads and calls the scoring engine. The engine asks the
model each question about each window of images. It fills a 0/1 score matrix
with exact answer matches, computes each image's weighted score and decides
whether to accept the image. This is done under one of two policies:

- **strict**: every question must match;
- **weighted**: the weighted sum must reach the threshold.

A separate script computes accuracy, precision, recall and F1 of the accepted
set against ground-truth labels.

The modules follow the program:

| module | file | models |
|---|---|---|
| `Builtins` | builtins.dfy | the raised exceptions as a `Result`, Python's `xs[:k]` |
| `Text` | text.dfy | `str.strip`, `str.split(sep)`, `str.split()`, `str.count` |
| `Chunks` | chunks.dfy | `range(0, n, bs)` with `end = start + bs if n - start >= bs else n`, shared by the engine and the client |
| `Vqa` | vqa.dfy | `VQAModel.__call__` on an `array2<int>` score matrix, and the `VQAEngine` name dispatch |
| `Concat` | concat.dfy | `process_concatenated_questions` and `process_concatenated_expected_answers` |
| `Metrics` | metrics.dfy | `calculate_metrics`: confusion counts and guarded ratios |
| `Client` | client.dfy | path selection and the batch loop of the client's `main` |
| `Server` | server.dfy | the normalisation, upload loop and error mapping of `process_images` |

Each imperative part is a method proved against a specification function.
The score-matrix filling, the formatting loop, the upload loop and the client
loop are built this way. Each such method ensures `r == Spec(...)`, except that the score-matrix methods state their effect cell by cell: which cells they set to which value and which they leave as they were. The lemmas
next to each function then state what the source promises about it.

Some behaviour is absent from the code, so the model does not have it either:

- a −0.1 penalty for a mismatch (a mismatch cell is 0);
- a confidence factor;
- substring answer matching (membership is exact);
- metrics over a prefix subset of the labels;
- rounding of the metrics;
- an `accepted_images` list in the server's reply.

Other design notes:

- `assert` statements are modelled as raising, as they do without `python -O`.
- A missing `question_weights` field raises when `.split()` is called on `None`.
- FastAPI raises `RequestValidationError` before the handler body runs. The
  handler's 400 branch therefore cannot fire from inside the body. The model
  maps every failure of the body to 500 and proves it (`Server.FailuresAre500`).

## Model

| member | source | states |
|---|---|---|
| Builtins.SliceTo | TEST_CLIENT.py:26 | Python's `xs[:k]`: the first min(k, n) items for k ≥ 0, all but the last abs(k) items (or none) for negative k |
| Text.Strip | vqa_module/utils.py:13 | `s.strip()` is empty exactly when s is all whitespace, and otherwise starts and ends with non-whitespace |
| Text.StripLeftFacts | vqa_module/utils.py:13 | stripping the left end keeps a suffix and drops only whitespace |
| Text.StripRightFacts | vqa_module/utils.py:13 | stripping the right end keeps a prefix and drops only whitespace |
| Text.StripStripped | vqa_module/utils.py:13 | strip leaves an already stripped string unchanged |
| Text.StripChars | vqa_module/utils.py:13 | every character of `s.strip()` occurs in s |
| Text.SplitOn | vqa_module/utils.py:11 | `s.split(sep)` always yields at least one piece |
| Text.JoinSplitOn | vqa_module/utils.py:11 | joining the pieces of `s.split(sep)` with sep gives back s |
| Text.SplitOnJoin | vqa_module/utils.py:11 | splitting `sep.join(parts)` on sep (one or two distinct characters) gives back the parts when no part contains sep |
| Text.NoSeparatorOnePiece | vqa_module/utils.py:11 | a string without the separator splits into itself alone |
| Text.SplitOnChars | vqa_module/utils.py:11 | every character of every piece occurs in the split string |
| Text.SplitOnCharFree | vqa_module/utils.py:20 | no piece of `s.split(',')` contains ',' |
| Text.Words | vqa_module/utils.py:22 | every token of `s.split()` is non-empty and has no whitespace |
| Text.WordsOfNonBlank | vqa_module/utils.py:22 | a non-blank string has at least one token |
| Text.WordsJoinWords | vqa_module/utils.py:22 | `" ".join(ws).split() == ws` for non-empty whitespace-free tokens |
| Text.WordsChars | vqa_module/utils.py:22 | every character of a token occurs in the string |
| Text.JoinWordsStripped | vqa_module/utils.py:22 | a space-joined list of tokens is non-blank and stripped |
| Text.Count | vqa_module/main.py:41 | `s.count(c)` is at most len(s) and positive exactly when c occurs in s |
| Text.CountAppend | vqa_module/main.py:41 | count is additive over concatenation |
| Chunks.ChunkEnd | vqa_module/model/vqa_module.py:59 | a window's end is min(start + batch_size, n) |
| Chunks.StartsShape | vqa_module/model/vqa_module.py:55 | `range(0, n, bs)` has ceil(n / bs) starts, the k-th being k·bs < n |
| Chunks.StartsFromShape | vqa_module/model/vqa_module.py:55 | the starts from any offset are spaced by bs and stop at the first one reaching n |
| Chunks.ChunkOfItem | vqa_module/model/vqa_module.py:55-59 | every image index below n lies in exactly one window, which holds at most bs images |
| Chunks.ChunkOfStart | TEST_CLIENT.py:75 | the start k·bs lies in its own window and `(k·bs) // bs == k` |
| Chunks.BatchesShape | TEST_CLIENT.py:61-64 | the batches concatenate back to the path list, number ceil(n / bs), the k-th is `paths[k·bs : min(k·bs + bs, n)]`, each non-empty and at most bs long |
| Chunks.BatchesFromFlatten | TEST_CLIENT.py:61-64 | the batches from an offset concatenate to the suffix from that offset |
| Chunks.BatchesFromCount | TEST_CLIENT.py:61 | there is one batch per loop start |
| Chunks.BatchesFromAt | TEST_CLIENT.py:62-64 | the k-th batch is the slice from the k-th start to its end |
| Chunks.TwoHundredFiftyByHundred | TEST_CLIENT.py:61-64 | 250 paths in batches of 100 are [0:100], [100:200], [200:250] |
| Vqa.SelectModel | vqa_module/model/vqa_module.py:105-109 | the engine is built exactly for 'blip-vqa-capfilt-large', any other name raises |
| Vqa.MatchValue | vqa_module/model/vqa_module.py:68 | a cell is 1 exactly when the answer is in the expected list, and 0 otherwise |
| Vqa.ValidationBeforeGeneration | vqa_module/model/vqa_module.py:37-39 | unequal question, answer and weight counts, or weights not summing to 1.0, raise before any generation, whatever the images, batch size, threshold or model |
| Vqa.UnitScoreBound | vqa_module/model/vqa_module.py:49-81 | under unit weights a 0/1 row scores at most its length, with equality exactly when every cell is 1 |
| Vqa.StrictAcceptance | vqa_module/model/vqa_module.py:46-81 | in strict mode an image is accepted exactly when every cell of its row is 1 |
| Vqa.PolicyVerdict | vqa_module/model/vqa_module.py:46-94 | a verdict's results are the row and its score the weighted sum. Acceptance is all-ones when the threshold is falsy and weighted sum ≥ threshold when it is truthy |
| Vqa.RowMeaning | vqa_module/model/vqa_module.py:53-69 | a row is 0/1 and cell q is 1 exactly when the batch size is positive and the answer generated for the image in its window is in expected[q] |
| Vqa.ImageVerdict | vqa_module/model/vqa_module.py:16-96 | per image in a successful call: its entry is under its key, holds one 0/1 result per question matching the generated answer, the weighted score, and the decision of the policy the threshold selects |
| Vqa.EngineOutputKeys | vqa_module/model/vqa_module.py:84-87 | the output keys are the images' keys (filename from idx_to_name, else the index), one entry per image when keys are distinct |
| Vqa.NoImagesNoOutput | vqa_module/model/vqa_module.py:55-96 | with no images, a valid call generates nothing and returns an empty output |
| Vqa.OutputUpToAt | vqa_module/model/vqa_module.py:84-94 | after k iterations, image i's entry is its verdict unless a later image shares its key |
| Vqa.OutputUpToKeys | vqa_module/model/vqa_module.py:84-87 | after k iterations the keys are those of the first k images |
| Vqa.OutputUpToSize | vqa_module/model/vqa_module.py:84-87 | with distinct keys, k iterations leave k entries |
| Vqa.Call | vqa_module/model/vqa_module.py:16-96 | the imperative engine (zeroed matrix, window and question loops, formatting loop) returns exactly Evaluate's result or error |
| Vqa.FillScores | vqa_module/model/vqa_module.py:53-69 | the window loop succeeds exactly when every generation returns one answer per image, and then every cell holds its match value |
| Vqa.FillWindow | vqa_module/model/vqa_module.py:56-69 | one window: succeeds exactly when every question gets one answer per image. It then fills that window's cells. Rows before the window and rows from its end on are left unchanged |
| Vqa.FillColumn | vqa_module/model/vqa_module.py:67-69 | one slice assignment writes the window's cells of one question and nothing else |
| Vqa.FormatOutput | vqa_module/model/vqa_module.py:84-96 | the formatting loop raises KeyError when idx_to_name lacks an index, otherwise builds the output of all rows |
| Vqa.ReadRow | vqa_module/model/vqa_module.py:88 | `scores[idx].tolist()` is the idx-th row |
| Concat.NonBlank | vqa_module/utils.py:13 | the filter keeps only non-blank pieces and is empty exactly when every piece is blank |
| Concat.NonBlankAppend | vqa_module/utils.py:13 | filtering a concatenation is the concatenation of the filtered parts, so kept pieces stay in input order |
| Concat.NonBlankFrom | vqa_module/utils.py:13 | every kept piece is one of the input pieces |
| Concat.KeepQuestions | vqa_module/utils.py:13 | one entry `strip(piece) + "?"` per non-blank piece, in order |
| Concat.DropLastMark | vqa_module/utils.py:14 | `questions[-1] = questions[-1][:-1]` raises IndexError exactly on an empty list |
| Concat.ParseQuestions | vqa_module/utils.py:9-16 | the parser fails exactly when there is no first entry or every `?,` piece of it is blank |
| Concat.KeptShape | vqa_module/utils.py:13-14 | a parse has one entry per non-blank piece: strip(piece) + "?" except the last, which is strip(piece) alone |
| Concat.KeptClean | vqa_module/utils.py:13-14 | every parsed question is non-empty and starts with non-whitespace |
| Concat.QuestionsShape | vqa_module/utils.py:10-14 | ParseQuestions on questions[0]: the shape above plus clean entries |
| Concat.SplitTrailingExample | vqa_module/utils.py:11 | "A?,B?," splits into ["A", "B", ""] |
| Concat.KeepTrailingExample | vqa_module/utils.py:13 | those pieces give ["A?", "B?"] |
| Concat.TrailingSeparatorDropsMark | vqa_module/utils.py:11-14 | a trailing `?,` makes the last question lose its "?": ["A?,B?,"] parses to ["A?", "B"] |
| Concat.JoinQuestionPieces | vqa_module/utils.py:11 | ",".join(qs) is the join on "?," of every body except the last question, which keeps its mark |
| Concat.SplitJoinedQuestions | vqa_module/utils.py:11 | splitting ",".join(qs) on "?," gives those pieces |
| Concat.KeepQuestionPieces | vqa_module/utils.py:13 | those pieces are kept as the questions, with the last carrying an extra "?" |
| Concat.DropLastMarkSnoc | vqa_module/utils.py:14 | the last assignment removes exactly the last character of the last entry |
| Concat.ParseJoinedQuestions | vqa_module/utils.py:10-14 | the parse of a joined list only depends on its first entry |
| Concat.QuestionsRoundTrip | vqa_module/utils.py:10-14 | questions that end in "?", whose text before that final "?" is stripped and non-blank, and that contain no "?," are returned unchanged by parsing ",".join of them. A question other than the last whose text before the "?" ends in whitespace, such as "a ?", comes back altered, because the parser strips each piece; in last place it comes back unchanged |
| Concat.SpacedQuestionAltered | vqa_module/utils.py:10-14 | "a ?,b?" parses to ["a?", "b?"]: a spaced question other than the last loses its space |
| Concat.SpacedLastQuestionKept | vqa_module/utils.py:10-14 | "b?,a ?" parses to ["b?", "a ?"]: the same question in last place is unchanged |
| Concat.AnswerGroups | vqa_module/utils.py:22 | one group `strip(field).split()` per non-blank field, in order |
| Concat.ParseAnswers | vqa_module/utils.py:18-24 | the answer parser fails exactly when there is no first entry |
| Concat.AnswersShape | vqa_module/utils.py:19-22 | one non-empty group per non-blank field, and every token is non-empty with no whitespace and no ',' |
| Concat.BlankAnswers | vqa_module/utils.py:20-22 | an all-blank first entry gives no groups |
| Concat.AnswerFields | vqa_module/utils.py:22 | the wire form of each group is its tokens joined by spaces |
| Concat.GroupsOfFields | vqa_module/utils.py:22 | each field of that form gives back its group |
| Concat.AnswersRoundTrip | vqa_module/utils.py:19-22 | groups of non-empty tokens without whitespace or ',' survive joining (space inside, ',' between) and parsing |
| Metrics.TruePositives | metrics.py:13 | TP counts prediction entries, duplicates included, labelled 1, and is at most len(pos_predictions) |
| Metrics.FalseNegatives | metrics.py:15 | FN counts positive labels not predicted and is at most the number of positive labels |
| Metrics.CountsOf | metrics.py:13-16 | TP + FP = len(pos_predictions) and TP + FP + FN + TN = len(true_labels) |
| Metrics.ScoresOf | metrics.py:18-21 | precision, recall and F1 of a table are each in [0, 1] |
| Metrics.CalculateMetrics | metrics.py:3-23 | KeyError exactly when a prediction has no label, else ZeroDivisionError exactly on an empty label map. Otherwise precision, recall and F1 lie in [0, 1] |
| Metrics.TruePositivesDistinct | metrics.py:13 | without duplicates, TP is the number of predicted ids that are positive |
| Metrics.DistinctCounts | metrics.py:13-16 | without duplicates, each count is one cell of the confusion table: TP + FN is the number of positives, and TN is the number of unpredicted negatives |
| Metrics.ScoreExtremes | metrics.py:19-20 | precision is 1 exactly when TP > 0 and FP = 0, recall is 1 exactly when TP > 0 and FN = 0, and each is 0 exactly when TP = 0 |
| Metrics.DistinctPrecisionRecall | metrics.py:19-20 | without duplicates, precision is hits / predicted ids and recall is hits / positive ids, each 0 when its denominator is empty |
| Metrics.DistinctAccuracy | metrics.py:18 | without duplicates, accuracy is the share of labels classified correctly, in [0, 1] |
| Metrics.F1OfCounts | metrics.py:19-21 | the guarded harmonic mean of the guarded precision and recall is 2TP / (2TP + FP + FN), and 0 when TP = 0 |
| Metrics.F1Closed | metrics.py:19-21 | calculate_metrics's F1 in closed form |
| Metrics.HalfExample | metrics.py:13-21 | labels {a:1, b:0, c:1, d:0} and predictions [a, b] give 0.5 for all four metrics |
| Metrics.DuplicatePredictionExample | metrics.py:13-18 | a prediction listed twice counts twice, giving TN = −1 and accuracy −1 |
| Client.SelectPaths | TEST_CLIENT.py:23-26 | the whole sorted listing for total_images = −1, otherwise the Python slice `[:total_images]`, each joined to ./imgs |
| Client.Accumulate | TEST_CLIENT.py:58-77 | one saved response per batch |
| Client.Outcome | TEST_CLIENT.py:61 | the loop raises exactly for batch size 0 |
| Client.SendBatches | TEST_CLIENT.py:58-77 | the imperative loop (starts i, slices, accumulators, file index i // bs) returns exactly Outcome |
| Client.AccumulateStep | TEST_CLIENT.py:70-76 | one more batch adds its response to each accumulator and saves it under the batch's ordinal |
| Client.BatchCount | TEST_CLIENT.py:61 | k·bs is a loop start exactly when k is below the number of batches |
| Client.BatchStep | TEST_CLIENT.py:61-75 | the k-th pass slices the k-th batch and files it as `(k·bs) // bs == k` |
| Client.AccumulateMeaning | TEST_CLIENT.py:60-76 | accepted_images is the in-order concatenation of the responses' lists, and the k-th saved response is the k-th batch's |
| Client.AccumulateTimes | TEST_CLIENT.py:58-71 | the time totals of a run are additive over consecutive parts of it |
| Client.RunShape | TEST_CLIENT.py:61-76 | a run posts every path once, in order, in ceil(n / bs) batches of at most bs |
| Client.NothingPosted | TEST_CLIENT.py:58-61 | no paths or a negative batch size post nothing and leave every accumulator at its start value |
| Client.TwoHundredFiftyPaths | TEST_CLIENT.py:61-76 | 250 paths in batches of 100 save three responses, files 0, 1 and 2 |
| Server.NormaliseQuestions | vqa_module/main.py:41 | an empty list raises IndexError; when the first entry has more than one "?" the result is exactly that of parsing the list as one concatenated string (so its errors too), otherwise the list is returned unchanged |
| Server.NormaliseAnswers | vqa_module/main.py:42 | an empty list raises IndexError; when the first entry contains ',' the result is exactly that of parsing the list as one concatenated string, otherwise entry k becomes the whitespace-split words of entry k, for every k |
| Server.QuestionsNormalised | vqa_module/main.py:41 | two or more well-formed questions sent as one joined string come back unchanged |
| Server.AnswersNormalised | vqa_module/main.py:42 | two or more answer groups sent as one joined string come back unchanged |
| Server.AnswerListNormalised | vqa_module/main.py:42 | answer groups sent as a list of space-joined entries come back unchanged |
| Server.ParseFloats | vqa_module/main.py:44 | `[float(x) for x in tokens]` succeeds exactly when every token converts, else raises on a token |
| Server.ParseFloatsError | vqa_module/main.py:44 | the error names the first token `float()` rejects: every earlier token converts |
| Server.ParseFloatsValues | vqa_module/main.py:44 | on success, one weight per token, each its conversion |
| Server.ParseWeights | vqa_module/main.py:44 | a missing weights field raises |
| Server.Load | vqa_module/main.py:49-54 | a successful load has one image per upload and a name for every index, and a failure names the first upload that does not decode: every earlier upload decodes |
| Server.LoadImages | vqa_module/main.py:49-54 | the upload loop returns exactly Load |
| Server.LoadPrefixErr | vqa_module/main.py:51-53 | once an upload fails to decode, the later uploads change nothing |
| Server.LoadMeaning | vqa_module/main.py:49-54 | the load succeeds exactly when every upload decodes. Then idx_to_name has exactly the indices 0..n−1, image k is upload k decoded, and name k is upload k's filename |
| Server.LoadedKeys | vqa_module/main.py:50-52 | the engine's keys for the loaded images are the uploads' filenames |
| Server.Process | vqa_module/main.py:41-71 | a reply never holds an image entry under "time_taken", and carries the elapsed time there |
| Server.ProcessImages | vqa_module/main.py:31-71 | the handler body returns exactly Process |
| Server.ReplyKeys | vqa_module/main.py:59-71 | the reply's image keys are the uploads' filenames except "time_taken" |
| Server.StatusOf | vqa_module/main.py:73-78 | 400 exactly for a validation error, 500 for anything else |
| Server.Respond | vqa_module/main.py:71-78 | a body exactly on success, a status otherwise |
| Server.FailuresAre500 | vqa_module/main.py:73-78 | every failure of the handler body reaches the client as a 500 |

## Left out
- Vqa.Call: the weights are always a list. The default `question_weights=None` of `VQAModel.__call__` (vqa_module/model/vqa_module.py:21) makes `len(question_weights)` raise TypeError at line 38, and an absent list is not modelled.
- Vqa.FormatOutput: the output is a `map<Key, Verdict>`, so the insertion order of the Python dict (image order, vqa_module/model/vqa_module.py:84-94) is not modelled.
- The vision-language model (BLIP loading, `processor`, `generate`, `batch_decode`, torch tensors and devices, `gc.collect`, `cuda.empty_cache`) is the `Generator` parameter: a function from a window of images and a question to the decoded answers.
- `VQAModel.__init__` and `BLIPCapliftLarge.__init__` only store the device and load model weights. The model keeps just the kind selected by `Vqa.SelectModel`.
- Vqa.FormatOutput: `score` is the unrounded weighted sum, because `round(x, 2)` is float formatting. Acceptance is decided on the unrounded sum, as in the source.
- Vqa.ImageVerdict: states the unrounded score, for the same reason.
- Weights, threshold, sums and timings are `real`: IEEE rounding is not modelled, and `sum(question_weights) == 1.0` is exact real equality.
- Server.ParseFloats: `float()` is the parameter `toReal`. Python's float grammar is not modelled.
- Server.Load: `preprocess_image` (PIL decoding) is the parameter `decode`. A decode failure is one exception naming the upload.
- Server.Process: `time_taken` is `round(time.time() - start, 2)` in the source. The model takes the elapsed time as a parameter and does not round it.
- FastAPI/pydantic request binding and its validation errors happen before the handler. FastAPI's default handler answers them, with 422. `StatusOf` models only the handler's own `except RequestValidationError` clause, which nothing inside the handler can reach.
- `docs_redirect`, loguru logging, `app.log` and the module-level engine construction are plumbing.
- The async `await image.read()` is modelled as a sequential loop: the handler has no concurrency of its own.
- Client.SendBatches: `requests.post` and reading the response JSON are the parameter `post`. Writing each response file is modelled by the `Saved` record (ordinal and response), not as file I/O.
- Client.SelectPaths: `os.listdir` is the `listing` parameter, assumed already sorted. `os.path.join` is modelled for plain file names only.
- The client's argparse, output directories, timestamps, params/data JSON files, tqdm and the final `stats_overall.json` (with its rounding) are I/O.
- The client reads `accepted_images` from each response, but the server modelled here does not emit that key. The two sides are not connected in the model.
- Metrics.CalculateMetrics: the labels JSON file is the `labels` map parameter. Python's int-to-float true division is real division.
- Vqa.Call: `assert` is modelled as raising. Under `python -O` the checks at lines 37-39 and 67 would not run, and that mode is not modelled.
- vqa_module/__init__.py only sets CUDA environment variables.
- vqa_module/TEST_CLIENT.py is a one-shot request script.
