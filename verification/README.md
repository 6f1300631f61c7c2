# Receipt pipeline post-processing, verified

The receipt pipeline runs three models: a detector that finds the PO-number
header and the line-item table on a scanned receipt, an OCR engine that reads
the header, and an image-to-sequence decoder that turns the table crop into a
flat tag stream. This project models the deterministic logic between those
models and proves what it guarantees:

- **The tag-stream decoder.** `TableParser._token2json` turns a string such
  as `<item><name>Bolt</name><qty>4</qty></item>` into a nested record. The
  clean-up before it removes the end and padding markers, deletes the
  leftmost `<...>` tag wherever it stands (in the decoder's output, the
  start-of-task prompt) and trims whitespace. These live in modules
  `Extractor` and `ExtractorProps`. The decoder is a `while` loop over a
  shrinking string that fills a map in place and recurses into values that
  hold tags. It is modelled as the method `Extractor.Token2Json` and is
  proved equal to the recursive specification `Extractor.Decode`. The
  properties are proved about `Decode`.
- **The PO-number plausibility score.** `TextReader.validate_po` lives in
  module `Ocr`. A banned word vetoes (0). Otherwise a run of five `[A-Z0-9-]`
  characters in the upper-cased text scores 100, and otherwise a run of four
  digits scores 50. Each regular-expression search is a character scan,
  proved equal to a reference definition ("some window of n class
  characters").
- **`ReceiptPipeline.process`.** This lives in modules `Pipeline` and
  `PipelineProps`. Each detection is routed by class. The best header
  candidate is picked by a stable descending sort. The table boxes are merged
  into one padded, clamped crop. The result record gets the PO number and
  the debug image. `Pipeline.Process` is the loop and the record updates. It
  is proved equal to `Pipeline.Outcome`, a function of the detections, and
  the properties are proved about `Outcome`.

Some definitions are specifications whose meaning is stated by the lemmas
about them rather than by a contract of their own:

- `Pipeline.Candidates` and `Pipeline.TableBoxes` route the detections
  (src/pipeline.py:42-64). `PipelineProps.CandidatesSound`,
  `CandidatesComplete`, `TableBoxesExact`, `OtherClassNoCandidate`,
  `OtherClassNoTableBox` and the two `Split` lemmas characterise them.
- `Pipeline.SelectPo` picks the PO number (src/pipeline.py:67-70).
  `PipelineProps.SelectPoIsFirstMax` characterises it.
- `Pipeline.TableRecord` crops, decodes and converts the table
  (src/pipeline.py:74-95). `PipelineProps.NoTableOutcome`,
  `DecoderOnlyAtCrop` and `DecodedKeysKept` characterise it.
- `Pipeline.Assemble` adds the two result keys (src/pipeline.py:97-99).
  `Pipeline.AssembleKeys` characterises it.
- `Ocr.Vetoed` is the banned-word test (src/modules/ocr.py:34-36). The
  second ensures of `Ocr.ValidatePo` and `Ocr.InvoiceVetoed` state its effect.

Module `PyText` holds the Python string primitives the code relies on, as
explicit scans:

- `str.strip()` over the `str.isspace()` set;
- slicing, where a start past the end gives `""`;
- `in`;
- the first literal occurrence of a pattern;
- `str.replace(pat, "")`.

Two consequences of src/modules/extractor.py:75-76 that the model keeps:

- a repeated key whose value holds no tag overwrites the earlier value
  (extractor.py:75-76); it is not collected into a list;
- `<a><b>1</b><b>2</b></a>` decodes to `{a: {b: "2"}}`.

The models are parameters. The detector's output is a sequence of
detections. `read(box)` is the OCR text of a box. `raw(box)` is the
decoder's raw output for a crop. The image size is two integers.

## Model

| member | source | states |
|---|---|---|
| PyText.Strip | src/modules/extractor.py:63 | the result is a contiguous piece of the input, with only whitespace (the `isspace` set) cut from both ends, and it neither starts nor ends with whitespace |
| PyText.StripKeepsTrimmed | src/modules/extractor.py:48 | text that neither starts nor ends with whitespace is left unchanged by `strip()` |
| PyText.StripIdempotent | src/modules/extractor.py:48 | stripping twice is stripping once |
| PyText.FindSub | src/modules/extractor.py:59 | the literal pattern occurs at the returned index and at no earlier one; None means it occurs nowhere |
| PyText.RemoveAll | src/modules/extractor.py:47 | the result is never longer, and it equals the input exactly when the pattern is empty or does not occur |
| PyText.RemoveFromSize | src/modules/extractor.py:47 | the left-to-right scan never lengthens the text, shortens it exactly when the pattern occurs, and leaves it unchanged otherwise |
| PyText.RemoveFromFirst | src/modules/extractor.py:47 | at the leftmost occurrence `i`, the scan keeps `s[..i]`, drops the occurrence and goes on with the rest after it |
| PyText.RemoveAllFind | src/modules/extractor.py:47 | `replace` in terms of the first-occurrence search: with no occurrence the text is unchanged; with the first one at `i`, the result is `s[..i]` followed by `replace` on the text after the occurrence |
| Extractor.FindOpen | src/modules/extractor.py:56 | the leftmost `<name>` with a `[a-zA-Z0-9_]+` name, or None when the text holds none |
| Extractor.FindLazyTag | src/modules/extractor.py:64 | the leftmost `<.*?>` match: it ends at the first `>`, with no newline inside; None when there is none |
| Extractor.LazyTagEnd | src/modules/extractor.py:48 | a `<.*?>` match that starts at a given index has only one possible end |
| Extractor.RemoveFirstLazyTag | src/modules/extractor.py:48 | `re.sub(..., count=1)`: a match exists exactly when a leftmost one does; for the leftmost match `s[i..j+1]` the result is `s[..i] + s[j+1..]`; with no match the text is unchanged, and with one it is strictly shorter |
| Extractor.Cleanup | src/modules/extractor.py:46-48 | the cleaned text is never longer than the raw output and starts and ends with a non-space |
| Extractor.MergeNested | src/modules/extractor.py:64-74 | a nested record is stored under the key, other keys are kept, and the key holds a list exactly when it was already present; that list holds the earlier entries followed by the new record |
| Extractor.NextElement | src/modules/extractor.py:56-77 | a successful search step leaves a strictly shorter remainder and a shorter value |
| Extractor.Token2Json | src/modules/extractor.py:52-82 | the loop with in-place updates and recursion returns exactly `Decode(tokens)`, and it terminates |
| Extractor.ExtractTable | src/modules/extractor.py:46-50 | `extract_table` from the raw sequence on decodes the cleaned-up text |
| ExtractorProps.FindOpenIsFirst | src/modules/extractor.py:56 | the opening tag the search returns is the first one in the text |
| ExtractorProps.ElementShape | src/modules/extractor.py:56-77 | a step consumes a `<key>` and a `</key>` that both occur in the text, the value lies inside it, and the rest is a strict suffix |
| ExtractorProps.StopIff | src/modules/extractor.py:56-81 | the loop stops exactly when there is no opening tag, or when the first opening tag's name has no closing tag anywhere |
| ExtractorProps.StopKeepsOutput | src/modules/extractor.py:78-81 | in both stop cases the record built so far is returned unchanged |
| ExtractorProps.DecodeFromOpened | src/modules/extractor.py:55-77 | each step keeps the invariant that every key, at every depth, is a tag name whose opening tag occurs in the input |
| ExtractorProps.DecodeKeepsKeys | src/modules/extractor.py:64-76 | a key stored by one step is present after every later step |
| ExtractorProps.ShapedMerge | src/modules/extractor.py:69-74 | merging a record under a key keeps the output well-shaped: a list has at least two entries, none a list, all after the first records |
| ExtractorProps.DecodeFromShaped | src/modules/extractor.py:55-77 | every loop step, including the recursive decoding of nested values, keeps the record well-shaped |
| ExtractorProps.DecodeShaped | src/modules/extractor.py:52-82 | the decoded record has no empty or one-entry list and no list inside a list, at any depth |
| ExtractorProps.DecodeKeysOpened | src/modules/extractor.py:56-58 | every key of the decoded record is a non-empty `[a-zA-Z0-9_]+` name whose `<key>` occurs in the input, and so is every nested key |
| ExtractorProps.FirstCloseAfter | src/modules/extractor.py:59 | in `<key>` + v + `</key>` + rest, with no `</key>` in v, the first `</key>` is the one right after v |
| ExtractorProps.HeadElement | src/modules/extractor.py:56-63 | the step on `<key>` + v + `</key>` + rest yields key, v and rest |
| ExtractorProps.StepKeyStored | src/modules/extractor.py:56-76 | the name of every opening tag a successful step reads is a key of the decoded record |
| ExtractorProps.DecodeFromTaggedAllKeys | src/modules/extractor.py:56-81 | on a run of elements `<k>v</k>` whose values hold no closing tag of their own, the loop adds exactly the element names to the keys it started with |
| ExtractorProps.DecodeTaggedAllKeys | src/modules/extractor.py:46-82 | the keys of the record decoded from such a run are exactly the element names, the converse of `DecodeKeysOpened` for well-formed input |
| ExtractorProps.ScalarElement | src/modules/extractor.py:75-77 | a head element whose stripped value holds no tag stores that string under the key, overwriting any earlier value, and decoding goes on with rest |
| ExtractorProps.NestedElement | src/modules/extractor.py:64-77 | a head element whose stripped value holds a tag merges the value's own decoding under the key |
| ExtractorProps.TwoScalars | src/modules/extractor.py:75-76 | two scalar elements with different keys give two string entries |
| ExtractorProps.RepeatedScalar | src/modules/extractor.py:75-76 | a repeated scalar key keeps only the last value, with no list |
| ExtractorProps.DecodeTwoScalars | src/modules/extractor.py:75-76 | `<a>1</a><b>2</b>` decodes to `{a: "1", b: "2"}` |
| ExtractorProps.DecodeRepeatedScalar | src/modules/extractor.py:75-76 | `<a>1</a><a>2</a>` decodes to `{a: "2"}` |
| ExtractorProps.SingleNested | src/modules/extractor.py:73-74 | a nested element under a new key gives one entry holding the nested record |
| ExtractorProps.MergeTwice | src/modules/extractor.py:70-74 | two records merged under one key end up in a two-element list, in order |
| ExtractorProps.RepeatedNested | src/modules/extractor.py:70-72 | a repeated key whose values hold tags collects both decoded records in a list |
| ExtractorProps.ScalarThenNested | src/modules/extractor.py:69-72 | a scalar element and then a nested one under the same key give a two-entry list: the string, then the record |
| ExtractorProps.MergeOntoScalar | src/modules/extractor.py:70-72 | merging a record under a key holding a non-list value wraps both in a list, in that order |
| ExtractorProps.DecodeScalarThenNested | src/modules/extractor.py:69-76 | `<a>x</a><a><b>1</b></a>` decodes to `{a: ["x", {b: "1"}]}` |
| ExtractorProps.UnterminatedElement | src/modules/extractor.py:59-79 | an opening tag with no closing tag after it ends decoding with the record built so far |
| ExtractorProps.DecodeUnterminated | src/modules/extractor.py:59-79 | `<a>unterminated` decodes to the empty record |
| ExtractorProps.CloseBeforeOpenStep | src/modules/extractor.py:59-63 | the closing tag is searched from the start of the text, so `</key><key>v` yields an empty value and the rest `<key>v` |
| ExtractorProps.CloseBeforeOpen | src/modules/extractor.py:59-63 | `</key><key>v` decodes to `{key: ""}` |
| ExtractorProps.CloseTagAloneStops | src/modules/extractor.py:55-81 | a lone closing tag has no opening tag, so the record is returned unchanged |
| ExtractorProps.SameNameNested | src/modules/extractor.py:59-65 | same-name nesting is not balanced: the first `</key>` closes the outer element, and the trailing `</key>` is ignored |
| ExtractorProps.DecodeSameNameNested | src/modules/extractor.py:59-65 | `<a><a>1</a></a>` decodes to `{a: {}}` |
| ExtractorProps.DecodeNestedRepeat | src/modules/extractor.py:64-76 | `<a><b>1</b><b>2</b></a>` decodes to `{a: {b: "2"}}` |
| ExtractorProps.InnerRepeat | src/modules/extractor.py:75-76 | `<b>1</b><b>2</b>` decodes to `{b: "2"}` |
| ExtractorProps.CleanupCutsFirstTag | src/modules/extractor.py:46-48 | when the marker-free text is `pre` + tag + `post` with no `<` in `pre`, the clean-up is `strip(pre + post)`, wherever the tag stands and whatever markers were deleted |
| ExtractorProps.CleanupDropsPrompt | src/modules/extractor.py:47-48 | with no marker in the text, the clean-up of prompt + body is the stripped body |
| ExtractorProps.OpenTagIsLazyTag | src/modules/extractor.py:48 | an opening tag `<name>` is also a `<.*?>` match |
| ExtractorProps.WrapperCleanup | src/modules/extractor.py:46-48 | with no marker in the text, `<w>` + a body that starts with `<` and ends with `>` cleans up to the body |
| ExtractorProps.WrapperTagDropped | src/modules/extractor.py:46-82 | the deleted tag need not be a prompt: `<w><key>v</key></w>` decodes to `{key: strip(v)}`, as `<item><name>Bolt</name></item>` decodes to `{name: "Bolt"}` |
| ExtractorProps.MarkerCanReappear | src/modules/extractor.py:47 | `replace` makes a single pass, so deleting `</s>` from `<</s>/s>` leaves a new `</s>` |
| Ocr.UpperChar | src/modules/ocr.py:33 | a lower-case ASCII letter becomes the upper-case letter at the same place in the alphabet and every other character is kept; so the result is an upper-case letter exactly when the input is a letter, and never a lower-case one |
| Ocr.Upper | src/modules/ocr.py:33 | upper-casing keeps the length and maps each character on its own, only `a`-`z` changing |
| Ocr.UpperIdempotent | src/modules/ocr.py:33 | upper-casing twice is upper-casing once |
| Ocr.SearchRun | src/modules/ocr.py:37-38 | the scan finds a run exactly when some window of n consecutive class characters exists |
| Ocr.ValidatePo | src/modules/ocr.py:29-39 | the score is 0, 50 or 100. A banned word gives 0. 100 exactly when there is no ban and the upper-cased text has a five-character `[A-Z0-9-]` run. 50 exactly when there is no ban, no such run, and the text has four digits in a row |
| Ocr.UpperDigitRuns | src/modules/ocr.py:33-38 | digit runs are the same before and after upper-casing |
| Ocr.DigitRunIsPoRun | src/modules/ocr.py:37-38 | a digit run is also a `[A-Z0-9-]` run of the upper-cased text |
| Ocr.HalfScoreMeansFourDigits | src/modules/ocr.py:37-38 | a score of 50 means a four-digit run and no five-digit run |
| Ocr.FiveDigitsScoreFull | src/modules/ocr.py:37 | five digits in a row, with no banned word, score 100 |
| Ocr.CaseInsensitive | src/modules/ocr.py:33-38 | the score of the upper-cased text equals the score of the text |
| Ocr.InvoiceVetoed | src/modules/ocr.py:34-36 | `INVOICE 12345` scores 0 although it holds a five-digit run |
| Ocr.OrderNumberScoresFull | src/modules/ocr.py:37 | `PO-88210` and `po-88210` score 100 |
| Ocr.FourDigitsScoreHalf | src/modules/ocr.py:38 | `4412` scores 50 |
| Ocr.NothingScoresZero | src/modules/ocr.py:39 | `ab` and the empty text score 0 |
| Pipeline.InsertPos | src/pipeline.py:69 | the insertion point: every element before it scores higher than the new one, and the element at it does not |
| Pipeline.InsertDesc | src/pipeline.py:69 | the new element goes at the insertion point, with everything before it and after it kept in order; the result is the input plus that one element, as a multiset |
| Pipeline.InsertDescSorted | src/pipeline.py:69 | inserting into a sequence in descending score order keeps it in descending order |
| Pipeline.SortDesc | src/pipeline.py:69 | `sorted(..., reverse=True)` is a permutation of the candidates, in descending score order |
| Pipeline.MinOf | src/pipeline.py:77-78 | the minimum is a lower bound of the side and is attained by some box |
| Pipeline.MaxOf | src/pipeline.py:79-80 | the maximum is an upper bound of the side and is attained by some box |
| Pipeline.Union | src/pipeline.py:76-80 | the union contains every table box, and each of its sides is some box's side |
| Pipeline.CropBox | src/pipeline.py:83-87 | the crop box never starts below 0 and never ends past the image size |
| Pipeline.AssembleKeys | src/pipeline.py:97-99 | the result has `po_number` set to the selected PO and `debug_image`, both overriding the record, and every other key keeps its value |
| Pipeline.Process | src/pipeline.py:30-101 | the routing loop, the selection, the crop and the key updates return exactly `Outcome` of the detections |
| PipelineProps.CandidatesSplit | src/pipeline.py:46-59 | the candidates of two runs of detections, one after the other, are the candidates of each, in order |
| PipelineProps.TableBoxesSplit | src/pipeline.py:62-64 | the same holds for table boxes |
| PipelineProps.CandidatesSound | src/pipeline.py:50-59 | every candidate comes from a class-0 detection, with a positive score that is the score of its text |
| PipelineProps.CandidatesComplete | src/pipeline.py:50-59 | every class-0 detection whose text scores above 0 yields a candidate |
| PipelineProps.TableBoxesExact | src/pipeline.py:63-64 | a box is a table box exactly when some class-1 detection has it |
| PipelineProps.OtherClassNoCandidate | src/pipeline.py:46-59 | a detection of another class adds no candidate |
| PipelineProps.OtherClassNoTableBox | src/pipeline.py:62-64 | a detection that is not class 1 adds no table box |
| PipelineProps.OtherClassIgnored | src/pipeline.py:46-64 | a detection of any class other than 0 and 1 does not change the result |
| PipelineProps.SortHead | src/pipeline.py:69 | the head of the sorted candidates is the earliest candidate of maximal score (the sort is stable) |
| PipelineProps.SelectPoIsFirstMax | src/pipeline.py:67-70 | with no candidates the PO is `Not Detected`; otherwise it is the text of the earliest highest-scoring candidate |
| PipelineProps.UnionLeast | src/pipeline.py:76-80 | the union lies inside every box that contains all the table boxes |
| PipelineProps.CropContainsUnion | src/pipeline.py:83-87 | for a union inside the image and non-negative pads, the crop contains the union and lies inside the image |
| PipelineProps.CropExample | src/pipeline.py:83-87 | boxes (0,0,10,10) and (5,5,20,20), pads (2,1) and a 100×100 image give the crop (0,0,22,21) |
| PipelineProps.NoTableOutcome | src/pipeline.py:94-95 | with no table box the result is `{error: "No table detected"}` plus the two added keys |
| PipelineProps.DecoderOnlyAtCrop | src/pipeline.py:75-95 | the decoder output matters only at the crop box, and not at all when there is no table box |
| PipelineProps.DecodedKeysKept | src/pipeline.py:93-99 | every decoded key other than the two added ones keeps its decoded value in the result |

## Left out

- Model loading, `processor(...)`, `generate(...)`, `batch_decode` and device handling (src/modules/extractor.py:6-46) are calls into the decoder model. Its raw output is the parameter `raw`.
- `read_region` and the OCR engine (src/modules/ocr.py:11-27) are left out. The text of a header box is the parameter `read`.
- Image loading, colour conversion, drawing on the debug image and pixel cropping (src/pipeline.py:31-39, 51, 54, 60, 71, 89-90) are not modelled. The debug image is an opaque entry, `DebugImage`.
- src/modules/detector.py is not part of this model. Its output is the sequence of detections.
- src/app.py, data/yoloconversion.py, src/training.py and src/print_results.py are not part of this model. They are UI, file I/O, floating-point normalisation and calls into training code.
- Extractor.Token2Json: Python dicts keep insertion order and Dafny maps do not, so the order of keys in the record is not modelled.
- Extractor.Token2Json: the branch for a list-valued recursive result (src/modules/extractor.py:66-68) has no counterpart. The recursive call always returns the map it builds, so the branch can never run.
- Ocr.Upper: only ASCII letters are case-mapped. Unicode case mapping is not modelled.
- Ocr.SearchRun: `\d` is the ASCII digits only. Unicode decimal digits are not modelled.
- Pipeline.Process: the detection confidence is carried but never read, as in the source.
- Pipeline.Process: box coordinates and the image size are unbounded integers. The pixel types and the image's own bounds checks are not modelled.
- Nothing in the code is concurrent. The models are loaded once in the constructors and kept for the object's life (src/modules/extractor.py:6-15, src/modules/ocr.py:11-14, src/pipeline.py:24-26); that lifetime is not modelled.
