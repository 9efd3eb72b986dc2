# Fisher importer: dataset bookkeeping

This project models the sequential bookkeeping inside the Fisher corpus
importer of a DeepSpeech fork (`util/importers/fisher.py`), in one Dafny
module, `FisherImporter` (`fisher.dfy`):

- **Row traversal.** `DataSet._indices` is a generator. Each producer thread
  calls it and gets its own local `index`. The index starts at -1. On every
  resumption the generator checks the coordinator's stop flag, advances with
  `next_index(index) % len(files_list)` and yields that row. The model is the
  class `RowCursor` with fields `index` and `finished` and a method
  `Next(shouldStop)`. The stop flag is an input. The advance function is a
  parameter; its default `x + 1` is `DefaultNextIndex`. An empty files list
  makes the generator raise `ZeroDivisionError`, which the model returns as
  `Raised(DivisionByZero)`. Python's `%` floors and Dafny's `%` is Euclidean;
  the two agree because the divisor is positive.
- **Batch and capacity arithmetic.** `total_batches` is the ceiling of rows
  over batch size. The example queue's capacity is
  `2 * max(#gpus, 1) * batch_size`. The GPU list is a parameter.
- **Ordering, partitioning and selection of a file list.**
  `_create_files_list` sorts by `wav_filesize` and keeps two columns.
  `_split_sets` cuts train/dev/test at 80% and 80% of 80%. `_read_data_set`
  truncates to `limit` and then takes `[offset::stride]`. The model follows
  Python's slice rules, including a negative offset, a negative stride and
  the `ValueError` for a zero stride.
- **Transcript parsing.** `_parse_transcriptions` is modelled as a method
  with a loop (`ParseTranscriptions`). It is proved equal to the function
  `ParseAll`. `ParseAll` returns the segments, or the `IndexError` raised by
  the first line with fewer than three tokens. `str.split()` is modelled with
  Python's Unicode white-space set. The channel of a segment comes from its
  speaker tag. The per-channel wav file name is
  `stem + "_c" + tag + ".wav"`, built from `os.path.basename` and
  `os.path.splitext`.

Python exceptions become values of `Result`/`Error`, not preconditions.

Every producer thread calls `_indices()` itself (line 71), so each thread
advances its own counter and no index state is shared between threads.

## Model

| member | source | states |
|---|---|---|
| `FisherImporter.DefaultNextIndex` | util/importers/fisher.py:22 | the default advance function `lambda x: x + 1`; `DefaultTraversal` states where it leads |
| `FisherImporter.IndexAfter` | util/importers/fisher.py:64-68 | after one or more steps, the generator's index lies in `[0, n)` whatever the advance function returns |
| `FisherImporter.RowCursor.constructor` | util/importers/fisher.py:64-65 | a fresh generator has `index = -1`, is not finished and has yielded nothing |
| `FisherImporter.RowCursor.Next` | util/importers/fisher.py:64-68 | a set stop flag ends the generator for good: no row now or later, state unchanged. An empty list raises `ZeroDivisionError` and ends it. Otherwise the index becomes `next_index(old index) % n`, lies in `[0, n)`, and exactly that row is yielded and appended to the history |
| `FisherImporter.DefaultTraversal` | util/importers/fisher.py:64-68 | with the default `x + 1` (line 22) and the start at -1, step k+1 lands on index `k % n` |
| `FisherImporter.DefaultCursorYieldsInOrder` | util/importers/fisher.py:64-68 | a cursor with the default advance function has yielded `files_list[k % n]` as its k-th row, for every k |
| `FisherImporter.TotalBatches` | util/importers/fisher.py:90-93 | the result is an error exactly when the batch size is 0, and that error is `ZeroDivisionError`. Otherwise `t * batch_size >= n` and `(t - 1) * batch_size < n` |
| `FisherImporter.TotalBatchesIsCeiling` | util/importers/fisher.py:90-93 | any t meeting both bounds equals `total_batches`, so it is exactly the ceiling of n / batch_size |
| `FisherImporter.FinalBatchReusesInitialRows` | util/importers/fisher.py:90-93 | when batch_size ≤ n, an epoch of `total_batches` batches overruns the list by fewer than batch_size steps. With the default traversal, overrun step k reads row `k - n` at the start of the list |
| `FisherImporter.DeviceCount` | util/importers/fisher.py:41-43 | the device count is at least 1 and at least the number of GPUs, and equals one of the two |
| `FisherImporter.QueueCapacity` | util/importers/fisher.py:29-31 | the capacity is at least `2 * batch_size` and at least `2 * #gpus * batch_size`, and equals one of the two |
| `FisherImporter.SortBySize` | util/importers/fisher.py:60 | `sort_values(by="wav_filesize")` returns a permutation of the rows with nondecreasing sizes |
| `FisherImporter.Project` | util/importers/fisher.py:61 | the column selection `.ix[:, ["wav_filename", "transcript"]]` keeps one (wav_filename, transcript) pair per row, so the length is unchanged; `ProjectAt` states what each position holds |
| `FisherImporter.ProjectAt` | util/importers/fisher.py:61 | position i of the column selection is the (wav_filename, transcript) pair of row i |
| `FisherImporter.InsertKeepsSorted` | util/importers/fisher.py:60 | inserting a row by size into a list sorted by size keeps it sorted |
| `FisherImporter.CreateFilesList` | util/importers/fisher.py:56-62 | the files list is the projection of one permutation of the input rows that is sorted by size, and so a permutation of the projected input rows |
| `FisherImporter.FilesListOrderedBySize` | util/importers/fisher.py:56-62 | positions i < j of the files list project input rows whose sizes satisfy `size_i <= size_j` |
| `FisherImporter.EightyPercent` | util/importers/fisher.py:276 | the cut point r is the floor of 0.8·n: `5r <= 4n < 5r + 5` |
| `FisherImporter.SplitSets` | util/importers/fisher.py:272-287 | train, dev and test are contiguous slices whose concatenation is the input, in order. train+dev is the floor of 80% of the input; train is the floor of 80% of train+dev; test is the rest |
| `FisherImporter.SplitSetsNonEmpty` | util/importers/fisher.py:272-287 | from three rows on, none of the three parts is empty |
| `FisherImporter.ApplyLimit` | util/importers/fisher.py:290-292 | a positive limit keeps the first `min(limit, n)` rows; a limit ≤ 0 keeps all of them |
| `FisherImporter.StridedUpSpec` | util/importers/fisher.py:294 | for a positive stride, `kept[start::stride]` holds exactly the elements at `s + j*stride` below the end, in order. s is Python's clamped start |
| `FisherImporter.StridedDownSpec` | util/importers/fisher.py:294 | for a negative stride, `kept[start::stride]` holds exactly the elements at `s + j*stride` at or above 0, in order. s is Python's clamped start |
| `FisherImporter.ClampStartUp` | util/importers/fisher.py:294 | Python's clamping of a slice start for a positive step: a negative start counts from the end and stops at 0, a start past the end becomes the length |
| `FisherImporter.ClampStartDown` | util/importers/fisher.py:294 | Python's clamping of a slice start for a negative step: a negative start counts from the end and stops at -1, a start at or past the end becomes the last index |
| `FisherImporter.StridedUp` | util/importers/fisher.py:294 | `l[start::step]` for a positive step, element by element; `StridedUpAt` and `StridedUpEnd` state what it holds |
| `FisherImporter.StridedUpAt` | util/importers/fisher.py:294 | element j of `l[start::step]` (positive step) is `l[start + j*step]`, which lies before the end |
| `FisherImporter.StridedUpEnd` | util/importers/fisher.py:294 | the next position after the last element of `l[start::step]` (positive step) is at or past the end |
| `FisherImporter.StridedDown` | util/importers/fisher.py:294 | `l[start::step]` for a negative step, element by element; `StridedDownAt` and `StridedDownEnd` state what it holds |
| `FisherImporter.StridedDownAt` | util/importers/fisher.py:294 | element j of `l[start::step]` (negative step) is `l[start + j*step]`, which lies at or above 0 |
| `FisherImporter.StridedDownEnd` | util/importers/fisher.py:294 | the next position after the last element of `l[start::step]` (negative step) is below 0 |
| `FisherImporter.ReadDataSet` | util/importers/fisher.py:289-294 | stride 0 raises `ValueError`. Otherwise the result holds exactly the rows `L[s + j*stride]` within the first `m` rows, in order. `m = min(limit, n)` when `limit > 0`, else `n`; s is the offset clamped as Python clamps it |
| `FisherImporter.ReadDataSetFromOffset` | util/importers/fisher.py:289-294 | for a positive stride and an offset ≥ 0, the result holds exactly `L[offset + j*stride]` for the j with `offset + j*stride < m`, in order |
| `FisherImporter.Tokens` | util/importers/fisher.py:200 | every token of `line.split()` is non-empty and free of white space |
| `FisherImporter.TokenGaps` | util/importers/fisher.py:200 | `line.split()` loses only white space: the line is `W0 + t0 + W1 + ... + t(n-1) + Wn` for its tokens t and white-space runs W, the inner runs non-empty |
| `FisherImporter.TokensOfInterleave` | util/importers/fisher.py:200 | conversely, any words laid out with white-space runs around them and non-empty runs between them split back into exactly those words |
| `FisherImporter.JoinSpaces` | util/importers/fisher.py:204 | `" ".join(words)`: the words with one space between neighbours and nothing at the ends; `TokensOfJoin` states what splitting it gives back |
| `FisherImporter.TokensOfJoin` | util/importers/fisher.py:200-204 | splitting tokens joined by single spaces gives the same tokens back |
| `FisherImporter.IsIgnored` | util/importers/fisher.py:197 | the skip test `line.startswith("#") or len(line) <= 1`; `ParseLine` and `SegmentsFollowKeptLines` state its effect |
| `FisherImporter.ParseLine` | util/importers/fisher.py:197-204 | a line is skipped exactly when it is a comment or at most one character long; it raises `IndexError` exactly when it is kept and has fewer than three tokens; otherwise its first three tokens are the start time, stop time and speaker of the segment |
| `FisherImporter.ParseAll` | util/importers/fisher.py:196-215 | a failure names a line of the input that raised `IndexError`; a success has at most one segment per line |
| `FisherImporter.ParsedLineRoundTrip` | util/importers/fisher.py:197-204 | a parsed line loses nothing. Its tokens are the start token, the stop token, the speaker, and the tokens of the joined transcript. The transcript is the folding of that joined text |
| `FisherImporter.ParseTranscriptions` | util/importers/fisher.py:193-216 | the loop returns what `ParseAll` defines: the segments in order, or the error of the first bad line |
| `FisherImporter.SegmentsFollowKeptLines` | util/importers/fisher.py:196-215 | comment lines and lines of length ≤ 1 yield no segment. Every other line yields exactly one, in input order |
| `FisherImporter.ParseAllFailsAtFirstMalformed` | util/importers/fisher.py:196-204 | parsing fails iff some kept line has fewer than three tokens, and the error names the first such line |
| `FisherImporter.ChannelOf` | util/importers/fisher.py:247 | the channel is 0 or 1, and it is 0 exactly when the speaker is "A:" |
| `FisherImporter.Basename` | util/importers/fisher.py:188 | the base name is the longest suffix of the path without '/' |
| `FisherImporter.SplitextRoot` | util/importers/fisher.py:188 | the root of `splitext` is a prefix of the name. It stops before the last '.' when some character before that '.' is not a '.'; otherwise, including a name without '.', it is the whole name |
| `FisherImporter.Stem` | util/importers/fisher.py:188 | `os.path.splitext(os.path.basename(path))[0]`, as at lines 188 and 232; `Basename`, `SplitextRoot` and `StemOfPath` state what it yields |
| `FisherImporter.ChannelWavFilename` | util/importers/fisher.py:188 | the per-channel wav name is the stem of the path, then `_c`, then the channel tag, then `.wav` |
| `FisherImporter.ChannelWavFilenames` | util/importers/fisher.py:232 | the two wav names of a transcript file are the channel-"1" and channel-"2" names, in that order, and they differ |
| `FisherImporter.SegmentSourceWav` | util/importers/fisher.py:232-247 | a segment is cut from one of the transcript's two wav files, the first exactly when the speaker is "A:" |
| `FisherImporter.StemOfPath` | util/importers/fisher.py:188 | the stem of `dir/base.ext` is `base` (base has no '/' and is not all dots; ext has no '.' or '/') |
| `FisherImporter.SegmentAudioFromSpeakerChannel` | util/importers/fisher.py:232-248 | a segment of `dir/base.txt` is cut from the file that line 188 wrote for `base.sph`: the channel-"1" file for speaker "A:", the channel-"2" file for anyone else |

## Left out

- The TensorFlow placeholders, the `PaddingFIFOQueue`, its enqueue, dequeue and close operations, `session.run` and `next_batch` (lines 25-33, 53-54, 77-88). Padding and blocking happen inside TensorFlow, not in this file.
- Producer threads and the coordinator (lines 45-51, 70-83). The stop flag is the `shouldStop` input of `RowCursor.Next`. Each thread owns its own generator, so no state is shared.
- `audiofile_to_input_vector`, `text_to_char_array`, `validate_label`, `ctc_label_dense_to_sparse` and `get_available_gpus`: util/audio.py, util/text.py and util/gpu.py are not part of this model. The GPU list is a parameter.
- `_maybe_convert_wav` and `_split_wav`: directory walks, `sph2pipe`, wave-file I/O, and the float frame arithmetic `start_time * frameRate`. Only the file names they use are modelled.
- The segment file name `stem-start-stop.wav` (line 244). It formats floats with `str`.
- Reading a transcript file into lines. `ParseTranscriptions` takes the lines as the codecs reader yields them, each with its line end.
- ParseLine: `float(tokens[0])` and `float(tokens[1])` are not modelled. The two times stay as token strings. A line whose time tokens are not numbers raises `ValueError` in the source. The model parses it when it has at least three tokens. When it has fewer, the model reports `MissingField` (the `IndexError`), but the source raises `ValueError`, because the conversions at lines 201-202 run before a missing token is read. For example, the source fails with `ValueError` on `"abc\n"` at line 201 and on `"1.0 abc\n"` at line 202. So `ParseAll` can report a different kind of error from the source's. When an earlier line has non-numeric times but three or more tokens, it can also stop at a different line.
- ParseLine: the NFKD normalisation and ASCII stripping (lines 206-208) are a function parameter, `normalize`. The Unicode decomposition tables are outside the model.
- `read_data_sets` (lines 96-169): CSV reading and writing through pandas, the one-off transcript patch at line 142, and the call wiring. That wiring does not match the definitions. Line 134 calls `_split_sets` with three arguments where line 272 takes one. Line 146 repeats the dev concatenation, so the test set is never built. Line 297 passes the undefined `txt_files`. Each function is modelled by what its own body computes, except `_split_sets` (see SplitSets below).
- ParseAll: Python's `IndexError` carries no line number. The model's `MissingField` error records the index of the offending line.
- EightyPercent: `int(0.8 * n)` is modelled as `4 * n / 5` in exact integer arithmetic. This is an assumption about floating point: for lists of realistic size, the float product does not fall below the next lower integer and does not round up past it.
- TotalBatches: `ceil(n / batch_size)` is computed in floating point in the source and exactly in the model. The two agree for n below 2^53. A negative batch size is outside the model, because `batchSize` is a natural number.
- CreateFilesList: pandas' default sort is not stable. The model sorts rows of equal size by insertion, and no contract says anything about the order of such rows.
- QueueCapacity: the batch size is a natural number, so a negative batch size (a negative capacity) is outside the model, and whatever TensorFlow does with a capacity of 0 (batch size 0) is not modelled.
- SplitSets: lines 285-287 do not parse. They are an unparenthesised `return ...,` whose continuation lines are indented further, which Python rejects with `IndentationError` when it compiles the module. The model returns the three slices described by the comment at lines 273-274 and computed at lines 275-283.
