# Paired-end FASTQ demultiplexer, modelled in Dafny

This project models the core of `demultiplex.py`, a demultiplexer for
paired-end FASTQ data. It reads a Read 1 file and a Read 2 file in lock
step. Each pair is assigned a sample id taken from the barcode at the end
of its Read 1 header, with an optional table mapping barcodes to sample
names. A sample gets its own pair of output files only once it has
`min_reads` pairs. Until then its pairs are buffered in memory. At the end,
everything still buffered goes to the two "undetermined" files.

Modules, one file each:

- `wrappers.dfy` (`Wrappers`): `Option` and `Result`.
- `text.dfy` (`Text`): the Python 2 string operations the program relies on:
  - `strip()`, with the whitespace of either string type: `str` for the barcode table, `unicode` for read headers;
  - `split(sep)` with a one-character separator, and the no-argument `split()`;
  - prefix slicing.

  `Occurrences`, the number of times a character occurs, only serves to state properties.
- `fastq.dfy` (`Fastq`):
  - the record generator `fq`, as a function over the lines `readline()` returns;
  - `itertools.izip` of the two record streams;
  - the `.gz` file-name test.
- `barcode.dfy` (`Barcode`): `get_sample_id`.
- `sample_table.dfy` (`SampleTable`): the barcode-table parse, a fold in which the last line for a barcode wins.
- `routing.dfy` (`Routing`): the specification of a run, as functions of the pairs consumed so far, each tagged with its sample id:
  - the samples seen;
  - per-sample counts;
  - each sample's records on each side, in arrival order;
  - the drain.

  The run properties are proved here: counting, ordering and conservation.
- `engine.dfy` (`Engine`): the loop of `demultiplex`:
  - `Next` and `Replay` are the dictionaries after one pair and after all pairs.
  - The class `Demux` holds the dictionaries `count`, `buffer_r1`, `buffer_r2`, `outfiles_r1` and `outfiles_r2` as map fields. Its methods update them in place; each method is proved against `Next`.
  - `Finalize` is the drain, plus the numbers of the closing log line.
  - `Demultiplex` is the whole run, including the `min_reads <= 0` failure.

An output file is modelled by the sequence of records written to it, in
order; `''.join(record)` writes the record's four lines, so no information
is lost. Inputs are modelled as sequences of lines, already decoded. Under
Python 2, `bytes` is `str`, so the test at demultiplex.py:24 always holds
and every FASTQ line is decoded to `unicode`: read headers are stripped
with `unicode` whitespace. The barcode table is read without decoding, so
its lines use `str` whitespace. A missing or falsy table path is `None`.

Behaviour of the code worth knowing, as the model states it:
- **Truncated last record.** `fq` yields it, padded with empty lines, because `readline()` returns `''` at the end of the file.
- **Headers without a colon.** A header such as `@x` gives `@x`, because `split` never fails. The sentinel `unknown_barcode_format` comes only from a token with two or more `'+'`, whose two-name unpack raises `ValueError`.
- **Stripping.** The header is stripped at both ends, and the `unicode` whitespace includes the control characters U+001C to U+001F.
- **Several `'+'`.** The token is not split at the first `'+'`: the unpack fails and the sentinel is returned.

The lemmas `BareHeaderExample`, `UnitSeparatorExample` and `ManyPlusExample`
record the last three points.

## Model

| member | source | states |
|---|---|---|
| Text.StripSpec | demultiplex.py:40 | `strip()`, for either string type, removes exactly the whitespace at both ends: the result is an infix with only whitespace outside it, and it neither starts nor ends with whitespace |
| Text.StripBoth | demultiplex.py:76 | stripping text that starts and ends with non-whitespace, with whitespace before and after it, gives the text back |
| Text.StripPadded | demultiplex.py:40 | stripping text that starts and ends with non-whitespace, followed by a trailing newline or other whitespace, gives the text back |
| Text.SplitPieces | demultiplex.py:43-45 | no piece of `split(sep)` contains the separator |
| Text.JoinSplit | demultiplex.py:43-45 | joining the pieces of `split(sep)` with `sep` gives the original text back |
| Text.SplitJoin | demultiplex.py:50 | splitting the join of separator-free pieces gives exactly those pieces |
| Text.SplitCount | demultiplex.py:49-50 | `split(sep)` yields one more piece than the text holds separators |
| Text.LastPiece | demultiplex.py:43-45 | `split(sep)[-1]` is the text after the last separator |
| Text.AfterLastSuffix | demultiplex.py:43-45 | the text after the last separator is the longest separator-free suffix |
| Text.Prefix | demultiplex.py:51 | `s[:n]` is the prefix of length `n`, or all of `s` when it is shorter |
| Text.WordOf | demultiplex.py:76 | a whitespace-free word followed by whitespace or nothing is cut off exactly as the first field |
| Text.FieldsBlank | demultiplex.py:76-77 | whitespace alone has no field |
| Text.FieldsCons | demultiplex.py:76 | whitespace, a word, then whitespace or nothing: the word is the first field and the rest gives the others |
| Text.FieldsOfLayout | demultiplex.py:76 | any text made of non-empty whitespace-free words, with whitespace runs around them and a non-empty run between each two, splits into exactly those words |
| Text.LayoutOfFields | demultiplex.py:76 | every text is its fields, each non-empty and whitespace-free, separated by whitespace runs that are non-empty between two fields |
| Text.FieldsIffLayout | demultiplex.py:76 | `split()` gives a list of words exactly when the text is laid out as those words with whitespace around and between them |
| Text.TwoFields | demultiplex.py:76-78 | two whitespace-free words, with any whitespace runs before and after and a non-empty one between, are exactly two fields |
| Fastq.RecordCount | demultiplex.py:18-33 | a file of `n` lines yields `ceil(n/4)` records: a truncated last record is yielded, not dropped |
| Fastq.RecordCountFrom | demultiplex.py:19-33 | from line `i` on, one record per four remaining lines, rounding up |
| Fastq.RecordAt | demultiplex.py:19-33 | the `k`-th record is lines `4k` to `4k+3` in order, each `''` past the end of the file, and its first line is not empty |
| Fastq.RecordsStop | demultiplex.py:19-22 | the generator stops exactly at the first record position whose first line is the end of the file |
| Fastq.Zip | demultiplex.py:91 | `izip` pairs records position by position and stops with the shorter stream |
| Fastq.GzipNames | demultiplex.py:14 | the unescaped `.gz$` test accepts `.gz` names and any name ending in a character other than a newline followed by `gz`, and rejects `gz` alone and `.fastq` names |
| Barcode.LastFieldAfterLast | demultiplex.py:43-45 | the token is the text after the last colon of the text after the last space |
| Barcode.TokenIsLastToken | demultiplex.py:40-45 | the token is the longest suffix of the stripped header that holds no space and no colon |
| Barcode.LastTokenUnique | demultiplex.py:43-45 | only one suffix has that shape, so the token is determined by it |
| Barcode.HeaderToken | demultiplex.py:40-45 | a header `prefix + t + pad` has token `t` when `t` is non-empty and holds no space, colon or whitespace, `pad` is whitespace, and `prefix` is empty or does not start with whitespace and ends in a space or colon |
| Barcode.MalformedIffManyPlus | demultiplex.py:49-58 | there is no barcode exactly when the token holds two or more `'+'` |
| Barcode.SingleIndex | demultiplex.py:52-54 | without `'+'` the barcode is the raw token |
| Barcode.DualIndex | demultiplex.py:49-51 | with exactly one `'+'` between two indexes, the barcode is the first eight characters of each, at most sixteen in all |
| Barcode.SampleIdSpec | demultiplex.py:49-61 | two or more `'+'` give `unknown_barcode_format` without a lookup; with no `'+'` the sample is the table's name for the raw token, or the token itself; with one `'+'` it is the table's name for the sixteen-at-most-character barcode made of the first eight characters of each index, or that barcode itself |
| Barcode.DualIndexExample | demultiplex.py:43-51 | `@x 1:N:0:AAAAAAAA+CCCCCCCC` gives barcode `AAAAAAAACCCCCCCC` |
| Barcode.SingleIndexExample | demultiplex.py:43-54 | `@x 1:N:0:AAAAAAAA` gives barcode `AAAAAAAA` |
| Barcode.BareHeaderExample | demultiplex.py:40-54 | `@x` gives barcode `@x`, not the sentinel |
| Barcode.UnitSeparatorExample | demultiplex.py:40-54 | the decoded header `@x 1:N:0:ACGT` followed by U+001F and a newline gives barcode `ACGT`: the `unicode` strip removes U+001F |
| Barcode.ManyPlusExample | demultiplex.py:49-58 | `@x 1:N:0:A+C+G` has no barcode, and its pair goes to `unknown_barcode_format` whatever the table says |
| SampleTable.Load | demultiplex.py:72-73 | a missing or falsy table path gives the empty map |
| SampleTable.LastDefinition | demultiplex.py:75-79 | the index of the last two-field line for a barcode: that line defines it and no later line does, or -1 when none does |
| SampleTable.ParseLastWins | demultiplex.py:75-79 | a barcode is in the map exactly when some two-field line has it second, and it maps to the first field of the last such line |
| SampleTable.LineRoundTrip | demultiplex.py:76-79 | a line `sample_id barcode`, with any whitespace runs before, between and after, maps the barcode to the sample id |
| SampleTable.EntryShape | demultiplex.py:76-79 | a line maps `barcode` to `sample_id` exactly when its stripped text is those two words with whitespace between them |
| Routing.AssignedStep | demultiplex.py:97 | tagging one more pair with `get_sample_id` of its Read 1 keeps every tag right |
| Routing.Extend | demultiplex.py:99-131 | one more pair adds its sample to those seen, one to its count and its records to the end of its blocks, changing no other sample |
| Routing.SeenIffCounted | demultiplex.py:99-104 | a sample is seen exactly when its count is positive |
| Routing.SamplesIndex | demultiplex.py:99-104 | a sample is seen exactly when some consumed pair carries it |
| Routing.RoutedLength | demultiplex.py:104-109 | a sample's block on each side holds exactly as many records as the sample's count |
| Routing.RoutedConcat | demultiplex.py:107-131 | blocks keep arrival order: a later stretch of pairs adds its records after an earlier one's |
| Routing.RoutedOnly | demultiplex.py:97-131 | every Read 1 record in a sample's block carries that sample's id |
| Routing.DrainOnly | demultiplex.py:136-140 | every Read 1 record of a drain belongs to one of the drained samples |
| Routing.DrainLength | demultiplex.py:136-140 | a drain holds as many records as the drained samples' counts add up to |
| Routing.CountsCover | demultiplex.py:91-104 | listing every seen sample once, the counts add up to the number of consumed pairs |
| Routing.Conservation | demultiplex.py:107-140 | samples split into those with their own files and those drained, each listed once: the two together account for every consumed pair |
| Engine.WriteAll | demultiplex.py:116-119 | writing the records one by one leaves the file followed by them, in order |
| Engine.NextCount | demultiplex.py:100-104 | an iteration adds one to its sample's count, entering the sample at zero if new |
| Engine.NextCounted | demultiplex.py:99-104 | after an iteration, `count` holds exactly the seen samples, each with the number of pairs it got |
| Engine.NextPhased | demultiplex.py:99-131 | for `min_reads >= 1`, an iteration keeps every sample either buffering (count below `min_reads`) or with its own files (count at least `min_reads`), never both |
| Engine.NextBuffers | demultiplex.py:99-109 | after an iteration, each buffer holds exactly its sample's records so far, in arrival order, and the R1 and R2 buffers have the same samples |
| Engine.NextFiles | demultiplex.py:110-131 | after an iteration, each output file holds exactly its sample's records so far, in arrival order, and the R1 and R2 files have the same samples |
| Engine.NextKeeps | demultiplex.py:99-131 | one iteration preserves the agreement of the dictionaries with the pairs consumed |
| Engine.ReplayPhases | demultiplex.py:91-131 | after any number of pairs, the dictionaries agree with them: counts, phases, buffers and files |
| Engine.Threshold | demultiplex.py:107-131 | a sample's files appear exactly in the iteration that brings its count to `min_reads`, holding its buffered records then the current one; files never disappear, and a buffer is never made again once deleted |
| Engine.ReplaySummary | demultiplex.py:91-131 | after the loop, samples with own files are exactly those with at least `min_reads` pairs, holding all their records; buffered samples are the others, each buffer holding its `count` records, fewer than `min_reads` |
| Engine.Conserved | demultiplex.py:107-140 | with the files and drain a run produces, the dedicated files and the undetermined file of one side together hold one record per consumed pair |
| Engine.Demux.constructor | demultiplex.py:81-85 | the dictionaries start empty, which agrees with no pairs consumed |
| Engine.Demux.Step | demultiplex.py:91-131 | one loop iteration: the id is `get_sample_id` of Read 1, the pair is added to the history, and the dictionaries still agree with it |
| Engine.Demux.Route | demultiplex.py:99-131 | the in-place update of the five dictionaries is exactly `Next` |
| Engine.Demux.Admit | demultiplex.py:99-103 | a new sample gets count 0 and empty buffers; a known one is untouched |
| Engine.Demux.Place | demultiplex.py:104-131 | the count goes up by one; below `min_reads` the pair is buffered, at `min_reads` the files are created with buffer then pair and the buffers deleted, above it the pair is appended to the files |
| Engine.Demux.Finalize | demultiplex.py:133-150 | the undetermined files are the buffered samples' blocks in the drain order; the summary counts the samples with own files and all samples seen |
| Engine.Enumerate | demultiplex.py:136 | some duplicate-free listing of the buffered samples, standing for dict iteration order |
| Engine.Run | demultiplex.py:91-131 | the loop consumes every pair in order, tagging each with its sample id, and leaves the dictionaries in agreement with them |
| Engine.Demultiplex | demultiplex.py:64-150 | pairs up to the shorter stream; failure exactly when `min_reads < 1` and at least one pair exists; otherwise own files for exactly the samples with at least `min_reads` pairs, holding all their records in order; the undetermined files hold the other samples' blocks, one per sample, and no Read 1 record of a sample with its own files; the summary counts |

## Left out

- gzip decompression and UTF-8 decoding (demultiplex.py:14-17, 24-28): the input files are their decoded lines; only the `.gz$` name test is modelled.
- The file system (demultiplex.py:68-69, 73, 112-113, 134-135, 143-147): directory creation, the existence test for the table, opening files by path, and closing them. Files are values keyed by sample id. Path problems are not modelled. A sample id containing `/` names a file in a subdirectory of the output directory: unless that subdirectory exists, the `open` at demultiplex.py:112 raises `IOError` when the sample reaches `min_reads` pairs and the run aborts, while the model gives the sample its own files and succeeds. A sample id `undetermined` clashes with the undetermined files: the `open` at demultiplex.py:134 truncates that sample's files.
- Logging and timing (demultiplex.py:87-88, 92-94, 150): the progress counter and clock are dropped; the two numbers of the final log line are returned.
- `main` and its argument parsing (demultiplex.py:152-166), and `app.py` (the web front end, subprocess and streaming) are not part of this model.
- The order of samples in the undetermined files (demultiplex.py:136) is the unspecified iteration order of a Python 2 dict. The model drains in any duplicate-free order of the buffered samples, and claims only the order within each sample.
- `KeyError` with `min_reads < 1` is modelled as a `Failure` of the whole run. It is raised by the first pair, before any output file is opened; only the output directory exists by then, and the model leaves directories out.
- Input lines are assumed to be valid UTF-8: the `UnicodeDecodeError` of demultiplex.py:25-28 is not modelled.
- Records holding characters outside ASCII are assumed absent: writing such a `unicode` record to a Python 2 file opened with `open(..., 'w')` (demultiplex.py:117-140) raises `UnicodeEncodeError`, and this failure is not modelled. Under the same assumption, comparing a `unicode` barcode with the `str` keys of the table (demultiplex.py:61) is plain string equality.
- The `unicode` whitespace set is that of Python 2.7 (Unicode 5.2); the `str` whitespace set is the six ASCII characters of the C locale.
- Engine.Demultiplex: the claim that no record of a sample with its own files reaches the undetermined files is stated for Read 1 records only, because Read 2 records carry no sample id. For Read 2, the drain equality already says which samples' blocks are there.
