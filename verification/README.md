# avif batch converter — a Dafny model of its decision logic

The converter walks an input directory and keeps every image file whose
extension is one of jpg, jpeg, png, bmp, tiff, webp or heic, folding "jpeg"
into "jpg". It counts the files per extension. It normalises the requested
`-format` the same way and selects the files of that format, in walk order.
Each selected file becomes one conversion job, and a pool of workers runs the
jobs. A job:

- names its output, either `[prefix_]stem.avif` or
  `[prefix_]YYYYMMDD_rnd.avif` with a random hex token;
- moves away from an existing file by trying `name-1.ext`, `name-2.ext` and
  so on up to 999;
- encodes into a temporary file in the output directory;
- renames that file onto the destination, or falls back to copying it;
- reads the final size back.

Main then collects the results: it counts successes and failures and adds up
the original and converted sizes of the successful jobs.

The model is in eight modules:

- `Text`: the string operations of Go's standard library that the program
  uses (TrimPrefix/TrimSuffix, ASCII ToLower, `%d`, `%x`, hex encoding).
- `Paths`: filepath's Ext, Base, Dir and Join, and the stem of a base name.
- `Records`: `FileInfo` and `ConvertResult`.
- `Scanner`: the walk callback, format normalisation, job selection and the
  gate on the requested format.
- `Namer`: makeOutputFilename.
- `Uniquifier`: ensureUniquePath.
- `Worker`: one job, and the pool as a sequential run of jobs.
- `Aggregator`: the collect loop.

The filesystem is the set of paths that currently exist. It is passed into
every step and the step returns the new set.

Everything outside the program is an input:

- the entries the walk reports;
- the three random bytes, or the clock value used when reading them fails;
- the modification day as its 8-character `YYYYMMDD` text;
- for each job, a `JobOracle` with the outcomes of CreateTemp, the encoder,
  rename, the copy fallback, remove and stat.

## Model

| member | source | states |
|---|---|---|
| `Text.TrimPrefix` | main.go:55 | one leading occurrence of the prefix is removed when present; otherwise the string is unchanged |
| `Text.TrimSuffix` | main.go:238 | the result followed by the suffix is the input when the input ends with it; otherwise the input is unchanged |
| `Text.Lower` | main.go:204 | ASCII lower-casing keeps the length, turns every capital into its lower-case letter, keeps every other character, and leaves no capital |
| `Text.DecimalString` | main.go:347 | `%d` of a natural number: nonempty, digits only, no leading zero, and its decimal value is the number |
| `Text.DecimalStringInjective` | main.go:347 | different numbers are printed differently |
| `Text.FormatHex` | main.go:253 | `%x` of a natural number: nonempty lower-case hex whose value is the number |
| `Text.FormatHexLength` | main.go:253 | a number below 16^k prints in at most k hex digits |
| `Text.EncodeHex` | main.go:250 | hex.EncodeToString gives two lower-case hex digits per byte |
| `Text.HexRoundTrip` | main.go:250 | decoding the hex encoding of any bytes gives those bytes back |
| `Text.DecodeHex` | main.go:250 | the inverse of EncodeHex: one byte per pair of digits |
| `Paths.Ext` | main.go:204 | filepath.Ext is a suffix of the path that is empty or a '.' followed by no '.' and no '/' |
| `Paths.ExtAppend` | main.go:204 | appending characters other than '.' and '/' extends an existing extension and leaves a missing one missing |
| `Paths.ExtSnoc` | main.go:204 | one more character other than '.' and '/' extends an existing extension by that character |
| `Paths.ExtOfSplit` | main.go:238 | the extension of `stem.x` is `.x` |
| `Paths.InsertBeforeExt` | main.go:347 | inserting "-i" between a name and its extension keeps the extension and adds no separator |
| `Paths.InsertBeforeOwnExt` | main.go:342-347 | putting such characters between a path element's name and its own extension gives a nonempty element with the same extension |
| `Paths.StripTrailingSlashes` | main.go:342 | the result is the path without all of its trailing separators: a prefix that does not end in a separator and is followed only by separators |
| `Paths.LastElement` | main.go:237 | the text after the last separator is a suffix of the path without separators |
| `Paths.Base` | main.go:237 | filepath.Base is nonempty and is "/" or a single path element |
| `Paths.Dir` | main.go:342 | filepath.Dir is nonempty and is "/" or does not end in a separator |
| `Paths.DirOfHead` | main.go:342 | Dir from the part before the last element: "." when that is empty, "/" when it is only separators, otherwise that part without its trailing separators |
| `Paths.JoinPath` | main.go:268 | filepath.Join of a directory and a name ends with the name |
| `Paths.BaseOfJoin` | main.go:347 | the Base of a joined path is the joined file name |
| `Paths.DirOfJoin` | main.go:280 | joining a name onto a directory that Dir can produce gives back that directory as Dir |
| `Paths.Stem` | main.go:237-238 | the base name without its extension, as both makeOutputFilename and ensureUniquePath (main.go:343-345) compute it: followed by the extension it gives the base name, and it has no separator |
| `Scanner.ClassifyExt` | main.go:204-214 | a path is accepted exactly when its lower-cased extension is allowed; the stored value is one of the six normalised extensions, with "jpeg" folded into "jpg" |
| `Scanner.Classify` | main.go:195-226 | an entry yields a FileInfo exactly when it is a file without a walk error, with an allowed extension and a readable Info; path, size and day are copied, and the extension is normalised |
| `Scanner.VisitEntry` | main.go:195-226 | the walk callback, step by step, appends for one entry exactly the FileInfo that Classify describes, or nothing |
| `Scanner.ScanDirectory` | main.go:181-231 | the list is the walk-ordered FileInfos of the accepted entries; counts has a key exactly for each extension present, with its number of files; no "jpeg" key, only normalised keys |
| `Scanner.ScannedNormalized` | main.go:208-219 | every listed file carries a normalised extension, never "jpeg" |
| `Scanner.ScannedSound` | main.go:195-226 | every listed file comes from some walk entry that classifies to it |
| `Scanner.ScannedComplete` | main.go:195-226 | every walk entry that classifies is listed |
| `Scanner.NormalizeFormat` | main.go:53-59 | an empty format stays empty; a normalised format is never "jpeg" and has no capital letters |
| `Scanner.FormatMatchesScan` | main.go:53-59 | for every format x without '.' and '/', with or without a leading '.': a file `stem.x` is stored under the normalised format when that is an accepted extension and is rejected otherwise, so a format the scan does not accept (gif, say) can select no file |
| `Scanner.NormalizeBare` | main.go:53-59 | a format without '.' normalises, with or without one leading '.', to its lower-case spelling with "jpeg" folded into "jpg" |
| `Scanner.OnlyBareFormatsMatch` | main.go:55 | a format can normalise to an accepted extension only when it is a name without '.' and '/', or such a name after exactly one '.': only one leading '.' is dropped, so "..jpg" selects nothing |
| `Scanner.BuildJobList` | main.go:98-103 | the job list is the order-preserving selection of the files whose extension equals the format |
| `Scanner.FilterByExtMembers` | main.go:98-103 | a file is selected exactly when it was scanned and has that extension |
| `Scanner.FilterByExtCount` | main.go:98-103 | the selection has as many files as the scan counted for that extension |
| `Scanner.FilterByExtAppend` | main.go:98-103 | the selection distributes over concatenation, so it keeps scan order |
| `Scanner.FormatGate` | main.go:77-86 | the run stops when no format was asked for and goes on exactly when a format was asked for and the scan counted at least one file of it |
| `Scanner.GateMatchesJobs` | main.go:77-86 | a run that passes the format gate has as many jobs as were counted, and at least one; a format with no count selects none |
| `Namer.RandomToken` | main.go:247-254 | the token is lower-case hex: the six-digit encoding of the three random bytes, or one to seven digits whose value is the clock masked to 28 bits |
| `Namer.OutputName` | main.go:235-261 | every output name ends in ".avif" and has ".avif" as its extension |
| `Namer.AvifName` | main.go:240-242 | adding ".avif" gives a name whose extension is ".avif" and adds no separator |
| `Namer.KeepNameRecoversStem` | main.go:236-243 | in keep-name mode the output's stem is `prefix_` (when there is a prefix) followed by the source's stem |
| `Namer.KeepNameIgnoresDirectory` | main.go:236-243 | in keep-name mode the output depends only on the file name, not on its directory |
| `Namer.TimestampedRoundTrip` | main.go:245-260 | a timestamped name splits back into the 8-character day and the token; with random bytes its length is the prefix part plus 20 |
| `Uniquifier.EnsureUniquePath` | main.go:338-353 | succeeds exactly when the path or one of its 999 variants is free; returns the path itself when free, otherwise the variant with the least free suffix, all smaller ones taken; never an existing path; "" on failure |
| `Uniquifier.FirstFreeIsUnique` | main.go:338-353 | the first free answer is determined by the filesystem and the path |
| `Uniquifier.Candidate` | main.go:346-347 | the i-th alternative path ends with its file name `name-i.ext` |
| `Uniquifier.CandidateNameShape` | main.go:347 | a variant's file name is a single path element with the original extension |
| `Uniquifier.CandidateShape` | main.go:342-347 | a variant stays in the path's directory, and its base name is `name-i.ext` with the original extension |
| `Uniquifier.CandidatesDistinct` | main.go:346-347 | different suffixes give different variants |
| `Worker.TempBesideOutput` | main.go:280 | the temporary file is in the directory of the final output and its name is `avif_tmp_N.avif` |
| `Worker.TempPath` | main.go:280 | the temporary path ends with the file name `avif_tmp_N.avif` |
| `Worker.PlannedPath` | main.go:267-268 | the planned output path ends with the output name and has the extension ".avif" |
| `Worker.AfterJob` | main.go:280-321 | a job never deletes a file that existed before; it adds at most its output and its temporary file, only its output when removal works, and nothing when no temporary file was created |
| `Worker.JobOutcome` | main.go:270-330 | the error is "unique output path" exactly when there is no destination; there is no error exactly when the output was renamed or copied into place, stat succeeds and the output exists |
| `Worker.EncodeAndSave` | main.go:280-333 | after the destination is fixed: the error is the first failing step (temp file, encoder, rename-or-copy, stat) and the filesystem is as AfterJob says; the converted size is reported only on success; the temporary file is dealt with whenever it was created |
| `Worker.ProcessJob` | main.go:265-333 | one result per job, with the source path and size; the destination is the first free variant of the planned output path and never an existing file; error, size and new filesystem as EncodeAndSave says; no file is deleted; a success leaves its output; with working removal no temporary file remains |
| `Worker.AfterJobLeftovers` | main.go:309-321 | the output exists afterwards exactly when it was renamed or copied into place, a copy that failed half-way included; the temporary file is left exactly when it was not renamed and removing it failed |
| `Worker.EncoderFailureLeavesNoTrace` | main.go:299-305 | a failed encoding leaves the filesystem as it was once the temporary file can be removed |
| `Worker.OutcomeAndFilesystem` | main.go:267-333 | a success adds exactly its output to the filesystem once the temporary file was renamed or could be removed; a job that failed before the encoder ran changed nothing |
| `Worker.PoolStep` | main.go:120-147 | one more job result keeps the pool invariant: results in job order, every reported destination new, successful outputs present, no later job reporting the name of an earlier successful output |
| `Worker.RunPool` | main.go:120-147 | exactly one result per job, in job order, with its source and size; no existing file is deleted, and no job, failed or not, reports a destination that existed before; every successful output exists at the end, and no later job reports the name of an earlier successful output; with working removal only destinations are added |
| `Aggregator.Collect` | main.go:149-167 | success plus fail is the number of results; success is the number of error-free results; the totals are the original and converted sizes summed over those results only |
| `Aggregator.SuccessesMembers` | main.go:153-165 | the successes are exactly the results without an error |
| `Aggregator.SuccessesMultiplicity` | main.go:153-165 | each error-free result occurs among the successes as often as among the results |
| `Aggregator.SumBytesAppend` | main.go:164-165 | a sum over two lists of results is the sum of the two sums |
| `Aggregator.SumBytesPermutation` | main.go:164-165 | a sum does not depend on the order of the results |
| `Aggregator.CollectOrderIndependent` | main.go:149-167 | reordering the received results leaves both counts and both totals unchanged, so the finishing order of the workers does not matter |
| `Aggregator.FailuresAddNothing` | main.go:325-330 | failed jobs report no converted size, so the converted total over the successes equals the total over all results |
| `Aggregator.ReductionPercent` | main.go:374-379 | 0 for an empty original; 0 when nothing was saved; between 0 and 100 when the output is no larger; negative when it grew |

## Left out

- Flag parsing, the checks on the input directory, every message the
  program prints, the MB formatting, `-list` and the dry-run preview. These
  are presentation. The dry-run preview calls only makeOutputFilename and
  never the uniquifier, so it can show a name that already exists.
- The walk itself. `filepath.WalkDir`, `d.Info()` and the day that
  `ModTime().Format("20060102")` computes are inputs. The walk callback
  swallows every walk error, including the one for the root, so the scan
  never returns an error and the model has none.
- `os.MkdirAll`, `exec.LookPath` and the `avifenc` subprocess. The encoder
  is a success or failure flag with its output text.
- CreateTemp's retries. Its random name is an input number, and it succeeds
  when the oracle allows it and that name is free.
- The contents of files. Only whether a path exists is modelled, and stat
  reports the size given in the oracle.
- Goroutines, channels and the WaitGroup. The pool is one worker running
  the jobs in order. Results may arrive in any order, and
  `Aggregator.CollectOrderIndependent` shows the summary does not depend on
  it.
- The race between workers that check and then create the same output
  name.
- The coercion of a non-positive worker count to 1.
- Paths.JoinPath: applies only the part of filepath.Clean that joining a
  clean directory and one file name needs. It drops "." and empty
  directories and puts one separator between the parts; ".." and repeated
  separators inside the directory are not cleaned. The file name is not
  cleaned either, and it carries the -prefix: with a prefix such as "./p"
  or "../p" the model builds "out/./p_x.avif" where Go gives
  "out/p_x.avif". Paths are plain strings in the filesystem set, so the
  uniquifier does not see that two such spellings name the same file.
- Paths.Dir: applies the same part of filepath.Clean. It drops the
  trailing separators of the directory part but keeps repeated separators
  and ".." inside it, so Dir("a//b//c") is "a//b" where Go gives "a/b".
- Text.Lower: folds ASCII letters only. Go's strings.ToLower also folds
  other Unicode letters, such as U+0130 to 'i'.
- os.Stat errors other than "does not exist". ensureUniquePath treats them
  as "exists" and the model does not represent them.
- Aggregator.Collect: the totals are unbounded integers, so int64 overflow
  of the byte sums is not modelled.
- Aggregator.ReductionPercent: computed over the reals, so float64
  rounding is not modelled.
