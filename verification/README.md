# Verified models of the systems projects

Dafny models of the programs in this repository whose correctness is hard to see: two parallel run-length compressors,
a MapReduce library, a multi-threaded web-server scheduler, a file-system checker and a line reverser, with proofs of
what they compute. `dafny verify dfyconfig.toml` checks everything.

Code that works in place is modelled in place: arrays, the globals of a program as the fields of a class, loops with
invariants. Each such method is proved against a function of its input, and the lemmas say what that function
means. Threads are step machines. A state holds the shared data and where each thread stands; one step is one critical
section, or one access to shared data outside a lock; a run is any list of steps. Statements about runs hold for every
list of steps, under sequential consistency, with spurious wakeups where the code uses condition variables.

- **Run-length compression.** `Rle` defines the canonical record list of a byte sequence, gluing and stitching;
  `Records` the 5-byte file format. `Wzip` and `Wunzip` are the sequential programs. `Pzip3Pages` is the cutting of
  files into pages, `Pzip3Work` the queue, the position function and the page compressor, `Pzip3Merge` the merging
  writer, `Pzip3Protocol` the threads, `Pzip3Invariant` their invariant, `Pzip3History` the record of puts, gets and
  stores of a run, `Pzip3Runs` what every run computes, `Pzip3Progress` how far runs get and `Pzip3Returns` who returns.
  `Pzip2` and `Pzip2Protocol` are the other compressor. The common result is that any schedule, any number of threads
  and any page or buffer size write the same bytes as the sequential program.
- **MapReduce.** `CString` is `strcmp`; `MapReduce` the sort, the partitions and the grouping; `WordCount` the tokeniser
  and the reducer loops; `WordPositions` says where in a file the words are; `MapReduceProtocol` has the mappers and
  reducers as threads; `MapReduceProgress` shows that they get done.
- **Web server.** `ServerBuffers` holds the two buffers, `ServerProtocol` the master and the workers; `ServerProgress`
  shows that every request is served.
- **File-system checker.** `FsBitmap` is the bit arithmetic, `FsImage` reads the on-disk format, `FsLayout` says where
  its fields and the addresses of a file lie, `FsCheck` are checks 2, 5, 6 and 7/8.
- **Line reversal.** `Reverse`.

Where the code does not do what it promises, or does it only sometimes, the model keeps the code and the exact
condition is proved:

- `pzip3` with an empty file before a nonempty one: `pages_per_file` has no entry for the empty file, and pages can be
  lost (EmptyFileLosesPages, PositionsExactly). Empty files at the end are harmless, and so are all of them when the
  memory happens to be zero (NumberedExactly, NumberedWhen).
- `pzip3` sets `isComplete` and broadcasts without the lock, so on every input a consumer can sleep for ever
  (HangsExactly), namely exactly if it starts to wait after that broadcast (SleepersExactly). All output is in memory by
  then (StuckIsComplete); only `main` never gets to write it.
- `pzip2` reads `index_cthread`, `listsize` and `handleFile_finish` one after the other; a worker can pass the first
  comparison at the very start, when both counts are zero, and leave without work (EarlyExit, SplitExitExactly). A run
  whose workers have all returned is right exactly if one of them made its last comparison late enough
  (CompleteExactly), so runs without an early comparison are (LateTestsCompress).
- `wzip` counts in an `int`: a run of 2^31 bytes does not come back (RoundTripExactly).
- The web server accepts any positive number of buffers according to its documentation, but with the SFF policy and one
  buffer (the documented default; the code's own default is 16) the master waits for `count` to differ from
  `buffer_num-1`, which is 0: no request is ever served (NothingServed, DeadlockExactly).
- `wunzip` of two files differs from `wunzip` of their concatenation when the first is truncated (ConcatenationExactly).
- Reversing twice loses a blank first line when the text has no final newline (TwiceExactly).
- `wordcount.c` drops empty tokens with a test that the listing in `concurrency-mapreduce/README.md` does not have; the
  model follows the code.

## Model

| member | source | states |
|---|---|---|
| `Rle.EncodeCorrect` | initial-utilities/wzip/wzip.c:24-48 | decoding the runs of a byte sequence gives the sequence back; every run is nonempty and maximal; there are no more runs than bytes |
| `Rle.CanonicalUnique` | initial-utilities/wzip/wzip.c:24-48 | a byte sequence has exactly one list of nonempty maximal runs |
| `Rle.EncodeAppend` | concurrency-pzip/wzip/pzip3.c:287-292 | compressing two pieces apart and gluing the runs that meet is compressing their concatenation |
| `Rle.StitchCorrect` | concurrency-pzip/wzip/pzip3.c:286-305 | for every way of cutting an input into pieces, empty pieces included, stitching the separately compressed pieces is compressing the whole |
| `Records.IntRoundTrip` | initial-utilities/wzip/wzip.c:5-9 | the four bytes stored for a C int read back as that int, for every value the type holds |
| `Records.SerializeInjective` | initial-utilities/wzip/wzip.c:5-9 | two record lists whose counts fit an int have the same file only if they are equal |
| `Wzip.Compress` | initial-utilities/wzip/wzip.c:12-49 | the streaming loop writes the canonical records of all files laid end to end (one zero-count record for no input), the partial output before a file that cannot be opened, or the usage error |
| `Wzip.EmptyInput` | initial-utilities/wzip/wzip.c:48 | for an empty input the file is one record of count zero for the character NUL, five zero bytes |
| `Wunzip.Decompress` | initial-utilities/wunzip/wunzip.c:9-35 | what is printed for any files at all, truncated ones included, with `char_read` carried from record to record and file to file |
| `Wunzip.DecompressFile` | initial-utilities/wunzip/wunzip.c:27-32 | the record loop over one file prints its decoding, also when the file ends inside a record |
| `Wunzip.UnzipAppend` | initial-utilities/wunzip/wunzip.c:20-34 | after a whole number of records, decoding a concatenation is concatenating the decodings |
| `Wunzip.UnzipTail` | initial-utilities/wunzip/wunzip.c:27-32 | any file is whole records and a tail: the records print the bytes they stand for, a tail of four bytes is a count for the character of the record before it (or what `char_read` held), a shorter tail prints nothing |
| `Wunzip.UnzipAllWhole` | initial-utilities/wunzip/wunzip.c:20-34 | any number of files: when all but the last are whole records, one after the other they print what their concatenation prints |
| `Wunzip.ConcatenationExactly` | initial-utilities/wunzip/wunzip.c:20-34 | giving two files is the same as giving their concatenation, for every second file, exactly when the first is a whole number of records |
| `Wunzip.RoundTripExactly` | initial-utilities/wunzip/wunzip.c:20-34 | for all files, the empty input and leading NUL bytes included, and whatever the uninitialised `char_read` held: `wunzip` of what `wzip` wrote is the concatenation of the files exactly when every run has fewer than 2^31 bytes, so that its count fits the stored int |
| `Wunzip.ShortRoundTrip` | initial-utilities/wunzip/wunzip.c:20-34 | so every input of fewer than 2^31 bytes comes back |
| `Pzip3Pages.PageArithmetic` | concurrency-pzip/wzip/pzip3.c:127-135 | the floating-point test detects exactly a remainder; the last page is never empty, never longer than a page, and the pages add up to the file |
| `Pzip3Pages.PageAt` | concurrency-pzip/wzip/pzip3.c:239-249 | page j of file i stands at position (pages of earlier files) + j in the list of all pages, below the total |
| `Pzip3Pages.PageLookup` | concurrency-pzip/wzip/pzip3.c:239-249 | every position below the total is that of exactly such a pair: the converse of PageAt |
| `Pzip3Pages.PagesTile` | concurrency-pzip/wzip/pzip3.c:165-182 | the pages in position order tile the concatenated input, without gap or overlap |
| `Pzip3Work.PutAppends` | concurrency-pzip/wzip/pzip3.c:77-81 | `put` into a ring that is not full appends to the queue, whatever the head and tail |
| `Pzip3Work.GetTakesOldest` | concurrency-pzip/wzip/pzip3.c:84-89 | `get` from a ring that is not empty removes the oldest page and leaves the rest in order |
| `Pzip3Work.PageQueue.Put` | concurrency-pzip/wzip/pzip3.c:77-81 | the in-place `put` appends to the waiting pages of a queue that is not full, wherever its head and tail are, and breaks a full one |
| `Pzip3Work.PageQueue.Get` | concurrency-pzip/wzip/pzip3.c:84-89 | the in-place `get` returns the oldest waiting page of a queue that is not empty and leaves the others in order |
| `Pzip3Work.CalculateOutputPosition` | concurrency-pzip/wzip/pzip3.c:239-249 | the loop returns the sum of the entries of the earlier files plus the page number |
| `Pzip3Work.RLECompress` | concurrency-pzip/wzip/pzip3.c:204-221 | the nested loops store in their arrays the canonical records of the page |
| `Pzip3Merge.MergeBoundary` | concurrency-pzip/wzip/pzip3.c:287-292 | moving a count across a boundary in place turns the two record lists into the glued one |
| `Pzip3Merge.PrintOutput` | concurrency-pzip/wzip/pzip3.c:281-307 | whatever nonempty record lists the consumers left, merging in place while writing produces their stitching, and the write cursor stays inside the allocated buffer |
| `Pzip3Invariant.RunInv` | concurrency-pzip/wzip/pzip3.c:96-274 | the protocol invariant (queue contents, lock holder, progress of the producer, who sleeps, pages in hand, slots written) holds in every state of every run |
| `Pzip3History.PagesConserved` | concurrency-pzip/wzip/pzip3.c:264-271 | in every run, every page that `get` returned has had its output stored or is in some consumer's hands, each as often as it was returned |
| `Pzip3Runs.QueueSafety` | concurrency-pzip/wzip/pzip3.c:166-187 | in every run, the pages passed to `put` are the pages `get` returned followed by those in the ring, and they are the first pages of the list of all pages in order; although the full test and the `put` are separate critical sections, `put` never meets a full ring and `get` never an empty one |
| `Pzip3Runs.Completion` | concurrency-pzip/wzip/pzip3.c:193-274 | when `isComplete` is set every page has been put; when a consumer has returned every page has been taken, and each is stored or in another consumer's hands |
| `Pzip3Runs.EveryPageWrittenOnce` | concurrency-pzip/wzip/pzip3.c:253-274 | when all consumers have returned, the pages stored during the run are a permutation of all pages, which are distinct: each was stored exactly once |
| `Pzip3Runs.EverySlotOnce` | concurrency-pzip/wzip/pzip3.c:269-271 | if the position function numbers the pages, a consumer about to store writes the slot of its own page, inside `out[0..total_pages)`, which nobody wrote before |
| `Pzip3Runs.OutputFilled` | concurrency-pzip/wzip/pzip3.c:253-274 | then, when all consumers have returned, `out[0..total_pages)` holds the compressed pages, slot by slot |
| `Pzip3Runs.AnyScheduleCompresses` | concurrency-pzip/wzip/pzip3.c:96-307 | if the position function numbers the pages: for every interleaving, number of consumers and page size, what is left in `out` meets the requirements of `printOutput`, and the file it writes is the canonical compression of all files laid end to end, the same bytes as `wzip` exactly if the input is not empty |
| `Pzip3Runs.NumberedExactly` | concurrency-pzip/wzip/pzip3.c:239-249 | for given contents of `pages_per_file`, the position function numbers the pages 0, 1, 2, ... exactly when before each nonempty file the uninitialised entries, those of empty files, sum to zero |
| `Pzip3Runs.NumberedWhen` | concurrency-pzip/wzip/pzip3.c:122-137 | it does when empty files come last, and for any order of files when the memory was zero at the entries of the empty ones |
| `Pzip3Runs.EmptyFileLosesPages` | concurrency-pzip/wzip/pzip3.c:122-137 | with an empty file before a nonempty one, for some contents of the `malloc`ed `pages_per_file` there is a slot below `total_pages` that no run ever writes |
| `Pzip3Runs.PositionsExactly` | concurrency-pzip/wzip/pzip3.c:239-249 | the position function numbers the pages 0, 1, 2, ... for all contents of the uninitialised memory exactly when no empty file comes before a nonempty one |
| `Pzip3Progress.ProducerSleepsOnlyWhenFull` | concurrency-pzip/wzip/pzip3.c:165-171 | while the producer sleeps, no consumer sleeps, the run is not complete, and the queue is full whenever the lock is free |
| `Pzip3Progress.NoDeadlockBeforeCompletion` | concurrency-pzip/wzip/pzip3.c:165-274 | before completion, in every reachable state some thread can move without a spurious wakeup |
| `Pzip3Progress.BoundedWork` | concurrency-pzip/wzip/pzip3.c:96-274 | whatever the scheduler does, a run without spurious wakeups takes at most (4c+1)(3+2f+8p)+4c+7p steps for c consumers, f files and p pages |
| `Pzip3Progress.AllEffective` | concurrency-pzip/wzip/pzip3.c:96-274 | the steps so counted are all steps of a run in which every step finds its thread able to move |
| `Pzip3Progress.StuckIsComplete` | concurrency-pzip/wzip/pzip3.c:96-274 | a run that can go no further without a spurious wakeup has taken and stored every page, the producer has returned, and every consumer has returned or sleeps |
| `Pzip3Progress.HangsExactly` | concurrency-pzip/wzip/pzip3.c:193-195 | for all files, every page size and every number of consumers: some run leaves a consumer asleep in every continuation without a spurious wakeup, exactly if there is a consumer at all |
| `Pzip3Progress.MissedWakeup` | concurrency-pzip/wzip/pzip3.c:193-195 | such a run, built for any input: the unlocked flag and broadcast fall between a consumer's test and its wait |
| `Pzip3Progress.AsleepForever` | concurrency-pzip/wzip/pzip3.c:256-258 | a consumer asleep once the producer has returned stays asleep in every continuation without a spurious wakeup |
| `Pzip3Progress.CanReturn` | concurrency-pzip/wzip/pzip3.c:96-274 | on every input some run ends with all threads returned |
| `Pzip3Returns.ReturnsExactly` | concurrency-pzip/wzip/pzip3.c:260-272 | a consumer returns exactly at one of its two tests for the end, and exactly if the run is complete and the queue empty |
| `Pzip3Returns.SleepersExactly` | concurrency-pzip/wzip/pzip3.c:193-195 | once the producer has returned, the consumers asleep are exactly those that started to wait after its last broadcast |
| `Pzip3Returns.AllReturnExactly` | concurrency-pzip/wzip/pzip3.c:193-274 | a run that can go no further has returned from all threads exactly if no consumer started to wait after that broadcast |
| `Pzip3Returns.NeedlessSignal` | concurrency-pzip/wzip/pzip3.c:256-259 | the signal before a consumer's wait never wakes anyone: with an empty queue the producer is not asleep |
| `Pzip2.SameCut` | concurrency-pzip/wzip/pzip2.c:76-97 | the second size formula, with its pointer assigned twice, cuts files exactly as the first program does |
| `Pzip2.Compress` | concurrency-pzip/wzip/pzip2.c:108-148 | the one-pass loop leaves the canonical records of the buffer, also when it starts with NUL bytes |
| `Pzip2.Output` | concurrency-pzip/wzip/pzip2.c:181-234 | the stitcher with its pending pair writes the stitching of any nonempty record lists, runs spanning several one-run buffers included; nothing is pending at the end and the write pointer stays inside the allocation |
| `Pzip2Protocol.RunInv` | concurrency-pzip/wzip/pzip2.c:50-179 | the invariant of the claiming protocol holds in every state of every run, the unlocked handler included |
| `Pzip2Protocol.ClaimsFilledBuffersOnce` | concurrency-pzip/wzip/pzip2.c:99-170 | a claimed buffer is already filled with its contents, is not yet compressed, and no other worker holds it |
| `Pzip2Protocol.LateTestsCompress` | concurrency-pzip/wzip/pzip2.c:150-234 | with every unlocked read of the exit test a step of its own: if no test finds the claimed count equal to `listsize` while the handler still measures files, then when all workers have returned every buffer is compressed, and the file written is the canonical compression of the input, for every schedule and buffer size |
| `Pzip2Protocol.CompleteExactly` | concurrency-pzip/wzip/pzip2.c:150-179 | for every run with that exit test whose workers have all returned: every buffer is compressed exactly if the input is empty or some worker made its last comparison with `listsize` after all files were measured; earlier comparisons, and those of the other workers, do not matter |
| `Pzip2Protocol.CompleteCompresses` | concurrency-pzip/wzip/pzip2.c:172-234 | and then the file written is the canonical compression of the input |
| `Pzip2Protocol.AnyScheduleCompresses` | concurrency-pzip/wzip/pzip2.c:150-234 | with the exit test in one step the same holds of every run |
| `Pzip2Protocol.CanReturn` | concurrency-pzip/wzip/pzip2.c:150-179 | on every input, with either exit test, some run without an early test ends with all workers returned |
| `Pzip2Protocol.EarlyExit` | concurrency-pzip/wzip/pzip2.c:172-175 | with the exit test read by read there is a run in which all workers return and nothing is compressed |
| `Pzip2Protocol.SplitExitExactly` | concurrency-pzip/wzip/pzip2.c:172-175 | with the exit test read by read, every run whose workers have all returned has compressed every buffer exactly when the input has no bytes |
| `CString.CompareTransitive` | concurrency-mapreduce/mapreduce.c:113 | the order of `strcmp` on NUL-free keys is transitive |
| `CString.CompareOrder` | concurrency-mapreduce/mapreduce.c:113 | on NUL-free keys `strcmp` is negative exactly when the first comes before the second in byte order: they agree up to some place, and there the first ends or has the smaller byte |
| `CString.CompareEqual` | concurrency-mapreduce/mapreduce.c:90 | `strcmp` is zero exactly on equal keys |
| `MapReduce.SortAdd` | concurrency-mapreduce/mapreduce.c:109-123 | the in-place insertion with its early `break` turns the first entries into the insertion of the record and keeps the rest of the array |
| `MapReduce.InsertKeepsSorted` | concurrency-mapreduce/mapreduce.c:109-123 | insertion into a sorted list gives a sorted list |
| `MapReduce.InsertStable` | concurrency-mapreduce/mapreduce.c:109-123 | insertion puts a record behind all records of its key and moves no other record of any key |
| `MapReduce.PartitionAll` | concurrency-mapreduce/mapreduce.c:162-167 | the partition loop leaves in each array the insertion sort of the records hashed to it, and in `part_num` their number |
| `MapReduce.PartitionSorted` | concurrency-mapreduce/mapreduce.c:162-167 | every partition is sorted by key |
| `MapReduce.PartitionPermutes` | concurrency-mapreduce/mapreduce.c:162-167 | a partition is a permutation of exactly the records hashed to it |
| `MapReduce.PartitionSelects` | concurrency-mapreduce/mapreduce.c:162-167 | a partition holds the records of a key in `all_data` order if the key is hashed to it, and none otherwise |
| `MapReduce.GroupsIncrease` | concurrency-mapreduce/mapreduce.c:100-106 | the reduce calls of a sorted partition have strictly increasing keys |
| `MapReduce.GroupsOnce` | concurrency-mapreduce/mapreduce.c:100-106 | a sorted partition makes at most one call for a key, exactly if it holds the key, with all its values in order |
| `MapReduce.DefaultHashPartition` | concurrency-mapreduce/mapreduce.c:69-75 | the partition is the polynomial 5381*33^n + c_0*33^(n-1) + ... + c_(n-1) in the signed characters of the key, modulo 2^64 although every step wraps around, and then modulo the number of partitions |
| `WordCount.SpansExact` | concurrency-mapreduce/wordcount.c:13-19 | the spans of a text are exactly its maximal delimiter-free stretches |
| `WordCount.SpansOrdered` | concurrency-mapreduce/wordcount.c:13-19 | they are in order and do not touch |
| `WordCount.WordsAreTexts` | concurrency-mapreduce/wordcount.c:13-19 | the words are the texts of these spans |
| `WordCount.TokensExactly` | concurrency-mapreduce/wordcount.c:13-19 | reading line by line and cutting with `strsep` gives, over a NUL-free file, exactly the words of the whole file |
| `WordPositions.EmittedWords` | concurrency-mapreduce/wordcount.c:7-22 | for any file, byte by byte: the k-th word emitted is the k-th of a list of stretches of the file, in order with a gap between any two, which cover exactly the bytes other than tab, newline, carriage return and space that no NUL precedes on their line |
| `WordPositions.NoDelimiterEmitted` | concurrency-mapreduce/wordcount.c:15 | no emitted word holds one of the four delimiters or a NUL |
| `WordPositions.SameWordExactly` | concurrency-mapreduce/wordcount.c:15 | two bytes that belong to words belong to the same one exactly when none of the four delimiters stands between them |
| `WordCount.Map` | concurrency-mapreduce/wordcount.c:7-22 | the two loops emit, for any file, the nonempty tokens of each line up to its first NUL |
| `WordCount.Partitions.GetNext` | concurrency-mapreduce/mapreduce.c:89-98 | the cursor of a partition moves exactly when it stands on a record of the key, whose value is returned; other cursors stay |
| `WordCount.Partitions.Reduce` | concurrency-mapreduce/wordcount.c:24-30 | draining prints the number of values handed out, and takes exactly the leading records of the key off the partition |
| `WordCount.Partitions.MrReduce` | concurrency-mapreduce/mapreduce.c:100-106 | the reduce loop terminates, prints one line for each group of the partition, in order, and leaves the partition drained |
| `MapReduceProtocol.RunInv` | concurrency-mapreduce/mapreduce.c:78-180 | the invariant relating emits, partitions, cursors and calls holds in every state of every run |
| `MapReduceProtocol.ReducerKeepsOther` | concurrency-mapreduce/mapreduce.c:89-106 | a step of one reducer leaves the invariant, cursor and calls of every other partition as they were |
| `MapReduceProtocol.ReducersCommute` | concurrency-mapreduce/mapreduce.c:89-106 | steps of reducers on different partitions commute, up to how the calls of the two interleave |
| `MapReduceProtocol.PartitionReduced` | concurrency-mapreduce/mapreduce.c:100-180 | a finished reducer made exactly the calls of its partition, in strictly increasing order of key |
| `MapReduceProtocol.EachKeyReducedOnce` | concurrency-mapreduce/mapreduce.c:78-185 | for every interleaving of emits and reducers, each emitted key is reduced exactly once over all partitions with exactly its values in `all_data` order, and no other key is; the values are, as a multiset, those the mappers emitted for the key |
| `MapReduceProtocol.AllEmitsKept` | concurrency-mapreduce/mapreduce.c:78-87 | the values in `all_data` for a key are exactly those emitted with it over all mappers: none lost, none changed |
| `MapReduceProtocol.AllDataInterleaves` | concurrency-mapreduce/mapreduce.c:78-87 | at every moment `all_data` is an interleaving of what the mappers have emitted so far, each mapper's records in its own order |
| `MapReduceProtocol.AllEmitsInterleaved` | concurrency-mapreduce/mapreduce.c:78-150 | once the mappers are joined, it is an interleaving of all their emits |
| `MapReduceProgress.StuckIsFinished` | concurrency-mapreduce/mapreduce.c:78-180 | a run that can go no further has joined all mappers and reducers, so the statements about finished runs are about every run that ends |
| `MapReduceProgress.BoundedWork` | concurrency-mapreduce/mapreduce.c:78-180 | whatever the scheduler does, a run takes at most four steps for each emit, one for each partition, and one more |
| `MapReduceProgress.AllEffective` | concurrency-mapreduce/mapreduce.c:78-180 | the steps so counted are all steps of a run in which every step changes something |
| `MapReduceProtocol.WordCountCorrect` | concurrency-mapreduce/wordcount.c:7-30 | word count prints every word of NUL-free files once, with its true number of occurrences, and nothing else, for every interleaving and every in-range partitioner |
| `ServerBuffers.FifoBuffer.Put` | concurrency-webserver/src_multi/wserver.c:27-31 | `put` appends to the waiting requests, around the ring |
| `ServerBuffers.FifoBuffer.Get` | concurrency-webserver/src_multi/wserver.c:57-62 | `get` takes the oldest waiting request and leaves the others in order |
| `ServerBuffers.SffBuffer.PutSff` | concurrency-webserver/src_multi/wserver.c:33-44 | the swap pass, which does not stop early, inserts a request behind all that are not larger and keeps the buffer sorted by size |
| `ServerBuffers.SffBuffer.GetSff` | concurrency-webserver/src_multi/wserver.c:46-55 | shifting down takes the first request and leaves the others in order |
| `ServerBuffers.InsertKeepsOrdered` | concurrency-webserver/src_multi/wserver.c:33-44 | a later arrival goes behind equal sizes: the buffer stays strictly ordered by size, then arrival |
| `ServerBuffers.InsertElements` | concurrency-webserver/src_multi/wserver.c:33-44 | insertion adds one request and loses none |
| `ServerProtocol.RunInv` | concurrency-webserver/src_multi/wserver.c:64-179 | the server invariant holds in every state of every run, for both policies, any number of workers and spurious wakeups |
| `ServerProtocol.AcceptedInOrder` | concurrency-webserver/src_multi/wserver.c:158-176 | what goes into the buffer are the connections accepted, each with its own descriptor and size, in the order of arrival; only the last may still be in the hands of the master |
| `ServerProtocol.FifoServesInOrder` | concurrency-webserver/src_multi/wserver.c:64-82 | FIFO: the k-th request served is the k-th connection accepted, and what was put is what was served followed by what waits |
| `ServerProtocol.FifoServesOldest` | concurrency-webserver/src_multi/wserver.c:64-82 | FIFO: a worker that finds requests takes the oldest, and that is the one it serves |
| `ServerProtocol.ServedOnce` | concurrency-webserver/src_multi/wserver.c:64-102 | both policies: no request is lost and none is served twice |
| `ServerProtocol.SffNoOvertaking` | concurrency-webserver/src_multi/wserver.c:84-102 | SFF over whole runs: a request put earlier and not larger than another is served before it |
| `ServerProtocol.SffServesSmallest` | concurrency-webserver/src_multi/wserver.c:88-94 | SFF: a worker always takes the smallest waiting request, the earliest of equals |
| `ServerProtocol.WorkConservation` | concurrency-webserver/src_multi/wserver.c:64-179 | if some worker sleeps, no more requests wait than workers are awake and idle; the master sleeps only when exactly `buffer_num` requests wait (`buffer_num-1` for SFF), and more never do |
| `ServerProtocol.RoomForPut` | concurrency-webserver/src_multi/wserver.c:161-175 | in every run a put finds fewer than `buffer_num` requests in the array |
| `ServerProtocol.DeadlockExactly` | concurrency-webserver/src_multi/wserver.c:155-179 | with buffer_num at least 1, some run puts every thread to sleep exactly when there is no worker, or the policy is SFF and buffer_num is 1 |
| `ServerProgress.IdleIsServed` | concurrency-webserver/src_multi/wserver.c:64-179 | a server that cannot lock up and can go no further has served every connection it accepted, all workers wait, and the master takes any new connection |
| `ServerProgress.BoundedWork` | concurrency-webserver/src_multi/wserver.c:64-179 | whatever the scheduler does, without spurious wakeups the threads make at most five steps for each connection accepted and one for each worker |
| `ServerProgress.AllMoves` | concurrency-webserver/src_multi/wserver.c:64-179 | accepting and the steps so counted are all steps of a run in which every step finds its thread able to move |
| `ServerProgress.SpuriousWakeups` | concurrency-webserver/src_multi/wserver.c:68-70 | a spuriously woken thread that still finds nothing to do goes back to sleep and leaves the state as it was |
| `ServerProtocol.NothingServed` | concurrency-webserver/src_multi/wserver.c:155-168 | SFF with buffer_num 1: in every run nothing is put and nothing is served |
| `FsImage.BlockNum` | filesystems-checker/xchecker.c:143-146 | the least number of 512-byte blocks that holds the file |
| `FsImage.RinodeTiles` | filesystems-checker/xchecker.c:90-108 | `rinode` by block and slot reads the 64 bytes at 64 times the inode number, counted from the inode area |
| `FsLayout.SuperblockLayout` | filesystems-checker/fs.h:16-24 | the superblock is read from bytes 512 on, its little-endian words in the order of the struct |
| `FsLayout.InodeLayout` | filesystems-checker/fs.h:31-38 | an inode is read from its 64 bytes: type, three more 16-bit fields, size, thirteen addresses |
| `FsLayout.UsedAt` | filesystems-checker/xchecker.c:267-306 | of a file that fits, block k stands at its place among the addresses the checks visit exactly if the file has a byte at or after 512*k: the k-th direct address, the pointer behind the twelfth, then the words of the block it points to |
| `FsLayout.UsedExactly` | filesystems-checker/xchecker.c:267-306 | for any inode, overlong files included: an address is visited exactly if some byte of the file lies in its block, or it is the pointer of a file of more than 12*512 bytes |
| `FsLayout.PiecesExactly` | filesystems-checker/xchecker.c:257-310 | the addresses visited over inodes 1 to n are exactly those that one of them uses, free inodes left out or not |
| `FsBitmap.BitmapExist` | filesystems-checker/xchecker.c:229-244 | the index arithmetic with its two cases reads bit addr mod 8 of byte addr / 8 |
| `FsBitmap.ClearBit` | filesystems-checker/xchecker.c:313-327 | the truncated mask clears bit k of a byte and no other bit |
| `FsBitmap.BitmapDelete` | filesystems-checker/xchecker.c:313-327 | afterwards an address is marked exactly if it was and is not the deleted one |
| `FsBitmap.LowBits` | filesystems-checker/xchecker.c:374-380 | a byte equals 2^k - 1 exactly when its k low bits and no others are set |
| `FsCheck.InodeAddrDetect2` | filesystems-checker/xchecker.c:126-176 | check 2 passes exactly when every address of every inode with a size, free ones included, is a data block; inodes and indirect blocks off the image and overlong files are allowed wherever the source meets a bad address before them |
| `FsCheck.RangeExactly` | filesystems-checker/xchecker.c:126-176 | so check 2 passes exactly when every address some inode uses is one of the last `nblocks` of 1000 blocks, the unsigned wrap-around for larger `nblocks` included |
| `FsCheck.BitmapCheck5` | filesystems-checker/xchecker.c:246-311 | check 5 prints as many errors as allocated inodes use addresses that the bitmap marks free, with repetitions |
| `FsCheck.UnmarkedCounts` | filesystems-checker/xchecker.c:246-311 | that number is the number of positions in the sequence of addresses at which the bitmap has no mark |
| `FsCheck.BitmapCheck6` | filesystems-checker/xchecker.c:329-387 | check 6 passes exactly when, from the byte of the first data block on, the blocks marked and not in use are the metadata blocks of that byte |
| `FsCheck.OnlyMetadataLeft` | filesystems-checker/xchecker.c:374-387 | the final byte comparisons decide which bits are left over from that byte on |
| `FsCheck.BitmapExactly` | filesystems-checker/xchecker.c:246-387 | after check 2, on an image whose data blocks follow the bitmap block: checks 5 and 6 report nothing exactly when of the last `nblocks` blocks just those are marked on the image that an allocated inode uses, directly, as indirect pointer or as indirect entry, and the blocks before them that share their first byte are marked |
| `FsCheck.AddressCheck78` | filesystems-checker/xchecker.c:389-459 | after check 2: check 7/8 passes exactly when the sequence of all addresses in use has no repetition, within an inode or across inodes |
| `FsCheck.NoBlockTwice` | filesystems-checker/xchecker.c:389-459 | and that is so exactly when no allocated inode visits an address twice and no two of them use the same one |
| `FsCheck.MarkedBlocksCounted` | filesystems-checker/xchecker.c:126-459 | on an image that passes all these checks there are as many marked data blocks as addresses in the files |
| `Reverse.ReverseText` | initial-reverse/reverse.c:37-71 | the backward loops print the lines in reverse order joined by newlines, with a final newline exactly if there was one |
| `Reverse.JoinOfSplit` | initial-reverse/reverse.c:37-71 | splitting a text gives newline-free lines, and joining them gives the text back |
| `Reverse.SplitOfJoin` | initial-reverse/reverse.c:37-71 | joining newline-free lines and splitting gives the lines back |
| `Reverse.TwiceExactly` | initial-reverse/reverse.c:37-71 | reversing twice is the identity exactly when the text ends in a newline or does not begin with one |

## Left out

- Wzip.Compress: run lengths are unbounded here and wrap around only when they are stored; the C `int` overflows, which is undefined, for a run of 2^31 bytes. `Wunzip.RoundTripExactly` says exactly which inputs this concerns.
- Pzip3Runs.AnyScheduleCompresses: `int` overflow of page and run counts and the fixed capacity of `out` (1024000 pages) are not modelled; contents of `pages_per_file` for which the positions do not number the pages are excluded; `Pzip3Runs.NumberedExactly` says which they are and `Pzip3Runs.EmptyFileLosesPages` why.
- Pzip3Progress.NoDeadlockBeforeCompletion: after `isComplete` is set the code has no such property, as `Pzip3Progress.HangsExactly` shows; a memory model weaker than sequential consistency is not modelled.
- Pzip3Pages.PageArithmetic: the quotient of doubles is an exact real quotient here; for file sizes below 2^53 the doubles round to no whole number below a remainder, so the test decides the same.
- Pzip2Protocol.LateTestsCompress: the two additions to `listsize` for one file (lines 62 and 64) are one step. While files are measured no buffer is claimed, so a test compares zero with `listsize`, and the value between the two additions is not zero.
- Pzip2Protocol.AnyScheduleCompresses: takes the three reads of the exit test in one step; `Pzip2Protocol.CompleteExactly` says what holds when they are separate.
- MapReduceProtocol.EachKeyReducedOnce: the partitioner is a function with results in range, the reducer drains its key, and the array capacities (1000000 records, 100000 for a partition) are not exceeded; a second `MR_Run` in the same process is not modelled.
- ServerProtocol.DeadlockExactly: `buffer_num` of zero or less is not modelled (the C arrays have no such size), and `file_size` is taken to return a size for every connection.
- FsCheck.InodeAddrDetect2: excludes only images on which the source reads outside its memory: the superblock off the image, or an inode or indirect block off the image or an overlong file (over 140 blocks) reached before any bad address. Checks 5 to 8 copy the bitmap block too, which must be on the image.
- FsCheck.AddressCheck78: the verdict only; line 446 chooses the text of the message with the wrong array's index.
- Reverse.ReverseText: starts from the loaded bytes; loading with `getline` and `strcat` (which stops at NUL bytes) is not modelled, nor the empty file, for which the source reads before its buffer.
- concurrency-pzip/wzip/pzip.c repeats the merge of pzip3.c on chunks whose lengths go through `strlen` on unterminated buffers; concurrency-pzip/wzip/wzip.c is the streaming loop with timing added.
- `inode_check_9` follows the `.` entry of every subdirectory and does not terminate on images that have one; `inode_detect_1`, `root_check_3` and `directory_check_4` are single tests.
- The shells, HTTP parsing and sockets, wcat, wgrep, the argument handling of `reverse`, test scripts and timing output.
- Failures of `mmap`, `malloc`, `fstat` and of opening files other than in wzip and wunzip; files are byte sequences.
