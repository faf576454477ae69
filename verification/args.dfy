/**
 * The sequential part of `Args.run()`: the pool size, settling each task's outcome, dropping the
 * files without a record, and reducing the survivors pairwise into one aggregate record.
 */
module Aggregation {
  import opened Wrappers
  import opened JavaText
  import opened Stats
  import opened Tokenizer
  import opened Scraping

  /** The file name of every merged record, "all files" in UTF-16 code units. */
  const AllFiles: JString := [0x61, 0x6C, 0x6C, 0x20, 0x66, 0x69, 0x6C, 0x65, 0x73]

  /** The merged file name is the text "all files". */
  lemma AllFilesText()
    ensures AllFiles == Utf16("all files")
  {
    Utf16OfBmp("all files");
  }

  /**
   * The size of the fixed thread pool: the number of files, but at most four threads per
   * processor; a pool of no threads is refused (`IllegalArgumentException`), shown as `None`.
   */
  function PoolSize(fileCount: nat, processors: nat): (r: Option<nat>)
    ensures r.None? <==> fileCount == 0 || processors == 0
    ensures r.Some? ==> 1 <= r.value <= fileCount && r.value <= 4 * processors
    ensures r.Some? ==> r.value == fileCount || r.value == 4 * processors
  {
    var n := if fileCount <= 4 * processors then fileCount else 4 * processors;
    if n == 0 then None else Some(n)
  }

  /**
   * What `join()` gives for a task: its record, or null when it returned null or threw (the
   * `exceptionally` handler logs the exception and yields null).
   */
  function Settle(outcome: CallOutcome): Option<FileStats>
  {
    match outcome
    case Returned(stats) => stats
    case DuplicateKey => None
  }

  /** `filter(Objects::nonNull)`: the records that exist, in submission order. */
  function Survivors(results: seq<Option<FileStats>>): (r: seq<FileStats>)
    ensures |r| <= |results|
    ensures forall fs :: fs in r <==> Some(fs) in results
  {
    if results == [] then []
    else
      var init, last := results[..|results| - 1], results[|results| - 1];
      assert forall x :: x in results <==> x in init || x == last;
      Survivors(init) + (if last.Some? then [last.value] else [])
  }

  /** Filtering keeps order: the survivors of two lists of results are the first's, then the second's. */
  lemma {:induction false} SurvivorsAppend(a: seq<Option<FileStats>>, b: seq<Option<FileStats>>)
    ensures Survivors(a + b) == Survivors(a) + Survivors(b)
    decreases |b|
  {
    if b == [] {
      assert a + b == a;
    } else {
      var init := b[..|b| - 1];
      assert (a + b)[..|a + b| - 1] == a + init;
      SurvivorsAppend(a, init);
    }
  }

  /** The value a count map gives a word, zero when the word is not a key. */
  function CountIn(m: map<JString, int>, word: JString): int
  {
    if word in m then m[word] else 0
  }

  /** The list a sentence map gives a word, empty when the word is not a key. */
  function ListIn(m: map<JString, seq<JString>>, word: JString): seq<JString>
  {
    if word in m then m[word] else []
  }

  /**
   * `toMap` over the entries of both count maps with `(v1, v2) -> v1 + v2`: a word in both
   * maps gets the sum, a word in one keeps its value.
   */
  function MergeCounts(m1: map<JString, int>, m2: map<JString, int>): (m: map<JString, int>)
    ensures m.Keys == m1.Keys + m2.Keys
    ensures forall k :: k in m ==> m[k] == CountIn(m1, k) + CountIn(m2, k)
  {
    map k | k in m1.Keys + m2.Keys ::
      if k in m1 && k in m2 then m1[k] + m2[k] else if k in m1 then m1[k] else m2[k]
  }

  /**
   * `toMap` over the entries of both sentence maps, the first record's entries streamed first,
   * with list concatenation as the merge: a word in both maps gets the first list then the second.
   */
  function MergeLists(m1: map<JString, seq<JString>>, m2: map<JString, seq<JString>>): (m: map<JString, seq<JString>>)
    ensures m.Keys == m1.Keys + m2.Keys
    ensures forall k :: k in m ==> m[k] == ListIn(m1, k) + ListIn(m2, k)
  {
    map k | k in m1.Keys + m2.Keys ::
      if k in m1 && k in m2 then m1[k] + m2[k] else if k in m1 then m1[k] else m2[k]
  }

  /** Merging count maps does not depend on the order of the two records. */
  lemma MergeCountsCommutative(m1: map<JString, int>, m2: map<JString, int>)
    ensures MergeCounts(m1, m2) == MergeCounts(m2, m1)
  {
  }

  /** Merging count maps is associative. */
  lemma MergeCountsAssociative(m1: map<JString, int>, m2: map<JString, int>, m3: map<JString, int>)
    ensures MergeCounts(MergeCounts(m1, m2), m3) == MergeCounts(m1, MergeCounts(m2, m3))
  {
  }

  /** A merged list is the first record's list followed by the second's, a missing word giving the empty list. */
  lemma MergeListsAt(m1: map<JString, seq<JString>>, m2: map<JString, seq<JString>>, word: JString)
    ensures ListIn(MergeLists(m1, m2), word) == ListIn(m1, word) + ListIn(m2, word)
  {
    if word !in m1 && word !in m2 {
      assert word !in MergeLists(m1, m2);
    }
  }

  /** For one word, both groupings of three sentence maps give the same list. */
  lemma MergeListsAssociativeAt(m1: map<JString, seq<JString>>, m2: map<JString, seq<JString>>, m3: map<JString, seq<JString>>, word: JString)
    ensures ListIn(MergeLists(MergeLists(m1, m2), m3), word) == ListIn(MergeLists(m1, MergeLists(m2, m3)), word)
  {
    MergeListsAt(MergeLists(m1, m2), m3, word);
    MergeListsAt(m1, m2, word);
    MergeListsAt(m1, MergeLists(m2, m3), word);
    MergeListsAt(m2, m3, word);
    ConcatAssociative(ListIn(m1, word), ListIn(m2, word), ListIn(m3, word));
  }

  /** Merging sentence maps is associative. */
  lemma MergeListsAssociative(m1: map<JString, seq<JString>>, m2: map<JString, seq<JString>>, m3: map<JString, seq<JString>>)
    ensures MergeLists(MergeLists(m1, m2), m3) == MergeLists(m1, MergeLists(m2, m3))
  {
    var left, right := MergeLists(MergeLists(m1, m2), m3), MergeLists(m1, MergeLists(m2, m3));
    forall k | k in left
      ensures left[k] == right[k]
    {
      MergeListsAssociativeAt(m1, m2, m3, k);
    }
  }

  /** Merging sentence maps is not commutative: the same word's lists are concatenated in record order. */
  lemma MergeListsNotCommutative(word: JString, s1: JString, s2: JString)
    requires s1 != s2
    ensures MergeLists(map[word := [s1]], map[word := [s2]]) != MergeLists(map[word := [s2]], map[word := [s1]])
  {
    assert MergeLists(map[word := [s1]], map[word := [s2]])[word] == [s1, s2];
    assert MergeLists(map[word := [s2]], map[word := [s1]])[word] == [s2, s1];
  }

  /**
   * The `reduce` lambda: a record named "all files" whose statistics combine both records',
   * and whose time is the clock reading `now` taken when the lambda runs.
   */
  function Merge(flags: Flags, now: int, fs1: FileStats, fs2: FileStats): (r: FileStats)
    requires Mergeable(flags, fs1) && Mergeable(flags, fs2)
    ensures Conforms(flags, r)
    ensures r.filename == Some(AllFiles)
    ensures flags.charsCounterEnabled ==>
      r.charactersCount == Some(fs1.charactersCount.value + fs2.charactersCount.value)
    ensures flags.wordsCounterEnabled ==>
      r.wordsCount.value.Keys == fs1.wordsCount.value.Keys + fs2.wordsCount.value.Keys
    ensures flags.extractionEnabled ==>
      r.sentencesExtracted.value.Keys == fs1.sentencesExtracted.value.Keys + fs2.sentencesExtracted.value.Keys
  {
    FileStats(
      Some(AllFiles),
      if !flags.charsCounterEnabled then None else Some(fs1.charactersCount.value + fs2.charactersCount.value),
      if !flags.wordsCounterEnabled then None else Some(MergeCounts(fs1.wordsCount.value, fs2.wordsCount.value)),
      if !flags.extractionEnabled then None else Some(MergeLists(fs1.sentencesExtracted.value, fs2.sentencesExtracted.value)),
      if !flags.verbosityEnabled then None else Some(now))
  }

  /** Merging is associative when both groupings read the same clock value last. */
  lemma MergeAssociative(flags: Flags, t1: int, t2: int, a: FileStats, b: FileStats, c: FileStats)
    requires Mergeable(flags, a) && Mergeable(flags, b) && Mergeable(flags, c)
    ensures Merge(flags, t2, Merge(flags, t1, a, b), c) == Merge(flags, t2, a, Merge(flags, t1, b, c))
  {
    if flags.wordsCounterEnabled {
      MergeCountsAssociative(a.wordsCount.value, b.wordsCount.value, c.wordsCount.value);
    }
    if flags.extractionEnabled {
      MergeListsAssociative(a.sentencesExtracted.value, b.sentencesExtracted.value, c.sentencesExtracted.value);
    }
  }

  /** Without `-e`, merging does not depend on the order of the two records. */
  lemma MergeCommutativeWithoutExtraction(flags: Flags, now: int, a: FileStats, b: FileStats)
    requires Mergeable(flags, a) && Mergeable(flags, b) && !flags.extractionEnabled
    ensures Merge(flags, now, a, b) == Merge(flags, now, b, a)
  {
    if flags.wordsCounterEnabled {
      MergeCountsCommutative(a.wordsCount.value, b.wordsCount.value);
    }
  }

  /**
   * `stream().reduce(lambda)` on a nonempty list: a left fold whose k-th merge (from 0) reads the
   * clock value `clock(k)`. A single record is returned as it is.
   */
  function Reduce(flags: Flags, clock: nat -> int, stats: seq<FileStats>): (r: FileStats)
    requires |stats| >= 1
    requires |stats| >= 2 ==> forall fs :: fs in stats ==> Mergeable(flags, fs)
    ensures |stats| == 1 ==> r == stats[0]
    ensures |stats| >= 2 ==> Conforms(flags, r) && r.filename == Some(AllFiles)
    ensures |stats| >= 2 && flags.verbosityEnabled ==> r.timeSpent == Some(clock(|stats| - 2))
    decreases |stats|
  {
    if |stats| == 1 then stats[0]
    else
      var init := stats[..|stats| - 1];
      assert forall fs :: fs in init ==> fs in stats;
      Merge(flags, clock(|stats| - 2), Reduce(flags, clock, init), stats[|stats| - 1])
  }

  /** The `Optional` that `reduce` returns: empty exactly when no record survived. */
  function Aggregate(flags: Flags, clock: nat -> int, stats: seq<FileStats>): (r: Option<FileStats>)
    requires forall fs :: fs in stats ==> Mergeable(flags, fs)
    ensures r.None? <==> stats == []
    ensures |stats| == 1 ==> r == Some(stats[0])
    ensures |stats| >= 2 ==> r.Some? && r.value.filename == Some(AllFiles)
  {
    if stats == [] then None else Some(Reduce(flags, clock, stats))
  }

  /** A record's count for a word, zero when it has no count map or the word is not a key. */
  function CountOf(fs: FileStats, word: JString): int
  {
    if fs.wordsCount.Some? then CountIn(fs.wordsCount.value, word) else 0
  }

  /** A record's sentence list for a word, empty when it has no extraction map or the word is not a key. */
  function ListOf(fs: FileStats, word: JString): seq<JString>
  {
    if fs.sentencesExtracted.Some? then ListIn(fs.sentencesExtracted.value, word) else []
  }

  /** A record's character count, zero when absent. */
  function CharsOf(fs: FileStats): int
  {
    if fs.charactersCount.Some? then fs.charactersCount.value else 0
  }

  /** The sum of the records' counts for a word. */
  function TotalCount(stats: seq<FileStats>, word: JString): int
  {
    if stats == [] then 0 else TotalCount(stats[..|stats| - 1], word) + CountOf(stats[|stats| - 1], word)
  }

  /** The records' sentence lists for a word, concatenated in record order. */
  function AllLists(stats: seq<FileStats>, word: JString): seq<JString>
  {
    if stats == [] then [] else AllLists(stats[..|stats| - 1], word) + ListOf(stats[|stats| - 1], word)
  }

  /** The sum of the records' character counts. */
  function TotalChars(stats: seq<FileStats>): int
  {
    if stats == [] then 0 else TotalChars(stats[..|stats| - 1]) + CharsOf(stats[|stats| - 1])
  }

  /** Every word that is a key of some record's count map. */
  function CountKeys(stats: seq<FileStats>): set<JString>
  {
    if stats == [] then {}
    else
      var last := stats[|stats| - 1];
      CountKeys(stats[..|stats| - 1]) + (if last.wordsCount.Some? then last.wordsCount.value.Keys else {})
  }

  /** Every word that is a key of some record's extraction map. */
  function ListKeys(stats: seq<FileStats>): set<JString>
  {
    if stats == [] then {}
    else
      var last := stats[|stats| - 1];
      ListKeys(stats[..|stats| - 1]) + (if last.sentencesExtracted.Some? then last.sentencesExtracted.value.Keys else {})
  }

  /**
   * The reduced count map holds every word of any record's map, and each word's count is the
   * sum of the records' counts for it.
   */
  lemma {:induction false} ReduceCounts(flags: Flags, clock: nat -> int, stats: seq<FileStats>, word: JString)
    requires flags.wordsCounterEnabled && |stats| >= 1
    requires forall fs :: fs in stats ==> Mergeable(flags, fs)
    ensures Reduce(flags, clock, stats).wordsCount.Some?
    ensures Reduce(flags, clock, stats).wordsCount.value.Keys == CountKeys(stats)
    ensures CountIn(Reduce(flags, clock, stats).wordsCount.value, word) == TotalCount(stats, word)
    decreases |stats|
  {
    var init := stats[..|stats| - 1];
    if |stats| == 1 {
      assert init == [];
      assert stats[0] in stats;
    } else {
      assert forall fs :: fs in init ==> fs in stats;
      assert stats[|stats| - 1] in stats;
      ReduceCounts(flags, clock, init, word);
    }
  }

  /**
   * The reduced extraction map holds every word of any record's map, and each word's list is the
   * records' lists for it concatenated in record order.
   */
  lemma {:induction false} ReduceLists(flags: Flags, clock: nat -> int, stats: seq<FileStats>, word: JString)
    requires flags.extractionEnabled && |stats| >= 1
    requires forall fs :: fs in stats ==> Mergeable(flags, fs)
    ensures Reduce(flags, clock, stats).sentencesExtracted.Some?
    ensures Reduce(flags, clock, stats).sentencesExtracted.value.Keys == ListKeys(stats)
    ensures ListIn(Reduce(flags, clock, stats).sentencesExtracted.value, word) == AllLists(stats, word)
    decreases |stats|
  {
    var init := stats[..|stats| - 1];
    if |stats| == 1 {
      assert init == [];
      assert stats[0] in stats;
    } else {
      assert forall fs :: fs in init ==> fs in stats;
      assert stats[|stats| - 1] in stats;
      ReduceLists(flags, clock, init, word);
      MergeListsAt(Reduce(flags, clock, init).sentencesExtracted.value, stats[|stats| - 1].sentencesExtracted.value, word);
    }
  }

  /** The reduced character count is the sum of the records' character counts. */
  lemma {:induction false} ReduceChars(flags: Flags, clock: nat -> int, stats: seq<FileStats>)
    requires flags.charsCounterEnabled && |stats| >= 1
    requires forall fs :: fs in stats ==> Mergeable(flags, fs)
    ensures Reduce(flags, clock, stats).charactersCount == Some(TotalChars(stats))
    decreases |stats|
  {
    var init := stats[..|stats| - 1];
    if |stats| == 1 {
      assert init == [];
      assert stats[0] in stats;
    } else {
      assert forall fs :: fs in init ==> fs in stats;
      assert stats[|stats| - 1] in stats;
      ReduceChars(flags, clock, init);
      var last := stats[|stats| - 1];
      assert Reduce(flags, clock, stats) == Merge(flags, clock(|stats| - 2), Reduce(flags, clock, init), last);
      assert TotalChars(stats) == TotalChars(init) + CharsOf(last);
    }
  }

  /** One input file: its name, its text (`None` when it cannot be read) and the scrape's elapsed time. */
  datatype FileInput = FileInput(filename: JString, content: Option<JString>, elapsed: int)

  /**
   * The joined future of one file's task: a record named after the file exactly when the file
   * is readable and seeding does not throw, null otherwise.
   */
  function FileResult(flags: Flags, words: seq<JString>, file: FileInput): (r: Option<FileStats>)
    ensures r.Some? <==>
      file.content.Some? && !((flags.wordsCounterEnabled || flags.extractionEnabled) && !Distinct(words))
    ensures r.Some? ==> Conforms(flags, r.value) && r.value.filename == Some(file.filename)
    ensures r.Some? && flags.wordsCounterEnabled ==> r.value.wordsCount.value.Keys == WordSet(words)
    ensures r.Some? && flags.extractionEnabled ==> r.value.sentencesExtracted.value.Keys == WordSet(words)
  {
    Settle(Scrape(ScrapTask(flags, file.filename, words), file.content, file.elapsed))
  }

  /** The joined futures of all files, in submission order. */
  function Outcomes(flags: Flags, words: seq<JString>, files: seq<FileInput>): (r: seq<Option<FileStats>>)
    ensures |r| == |files|
  {
    if files == [] then []
    else Outcomes(flags, words, files[..|files| - 1]) + [FileResult(flags, words, files[|files| - 1])]
  }

  /** What `run()` reports: each surviving file's record, then the aggregate if there is one. */
  datatype Summary = Summary(perFile: seq<FileStats>, aggregate: Option<FileStats>)

  /** Every joined result is null or a conforming record whose maps have the target words as keys. */
  lemma {:induction false} OutcomesConform(flags: Flags, words: seq<JString>, files: seq<FileInput>)
    ensures forall fs :: Some(fs) in Outcomes(flags, words, files) ==> Conforms(flags, fs)
    ensures forall fs :: Some(fs) in Outcomes(flags, words, files) && flags.wordsCounterEnabled ==>
      fs.wordsCount.Some? && fs.wordsCount.value.Keys == WordSet(words)
    ensures forall fs :: Some(fs) in Outcomes(flags, words, files) && flags.extractionEnabled ==>
      fs.sentencesExtracted.Some? && fs.sentencesExtracted.value.Keys == WordSet(words)
  {
    if files != [] {
      OutcomesConform(flags, words, files[..|files| - 1]);
    }
  }

  /**
   * The sequential part of `run()`: join the tasks in submission order, drop the nulls, and
   * reduce the rest; merge k reads the clock value `clock(k)`. The file list is never empty:
   * the command line demands at least one file, and a pool of no threads would be refused.
   */
  function Run(flags: Flags, words: seq<JString>, files: seq<FileInput>, clock: nat -> int): (r: Summary)
    requires files != []
    ensures |r.perFile| <= |files|
    ensures forall fs :: fs in r.perFile ==> Conforms(flags, fs)
    ensures r.aggregate.None? <==> r.perFile == []
    ensures |r.perFile| == 1 ==> r.aggregate == Some(r.perFile[0])
    ensures r.aggregate.Some? ==> Conforms(flags, r.aggregate.value)
  {
    var survivors := Survivors(Outcomes(flags, words, files));
    OutcomesConform(flags, words, files);
    Summary(survivors, Aggregate(flags, clock, survivors))
  }

  /** Joining is per file: the results for two lists of files are the first's, then the second's. */
  lemma {:induction false} OutcomesAppend(flags: Flags, words: seq<JString>, a: seq<FileInput>, b: seq<FileInput>)
    ensures Outcomes(flags, words, a + b) == Outcomes(flags, words, a) + Outcomes(flags, words, b)
    decreases |b|
  {
    if b == [] {
      assert a + b == a;
    } else {
      var init := b[..|b| - 1];
      assert (a + b)[..|a + b| - 1] == a + init;
      OutcomesAppend(flags, words, a, init);
    }
  }

  /** The per-file records are reported in file-list order: running on two lists concatenates the reports. */
  lemma RunKeepsFileOrder(flags: Flags, words: seq<JString>, a: seq<FileInput>, b: seq<FileInput>, clock: nat -> int)
    requires a != [] && b != []
    ensures Run(flags, words, a + b, clock).perFile == Run(flags, words, a, clock).perFile + Run(flags, words, b, clock).perFile
  {
    OutcomesAppend(flags, words, a, b);
    SurvivorsAppend(Outcomes(flags, words, a), Outcomes(flags, words, b));
  }

  /** With `-w` or `-e` and a repeated target word, no joined result is a record. */
  lemma {:induction false} DuplicateWordsNoSurvivors(flags: Flags, words: seq<JString>, files: seq<FileInput>)
    requires (flags.wordsCounterEnabled || flags.extractionEnabled) && !Distinct(words)
    ensures Survivors(Outcomes(flags, words, files)) == []
  {
    if files != [] {
      var init := files[..|files| - 1];
      DuplicateWordsNoSurvivors(flags, words, init);
      assert Outcomes(flags, words, files)[..|files| - 1] == Outcomes(flags, words, init);
    }
  }

  /**
   * With `-w` or `-e` and a repeated target word, every task on a readable file throws (an
   * unreadable file returns null before seeding), so no file is reported and there is no aggregate.
   */
  lemma RunDuplicateWords(flags: Flags, words: seq<JString>, files: seq<FileInput>, clock: nat -> int)
    requires files != []
    requires (flags.wordsCounterEnabled || flags.extractionEnabled) && !Distinct(words)
    ensures Run(flags, words, files, clock).perFile == []
    ensures Run(flags, words, files, clock).aggregate.None?
  {
    DuplicateWordsNoSurvivors(flags, words, files);
  }

  /** The files whose text could be read. */
  function Readable(files: seq<FileInput>): nat
  {
    if files == [] then 0
    else Readable(files[..|files| - 1]) + (if files[|files| - 1].content.Some? then 1 else 0)
  }

  /** The sum over the readable files of a word's count in the file's text. */
  function ReadableCount(files: seq<FileInput>, word: JString): int
  {
    if files == [] then 0
    else
      var last := files[|files| - 1];
      ReadableCount(files[..|files| - 1], word) +
        (if last.content.Some? then WordCount(SplitSentences(last.content.value), word) else 0)
  }

  /** The sentences of the readable files that contain a word, file after file, each file's in text order. */
  function ReadableSentences(files: seq<FileInput>, word: JString): seq<JString>
  {
    if files == [] then []
    else
      var last := files[|files| - 1];
      ReadableSentences(files[..|files| - 1], word) +
        (if last.content.Some? then Extracted(SplitSentences(last.content.value), word) else [])
  }

  /** The sum over the readable files of their code point counts. */
  function ReadableChars(files: seq<FileInput>): int
  {
    if files == [] then 0
    else
      var last := files[|files| - 1];
      ReadableChars(files[..|files| - 1]) + (if last.content.Some? then CodePointCount(last.content.value) else 0)
  }

  /** Records whose count maps all have the same key set have that key set between them. */
  lemma {:induction false} CountKeysUniform(stats: seq<FileStats>, keys: set<JString>)
    requires stats != []
    requires forall fs :: fs in stats ==> fs.wordsCount.Some? && fs.wordsCount.value.Keys == keys
    ensures CountKeys(stats) == keys
  {
    var init := stats[..|stats| - 1];
    assert stats[|stats| - 1] in stats;
    if init != [] {
      assert forall fs :: fs in init ==> fs in stats;
      CountKeysUniform(init, keys);
    }
  }

  /** Records whose extraction maps all have the same key set have that key set between them. */
  lemma {:induction false} ListKeysUniform(stats: seq<FileStats>, keys: set<JString>)
    requires stats != []
    requires forall fs :: fs in stats ==> fs.sentencesExtracted.Some? && fs.sentencesExtracted.value.Keys == keys
    ensures ListKeys(stats) == keys
  {
    var init := stats[..|stats| - 1];
    assert stats[|stats| - 1] in stats;
    if init != [] {
      assert forall fs :: fs in init ==> fs in stats;
      ListKeysUniform(init, keys);
    }
  }

  /**
   * When seeding cannot throw, exactly the unreadable files are dropped, and the surviving
   * records' character counts add up to those of the readable texts.
   */
  lemma {:induction false} SurvivorsOfReadable(flags: Flags, words: seq<JString>, files: seq<FileInput>)
    requires !((flags.wordsCounterEnabled || flags.extractionEnabled) && !Distinct(words))
    ensures |Survivors(Outcomes(flags, words, files))| == Readable(files)
    ensures flags.charsCounterEnabled ==>
      TotalChars(Survivors(Outcomes(flags, words, files))) == ReadableChars(files)
  {
    if files != [] {
      var init, last := files[..|files| - 1], files[|files| - 1];
      SurvivorsOfReadable(flags, words, init);
      var outs := Outcomes(flags, words, files);
      assert outs[..|outs| - 1] == Outcomes(flags, words, init);
      var before := Survivors(Outcomes(flags, words, init));
      if last.content.Some? {
        var fs := FileResult(flags, words, last).value;
        assert Survivors(outs) == before + [fs];
        assert (before + [fs])[..|before|] == before;
      } else {
        assert Survivors(outs) == before;
      }
    }
  }

  /**
   * When seeding cannot throw, the surviving records' counts and lists for a target word add up
   * to those of the readable texts, the lists file after file.
   */
  lemma {:induction false} SurvivorStatistics(flags: Flags, words: seq<JString>, files: seq<FileInput>, word: JString)
    requires !((flags.wordsCounterEnabled || flags.extractionEnabled) && !Distinct(words))
    requires word in words
    ensures flags.wordsCounterEnabled ==>
      TotalCount(Survivors(Outcomes(flags, words, files)), word) == ReadableCount(files, word)
    ensures flags.extractionEnabled ==>
      AllLists(Survivors(Outcomes(flags, words, files)), word) == ReadableSentences(files, word)
  {
    if files != [] {
      var init, last := files[..|files| - 1], files[|files| - 1];
      SurvivorStatistics(flags, words, init, word);
      var outs := Outcomes(flags, words, files);
      assert outs[..|outs| - 1] == Outcomes(flags, words, init);
      var before := Survivors(Outcomes(flags, words, init));
      if last.content.Some? {
        var task := ScrapTask(flags, last.filename, words);
        var fs := Scrape(task, last.content, last.elapsed).stats.value;
        assert Survivors(outs) == before + [fs];
        assert (before + [fs])[..|before|] == before;
        if flags.wordsCounterEnabled {
          ScrapedCount(task, last.content.value, last.elapsed, word);
        }
        if flags.extractionEnabled {
          ScrapedSentences(task, last.content.value, last.elapsed, word);
        }
      } else {
        assert Survivors(outs) == before;
      }
    }
  }

  /**
   * End to end, when seeding cannot throw: there is an aggregate exactly when some file is
   * readable; its maps have exactly the target words as keys, words never found included; and
   * its character count is the sum of the readable texts' code point counts.
   */
  lemma RunAggregate(flags: Flags, words: seq<JString>, files: seq<FileInput>, clock: nat -> int)
    requires files != []
    requires !((flags.wordsCounterEnabled || flags.extractionEnabled) && !Distinct(words))
    ensures Run(flags, words, files, clock).aggregate.Some? <==> Readable(files) > 0
    ensures Run(flags, words, files, clock).aggregate.Some? && flags.wordsCounterEnabled ==>
      Run(flags, words, files, clock).aggregate.value.wordsCount.Some? &&
      Run(flags, words, files, clock).aggregate.value.wordsCount.value.Keys == WordSet(words)
    ensures Run(flags, words, files, clock).aggregate.Some? && flags.extractionEnabled ==>
      Run(flags, words, files, clock).aggregate.value.sentencesExtracted.Some? &&
      Run(flags, words, files, clock).aggregate.value.sentencesExtracted.value.Keys == WordSet(words)
    ensures Run(flags, words, files, clock).aggregate.Some? && flags.charsCounterEnabled ==>
      Run(flags, words, files, clock).aggregate.value.charactersCount == Some(ReadableChars(files))
  {
    SurvivorsOfReadable(flags, words, files);
    OutcomesConform(flags, words, files);
    var survivors := Run(flags, words, files, clock).perFile;
    if survivors != [] {
      assert forall fs :: fs in survivors ==> Mergeable(flags, fs);
      if flags.wordsCounterEnabled {
        ReduceCounts(flags, clock, survivors, []);
        CountKeysUniform(survivors, WordSet(words));
      }
      if flags.extractionEnabled {
        ReduceLists(flags, clock, survivors, []);
        ListKeysUniform(survivors, WordSet(words));
      }
      if flags.charsCounterEnabled {
        ReduceChars(flags, clock, survivors);
      }
    }
  }

  /**
   * End to end, when seeding cannot throw: the aggregate holds for each target word the sum of
   * the word's counts over the readable texts, and their matching sentences file after file.
   */
  lemma RunAggregateWord(flags: Flags, words: seq<JString>, files: seq<FileInput>, clock: nat -> int, word: JString)
    requires files != []
    requires !((flags.wordsCounterEnabled || flags.extractionEnabled) && !Distinct(words))
    requires word in words
    ensures Run(flags, words, files, clock).aggregate.Some? && flags.wordsCounterEnabled ==>
      Run(flags, words, files, clock).aggregate.value.wordsCount.Some? &&
      CountIn(Run(flags, words, files, clock).aggregate.value.wordsCount.value, word) == ReadableCount(files, word)
    ensures Run(flags, words, files, clock).aggregate.Some? && flags.extractionEnabled ==>
      Run(flags, words, files, clock).aggregate.value.sentencesExtracted.Some? &&
      ListIn(Run(flags, words, files, clock).aggregate.value.sentencesExtracted.value, word) == ReadableSentences(files, word)
  {
    SurvivorStatistics(flags, words, files, word);
    var survivors := Run(flags, words, files, clock).perFile;
    if survivors != [] {
      assert forall fs :: fs in survivors ==> Mergeable(flags, fs);
      if flags.wordsCounterEnabled {
        ReduceCounts(flags, clock, survivors, word);
      }
      if flags.extractionEnabled {
        ReduceLists(flags, clock, survivors, word);
      }
    }
  }
}
