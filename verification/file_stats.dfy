/** The configuration flags and the per-file / aggregate statistics record. */
module Stats {
  import opened Wrappers
  import opened JavaText

  /** The four switches `-w`, `-c`, `-e` and `-v` of the command line. */
  datatype Flags = Flags(
    wordsCounterEnabled: bool,
    charsCounterEnabled: bool,
    extractionEnabled: bool,
    verbosityEnabled: bool)

  /** `FileStats`: every field may be absent (null in the record, omitted when printed). */
  datatype FileStats = FileStats(
    filename: Option<JString>,
    charactersCount: Option<int>,
    wordsCount: Option<map<JString, int>>,
    sentencesExtracted: Option<map<JString, seq<JString>>>,
    timeSpent: Option<int>)

  /** A record as the scraper and the merge build it: named, and each statistic present exactly when its flag is on. */
  predicate Conforms(flags: Flags, fs: FileStats)
  {
    && fs.filename.Some?
    && (fs.charactersCount.Some? <==> flags.charsCounterEnabled)
    && (fs.wordsCount.Some? <==> flags.wordsCounterEnabled)
    && (fs.sentencesExtracted.Some? <==> flags.extractionEnabled)
    && (fs.timeSpent.Some? <==> flags.verbosityEnabled)
  }

  /**
   * The statistics the merge reads are present: the merge dereferences the character count,
   * the count map and the extraction map whenever their flags are on.
   */
  predicate Mergeable(flags: Flags, fs: FileStats)
  {
    && (flags.charsCounterEnabled ==> fs.charactersCount.Some?)
    && (flags.wordsCounterEnabled ==> fs.wordsCount.Some?)
    && (flags.extractionEnabled ==> fs.sentencesExtracted.Some?)
  }

  /** The set of target words. */
  function WordSet(words: seq<JString>): set<JString>
  {
    set w | w in words
  }

  /** No word occurs twice in the list. */
  predicate Distinct(words: seq<JString>)
  {
    forall i, j :: 0 <= i < j < |words| ==> words[i] != words[j]
  }
}
