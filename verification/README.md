# testing-task-1 text scraper, modelled in Dafny

The scraper counts target words in text files, counts the files' characters and extracts
the sentences that contain each word. It then merges the per-file reports into one
aggregate. This project models the deterministic core of that program. The files:

- `java_text.dfy` (module `JavaText`): Java strings as sequences of UTF-16 code units;
  `String.codePointCount`; `equalsIgnoreCase` under ASCII case folding.
- `tokenizer.dfy` (module `Tokenizer`): the two delimiter patterns of `ScrapTask` and
  `Pattern.split`. Splitting finds the leftmost match from the end of the previous match.
  No match at all yields the whole input. Trailing empty pieces are removed, so a leading
  empty piece is kept unless every piece is empty.
- `file_stats.dfy` (module `Stats`): the four flags `-w`, `-c`, `-e`, `-v` and the
  `FileStats` record. Every field of the record is optional.
- `scrap_task.dfy` (module `Scraping`): `ScrapTask.call()` after the file has been read.
  - `Call` is imperative, like the source. It seeds the two maps, then walks the sentences
    and the words in nested loops and updates the maps.
  - `Call` is proved equal to the function `Scrape`, and the properties are proved about
    `Scrape`.
  - A file that cannot be read ends as `Returned(None)`, the null the source returns.
  - A repeated target word with `-w` or `-e` makes `Collectors.toMap` throw. That ends as
    `DuplicateKey`.
- `args.dfy` (module `Aggregation`): the sequential part of `Args.run()`.
  - the thread-pool size;
  - joining the tasks, where a thrown exception becomes null;
  - dropping the nulls;
  - the `reduce` merge, a left fold over the surviving records.

Behaviour of the code that the model keeps:

- A sentence delimiter is a run of terminators that is followed by whitespace. So the last
  sentence keeps its `.`, `?` or `!` unless the text ends in whitespace
  (`Tokenizer.LastSentenceKeepsEnding`). Each delimiter match swallows the whole whitespace run
  around it (`Tokenizer.SentenceMatch`). So the first sentence keeps the text's leading
  whitespace, unless the text begins with a delimiter; the first sentence is then the empty
  string. A text made only of delimiters has no sentence at all
  (`Tokenizer.DelimiterOnlyTextHasNoSentence`). The last sentence keeps trailing whitespace, unless that whitespace directly follows
  a terminator run (`Tokenizer.LastSegment`).
- `.`, `?` and `!` are not word separators. So when the text ends in a terminator, the last
  token of its last sentence keeps it (`Tokenizer.LastWordKeepsEnding`). That token never
  matches a target word that does not itself end in a terminator, so the word right before
  the text's final terminator is not counted (`Scraping.FinalTokenNeverMatches`). In
  "a fox." the tokens are "a" and "fox.", and "fox" has no match (`Scraping.WordBeforeFullStop`).
- The merge of sentence maps concatenates the first record's list before the second's. It is
  associative but not commutative (`Aggregation.MergeListsNotCommutative`). The aggregate lists
  follow file-list order, because the futures are joined in submission order. Count maps and
  character counts merge commutatively.
- With exactly one surviving record, `reduce` returns that record unchanged. It keeps its
  file name and its own time. With two or more, the name is "all files" and the time is the
  clock reading of the last merge.
- Duplicate target words with `-w` or `-e` make every task on a readable file throw. An
  unreadable file returns null before seeding. No file is then reported and there is no
  aggregate (`Aggregation.RunDuplicateWords`).
- `supplyAsync` is given no executor (`Args.java` line 52). So the tasks run on the common
  fork-join pool, and the fixed pool sized at line 48 runs nothing. This is read from the code,
  not observed.

## Model

| member | source | states |
|---|---|---|
| Stats.Conforms | src/main/java/base/FileStats.java:22-26 | the record's five optional fields, with the name present and each statistic present exactly when its flag is on |
| JavaText.Utf16 | src/main/java/base/ScrapTask.java:41 | the text as a Java string holds between one and two code units per character |
| JavaText.Utf16OfBmp | src/main/java/base/ScrapTask.java:41 | a character below U+10000 is one code unit equal to its code |
| JavaText.CodePointCount | src/main/java/base/ScrapTask.java:85 | the code point count lies between half the length and the length, and equals the length when there is no high surrogate |
| JavaText.EqualsIgnoreCase | src/main/java/base/ScrapTask.java:64 | two strings are equal ignoring case when they have the same length and fold to the same unit at every index; every string equals itself |
| JavaText.IgnoreCaseEquivalence | src/main/java/base/ScrapTask.java:64 | equality ignoring case is symmetric and transitive |
| JavaText.IgnoreCaseLetters | src/main/java/base/ScrapTask.java:64 | a single unit equals another ignoring case exactly when they are equal or are the two cases of one ASCII letter |
| JavaText.CodePointCountOfUtf16 | src/main/java/base/ScrapTask.java:85 | the count over the encoding of n characters is n: a surrogate pair counts once |
| Tokenizer.MatchEnd | src/main/java/base/ScrapTask.java:26-27 | where a delimiter pattern matches at a position, the match is nonempty and ends within the text |
| Tokenizer.SentenceMatch | src/main/java/base/ScrapTask.java:26 | a sentence-delimiter match is whitespace and terminators only, ends with whitespace, leaves no whitespace right after it, and holds a terminator followed by whitespace |
| Tokenizer.BreakStartsMatch | src/main/java/base/ScrapTask.java:26 | a terminator followed by whitespace always starts a match there |
| Tokenizer.WordMatch | src/main/java/base/ScrapTask.java:27 | a word-delimiter match starts exactly at a separator and is the maximal run of separators |
| Tokenizer.FindFrom | src/main/java/base/ScrapTask.java:57 | the match found lies after the search start and is a real match |
| Tokenizer.FindFromLeftmost | src/main/java/base/ScrapTask.java:57 | no match starts between the search start and the match found |
| Tokenizer.Segments | src/main/java/base/ScrapTask.java:57 | the find-and-cut loop of `Pattern.split` always yields at least one piece |
| Tokenizer.SegmentsReassemble | src/main/java/base/ScrapTask.java:57 | the pieces interleaved with the delimiters give back the text |
| Tokenizer.DropTrailingEmpty | src/main/java/base/ScrapTask.java:57 | the result is a prefix of the pieces that does not end in an empty piece, and every dropped piece is empty |
| Tokenizer.Split | src/main/java/base/ScrapTask.java:57 | the split is the whole input, or empty, or ends in a nonempty piece |
| Tokenizer.NoBreakIsOneSentence | src/main/java/base/ScrapTask.java:57 | text without a terminator followed by whitespace is a single sentence |
| Tokenizer.DelimiterOnlyTextHasNoSentence | src/main/java/base/ScrapTask.java:57 | the text ". ", one delimiter and nothing else, splits into no sentence at all |
| Tokenizer.SegmentsHaveNoBreak | src/main/java/base/ScrapTask.java:57 | no piece of a sentence split contains a terminator followed by whitespace |
| Tokenizer.SentencesAreUnsplittable | src/main/java/base/ScrapTask.java:57 | every sentence splits again into just itself |
| Tokenizer.LastSegment | src/main/java/base/ScrapTask.java:57 | the last piece is a suffix of the text that starts at the search start or after whitespace |
| Tokenizer.LastSentenceKeepsEnding | src/main/java/base/ScrapTask.java:57 | when the text does not end in whitespace, its last sentence is a nonempty suffix of the text that ends with the text's last unit, terminator included |
| Tokenizer.SegmentsHaveNoSeparator | src/main/java/base/ScrapTask.java:61 | no piece of a word split contains a separator |
| Tokenizer.InnerSegmentsNonEmpty | src/main/java/base/ScrapTask.java:61 | when the input does not start with a separator, every piece but the last is nonempty |
| Tokenizer.WordTokens | src/main/java/base/ScrapTask.java:61 | tokens contain no separator, and every token after the first is nonempty |
| Tokenizer.LastWordSegment | src/main/java/base/ScrapTask.java:61 | the last piece of a word split is a suffix of the sentence that starts at the search start or after a separator |
| Tokenizer.LastWordKeepsEnding | src/main/java/base/ScrapTask.java:61 | when a sentence does not end in a separator, its last token is a nonempty suffix of the sentence that ends with the sentence's last unit, a terminator included |
| Scraping.Occurrences | src/main/java/base/ScrapTask.java:64 | the match count is at most the number of tokens, and it is positive exactly when some token equals the word ignoring case |
| Scraping.WordCount | src/main/java/base/ScrapTask.java:73-74 | the reference count a word ends with: its matches summed sentence by sentence (its properties are the lemmas below) |
| Scraping.WordCountZero | src/main/java/base/ScrapTask.java:73-74 | a word's count is zero exactly when no sentence has a match |
| Scraping.Extracted | src/main/java/base/ScrapTask.java:66-72 | a sentence is in a word's list exactly when it is a sentence of the text with a match, and the list is no longer than the sentences |
| Scraping.Scrape | src/main/java/base/ScrapTask.java:43-95 | an unreadable file gives null; a repeated word with -w or -e throws; otherwise the record is named after the file, each field is present iff its flag, the maps have exactly the target words as keys, and the character count is the code point count |
| Scraping.SeedMap | src/main/java/base/ScrapTask.java:46-47 | seeding succeeds exactly when the words are distinct, and then maps every word to the seed value |
| Scraping.ScanStep | src/main/java/base/ScrapTask.java:66-76 | one more sentence adds its matches to the count and appends itself to the list when it has a match |
| Scraping.ScanSentence | src/main/java/base/ScrapTask.java:61-77 | after the inner loop, every word's count grows by its matches in the sentence, and its list gains the sentence when there is a match |
| Scraping.CountMapFromValues | src/main/java/base/ScrapTask.java:56-79 | a map keyed by the target words whose values are their counts is the final count map |
| Scraping.ExtractionMapFromValues | src/main/java/base/ScrapTask.java:56-79 | a map keyed by the target words whose values are their lists is the final extraction map |
| Scraping.ScanSentences | src/main/java/base/ScrapTask.java:56-79 | after the outer loop, the seeded maps hold every word's total count and its matching sentences |
| Scraping.Call | src/main/java/base/ScrapTask.java:43-95 | the imperative seeding and nested loops produce exactly the outcome `Scrape` describes |
| Scraping.WordCountAppend | src/main/java/base/ScrapTask.java:60-76 | the count over two consecutive stretches of sentences is the sum of their counts |
| Scraping.ExtractedAppend | src/main/java/base/ScrapTask.java:60-72 | the list for two consecutive stretches is the first stretch's list followed by the second's, so text order is kept |
| Scraping.ExtractedOnce | src/main/java/base/ScrapTask.java:66-72 | a matching sentence is in the list as often as it occurs in the text, however many matches it has; a sentence without a match never is |
| Scraping.CountCoversExtraction | src/main/java/base/ScrapTask.java:64-76 | a word's count is at least the length of its list, and is zero exactly when the list is empty |
| Scraping.OccurrencesOfLast | src/main/java/base/ScrapTask.java:64 | the match count over the tokens is the count over all but the last plus one if the last token matches |
| Scraping.TerminatedNeverMatches | src/main/java/base/ScrapTask.java:64 | a token ending in `.`, `?` or `!` is not equal ignoring case to any word that does not end in one |
| Scraping.FinalTokenNeverMatches | src/main/java/base/ScrapTask.java:61-64 | in a sentence that ends in a terminator, the last token matches no target word that does not end in one, so the sentence's count is that of its other tokens |
| Scraping.WordBeforeFullStop | src/main/java/base/ScrapTask.java:57-64 | the text "a fox." is one sentence with the tokens "a" and "fox.", and "fox" is counted zero times in it |
| Scraping.OccurrencesIgnoreCase | src/main/java/base/ScrapTask.java:64 | two words equal ignoring case match the same number of tokens |
| Scraping.StatisticsIgnoreCase | src/main/java/base/ScrapTask.java:64-76 | two words equal ignoring case get the same count and the same sentences |
| Scraping.ScrapedCount | src/main/java/base/ScrapTask.java:73-74 | with -w and distinct words, the record's count for a word is the sum over the sentences of its token matches |
| Scraping.ScrapedSentences | src/main/java/base/ScrapTask.java:67-71 | with -e and distinct words, the record's list for a word is the sentences with a match, in text order |
| Scraping.ScrapedCountCoversExtraction | src/main/java/base/ScrapTask.java:64-76 | with -w and -e, each word's count bounds its list's length and is zero exactly when its list is empty |
| Aggregation.AllFilesText | src/main/java/base/Args.java:70 | the merged file name is the text "all files" |
| Aggregation.PoolSize | src/main/java/base/Args.java:47-48 | the pool size is the smaller of the file count and four per processor, at least one when both are positive; a pool of no threads is refused |
| Aggregation.Survivors | src/main/java/base/Args.java:61-64 | the survivors are exactly the non-null results, and no more of them than there are results |
| Aggregation.SurvivorsAppend | src/main/java/base/Args.java:61-64 | filtering keeps order: the survivors of two consecutive lists of results are the first's, then the second's |
| Aggregation.MergeCounts | src/main/java/base/Args.java:72-78 | the merged count map has the union of the keys, and each value is the sum of both counts, a missing key counting zero |
| Aggregation.MergeLists | src/main/java/base/Args.java:80-87 | the merged sentence map has the union of the keys, and each value is the first list followed by the second |
| Aggregation.MergeCountsCommutative | src/main/java/base/Args.java:72-78 | merging count maps does not depend on their order |
| Aggregation.MergeCountsAssociative | src/main/java/base/Args.java:72-78 | merging count maps is associative |
| Aggregation.MergeListsAt | src/main/java/base/Args.java:80-87 | one word's merged list is the first map's list followed by the second's, a missing word giving the empty list |
| Aggregation.MergeListsAssociativeAt | src/main/java/base/Args.java:80-87 | for one word, both groupings of three sentence maps give the same list |
| Aggregation.MergeListsAssociative | src/main/java/base/Args.java:80-87 | merging sentence maps is associative |
| Aggregation.MergeListsNotCommutative | src/main/java/base/Args.java:86 | swapping two sentence maps with different lists for one word changes the merge |
| Aggregation.Merge | src/main/java/base/Args.java:69-90 | the merged record is named "all files" and has each field iff its flag; the character counts are summed and the key sets are unioned |
| Aggregation.MergeAssociative | src/main/java/base/Args.java:69-90 | merging records is associative when both groupings read the same clock value last |
| Aggregation.MergeCommutativeWithoutExtraction | src/main/java/base/Args.java:69-90 | without -e, merging records does not depend on their order |
| Aggregation.Reduce | src/main/java/base/Args.java:69-91 | one record is returned unchanged; two or more give a conforming record named "all files" whose time is the clock reading of the last merge |
| Aggregation.Aggregate | src/main/java/base/Args.java:69-93 | there is no aggregate exactly when no record survived; a single survivor is the aggregate itself |
| Aggregation.ReduceCounts | src/main/java/base/Args.java:72-78 | the aggregate count map's keys are all the records' keys, and each word's count is the sum of the records' counts |
| Aggregation.ReduceLists | src/main/java/base/Args.java:80-87 | the aggregate sentence map's keys are all the records' keys, and each word's list is the records' lists in record order |
| Aggregation.ReduceChars | src/main/java/base/Args.java:71 | the aggregate character count is the sum of the records' counts |
| Aggregation.FileResult | src/main/java/base/Args.java:51-56 | one file's joined future is a conforming record named after the file exactly when the file is readable and seeding does not throw, and null otherwise; its maps have exactly the target words as keys |
| Aggregation.Outcomes | src/main/java/base/Args.java:50-62 | there is one joined result per file |
| Aggregation.OutcomesConform | src/main/java/base/Args.java:50-62 | every non-null joined result is a record that conforms to the flags, and its maps have exactly the target words as keys |
| Aggregation.OutcomesAppend | src/main/java/base/Args.java:50-62 | the results for two lists of files are the first's, then the second's |
| Aggregation.Run | src/main/java/base/Args.java:45-93 | for a nonempty file list (a pool of no threads would be refused), the reported records conform and are no more than the files; there is no aggregate exactly when nothing survived; one survivor is the aggregate itself; the aggregate conforms to the flags |
| Aggregation.RunKeepsFileOrder | src/main/java/base/Args.java:50-64 | the per-file records follow file-list order |
| Aggregation.DuplicateWordsNoSurvivors | src/main/java/base/Args.java:61-64 | with -w or -e and a repeated word, no joined result survives the null filter |
| Aggregation.RunDuplicateWords | src/main/java/base/Args.java:53-56 | with -w or -e and a repeated word, every readable file's task throws and is settled to null, so no file is reported and there is no aggregate |
| Aggregation.SurvivorsOfReadable | src/main/java/base/Args.java:50-64 | when seeding cannot throw, there is one reported record per readable file, and their character counts add up to those of the readable texts |
| Aggregation.SurvivorStatistics | src/main/java/base/Args.java:50-64 | when seeding cannot throw, the reported records' counts for a target word add up to its counts over the readable texts, and their lists, in order, are the readable texts' matching sentences file after file |
| Aggregation.CountKeysUniform | src/main/java/base/Args.java:72-78 | records whose count maps all have the same keys have exactly those keys between them |
| Aggregation.ListKeysUniform | src/main/java/base/Args.java:80-87 | records whose sentence maps all have the same keys have exactly those keys between them |
| Aggregation.RunAggregate | src/main/java/base/Args.java:61-93 | end to end, when seeding cannot throw: there is an aggregate iff some file is readable; its count and sentence maps have exactly the target words as keys, words never found included; its character count is the sum of the readable texts' code point counts |
| Aggregation.RunAggregateWord | src/main/java/base/Args.java:61-93 | end to end, when seeding cannot throw: the aggregate's count for a target word is the sum of its counts over the readable texts, and its list is their matching sentences file after file |

## Left out

- Command-line parsing with picocli (`Args.java` lines 25-41). The flags and the word list are inputs of the model.
- The thread pool, `CompletableFuture.supplyAsync`, `join` and `closePool`, with its 5-second `awaitTermination` and `shutdownNow`. The tasks are evaluated one after another in file order. A thrown exception is settled to null as `exceptionally` does. `Aggregation.PoolSize` keeps only the pool-size formula.
- Opening and reading the file, UTF-8 decoding and `IOUtils.toString`. The text is an input. A read failure is a `None` input, which gives a `Returned(None)` outcome.
- `Instant.now` and `Duration`. The per-file elapsed time is an input of the file, and the reading taken by merge k is the value `clock(k)` of a clock function.
- Logging and `System.out`. `FileStats.toString` with Jackson and the `NON_NULL` annotation. An absent field is `None`, and serialization is not modelled.
- The general `java.util.regex` engine. The two delimiter patterns are written directly as scans over code-unit runs. `\s` is the six ASCII whitespace characters.
- JavaText.EqualsIgnoreCase: folds only ASCII letters. It does not model Java's full Unicode case mapping.
- Aggregation.Merge: sums are unbounded integers. Java's `long` sums of counts and character counts could overflow.
- Aggregation.MergeAssociative: stated only for groupings that read the same clock value last. The aggregate time is a clock reading, not derived from the records.
- Aggregation.Run: the per-file records are reported in submission order. Completion order plays no part, because the futures are joined in the order of the file list.
