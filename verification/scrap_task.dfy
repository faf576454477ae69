/**
 * The body of `ScrapTask.call()` once the file text is in memory: seed the count and
 * extraction maps with the target words, split the text into sentences and each sentence into
 * tokens, and for every sentence and word add the word's case-insensitive token matches to its
 * count and append the sentence to its extraction list when there is at least one match.
 */
module Scraping {
  import opened Wrappers
  import opened JavaText
  import opened Tokenizer
  import opened Stats

  /** The fields of a `ScrapTask`: the flags it consults, one file name and the target words. */
  datatype ScrapTask = ScrapTask(flags: Flags, filename: JString, words: seq<JString>)

  /**
   * How `call()` ends: it returns a record, or returns null because the file could not be
   * read, or throws because seeding a map met the same word twice.
   */
  datatype CallOutcome = Returned(stats: Option<FileStats>) | DuplicateKey

  /** The number of tokens equal to `word` ignoring case (the stream `filter(...).count()`). */
  function Occurrences(tokens: seq<JString>, word: JString): (n: nat)
    ensures n <= |tokens|
    ensures n > 0 <==> exists t :: t in tokens && EqualsIgnoreCase(t, word)
  {
    if tokens == [] then 0
    else
      assert forall t :: t in tokens <==> t == tokens[0] || t in tokens[1..];
      (if EqualsIgnoreCase(tokens[0], word) then 1 else 0) + Occurrences(tokens[1..], word)
  }

  /** The matches of `word` among the tokens of one sentence. */
  function OccursIn(sentence: JString, word: JString): nat
  {
    Occurrences(SplitWords(sentence), word)
  }

  /** The final count of `word`: its matches summed over the sentences. */
  function WordCount(sentences: seq<JString>, word: JString): nat
  {
    if sentences == [] then 0
    else WordCount(sentences[..|sentences| - 1], word) + OccursIn(sentences[|sentences| - 1], word)
  }

  /** A word's count is zero exactly when no sentence has a match. */
  lemma {:induction false} WordCountZero(sentences: seq<JString>, word: JString)
    ensures WordCount(sentences, word) == 0 <==> forall s :: s in sentences ==> OccursIn(s, word) == 0
  {
    if sentences != [] {
      var init, last := sentences[..|sentences| - 1], sentences[|sentences| - 1];
      assert forall s :: s in sentences <==> s in init || s == last;
      WordCountZero(init, word);
    }
  }

  /** The final extraction list of `word`: the sentences with at least one match, in text order. */
  function Extracted(sentences: seq<JString>, word: JString): (r: seq<JString>)
    ensures |r| <= |sentences|
    ensures forall s :: s in r <==> s in sentences && OccursIn(s, word) > 0
  {
    if sentences == [] then []
    else
      var init, last := sentences[..|sentences| - 1], sentences[|sentences| - 1];
      assert forall s :: s in sentences <==> s in init || s == last;
      Extracted(init, word) + (if OccursIn(last, word) > 0 then [last] else [])
  }

  /** The count map `call()` ends with: every target word with its count. */
  function CountMap(words: seq<JString>, sentences: seq<JString>): map<JString, int>
  {
    map w | w in words :: WordCount(sentences, w)
  }

  /** The extraction map `call()` ends with: every target word with its sentences. */
  function ExtractionMap(words: seq<JString>, sentences: seq<JString>): map<JString, seq<JString>>
  {
    map w | w in words :: Extracted(sentences, w)
  }

  /** What `call()` computes for a file whose reading gave `content` and took `elapsed` ms. */
  function Scrape(task: ScrapTask, content: Option<JString>, elapsed: int): (r: CallOutcome)
    ensures r == Returned(None) <==> content.None?
    ensures r.DuplicateKey? <==>
      content.Some? && (task.flags.wordsCounterEnabled || task.flags.extractionEnabled) && !Distinct(task.words)
    ensures r.Returned? && r.stats.Some? ==>
      Conforms(task.flags, r.stats.value) && r.stats.value.filename == Some(task.filename)
    ensures r.Returned? && r.stats.Some? && task.flags.wordsCounterEnabled ==>
      r.stats.value.wordsCount.value.Keys == WordSet(task.words)
    ensures r.Returned? && r.stats.Some? && task.flags.extractionEnabled ==>
      r.stats.value.sentencesExtracted.value.Keys == WordSet(task.words)
    ensures r.Returned? && r.stats.Some? && task.flags.charsCounterEnabled ==>
      r.stats.value.charactersCount == Some(CodePointCount(content.value))
  {
    match content
    case None => Returned(None)
    case Some(text) =>
      var flags := task.flags;
      if (flags.wordsCounterEnabled || flags.extractionEnabled) && !Distinct(task.words) then DuplicateKey
      else
        var sentences := SplitSentences(text);
        Returned(Some(FileStats(
          Some(task.filename),
          if flags.charsCounterEnabled then Some(CodePointCount(text)) else None,
          if flags.wordsCounterEnabled then Some(CountMap(task.words, sentences)) else None,
          if flags.extractionEnabled then Some(ExtractionMap(task.words, sentences)) else None,
          if flags.verbosityEnabled then Some(elapsed) else None)))
  }

  /**
   * `Collectors.toMap(Function.identity(), w -> v)` over the word list: each word is put in
   * turn, and a word already present aborts the collection.
   */
  method SeedMap<V>(words: seq<JString>, v: V) returns (r: Option<map<JString, V>>)
    ensures r.Some? <==> Distinct(words)
    ensures r.Some? ==> r.value == map w | w in words :: v
  {
    var m: map<JString, V> := map[];
    for i := 0 to |words|
      invariant Distinct(words[..i])
      invariant m == map w | w in words[..i] :: v
    {
      if words[i] in m {
        var k :| 0 <= k < i && words[..i][k] == words[i];
        assert words[k] == words[i];
        return None;
      }
      assert words[..i + 1] == words[..i] + [words[i]];
      m := m[words[i] := v];
    }
    assert words[..|words|] == words;
    return Some(m);
  }

  /** One more sentence adds its matches to the count and, if it has any, itself to the list. */
  lemma ScanStep(sentences: seq<JString>, i: nat, word: JString)
    requires i < |sentences|
    ensures WordCount(sentences[..i + 1], word) == WordCount(sentences[..i], word) + OccursIn(sentences[i], word)
    ensures Extracted(sentences[..i + 1], word) ==
      Extracted(sentences[..i], word) + (if OccursIn(sentences[i], word) > 0 then [sentences[i]] else [])
  {
    assert sentences[..i + 1][..i] == sentences[..i];
  }

  /**
   * The inner loop of `call()` for one sentence: every target word with at least one match
   * among the sentence's tokens gets the sentence appended to its list (with `-e`) and its
   * matches added to its count (with `-w`).
   */
  method ScanSentence(flags: Flags, words: seq<JString>, sentence: JString,
                      wordsCount: map<JString, int>, sentencesExtracted: map<JString, seq<JString>>)
    returns (counts: map<JString, int>, extracted: map<JString, seq<JString>>)
    requires Distinct(words)
    requires flags.wordsCounterEnabled ==> wordsCount.Keys == WordSet(words)
    requires flags.extractionEnabled ==> sentencesExtracted.Keys == WordSet(words)
    ensures flags.wordsCounterEnabled ==>
      && counts.Keys == WordSet(words)
      && forall w :: w in words ==> counts[w] == wordsCount[w] + OccursIn(sentence, w)
    ensures flags.extractionEnabled ==>
      && extracted.Keys == WordSet(words)
      && forall w :: w in words ==>
        extracted[w] == sentencesExtracted[w] + (if OccursIn(sentence, w) > 0 then [sentence] else [])
  {
    counts, extracted := wordsCount, sentencesExtracted;
    var tokens := SplitWords(sentence);
    for j := 0 to |words|
      invariant flags.wordsCounterEnabled ==> counts.Keys == WordSet(words)
      invariant flags.wordsCounterEnabled ==> forall k :: 0 <= k < |words| ==>
        counts[words[k]] == wordsCount[words[k]] + (if k < j then OccursIn(sentence, words[k]) else 0)
      invariant flags.extractionEnabled ==> extracted.Keys == WordSet(words)
      invariant flags.extractionEnabled ==> forall k :: 0 <= k < |words| ==>
        extracted[words[k]] == sentencesExtracted[words[k]] +
          (if k < j && OccursIn(sentence, words[k]) > 0 then [sentence] else [])
    {
      var word := words[j];
      var countOccurrences := Occurrences(tokens, word);
      assert forall k :: 0 <= k < |words| && k != j ==> words[k] != word;
      if countOccurrences > 0 {
        if flags.extractionEnabled {
          extracted := extracted[word := extracted[word] + [sentence]];
        }
        if flags.wordsCounterEnabled {
          counts := counts[word := counts[word] + countOccurrences];
        }
      }
    }
    forall w | w in words
      ensures flags.wordsCounterEnabled ==> counts[w] == wordsCount[w] + OccursIn(sentence, w)
      ensures flags.extractionEnabled ==>
        extracted[w] == sentencesExtracted[w] + (if OccursIn(sentence, w) > 0 then [sentence] else [])
    {
      var k :| 0 <= k < |words| && words[k] == w;
    }
  }

  /** A map with the target words as keys and their counts as values is the count map. */
  lemma CountMapFromValues(m: map<JString, int>, words: seq<JString>, sentences: seq<JString>)
    requires m.Keys == WordSet(words)
    requires forall w :: w in words ==> m[w] == WordCount(sentences, w)
    ensures m == CountMap(words, sentences)
  {
  }

  /** A map with the target words as keys and their sentence lists as values is the extraction map. */
  lemma ExtractionMapFromValues(m: map<JString, seq<JString>>, words: seq<JString>, sentences: seq<JString>)
    requires m.Keys == WordSet(words)
    requires forall w :: w in words ==> m[w] == Extracted(sentences, w)
    ensures m == ExtractionMap(words, sentences)
  {
  }

  /**
   * The outer loop of `call()`: every sentence in order is scanned against the seeded maps,
   * which end up holding each word's total count and the sentences that contain it.
   */
  method ScanSentences(flags: Flags, words: seq<JString>, sentences: seq<JString>,
                       seededCounts: map<JString, int>, seededLists: map<JString, seq<JString>>)
    returns (wordsCount: map<JString, int>, sentencesExtracted: map<JString, seq<JString>>)
    requires Distinct(words)
    requires flags.wordsCounterEnabled ==> seededCounts == map w | w in words :: 0
    requires flags.extractionEnabled ==> seededLists == map w | w in words :: []
    ensures flags.wordsCounterEnabled ==> wordsCount == CountMap(words, sentences)
    ensures flags.extractionEnabled ==> sentencesExtracted == ExtractionMap(words, sentences)
  {
    wordsCount, sentencesExtracted := seededCounts, seededLists;
    forall w | w in words
      ensures flags.wordsCounterEnabled ==> wordsCount[w] == WordCount(sentences[..0], w)
      ensures flags.extractionEnabled ==> sentencesExtracted[w] == Extracted(sentences[..0], w)
    {
      assert sentences[..0] == [];
    }
    for i := 0 to |sentences|
      invariant flags.wordsCounterEnabled ==> wordsCount.Keys == WordSet(words)
      invariant flags.wordsCounterEnabled ==> forall w :: w in words ==> wordsCount[w] == WordCount(sentences[..i], w)
      invariant flags.extractionEnabled ==> sentencesExtracted.Keys == WordSet(words)
      invariant flags.extractionEnabled ==> forall w :: w in words ==> sentencesExtracted[w] == Extracted(sentences[..i], w)
    {
      wordsCount, sentencesExtracted := ScanSentence(flags, words, sentences[i], wordsCount, sentencesExtracted);
      forall w | w in words
        ensures flags.wordsCounterEnabled ==> wordsCount[w] == WordCount(sentences[..i + 1], w)
        ensures flags.extractionEnabled ==> sentencesExtracted[w] == Extracted(sentences[..i + 1], w)
      {
        ScanStep(sentences, i, w);
      }
    }
    assert sentences[..|sentences|] == sentences;
    if flags.wordsCounterEnabled {
      CountMapFromValues(wordsCount, words, sentences);
    }
    if flags.extractionEnabled {
      ExtractionMapFromValues(sentencesExtracted, words, sentences);
    }
  }

  /** `call()`: seed the maps, then scan the sentences, updating the maps in place. */
  method Call(task: ScrapTask, content: Option<JString>, elapsed: int) returns (r: CallOutcome)
    ensures r == Scrape(task, content, elapsed)
  {
    if content.None? {
      return Returned(None);
    }
    var text := content.value;
    var flags, words := task.flags, task.words;

    var wordsCount: map<JString, int> := map[];
    if flags.wordsCounterEnabled {
      var seeded := SeedMap(words, 0);
      if seeded.None? {
        return DuplicateKey;
      }
      wordsCount := seeded.value;
    }
    var sentencesExtracted: map<JString, seq<JString>> := map[];
    if flags.extractionEnabled {
      var seeded := SeedMap(words, []);
      if seeded.None? {
        return DuplicateKey;
      }
      sentencesExtracted := seeded.value;
    }

    if flags.wordsCounterEnabled || flags.extractionEnabled {
      wordsCount, sentencesExtracted :=
        ScanSentences(flags, words, SplitSentences(text), wordsCount, sentencesExtracted);
    }

    r := Returned(Some(FileStats(
      Some(task.filename),
      if flags.charsCounterEnabled then Some(CodePointCount(text)) else None,
      if flags.wordsCounterEnabled then Some(wordsCount) else None,
      if flags.extractionEnabled then Some(sentencesExtracted) else None,
      if flags.verbosityEnabled then Some(elapsed) else None)));
  }

  /** Counting the sentences of two consecutive stretches of text separately adds up. */
  lemma {:induction false} WordCountAppend(a: seq<JString>, b: seq<JString>, word: JString)
    ensures WordCount(a + b, word) == WordCount(a, word) + WordCount(b, word)
    decreases |b|
  {
    if b == [] {
      assert a + b == a;
    } else {
      var init := b[..|b| - 1];
      assert (a + b)[..|a + b| - 1] == a + init;
      WordCountAppend(a, init, word);
    }
  }

  /** Extraction keeps text order: the list for two stretches is the first's list, then the second's. */
  lemma {:induction false} ExtractedAppend(a: seq<JString>, b: seq<JString>, word: JString)
    ensures Extracted(a + b, word) == Extracted(a, word) + Extracted(b, word)
    decreases |b|
  {
    if b == [] {
      assert a + b == a;
    } else {
      var init, last := b[..|b| - 1], b[|b| - 1];
      var tail := if OccursIn(last, word) > 0 then [last] else [];
      assert (a + b)[..|a + b| - 1] == a + init;
      assert Extracted(a + b, word) == Extracted(a + init, word) + tail;
      assert Extracted(b, word) == Extracted(init, word) + tail;
      ExtractedAppend(a, init, word);
      ConcatAssociative(Extracted(a, word), Extracted(init, word), tail);
    }
  }

  /**
   * A sentence appears in a word's list exactly as often as it appears in the text when it
   * matches, and not at all otherwise: several matches in one sentence append it once.
   */
  lemma {:induction false} ExtractedOnce(sentences: seq<JString>, word: JString, s: JString)
    ensures multiset(Extracted(sentences, word))[s] ==
      if OccursIn(s, word) > 0 then multiset(sentences)[s] else 0
  {
    if sentences != [] {
      var init, last := sentences[..|sentences| - 1], sentences[|sentences| - 1];
      assert sentences == init + [last];
      ExtractedOnce(init, word, s);
    }
  }

  /**
   * Every extracted sentence contributed at least one match, so a word's count is at least the
   * length of its list, and the count is zero exactly when the list is empty.
   */
  lemma {:induction false} CountCoversExtraction(sentences: seq<JString>, word: JString)
    ensures |Extracted(sentences, word)| <= WordCount(sentences, word)
    ensures WordCount(sentences, word) == 0 <==> Extracted(sentences, word) == []
  {
    if sentences != [] {
      CountCoversExtraction(sentences[..|sentences| - 1], word);
    }
  }

  /** Token matching ignores case: two words equal ignoring case match the same tokens. */
  lemma {:induction false} OccurrencesIgnoreCase(tokens: seq<JString>, a: JString, b: JString)
    requires EqualsIgnoreCase(a, b)
    ensures Occurrences(tokens, a) == Occurrences(tokens, b)
  {
    if tokens != [] {
      assert EqualsIgnoreCase(tokens[0], a) <==> EqualsIgnoreCase(tokens[0], b);
      OccurrencesIgnoreCase(tokens[1..], a, b);
    }
  }

  /** Two target words equal ignoring case get the same count and the same sentences. */
  lemma {:induction false} StatisticsIgnoreCase(sentences: seq<JString>, a: JString, b: JString)
    requires EqualsIgnoreCase(a, b)
    ensures WordCount(sentences, a) == WordCount(sentences, b)
    ensures Extracted(sentences, a) == Extracted(sentences, b)
  {
    if sentences != [] {
      var init, last := sentences[..|sentences| - 1], sentences[|sentences| - 1];
      OccurrencesIgnoreCase(SplitWords(last), a, b);
      StatisticsIgnoreCase(init, a, b);
    }
  }

  /** Counting over tokens is counting over all but the last, plus the last one's match. */
  lemma {:induction false} OccurrencesOfLast(tokens: seq<JString>, word: JString)
    requires tokens != []
    ensures Occurrences(tokens, word) ==
      Occurrences(tokens[..|tokens| - 1], word) + (if EqualsIgnoreCase(Last(tokens), word) then 1 else 0)
  {
    if |tokens| > 1 {
      assert tokens[1..][..|tokens| - 2] == tokens[..|tokens| - 1][1..];
      OccurrencesOfLast(tokens[1..], word);
    }
  }

  /**
   * `.` is not a word separator, so a sentence that ends in a terminator has it on its last
   * token, and that token never matches a target word that does not itself end in one: the
   * word right before the text's final `.`, `?` or `!` goes uncounted.
   */
  lemma FinalTokenNeverMatches(sentence: JString, word: JString)
    requires sentence != [] && IsTerminator(Last(sentence))
    requires word == [] || !IsTerminator(Last(word))
    ensures SplitWords(sentence) != []
    ensures !EqualsIgnoreCase(Last(SplitWords(sentence)), word)
    ensures OccursIn(sentence, word) ==
      Occurrences(SplitWords(sentence)[..|SplitWords(sentence)| - 1], word)
  {
    var tokens := SplitWords(sentence);
    LastWordKeepsEnding(sentence);
    TerminatedNeverMatches(Last(tokens), word);
    OccurrencesOfLast(tokens, word);
  }

  /** A token ending in a terminator differs, ignoring case, from every word that does not. */
  lemma TerminatedNeverMatches(t: JString, word: JString)
    requires t != [] && IsTerminator(Last(t))
    requires word == [] || !IsTerminator(Last(word))
    ensures !EqualsIgnoreCase(t, word)
  {
  }

  /** The text "a fox." in UTF-16 code units. */
  const FoxText: JString := [0x61, 0x20, 0x66, 0x6F, 0x78, 0x2E]

  /** The target word "fox". */
  const Fox: JString := [0x66, 0x6F, 0x78]

  /** The token "fox.", the full stop kept on it. */
  const FoxWithStop: JString := [0x66, 0x6F, 0x78, 0x2E]

  /** "a fox." holds no match for "fox": it is one sentence, and its tokens are "a" and "fox.". */
  lemma WordBeforeFullStop()
    ensures SplitSentences(FoxText) == [FoxText]
    ensures SplitWords(FoxText) == [[0x61], FoxWithStop]
    ensures WordCount(SplitSentences(FoxText), Fox) == 0
  {
    FullStopTextIsOneSentence(FoxText);
    FullStopTextTokens(FoxText);
    FinalTokenNeverMatches(FoxText, Fox);
    assert WordCount([FoxText], Fox) == OccursIn(FoxText, Fox);
  }

  /** "a fox." holds no terminator followed by whitespace. */
  lemma FullStopTextIsOneSentence(text: JString)
    requires text == FoxText
    ensures SplitSentences(text) == [text]
  {
    forall m ensures !BreakAt(text, m) {
      if 0 <= m < 5 {
        assert !IsTerminator(text[m]) by {
          assert m == 0 || m == 1 || m == 2 || m == 3 || m == 4;
        }
      }
    }
    NoBreakIsOneSentence(text);
  }

  /** In "a fox." no separator follows the space. */
  lemma NoSeparatorAfterSpace(text: JString)
    requires text == FoxText
    ensures FindFrom(WordDelimiter, text, 2).None?
  {
    WordMatch(text, 2);
    WordMatch(text, 3);
    WordMatch(text, 4);
    WordMatch(text, 5);
    assert FindFrom(WordDelimiter, text, 5).None?;
    assert FindFrom(WordDelimiter, text, 4).None?;
    assert FindFrom(WordDelimiter, text, 3).None?;
  }

  /** "a fox." splits at its one space. */
  lemma FullStopTextTokens(text: JString)
    requires text == FoxText
    ensures SplitWords(text) == [[0x61], FoxWithStop]
  {
    NoSeparatorAfterSpace(text);
    WordMatch(text, 0);
    WordMatch(text, 1);
    assert FindFrom(WordDelimiter, text, 0) == Some((1, 2));
    assert Segments(WordDelimiter, text, 2) == [text[2..]];
    assert Segments(WordDelimiter, text, 0) == [text[..1], text[2..]];
    assert text[..1] == [0x61] && text[2..] == FoxWithStop;
    assert DropTrailingEmpty([text[..1], text[2..]]) == [text[..1], text[2..]];
  }

  /** The record for readable text holds, for each target word, its count over the text's sentences. */
  lemma ScrapedCount(task: ScrapTask, text: JString, elapsed: int, word: JString)
    requires task.flags.wordsCounterEnabled && Distinct(task.words) && word in task.words
    ensures Scrape(task, Some(text), elapsed).Returned?
    ensures Scrape(task, Some(text), elapsed).stats.Some?
    ensures Scrape(task, Some(text), elapsed).stats.value.wordsCount.value[word] ==
      WordCount(SplitSentences(text), word)
  {
  }

  /** The record for readable text holds, for each target word, its matching sentences in text order. */
  lemma ScrapedSentences(task: ScrapTask, text: JString, elapsed: int, word: JString)
    requires task.flags.extractionEnabled && Distinct(task.words) && word in task.words
    ensures Scrape(task, Some(text), elapsed).Returned?
    ensures Scrape(task, Some(text), elapsed).stats.Some?
    ensures Scrape(task, Some(text), elapsed).stats.value.sentencesExtracted.value[word] ==
      Extracted(SplitSentences(text), word)
  {
  }

  /** With `-w` and `-e` both on, each word's count bounds its list, and is zero just when the list is empty. */
  lemma ScrapedCountCoversExtraction(task: ScrapTask, text: JString, elapsed: int, word: JString)
    requires task.flags.wordsCounterEnabled && task.flags.extractionEnabled
    requires Distinct(task.words) && word in task.words
    ensures Scrape(task, Some(text), elapsed).Returned?
    ensures Scrape(task, Some(text), elapsed).stats.Some?
    ensures |Scrape(task, Some(text), elapsed).stats.value.sentencesExtracted.value[word]| <=
      Scrape(task, Some(text), elapsed).stats.value.wordsCount.value[word]
    ensures Scrape(task, Some(text), elapsed).stats.value.wordsCount.value[word] == 0 <==>
      Scrape(task, Some(text), elapsed).stats.value.sentencesExtracted.value[word] == []
  {
    CountCoversExtraction(SplitSentences(text), word);
  }
}
