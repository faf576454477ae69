/**
 * The two delimiter patterns of the scraper and `Pattern.split` as Java runs it.
 *
 * SENTENCE_DELIMITER is `\s*[.?!]+\s+` and WORD_DELIMITER is `\s*[\s,;:(){}<>'`"]+\s*`,
 * where `\s` is ASCII whitespace. Both are greedy and neither can match the empty string,
 * so a match starting at a position is found by scanning maximal runs of character classes
 * (MatchEnd). `split` then cuts the text at the leftmost matches, one after another, keeps
 * a leading empty piece, drops trailing empty pieces, and returns the whole text as the only
 * piece when nothing matches at all.
 */
module Tokenizer {
  import opened Wrappers
  import opened JavaText

  /** Java's `\s`: space, tab, line feed, vertical tab, form feed, carriage return. */
  predicate IsSpace(u: Unit)
  {
    u == U(' ') || u == U('\t') || u == U('\n') || u == 0x0B || u == 0x0C || u == U('\r')
  }

  /** The class `[.?!]`. */
  predicate IsTerminator(u: Unit)
  {
    u == U('.') || u == U('?') || u == U('!')
  }

  /** The class `[\s,;:(){}<>'`"]`. */
  predicate IsSeparator(u: Unit)
  {
    || IsSpace(u)
    || u == U(',') || u == U(';') || u == U(':')
    || u == U('(') || u == U(')') || u == U('{') || u == U('}')
    || u == U('<') || u == U('>') || u == U('\'') || u == U('`') || u == U('"')
  }

  datatype CharClass = Whitespace | Terminator | Separator

  predicate InClass(k: CharClass, u: Unit)
  {
    match k
    case Whitespace => IsSpace(u)
    case Terminator => IsTerminator(u)
    case Separator => IsSeparator(u)
  }

  /** The end of the maximal run of class `k` that starts at `i`. */
  function RunEnd(k: CharClass, s: JString, i: nat): (e: nat)
    requires i <= |s|
    ensures i <= e <= |s|
    ensures forall j {:trigger InClass(k, s[j])} :: i <= j < e ==> InClass(k, s[j])
    ensures e == |s| || !InClass(k, s[e])
    decreases |s| - i
  {
    if i < |s| && InClass(k, s[i]) then RunEnd(k, s, i + 1) else i
  }

  datatype Pattern = SentenceDelimiter | WordDelimiter

  function Last<T>(xs: seq<T>): T
    requires xs != []
  {
    xs[|xs| - 1]
  }

  /** Concatenation is associative (stated on its own, away from the facts about maps and splits). */
  lemma ConcatAssociative<T>(a: seq<T>, b: seq<T>, c: seq<T>)
    ensures a + b + c == a + (b + c)
  {
  }

  /** A terminator at `m` directly followed by whitespace: where a sentence may end. */
  predicate BreakAt(s: JString, m: int)
  {
    0 <= m && m + 1 < |s| && IsTerminator(s[m]) && IsSpace(s[m + 1])
  }

  /**
   * The end of the match of `pat` that starts at `i`, if there is one. For the sentence
   * pattern, `\s*` must take the whole whitespace run (no whitespace is a terminator),
   * `[.?!]+` the whole terminator run and `\s+` the whole whitespace run after it. For the
   * word pattern the match is the maximal run of separators.
   */
  function MatchEnd(pat: Pattern, s: JString, i: nat): (r: Option<nat>)
    requires i <= |s|
    ensures r.Some? ==> i < r.value <= |s|
  {
    match pat
    case SentenceDelimiter =>
      var j := RunEnd(Whitespace, s, i);
      var k := RunEnd(Terminator, s, j);
      var e := RunEnd(Whitespace, s, k);
      if j < k < e then Some(e) else None
    case WordDelimiter =>
      var e := RunEnd(Separator, s, i);
      if i < e then Some(e) else None
  }

  /** A sentence break at `i` always starts a sentence delimiter. */
  lemma BreakStartsMatch(s: JString, i: nat)
    requires BreakAt(s, i)
    ensures MatchEnd(SentenceDelimiter, s, i).Some?
  {
    assert InClass(Terminator, s[i]) && InClass(Whitespace, s[i + 1]);
    assert RunEnd(Whitespace, s, i) == i;
    assert RunEnd(Terminator, s, i) == i + 1 by {
      assert RunEnd(Terminator, s, i) == RunEnd(Terminator, s, i + 1);
    }
  }

  /**
   * A sentence delimiter found at `i` is whitespace and terminators only, ends in whitespace
   * that is not followed by more, and holds a sentence break.
   */
  lemma SentenceMatch(s: JString, i: nat)
    requires i <= |s|
    requires MatchEnd(SentenceDelimiter, s, i).Some?
    ensures forall j :: i <= j < MatchEnd(SentenceDelimiter, s, i).value ==> IsSpace(s[j]) || IsTerminator(s[j])
    ensures IsSpace(s[MatchEnd(SentenceDelimiter, s, i).value - 1])
    ensures MatchEnd(SentenceDelimiter, s, i).value == |s| || !IsSpace(s[MatchEnd(SentenceDelimiter, s, i).value])
    ensures exists m :: i <= m && m + 1 < MatchEnd(SentenceDelimiter, s, i).value && BreakAt(s, m)
  {
    var j := RunEnd(Whitespace, s, i);
    var k := RunEnd(Terminator, s, j);
    var e := RunEnd(Whitespace, s, k);
    forall x | i <= x < e ensures IsSpace(s[x]) || IsTerminator(s[x]) {
      if x < j {
        assert InClass(Whitespace, s[x]);
      } else if x < k {
        assert InClass(Terminator, s[x]);
      } else {
        assert InClass(Whitespace, s[x]);
      }
    }
    assert InClass(Whitespace, s[e - 1]);
    assert InClass(Terminator, s[k - 1]) && InClass(Whitespace, s[k]);
    assert BreakAt(s, k - 1);
  }

  /** A word delimiter is found exactly at separators, and is the maximal run of them. */
  lemma WordMatch(s: JString, i: nat)
    requires i <= |s|
    ensures MatchEnd(WordDelimiter, s, i).Some? <==> i < |s| && IsSeparator(s[i])
    ensures MatchEnd(WordDelimiter, s, i).Some? ==>
      && (forall j :: i <= j < MatchEnd(WordDelimiter, s, i).value ==> IsSeparator(s[j]))
      && (MatchEnd(WordDelimiter, s, i).value == |s| || !IsSeparator(s[MatchEnd(WordDelimiter, s, i).value]))
  {
    var e := RunEnd(Separator, s, i);
    forall x | i <= x < e ensures IsSeparator(s[x]) {
      assert InClass(Separator, s[x]);
    }
  }

  /** `Matcher.find` from position `p`: the leftmost match, as its start and end. */
  function FindFrom(pat: Pattern, s: JString, p: nat): (r: Option<(nat, nat)>)
    requires p <= |s|
    ensures r.Some? ==> p <= r.value.0 < r.value.1 <= |s| && MatchEnd(pat, s, r.value.0) == Some(r.value.1)
    decreases |s| - p
  {
    if p == |s| then None
    else match MatchEnd(pat, s, p)
      case Some(e) => Some((p, e))
      case None => FindFrom(pat, s, p + 1)
  }

  /** Where a search stopped: the start of the match found, or `end` when there was none. */
  function FoundAt(r: Option<(nat, nat)>, end: nat): nat
  {
    if r.Some? then r.value.0 else end
  }

  /** The match found is the leftmost one: the pattern matches nowhere before it. */
  lemma {:induction false} FindFromLeftmost(pat: Pattern, s: JString, p: nat)
    requires p <= |s|
    ensures forall k :: p <= k < FoundAt(FindFrom(pat, s, p), |s|) ==> MatchEnd(pat, s, k).None?
    decreases |s| - p
  {
    if p == |s| {
      assert FindFrom(pat, s, p).None?;
    } else if MatchEnd(pat, s, p).Some? {
      assert FoundAt(FindFrom(pat, s, p), |s|) == p;
    } else {
      FindFromLeftmost(pat, s, p + 1);
      var stop := FoundAt(FindFrom(pat, s, p + 1), |s|);
      assert FoundAt(FindFrom(pat, s, p), |s|) == stop;
      forall k | p <= k < stop
        ensures MatchEnd(pat, s, k).None?
      {
      }
    }
  }

  /** The pieces between successive matches from `p` on, before trailing empty pieces are dropped. */
  function Segments(pat: Pattern, s: JString, p: nat): (r: seq<JString>)
    requires p <= |s|
    ensures |r| >= 1
    decreases |s| - p
  {
    match FindFrom(pat, s, p)
    case None => [s[p..]]
    case Some((a, e)) => [s[p..a]] + Segments(pat, s, e)
  }

  /** The matched delimiters from `p` on, in order. */
  function Delimiters(pat: Pattern, s: JString, p: nat): (r: seq<JString>)
    requires p <= |s|
    ensures |r| + 1 == |Segments(pat, s, p)|
    decreases |s| - p
  {
    match FindFrom(pat, s, p)
    case None => []
    case Some((a, e)) => [s[a..e]] + Delimiters(pat, s, e)
  }

  /** The pieces joined with the delimiters between them. */
  function Interleave(pieces: seq<JString>, delims: seq<JString>): JString
    requires |pieces| == |delims| + 1
  {
    if delims == [] then pieces[0]
    else pieces[0] + delims[0] + Interleave(pieces[1..], delims[1..])
  }

  /** Interleaving one more piece and delimiter in front puts them before the rest. */
  lemma InterleaveCons(pieces: seq<JString>, delims: seq<JString>, x: JString, d: JString)
    requires |pieces| == |delims| + 1
    ensures Interleave([x] + pieces, [d] + delims) == x + d + Interleave(pieces, delims)
  {
    assert ([x] + pieces)[1..] == pieces;
    assert ([d] + delims)[1..] == delims;
  }

  /** `split` loses nothing: the pieces and the delimiters put back together give the text. */
  lemma {:induction false} SegmentsReassemble(pat: Pattern, s: JString, p: nat)
    requires p <= |s|
    ensures Interleave(Segments(pat, s, p), Delimiters(pat, s, p)) == s[p..]
    decreases |s| - p
  {
    var found := FindFrom(pat, s, p);
    if found.None? {
      assert Segments(pat, s, p) == [s[p..]];
      assert Delimiters(pat, s, p) == [];
    } else {
      var (a, e) := found.value;
      var pieces, delims := Segments(pat, s, e), Delimiters(pat, s, e);
      assert Segments(pat, s, p) == [s[p..a]] + pieces;
      assert Delimiters(pat, s, p) == [s[a..e]] + delims;
      SegmentsReassemble(pat, s, e);
      InterleaveCons(pieces, delims, s[p..a], s[a..e]);
      SliceSplit(s, p, a, e);
    }
  }

  lemma SliceSplit(s: JString, p: nat, a: nat, e: nat)
    requires p <= a <= e <= |s|
    ensures s[p..] == s[p..a] + s[a..e] + s[e..]
  {
  }

  /** The longest prefix of `xs` that does not end with an empty string. */
  function DropTrailingEmpty(xs: seq<JString>): (r: seq<JString>)
    ensures |r| <= |xs| && r == xs[..|r|]
    ensures r == [] || r[|r| - 1] != []
    ensures forall k :: |r| <= k < |xs| ==> xs[k] == []
  {
    if xs != [] && xs[|xs| - 1] == [] then DropTrailingEmpty(xs[..|xs| - 1]) else xs
  }

  /** `pat.split(s)`, that is `split(s, 0)`. */
  function Split(pat: Pattern, s: JString): (r: seq<JString>)
    ensures r == [s] || r == [] || r[|r| - 1] != []
  {
    if FindFrom(pat, s, 0).None? then [s] else DropTrailingEmpty(Segments(pat, s, 0))
  }

  function SplitSentences(text: JString): seq<JString>
  {
    Split(SentenceDelimiter, text)
  }

  function SplitWords(sentence: JString): seq<JString>
  {
    Split(WordDelimiter, sentence)
  }

  /** Text that holds no terminator directly followed by whitespace. */
  ghost predicate NoBreak(s: JString)
  {
    forall m :: !BreakAt(s, m)
  }

  /** Without a sentence break the sentence pattern matches nowhere. */
  lemma NoBreakNoMatch(s: JString)
    requires NoBreak(s)
    ensures FindFrom(SentenceDelimiter, s, 0).None?
  {
    var r := FindFrom(SentenceDelimiter, s, 0);
    if r.Some? {
      SentenceMatch(s, r.value.0);
    }
  }

  /** A terminator run splits only when whitespace follows it: otherwise the text is one sentence. */
  lemma NoBreakIsOneSentence(s: JString)
    requires NoBreak(s)
    ensures SplitSentences(s) == [s]
  {
    NoBreakNoMatch(s);
  }

  /** Where the sentence pattern matches nowhere from `p` on, there is no break from `p` on. */
  lemma NoMatchNoBreak(s: JString, p: nat, a: nat)
    requires p <= a <= |s|
    requires forall k :: p <= k < a ==> MatchEnd(SentenceDelimiter, s, k).None?
    ensures NoBreak(s[p..a])
  {
    var t := s[p..a];
    forall m | BreakAt(t, m) ensures false {
      assert BreakAt(s, p + m);
      BreakStartsMatch(s, p + m);
    }
  }

  lemma {:induction false} SegmentsHaveNoBreak(s: JString, p: nat)
    requires p <= |s|
    ensures forall t :: t in Segments(SentenceDelimiter, s, p) ==> NoBreak(t)
    decreases |s| - p
  {
    match FindFrom(SentenceDelimiter, s, p)
    case None =>
      FindFromLeftmost(SentenceDelimiter, s, p);
      NoMatchNoBreak(s, p, |s|);
      assert s[p..] == s[p..|s|];
    case Some((a, e)) =>
      FindFromLeftmost(SentenceDelimiter, s, p);
      NoMatchNoBreak(s, p, a);
      SegmentsHaveNoBreak(s, e);
  }

  /**
   * A text made only of a delimiter, here ". ", has no sentence at all: the leading empty
   * piece is dropped together with the trailing one.
   */
  lemma DelimiterOnlyTextHasNoSentence()
    ensures SplitSentences([0x2E, 0x20]) == []
  {
    var text: JString := [0x2E, 0x20];
    assert MatchEnd(SentenceDelimiter, text, 0) == Some(2) by {
      assert RunEnd(Whitespace, text, 0) == 0;
      assert RunEnd(Terminator, text, 0) == 1 by {
        assert RunEnd(Terminator, text, 1) == 1;
      }
      assert RunEnd(Whitespace, text, 1) == 2;
    }
    assert FindFrom(SentenceDelimiter, text, 0) == Some((0, 2));
    assert FindFrom(SentenceDelimiter, text, 2).None?;
    assert text[2..] == [] && text[0..0] == [];
    assert Segments(SentenceDelimiter, text, 2) == [[]];
    assert Segments(SentenceDelimiter, text, 0) == [[], []];
  }

  /** No sentence holds a sentence break, so splitting a sentence again gives just that sentence. */
  lemma SentencesAreUnsplittable(text: JString)
    ensures forall t :: t in SplitSentences(text) ==> NoBreak(t) && SplitSentences(t) == [t]
  {
    if FindFrom(SentenceDelimiter, text, 0).None? {
      FindFromLeftmost(SentenceDelimiter, text, 0);
      NoMatchNoBreak(text, 0, |text|);
      assert text[0..|text|] == text;
    } else {
      var segs := Segments(SentenceDelimiter, text, 0);
      SegmentsHaveNoBreak(text, 0);
      var r := DropTrailingEmpty(segs);
      assert forall t :: t in r ==> t in segs;
    }
    forall t | t in SplitSentences(text) ensures SplitSentences(t) == [t] {
      NoBreakIsOneSentence(t);
    }
  }

  /** The last segment from `p` is the rest of the text, or the last segment after the first match. */
  lemma LastOfSegments(pat: Pattern, s: JString, p: nat)
    requires p <= |s|
    ensures FindFrom(pat, s, p).None? ==> Last(Segments(pat, s, p)) == s[p..]
    ensures FindFrom(pat, s, p).Some? ==>
      Last(Segments(pat, s, p)) == Last(Segments(pat, s, FindFrom(pat, s, p).value.1))
  {
    var found := FindFrom(pat, s, p);
    if found.None? {
      assert Segments(pat, s, p) == [s[p..]];
    } else {
      var (a, e) := found.value;
      var rest := Segments(pat, s, e);
      assert Segments(pat, s, p) == [s[p..a]] + rest;
      assert Last([s[p..a]] + rest) == Last(rest);
    }
  }

  /**
   * A sentence delimiter ends in whitespace. This is one of `SentenceMatch`'s conclusions,
   * stated alone so that `LastSegment` does not carry the others, which make it several
   * times costlier to verify.
   */
  lemma SentenceMatchEndsInSpace(s: JString, i: nat)
    requires i <= |s|
    requires MatchEnd(SentenceDelimiter, s, i).Some?
    ensures IsSpace(s[MatchEnd(SentenceDelimiter, s, i).value - 1])
  {
    var k := RunEnd(Terminator, s, RunEnd(Whitespace, s, i));
    var e := RunEnd(Whitespace, s, k);
    assert InClass(Whitespace, s[e - 1]);
  }

  /** The last segment from `p` starts at `p` or right after the whitespace ending a match. */
  lemma {:induction false} LastSegment(s: JString, p: nat) returns (q: nat)
    requires p <= |s|
    ensures p <= q <= |s|
    ensures Last(Segments(SentenceDelimiter, s, p)) == s[q..]
    ensures q == p || IsSpace(s[q - 1])
    decreases |s| - p
  {
    var found := FindFrom(SentenceDelimiter, s, p);
    LastOfSegments(SentenceDelimiter, s, p);
    if found.None? {
      q := p;
    } else {
      var e := found.value.1;
      assert IsSpace(s[e - 1]) by { SentenceMatchEndsInSpace(s, found.value.0); }
      q := LastSegment(s, e);
      assert q == e || IsSpace(s[q - 1]);
    }
  }

  /**
   * Unless the text ends in whitespace, its last sentence runs to the end of the text, so it
   * keeps a final `.`, `?` or `!`.
   */
  lemma LastSentenceKeepsEnding(text: JString)
    requires text != [] && !IsSpace(text[|text| - 1])
    ensures SplitSentences(text) != []
    ensures 0 < |Last(SplitSentences(text))| <= |text|
    ensures text[|text| - |Last(SplitSentences(text))|..] == Last(SplitSentences(text))
    ensures Last(Last(SplitSentences(text))) == Last(text)
  {
    var q := LastSentenceStart(text);
    assert |text| - |Last(Split(SentenceDelimiter, text))| == q;
  }

  /** Where the last sentence starts, when the text does not end in whitespace. */
  lemma LastSentenceStart(text: JString) returns (q: nat)
    requires text != [] && !IsSpace(text[|text| - 1])
    ensures q < |text|
    ensures Split(SentenceDelimiter, text) != [] && Last(Split(SentenceDelimiter, text)) == text[q..]
  {
    if FindFrom(SentenceDelimiter, text, 0).None? {
      q := 0;
    } else {
      var segs := Segments(SentenceDelimiter, text, 0);
      q := LastSegment(text, 0);
      assert q < |text|;
      assert DropTrailingEmpty(segs) == segs by {
        assert Last(segs) == text[q..] != [];
      }
    }
  }

  /** Where the word pattern matches nowhere, there is no separator. */
  lemma NoMatchNoSeparator(s: JString, p: nat, a: nat)
    requires p <= a <= |s|
    requires forall k :: p <= k < a ==> MatchEnd(WordDelimiter, s, k).None?
    ensures forall i :: 0 <= i < a - p ==> !IsSeparator(s[p..a][i])
  {
    forall i | 0 <= i < a - p ensures !IsSeparator(s[p..a][i]) {
      WordMatch(s, p + i);
    }
  }

  lemma {:induction false} SegmentsHaveNoSeparator(s: JString, p: nat)
    requires p <= |s|
    ensures forall t, i :: t in Segments(WordDelimiter, s, p) && 0 <= i < |t| ==> !IsSeparator(t[i])
    decreases |s| - p
  {
    match FindFrom(WordDelimiter, s, p)
    case None =>
      FindFromLeftmost(WordDelimiter, s, p);
      NoMatchNoSeparator(s, p, |s|);
      assert s[p..] == s[p..|s|];
    case Some((a, e)) =>
      FindFromLeftmost(WordDelimiter, s, p);
      NoMatchNoSeparator(s, p, a);
      SegmentsHaveNoSeparator(s, e);
  }

  /** Segments that start right after a match: all but the last are non-empty. */
  lemma {:induction false} InnerSegmentsNonEmpty(s: JString, p: nat)
    requires p <= |s|
    requires p == |s| || !IsSeparator(s[p])
    ensures forall k :: 0 <= k < |Segments(WordDelimiter, s, p)| - 1 ==> |Segments(WordDelimiter, s, p)[k]| > 0
    decreases |s| - p
  {
    var found := FindFrom(WordDelimiter, s, p);
    if found.Some? {
      var (a, e) := found.value;
      FindFromLeftmost(WordDelimiter, s, p);
      WordMatch(s, p);
      WordMatch(s, a);
      InnerSegmentsNonEmpty(s, e);
      var rest := Segments(WordDelimiter, s, e);
      var segs := Segments(WordDelimiter, s, p);
      assert segs == [s[p..a]] + rest;
      assert a != p;
    }
  }

  /**
   * Tokens never contain whitespace or the separating punctuation, and only the first token
   * can be empty (when the sentence starts with a separator).
   */
  lemma WordTokens(sentence: JString)
    ensures forall t, i :: t in SplitWords(sentence) && 0 <= i < |t| ==> !IsSeparator(t[i])
    ensures forall k :: 0 < k < |SplitWords(sentence)| ==> |SplitWords(sentence)[k]| > 0
  {
    TokensHaveNoSeparator(sentence);
    InnerTokensNonEmpty(sentence);
  }

  /** No token holds a separator. */
  lemma TokensHaveNoSeparator(sentence: JString)
    ensures forall t, i :: t in SplitWords(sentence) && 0 <= i < |t| ==> !IsSeparator(t[i])
  {
    if FindFrom(WordDelimiter, sentence, 0).None? {
      FindFromLeftmost(WordDelimiter, sentence, 0);
      NoMatchNoSeparator(sentence, 0, |sentence|);
      assert sentence[0..|sentence|] == sentence;
    } else {
      var segs := Segments(WordDelimiter, sentence, 0);
      SegmentsHaveNoSeparator(sentence, 0);
      var r := DropTrailingEmpty(segs);
      assert forall t :: t in r ==> t in segs;
    }
  }

  /** Every token after the first is nonempty. */
  lemma InnerTokensNonEmpty(sentence: JString)
    ensures forall k :: 0 < k < |SplitWords(sentence)| ==> |SplitWords(sentence)[k]| > 0
  {
    var found := FindFrom(WordDelimiter, sentence, 0);
    if found.Some? {
      var segs := Segments(WordDelimiter, sentence, 0);
      var (a, e) := found.value;
      WordMatch(sentence, a);
      InnerSegmentsNonEmpty(sentence, e);
      assert segs == [sentence[..a]] + Segments(WordDelimiter, sentence, e);
    }
  }

  /** The last word segment from `p` starts at `p` or right after a separator. */
  lemma {:induction false} LastWordSegment(s: JString, p: nat) returns (q: nat)
    requires p <= |s|
    ensures p <= q <= |s|
    ensures Last(Segments(WordDelimiter, s, p)) == s[q..]
    ensures q == p || IsSeparator(s[q - 1])
    decreases |s| - p
  {
    var found := FindFrom(WordDelimiter, s, p);
    LastOfSegments(WordDelimiter, s, p);
    if found.None? {
      q := p;
    } else {
      var (a, e) := found.value;
      assert IsSeparator(s[e - 1]) by { WordMatch(s, a); }
      q := LastWordSegment(s, e);
    }
  }

  /**
   * Unless a sentence ends in a separator, its last token runs to the end of the sentence, so
   * a final `.`, `?` or `!` stays on the last token.
   */
  lemma LastWordKeepsEnding(sentence: JString)
    requires sentence != [] && !IsSeparator(Last(sentence))
    ensures SplitWords(sentence) != []
    ensures 0 < |Last(SplitWords(sentence))| <= |sentence|
    ensures sentence[|sentence| - |Last(SplitWords(sentence))|..] == Last(SplitWords(sentence))
    ensures Last(Last(SplitWords(sentence))) == Last(sentence)
  {
    var q := LastWordStart(sentence);
    assert |sentence| - |Last(Split(WordDelimiter, sentence))| == q;
  }

  /** Where the last token starts, when the sentence does not end in a separator. */
  lemma LastWordStart(sentence: JString) returns (q: nat)
    requires sentence != [] && !IsSeparator(Last(sentence))
    ensures q < |sentence|
    ensures Split(WordDelimiter, sentence) != [] && Last(Split(WordDelimiter, sentence)) == sentence[q..]
  {
    if FindFrom(WordDelimiter, sentence, 0).None? {
      q := 0;
    } else {
      var segs := Segments(WordDelimiter, sentence, 0);
      q := LastWordSegment(sentence, 0);
      assert q < |sentence|;
      assert DropTrailingEmpty(segs) == segs by {
        assert Last(segs) == sentence[q..] != [];
      }
    }
  }
}
