/**
 * Java `String` values as the sequences of UTF-16 code units they are, and the few
 * `String` operations the scraper relies on: `codePointCount` and `equalsIgnoreCase`.
 */
module JavaText {

  /** One UTF-16 code unit (a Java `char`). */
  newtype Unit = x: int | 0 <= x < 0x1_0000

  /** A Java `String`. */
  type JString = seq<Unit>

  /** The code unit of a character of the Basic Multilingual Plane, for writing constants. */
  function U(c: char): Unit
    requires c as int < 0x1_0000
  {
    c as int as Unit
  }

  predicate IsHighSurrogate(u: Unit) { 0xD800 <= u <= 0xDBFF }

  predicate IsLowSurrogate(u: Unit) { 0xDC00 <= u <= 0xDFFF }

  /** The UTF-16 encoding of one Unicode scalar value: one unit, or a surrogate pair. */
  function EncodeChar(c: char): (r: JString)
    ensures 1 <= |r| <= 2
    ensures |r| == 1 <==> c as int < 0x1_0000
    ensures |r| == 1 ==> !IsHighSurrogate(r[0]) && !IsLowSurrogate(r[0])
    ensures |r| == 2 ==> IsHighSurrogate(r[0]) && IsLowSurrogate(r[1])
  {
    if c as int < 0x1_0000 then [c as int as Unit]
    else
      var v := c as int - 0x1_0000;
      [(0xD800 + v / 0x400) as Unit, (0xDC00 + v % 0x400) as Unit]
  }

  /** The Java string holding the characters of `cs`. */
  function Utf16(cs: string): (r: JString)
    ensures |cs| <= |r| <= 2 * |cs|
  {
    if cs == [] then [] else EncodeChar(cs[0]) + Utf16(cs[1..])
  }

  /** Characters of the Basic Multilingual Plane take one code unit each, equal to the character's code. */
  lemma {:induction false} Utf16OfBmp(cs: string)
    requires forall i :: 0 <= i < |cs| ==> cs[i] as int < 0x1_0000
    ensures |Utf16(cs)| == |cs|
    ensures forall i :: 0 <= i < |cs| ==> Utf16(cs)[i] as int == cs[i] as int
  {
    if cs != [] {
      Utf16OfBmp(cs[1..]);
      assert Utf16(cs) == [cs[0] as int as Unit] + Utf16(cs[1..]);
    }
  }

  /**
   * `String.codePointCount(0, length())`: every unit counts once, except that a high
   * surrogate immediately followed by a low surrogate counts once for the pair.
   */
  function CodePointCount(s: JString): (n: nat)
    ensures n <= |s| <= 2 * n
    ensures (forall i :: 0 <= i < |s| ==> !IsHighSurrogate(s[i])) ==> n == |s|
  {
    if s == [] then 0
    else if |s| >= 2 && IsHighSurrogate(s[0]) && IsLowSurrogate(s[1]) then 1 + CodePointCount(s[2..])
    else 1 + CodePointCount(s[1..])
  }

  /** A string decoded from text counts each of its characters once, whatever its width in UTF-16. */
  lemma {:induction false} CodePointCountOfUtf16(cs: string)
    ensures CodePointCount(Utf16(cs)) == |cs|
  {
    if cs != [] {
      var head, rest := EncodeChar(cs[0]), Utf16(cs[1..]);
      assert Utf16(cs) == head + rest;
      if |head| == 1 {
        assert (head + rest)[1..] == rest;
      } else {
        assert (head + rest)[2..] == rest;
      }
      CodePointCountOfUtf16(cs[1..]);
    }
  }

  /** ASCII case folding: the upper-case letters map to their lower-case letters. */
  function Fold(u: Unit): Unit
  {
    if U('A') <= u <= U('Z') then u + 32 else u
  }

  /** `String.equalsIgnoreCase` under ASCII case folding. */
  predicate EqualsIgnoreCase(a: JString, b: JString)
    ensures a == b ==> EqualsIgnoreCase(a, b)
  {
    |a| == |b| && forall i :: 0 <= i < |a| ==> Fold(a[i]) == Fold(b[i])
  }

  /** Equality ignoring case is symmetric and transitive. */
  lemma IgnoreCaseEquivalence(a: JString, b: JString, c: JString)
    ensures EqualsIgnoreCase(a, b) ==> EqualsIgnoreCase(b, a)
    ensures EqualsIgnoreCase(a, b) && EqualsIgnoreCase(b, c) ==> EqualsIgnoreCase(a, c)
  {
  }

  /** An ASCII letter equals its other case ignoring case, and no other unit does. */
  lemma IgnoreCaseLetters(u: Unit, v: Unit)
    ensures EqualsIgnoreCase([u], [v]) <==>
      u == v || (U('A') <= u <= U('Z') && v == u + 32) || (U('A') <= v <= U('Z') && u == v + 32)
  {
    assert EqualsIgnoreCase([u], [v]) <==> Fold([u][0]) == Fold([v][0]);
  }
}
