/**
 * The four fixed character-class alphabets of the password generator, the
 * visually similar characters, and the "avoid similar" filter that derives
 * each class's effective alphabet.
 */
module CharacterSets {

  const UppercaseAlphabet: string := "ABCDEFGHIJKLMNOPQRSTUVWXYZ"
  const LowercaseAlphabet: string := "abcdefghijklmnopqrstuvwxyz"
  const NumberAlphabet: string := "0123456789"
  const SymbolAlphabet: string := "!@#$%^&*()_+-=[]{}|;:,.<>?"

  /** Characters excluded when "avoid similar" is on, as the source spells them. */
  const SimilarCharacters: string := "0Oo1Il|i5S2Zz8B6bG9gqCcPpVvWwXxUunmrtf"

  /**
   * The same characters as a set: the source only ever asks whether a
   * character occurs in SimilarCharacters, and SimilarSetMatches shows that
   * this set answers that question alike for every character.
   */
  const SimilarSet: set<char> := {
    '0', 'O', 'o', '1', 'I', 'l', '|', 'i', '5', 'S', '2', 'Z', 'z', '8', 'B', '6', 'b', 'G', '9',
    'g', 'q', 'C', 'c', 'P', 'p', 'V', 'v', 'W', 'w', 'X', 'x', 'U', 'u', 'n', 'm', 'r', 't', 'f'
  }

  lemma SimilarSetMatches(ch: char)
    ensures ch in SimilarSet <==> ch in SimilarCharacters
  {
  }

  /** The uppercase alphabet is exactly the letters 'A' to 'Z'. */
  lemma UppercaseRange(ch: char)
    ensures ch in UppercaseAlphabet <==> 'A' <= ch <= 'Z'
  {
  }

  /** The lowercase alphabet is exactly the letters 'a' to 'z'. */
  lemma LowercaseRange(ch: char)
    ensures ch in LowercaseAlphabet <==> 'a' <= ch <= 'z'
  {
  }

  /** The character classes. */
  datatype CharClass = Upper | Lower | Number | Symbol

  /** The fixed order in which classes are concatenated and repaired. */
  const ClassOrder: seq<CharClass> := [Upper, Lower, Number, Symbol]

  /** The literal alphabet of a class. */
  function Alphabet(c: CharClass): string
  {
    match c
    case Upper => UppercaseAlphabet
    case Lower => LowercaseAlphabet
    case Number => NumberAlphabet
    case Symbol => SymbolAlphabet
  }

  /** The characters of `s` that are not in `excluded`, in their order in `s`. */
  function Without(s: string, excluded: set<char>): string
  {
    if s == [] then []
    else Without(s[..|s| - 1], excluded) + (if s[|s| - 1] in excluded then [] else [s[|s| - 1]])
  }

  /**
   * The "avoid similar" filter of script.js:41-44: the characters of `s`
   * that do not occur in SimilarCharacters, in their order in `s`.
   */
  function RemoveSimilar(s: string): string
  {
    Without(s, SimilarSet)
  }

  /** One more character at the end of the input: the filter decides it alone. */
  lemma WithoutSnoc(s: string, excluded: set<char>, k: nat)
    requires k < |s|
    ensures Without(s[..k + 1], excluded) == Without(s[..k], excluded) + (if s[k] in excluded then [] else [s[k]])
  {
    assert s[..k + 1][..k] == s[..k];
  }

  /** The filter keeps exactly the characters of `s` that are not excluded. */
  lemma {:induction false} WithoutMembers(s: string, excluded: set<char>, ch: char)
    ensures ch in Without(s, excluded) <==> ch in s && ch !in excluded
  {
    if s != [] {
      WithoutMembers(s[..|s| - 1], excluded, ch);
      assert s == s[..|s| - 1] + [s[|s| - 1]];
    }
  }

  /** Filtering a concatenation filters each part, so the filter keeps the order of `s`. */
  lemma {:induction false} WithoutAppend(a: string, b: string, excluded: set<char>)
    ensures Without(a + b, excluded) == Without(a, excluded) + Without(b, excluded)
  {
    if b == [] {
      assert a + b == a;
    } else {
      WithoutAppend(a, b[..|b| - 1], excluded);
      assert (a + b)[..|a + b| - 1] == a + b[..|b| - 1];
      assert (a + b)[|a + b| - 1] == b[|b| - 1];
    }
  }

  /** Each character keeps all its occurrences unless it is excluded, in which case it has none. */
  lemma {:induction false} WithoutCounts(s: string, excluded: set<char>, ch: char)
    ensures multiset(Without(s, excluded))[ch] == if ch in excluded then 0 else multiset(s)[ch]
  {
    if s != [] {
      assert s == s[..|s| - 1] + [s[|s| - 1]];
      WithoutCounts(s[..|s| - 1], excluded, ch);
    }
  }

  /** A string with no excluded character passes the filter unchanged (so the filter is idempotent). */
  lemma {:induction false} WithoutKeepsClean(s: string, excluded: set<char>)
    requires forall i :: 0 <= i < |s| ==> s[i] !in excluded
    ensures Without(s, excluded) == s
  {
    if s != [] {
      WithoutKeepsClean(s[..|s| - 1], excluded);
      assert s == s[..|s| - 1] + [s[|s| - 1]];
    }
  }

  /** A one-character string is dropped when the character is excluded and kept otherwise. */
  lemma WithoutSingle(ch: char, excluded: set<char>)
    ensures Without([ch], excluded) == if ch in excluded then [] else [ch]
  {
    assert [ch][..0] == [];
  }

  /** An excluded character between two strings free of excluded characters is all the filter removes. */
  lemma WithoutAround(pre: string, ch: char, post: string, excluded: set<char>)
    requires ch in excluded
    requires forall i :: 0 <= i < |pre| ==> pre[i] !in excluded
    requires forall i :: 0 <= i < |post| ==> post[i] !in excluded
    ensures Without(pre + [ch] + post, excluded) == pre + post
  {
    calc {
      Without(pre + [ch] + post, excluded);
      { WithoutAppend(pre + [ch], post, excluded); }
      Without(pre + [ch], excluded) + Without(post, excluded);
      { WithoutAppend(pre, [ch], excluded); WithoutSingle(ch, excluded); }
      Without(pre, excluded) + Without(post, excluded);
      { WithoutKeepsClean(pre, excluded); WithoutKeepsClean(post, excluded); }
      pre + post;
    }
  }

  /** A string whose only excluded character is at position `k` loses exactly that character. */
  lemma WithoutDropsOne(s: string, excluded: set<char>, k: nat)
    requires k < |s| && s[k] in excluded
    requires forall i :: 0 <= i < |s| && i != k ==> s[i] !in excluded
    ensures Without(s, excluded) == s[..k] + s[k + 1..]
  {
    var pre, post := s[..k], s[k + 1..];
    assert forall i :: 0 <= i < |pre| ==> pre[i] !in excluded by {
      assert forall i :: 0 <= i < |pre| ==> pre[i] == s[i];
    }
    assert forall i :: 0 <= i < |post| ==> post[i] !in excluded by {
      assert forall i :: 0 <= i < |post| ==> post[i] == s[k + 1 + i];
    }
    WithoutAround(pre, s[k], post, excluded);
    assert s == pre + [s[k]] + post;
  }

  /** An excluded character at position `k` adds nothing to the filtered prefix. */
  lemma WithoutSnocDropped(s: string, excluded: set<char>, k: nat)
    requires k < |s| && s[k] in excluded
    ensures Without(s[..k + 1], excluded) == Without(s[..k], excluded)
  {
    WithoutSnoc(s, excluded, k);
  }

  /** A character at position `k` that is not excluded is appended to the filtered prefix. */
  lemma WithoutSnocKept(s: string, excluded: set<char>, k: nat)
    requires k < |s| && s[k] !in excluded
    ensures Without(s[..k + 1], excluded) == Without(s[..k], excluded) + [s[k]]
  {
    WithoutSnoc(s, excluded, k);
  }

  /**
   * A string spelled "0123456789" is filtered to its characters '3', '4' and '7'.
   * The string is a parameter pinned down character by character, rather than
   * the literal NumberAlphabet, so that the verifier does not unfold the filter
   * over the literal on its own. FilteredNumbers applies it to NumberAlphabet.
   */
  lemma RemoveSimilarDigits(s: string)
    requires |s| == 10 && s[0] == '0' && s[1] == '1' && s[2] == '2' && s[3] == '3' && s[4] == '4'
    requires s[5] == '5' && s[6] == '6' && s[7] == '7' && s[8] == '8' && s[9] == '9'
    ensures RemoveSimilar(s) == [s[3], s[4], s[7]]
  {
    var e := SimilarSet;
    assert s[..0] == [];
    WithoutSnocDropped(s, e, 0);
    WithoutSnocDropped(s, e, 1);
    WithoutSnocDropped(s, e, 2);
    WithoutSnocKept(s, e, 3);
    WithoutSnocKept(s, e, 4);
    WithoutSnocDropped(s, e, 5);
    WithoutSnocDropped(s, e, 6);
    WithoutSnocKept(s, e, 7);
    WithoutSnocDropped(s, e, 8);
    WithoutSnocDropped(s, e, 9);
    assert s[..10] == s;
  }

  /** The alphabet a class contributes: filtered when `avoidSimilar`, the literal otherwise. */
  function EffectiveAlphabet(c: CharClass, avoidSimilar: bool): string
  {
    if avoidSimilar then RemoveSimilar(Alphabet(c)) else Alphabet(c)
  }

  /**
   * With "avoid similar" on, a class keeps exactly its characters that do not
   * occur in SimilarCharacters; with it off, the class alphabet is used unchanged.
   */
  lemma EffectiveAlphabetMembers(c: CharClass, avoidSimilar: bool, ch: char)
    ensures ch in EffectiveAlphabet(c, avoidSimilar) <==>
            ch in Alphabet(c) && (avoidSimilar ==> ch !in SimilarCharacters)
  {
    WithoutMembers(Alphabet(c), SimilarSet, ch);
    SimilarSetMatches(ch);
  }

  /** With "avoid similar" on, the digits reduce to "347". */
  lemma FilteredNumbers()
    ensures EffectiveAlphabet(Number, true) == "347"
  {
    RemoveSimilarDigits(NumberAlphabet);
  }

  /** In the symbol alphabet, '|' at position 18 is the only similar character. */
  lemma SymbolsSimilarOnlyBar()
    ensures SymbolAlphabet[18] == '|' && '|' in SimilarSet
    ensures forall i :: 0 <= i < |SymbolAlphabet| && i != 18 ==> SymbolAlphabet[i] !in SimilarSet
  {
  }

  /** With "avoid similar" on, the symbols lose only '|' (position 18). */
  lemma FilteredSymbols()
    ensures EffectiveAlphabet(Symbol, true) == SymbolAlphabet[..18] + SymbolAlphabet[19..]
    ensures SymbolAlphabet[18] == '|'
  {
    SymbolsSimilarOnlyBar();
    WithoutDropsOne(SymbolAlphabet, SimilarSet, 18);
  }

  /** A string whose first character is not similar keeps at least that one. */
  lemma RemoveSimilarKeepsFirst(s: string)
    requires |s| > 0 && s[0] !in SimilarSet
    ensures |RemoveSimilar(s)| > 0
  {
    WithoutMembers(s, SimilarSet, s[0]);
  }

  /** No effective alphabet is empty, whatever the "avoid similar" flag. */
  lemma EffectiveAlphabetNonEmpty(c: CharClass, avoidSimilar: bool)
    ensures |EffectiveAlphabet(c, avoidSimilar)| > 0
  {
    if avoidSimilar {
      match c
      case Upper => RemoveSimilarKeepsFirst(UppercaseAlphabet);
      case Lower => RemoveSimilarKeepsFirst(LowercaseAlphabet);
      case Number => FilteredNumbers();
      case Symbol => RemoveSimilarKeepsFirst(SymbolAlphabet);
    }
  }
}
