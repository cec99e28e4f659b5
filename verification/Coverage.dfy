/**
 * The coverage repair `ensureCharacterTypes`: for each class in the fixed
 * order, if the class is enabled and the password so far has none of its
 * characters, one position is overwritten with a character of that class.
 *
 * The two random draws of each step (a position, a character index) are supplied by
 * the caller as a `Pick`, one per entry of `checks`; a pick is only consumed
 * when its step writes.
 */
module Coverage {
  import opened CharacterSets

  /** Which classes are enabled (`options` in the source). */
  datatype Options = Options(uppercase: bool, lowercase: bool, numbers: bool, symbols: bool)
  {
    /** Whether class `c` is enabled. */
    function Selected(c: CharClass): bool
    {
      match c
      case Upper => uppercase
      case Lower => lowercase
      case Number => numbers
      case Symbol => symbols
    }
  }

  /** The per-class alphabets handed to the repair (`baseChars` in the source). */
  datatype BaseChars = BaseChars(baseUppercase: string, baseLowercase: string, baseNumbers: string, baseSymbols: string)
  {
    function Of(c: CharClass): string
    {
      match c
      case Upper => baseUppercase
      case Lower => baseLowercase
      case Number => baseNumbers
      case Symbol => baseSymbols
    }
  }

  /** One entry of `checks`: a class and the alphabet its presence is tested against. */
  datatype Check = Check(kind: CharClass, chars: string)

  /** JavaScript's logical or on strings: `fallback` when `s` is empty (falsy), `s` otherwise. */
  function OrElse(s: string, fallback: string): string
  {
    if |s| > 0 then s else fallback
  }

  /**
   * The `checks` list: one entry per class in the fixed order, each using the
   * given alphabet or, when that is empty, the unfiltered literal. No entry
   * is ever empty, so the non-empty guard of the loop never rejects one.
   */
  function Checks(base: BaseChars): (r: seq<Check>)
    ensures |r| == |ClassOrder|
    ensures forall k :: 0 <= k < |r| ==> r[k].kind == ClassOrder[k] && |r[k].chars| > 0
    ensures forall k :: 0 <= k < |r| && |base.Of(ClassOrder[k])| > 0 ==> r[k].chars == base.Of(ClassOrder[k])
    ensures forall k :: 0 <= k < |r| && |base.Of(ClassOrder[k])| == 0 ==> r[k].chars == Alphabet(ClassOrder[k])
  {
    [ Check(Upper, OrElse(base.baseUppercase, UppercaseAlphabet)),
      Check(Lower, OrElse(base.baseLowercase, LowercaseAlphabet)),
      Check(Number, OrElse(base.baseNumbers, NumberAlphabet)),
      Check(Symbol, OrElse(base.baseSymbols, SymbolAlphabet)) ]
  }

  /** Some character of `pw` occurs in `chars`. */
  predicate HasType(pw: string, chars: string)
  {
    exists i | 0 <= i < |pw| :: pw[i] in chars
  }

  /** The two random draws of one step: the position written and the index into the class alphabet. */
  datatype Pick = Pick(position: nat, charIndex: nat)

  /** What a random draw scaled by `n` and rounded down can be: below `n`, or 0 when `n` is 0. */
  predicate Below(i: nat, n: nat)
  {
    i < n || i == 0
  }

  /** A pick that the random draws of a step could produce on a password of length `n`. */
  predicate Fits(pick: Pick, check: Check, n: nat)
  {
    Below(pick.position, n) && Below(pick.charIndex, |check.chars|)
  }

  /** Whether the step for `check` writes: the class is enabled, its alphabet non-empty and absent from `pw`. */
  predicate Fires(pw: string, check: Check, options: Options)
  {
    options.Selected(check.kind) && |check.chars| > 0 && !HasType(pw, check.chars)
  }

  /**
   * An index assignment on a JavaScript array: the character lands at
   * `pos` and nothing else changes; on an empty array, writing index 0 grows
   * it to length 1.
   */
  function Place(pw: string, pos: nat, ch: char): (r: string)
    requires Below(pos, |pw|)
    ensures |r| == if |pw| == 0 then 1 else |pw|
    ensures pos < |r| && r[pos] == ch
    ensures forall i :: 0 <= i < |pw| && i != pos ==> r[i] == pw[i]
  {
    if |pw| == 0 then [ch] else pw[pos := ch]
  }

  /**
   * One iteration of the repair loop. Right after it, an enabled class with a
   * non-empty alphabet is present; a step that does not fire changes nothing.
   */
  function Step(pw: string, check: Check, options: Options, pick: Pick): (r: string)
    requires Fits(pick, check, |pw|)
    ensures |r| == if |pw| == 0 && Fires(pw, check, options) then 1 else |pw|
    ensures options.Selected(check.kind) && |check.chars| > 0 ==> HasType(r, check.chars)
    ensures !Fires(pw, check, options) ==> r == pw
    ensures forall i :: 0 <= i < |pw| && i != pick.position ==> r[i] == pw[i]
  {
    if Fires(pw, check, options) then Place(pw, pick.position, check.chars[pick.charIndex]) else pw
  }

  /** The whole pass: the steps for `checks` applied in order, each seeing the writes before it. */
  function Repair(pw: string, checks: seq<Check>, options: Options, picks: seq<Pick>): (r: string)
    requires |picks| == |checks|
    requires forall k :: 0 <= k < |checks| ==> Fits(picks[k], checks[k], |pw|)
    ensures |pw| > 0 ==> |r| == |pw|
    ensures |pw| == 0 ==> |r| <= 1
    decreases |checks|
  {
    if checks == [] then pw
    else
      var n := |checks| - 1;
      var prev := Repair(pw, checks[..n], options, picks[..n]);
      assert Fits(picks[n], checks[n], |pw|);
      Step(prev, checks[n], options, picks[n])
  }

  /** `ensureCharacterTypes`, updating the array `newPassword` step by step. */
  method EnsureCharacterTypes(password: string, options: Options, baseChars: BaseChars, picks: seq<Pick>)
    returns (result: string)
    requires |picks| == |ClassOrder|
    requires forall k :: 0 <= k < |picks| ==> Fits(picks[k], Checks(baseChars)[k], |password|)
    ensures result == Repair(password, Checks(baseChars), options, picks)
    ensures |password| > 0 ==> |result| == |password|
  {
    var newPassword := password;
    var checks := Checks(baseChars);
    for k := 0 to |checks|
      invariant newPassword == Repair(password, checks[..k], options, picks[..k])
    {
      RepairSnoc(password, checks, options, picks, k);
      ghost var before := newPassword;
      var check := checks[k];
      if options.Selected(check.kind) && |check.chars| > 0 {
        var hasType := HasType(newPassword, check.chars);
        if !hasType {
          var randomIndex := picks[k].position;
          var randomChar := check.chars[picks[k].charIndex];
          if |newPassword| == 0 {
            newPassword := [randomChar];
          } else {
            newPassword := newPassword[randomIndex := randomChar];
          }
        }
      }
      assert newPassword == Step(before, check, options, picks[k]);
    }
    assert checks[..|checks|] == checks;
    assert picks[..|picks|] == picks;
    result := newPassword;
  }

  /** The pass over the first `k + 1` checks is the pass over the first `k` followed by step `k`. */
  lemma RepairSnoc(pw: string, checks: seq<Check>, options: Options, picks: seq<Pick>, k: nat)
    requires |picks| == |checks| && k < |checks|
    requires forall j :: 0 <= j < |checks| ==> Fits(picks[j], checks[j], |pw|)
    ensures Fits(picks[k], checks[k], |Repair(pw, checks[..k], options, picks[..k])|)
    ensures Repair(pw, checks[..k + 1], options, picks[..k + 1]) ==
            Step(Repair(pw, checks[..k], options, picks[..k]), checks[k], options, picks[k])
  {
    assert checks[..k + 1][..k] == checks[..k] && picks[..k + 1][..k] == picks[..k];
    assert Fits(picks[k], checks[k], |pw|);
  }

  /** A password that already has every enabled class comes back unchanged. */
  lemma {:induction false} RepairIdentity(pw: string, checks: seq<Check>, options: Options, picks: seq<Pick>)
    requires |picks| == |checks|
    requires forall k :: 0 <= k < |checks| ==> Fits(picks[k], checks[k], |pw|)
    requires forall k :: 0 <= k < |checks| && options.Selected(checks[k].kind) ==> HasType(pw, checks[k].chars)
    ensures Repair(pw, checks, options, picks) == pw
    decreases |checks|
  {
    if checks != [] {
      var n := |checks| - 1;
      RepairIdentity(pw, checks[..n], options, picks[..n]);
    }
  }

  /**
   * A position differs from the input only if some step wrote there: a step
   * whose class was enabled and missing from the password as it stood then.
   * So each missing class costs at most one position and the rest is untouched.
   */
  lemma {:induction false} RepairChangesOnlyFiredPositions(pw: string, checks: seq<Check>, options: Options, picks: seq<Pick>)
    requires |picks| == |checks|
    requires forall k :: 0 <= k < |checks| ==> Fits(picks[k], checks[k], |pw|)
    ensures forall i :: 0 <= i < |pw| && Repair(pw, checks, options, picks)[i] != pw[i] ==>
              exists k :: 0 <= k < |checks| && picks[k].position == i &&
                          Fires(Repair(pw, checks[..k], options, picks[..k]), checks[k], options)
    decreases |checks|
  {
    if checks != [] {
      var n := |checks| - 1;
      RepairChangesOnlyFiredPositions(pw, checks[..n], options, picks[..n]);
      var prev := Repair(pw, checks[..n], options, picks[..n]);
      forall i | 0 <= i < |pw| && Repair(pw, checks, options, picks)[i] != pw[i]
        ensures exists k :: 0 <= k < |checks| && picks[k].position == i &&
                            Fires(Repair(pw, checks[..k], options, picks[..k]), checks[k], options)
      {
        if prev[i] != pw[i] {
          var k :| 0 <= k < n && picks[..n][k].position == i &&
                   Fires(Repair(pw, checks[..n][..k], options, picks[..n][..k]), checks[..n][k], options);
          assert checks[..n][..k] == checks[..k] && picks[..n][..k] == picks[..k];
        }
      }
    }
  }

  /**
   * Every character of the output is in `charset` when every input
   * character is and every enabled class's alphabet lies inside it.
   */
  lemma {:induction false} RepairStaysInCharset(pw: string, checks: seq<Check>, options: Options, picks: seq<Pick>, charset: string)
    requires |picks| == |checks|
    requires forall k :: 0 <= k < |checks| ==> Fits(picks[k], checks[k], |pw|)
    requires forall i :: 0 <= i < |pw| ==> pw[i] in charset
    requires forall k, j :: 0 <= k < |checks| && options.Selected(checks[k].kind) && 0 <= j < |checks[k].chars| ==>
               checks[k].chars[j] in charset
    ensures forall i :: 0 <= i < |Repair(pw, checks, options, picks)| ==> Repair(pw, checks, options, picks)[i] in charset
    decreases |checks|
  {
    if checks != [] {
      var n := |checks| - 1;
      RepairStaysInCharset(pw, checks[..n], options, picks[..n], charset);
    }
  }

  /** Steps of classes that are not enabled leave the password as it is. */
  lemma {:induction false} RepairSkipsDisabled(pw: string, checks: seq<Check>, options: Options, picks: seq<Pick>, k: nat)
    requires |picks| == |checks| && k <= |checks|
    requires forall j :: 0 <= j < |checks| ==> Fits(picks[j], checks[j], |pw|)
    requires forall j :: k <= j < |checks| ==> !options.Selected(checks[j].kind)
    ensures Repair(pw, checks, options, picks) == Repair(pw, checks[..k], options, picks[..k])
    decreases |checks|
  {
    if |checks| > k {
      var n := |checks| - 1;
      RepairSkipsDisabled(pw, checks[..n], options, picks[..n], k);
      assert checks[..n][..k] == checks[..k] && picks[..n][..k] == picks[..k];
    } else {
      assert checks[..k] == checks && picks[..k] == picks;
    }
  }

  /**
   * The guarantee the pass actually gives: the class of the last enabled
   * check (non-empty alphabet) is present in the output.
   */
  lemma RepairKeepsLastEnabled(pw: string, checks: seq<Check>, options: Options, picks: seq<Pick>, k: nat)
    requires |picks| == |checks| && k < |checks|
    requires forall j :: 0 <= j < |checks| ==> Fits(picks[j], checks[j], |pw|)
    requires options.Selected(checks[k].kind) && |checks[k].chars| > 0
    requires forall j :: k < j < |checks| ==> !options.Selected(checks[j].kind)
    ensures HasType(Repair(pw, checks, options, picks), checks[k].chars)
  {
    RepairSkipsDisabled(pw, checks, options, picks, k + 1);
    var prefix := checks[..k + 1];
    assert prefix[..k] == checks[..k];
    assert picks[..k + 1][..k] == picks[..k];
  }

  /**
   * The guarantee does not extend to earlier classes: when two enabled
   * classes are both missing from a non-empty password and both steps draw
   * the same position, the second write lands on the first, and if neither
   * written character belongs to the other class, the first class is missing
   * from the output again.
   */
  lemma LaterStepErasesEarlier(pw: string, checks: seq<Check>, options: Options, picks: seq<Pick>)
    requires |checks| == 2 && |picks| == 2 && |pw| > 0
    requires Fits(picks[0], checks[0], |pw|) && Fits(picks[1], checks[1], |pw|)
    requires picks[0].position == picks[1].position
    requires Fires(pw, checks[0], options) && Fires(pw, checks[1], options)
    requires checks[0].chars[picks[0].charIndex] !in checks[1].chars
    requires checks[1].chars[picks[1].charIndex] !in checks[0].chars
    ensures Repair(pw, checks, options, picks) == pw[picks[1].position := checks[1].chars[picks[1].charIndex]]
    ensures !HasType(Repair(pw, checks, options, picks), checks[0].chars)
  {
    var p := picks[0].position;
    var first := pw[p := checks[0].chars[picks[0].charIndex]];
    var second := pw[p := checks[1].chars[picks[1].charIndex]];
    RepairSnoc(pw, checks, options, picks, 0);
    assert checks[..0] == [] && picks[..0] == [];
    assert Repair(pw, checks[..1], options, picks[..1]) == first;
    assert !HasType(first, checks[1].chars) by {
      forall i | 0 <= i < |first|
        ensures first[i] !in checks[1].chars
      {
        if i != p {
          assert first[i] == pw[i];
        }
      }
    }
    RepairSnoc(pw, checks, options, picks, 1);
    assert checks[..2] == checks && picks[..2] == picks;
    assert first[p := checks[1].chars[picks[1].charIndex]] == second;
    forall i | 0 <= i < |second|
      ensures second[i] !in checks[0].chars
    {
      if i != p {
        assert second[i] == pw[i];
      }
    }
  }

  /** The enabled classes of the collision example: upper, lower and numbers. */
  const CollisionOptions := Options(true, true, true, false)

  /** With the unfiltered alphabets, the fallback never applies and the checks use them as given. */
  lemma UnfilteredChecks()
    ensures Checks(BaseChars(UppercaseAlphabet, LowercaseAlphabet, NumberAlphabet, SymbolAlphabet)) ==
            [Check(Upper, UppercaseAlphabet), Check(Lower, LowercaseAlphabet),
             Check(Number, NumberAlphabet), Check(Symbol, SymbolAlphabet)]
  {
  }

  /** "a555" has a digit, so the numbers step changes nothing; symbols are disabled. */
  lemma CollisionLaterSteps(s: string, check: Check, pick: Pick)
    requires s == "a555" && check in [Check(Number, NumberAlphabet), Check(Symbol, SymbolAlphabet)]
    requires pick == Pick(0, 0)
    ensures Fits(pick, check, |s|)
    ensures Step(s, check, CollisionOptions, pick) == "a555"
  {
    assert s[1] in NumberAlphabet;
  }

  /** "a555" has no uppercase letter. */
  lemma CollisionResultLacksUppercase()
    ensures !HasType("a555", UppercaseAlphabet)
  {
    UppercaseRange('a');
    UppercaseRange('5');
  }

  /** "5555" has no letter; 'A' is not lowercase and 'a' is not uppercase. */
  lemma CollisionLetters(pw: string)
    requires pw == "5555"
    ensures !HasType(pw, UppercaseAlphabet) && !HasType(pw, LowercaseAlphabet)
    ensures 'A' !in LowercaseAlphabet && 'a' !in UppercaseAlphabet
  {
    UppercaseRange('5');
    LowercaseRange('5');
    UppercaseRange('a');
    LowercaseRange('A');
  }

  /** The inputs of the collision example: "5555", the unfiltered checks and picks all at position 0. */
  predicate CollisionInputs(pw: string, checks: seq<Check>, picks: seq<Pick>)
  {
    pw == "5555" &&
    checks == [Check(Upper, UppercaseAlphabet), Check(Lower, LowercaseAlphabet),
               Check(Number, NumberAlphabet), Check(Symbol, SymbolAlphabet)] &&
    picks == [Pick(0, 0), Pick(0, 0), Pick(0, 0), Pick(0, 0)]
  }

  /** The uppercase step writes 'A' at position 0 of "5555"; the lowercase step overwrites it: "a555". */
  lemma CollisionFirstTwo(pw: string, checks: seq<Check>, picks: seq<Pick>)
    requires CollisionInputs(pw, checks, picks)
    ensures Repair(pw, checks[..2], CollisionOptions, picks[..2]) == "a555"
  {
    CollisionLetters(pw);
    LaterStepErasesEarlier(pw, checks[..2], CollisionOptions, picks[..2]);
    assert pw[0 := 'a'] == "a555";
  }

  /** The numbers and symbols steps leave "a555" as it is. */
  lemma CollisionAfterAll(pw: string, checks: seq<Check>, picks: seq<Pick>)
    requires CollisionInputs(pw, checks, picks)
    ensures Repair(pw, checks, CollisionOptions, picks) == "a555"
  {
    CollisionFirstTwo(pw, checks, picks);
    RepairSnoc(pw, checks, CollisionOptions, picks, 2);
    CollisionLaterSteps(Repair(pw, checks[..2], CollisionOptions, picks[..2]), checks[2], picks[2]);
    RepairSnoc(pw, checks, CollisionOptions, picks, 3);
    CollisionLaterSteps(Repair(pw, checks[..3], CollisionOptions, picks[..3]), checks[3], picks[3]);
    assert checks[..4] == checks && picks[..4] == picks;
  }

  /**
   * A concrete pass that loses an enabled class: with upper, lower and
   * numbers enabled, the candidate "5555" lacks both letters; the uppercase
   * step writes 'A' at position 0 and the lowercase step, finding no
   * lowercase letter, writes 'a' over it, so the output "a555" has no
   * uppercase letter although uppercase is enabled.
   */
  lemma CollisionErasesEarlierClass()
    ensures var checks := Checks(BaseChars(UppercaseAlphabet, LowercaseAlphabet, NumberAlphabet, SymbolAlphabet));
            var picks := [Pick(0, 0), Pick(0, 0), Pick(0, 0), Pick(0, 0)];
            Repair("5555", checks, CollisionOptions, picks) == "a555" &&
            CollisionOptions.Selected(Upper) && !HasType("a555", UppercaseAlphabet)
  {
    var checks := Checks(BaseChars(UppercaseAlphabet, LowercaseAlphabet, NumberAlphabet, SymbolAlphabet));
    var picks := [Pick(0, 0), Pick(0, 0), Pick(0, 0), Pick(0, 0)];
    UnfilteredChecks();
    CollisionAfterAll("5555", checks, picks);
    CollisionResultLacksUppercase();
  }
}
