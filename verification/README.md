# Password generator core, modelled in Dafny

This project models the password-construction core of the browser password
generator in `script.js`:

- the four fixed character-class alphabets (uppercase, lowercase, digits,
  symbols) and the "avoid similar" filter that drops the characters listed
  in the similar-characters string;
- the charset assembly: the enabled classes' effective alphabets appended in
  the fixed order upper, lower, numbers, symbols, with generation refused
  when the charset is empty;
- the candidate loop, which maps each 32-bit random value `r` to the charset
  character at index `r` modulo the charset's length;
- the coverage repair `ensureCharacterTypes`. For each class in the fixed
  order, when the class is enabled and the password has none of its
  characters, one random position is overwritten with a random character of
  that class. A later repair may overwrite an earlier one.

Three modules, one per file:

- `CharacterSets` (CharacterSets.dfy): the alphabets, the filter
  (`Without`, with `RemoveSimilar` as the source's instance of it) and the
  effective alphabets. These are pure functions and lemmas, like the
  source's `split/filter/join` expressions.
- `Coverage` (Coverage.dfy): the repair pass. `Repair` is its specification,
  a fold of `Step` over the checks. The method `EnsureCharacterTypes` is the
  source's loop over a mutable copy of the password, proved equal to
  `Repair`.
- `Generator` (Generator.dfy): the charset, the candidate and generation as a
  whole. The methods `BuildCharset`, `Candidate` and `GeneratePassword`
  follow the source's statements. The functions `Charset`, `Sampled` and
  `Generate` specify them, and lemmas about those functions carry the
  properties.

The model replaces randomness with inputs:

- the contents of the `Uint32Array` filled by `crypto.getRandomValues` are a
  sequence of `Uint32` values;
- the two `Math.random` draws of each repair step (a position and a
  character index) are a `Pick`. There is one pick per check, and it is only
  used when that step writes. `Fits` constrains a pick to what the rounded
  draws can produce: below the bound, or 0 when the bound is 0.

The code does not refuse a requested length of 0. The candidate is then
empty, and the first repair that fires writes index 0 of the empty array,
which grows it to length 1. `Place` models this, and
`GeneratedHasLastEnabledClass` states the resulting length.

Where the code and its own comments disagree, the model follows the code.
The comments at script.js:71 and script.js:95 promise at least one character
of every selected class. The code only guarantees the last enabled class in
the fixed order (`RepairKeepsLastEnabled`). `LaterStepErasesEarlier` states
the general mechanism that loses an earlier class. `CollisionErasesEarlierClass`
exhibits a concrete pass that loses the uppercase class at length 4, with
three classes enabled.

## Model

| member | source | states |
|---|---|---|
| CharacterSets.SimilarSetMatches | script.js:21 | the character set used by the model answers "is this character similar?" exactly as a search of the similar-characters string does |
| CharacterSets.WithoutMembers | script.js:41-44 | a character is in the filtered string iff it is in the input and not excluded |
| CharacterSets.WithoutAppend | script.js:41-44 | filtering a concatenation is the concatenation of the filtered parts, so the filter keeps the input's order |
| CharacterSets.WithoutCounts | script.js:41-44 | every non-excluded character keeps its number of occurrences; excluded characters have none |
| CharacterSets.WithoutKeepsClean | script.js:41-44 | a string without excluded characters is returned unchanged, so filtering twice equals filtering once |
| CharacterSets.WithoutDropsOne | script.js:41-44 | a string whose only excluded character is at position k loses exactly that character |
| CharacterSets.EffectiveAlphabetMembers | script.js:34-45 | with avoid-similar on, a class keeps exactly its characters that are not in the similar-characters string; with it off, the class is used unchanged |
| CharacterSets.FilteredNumbers | script.js:43 | the filtered digits are "347" |
| CharacterSets.FilteredSymbols | script.js:44 | the filtered symbols are the symbol alphabet without its '|' at position 18 |
| CharacterSets.EffectiveAlphabetNonEmpty | script.js:34-45 | no class's effective alphabet is empty, with or without filtering |
| Coverage.Checks | script.js:98-103 | four checks in the order upper, lower, numbers, symbols; none has an empty alphabet; each uses the given alphabet when that is non-empty and the class's literal alphabet when it is empty |
| Coverage.Place | script.js:111-113 | the written position holds the new character and no other position changes; an empty array grows to length 1 |
| Coverage.Step | script.js:106-114 | after the step, an enabled class with a non-empty alphabet is present; a step that does not fire changes nothing; only the picked position may change |
| Coverage.Repair | script.js:105-116 | the pass keeps a non-empty password's length and leaves an empty one at length at most 1 |
| Coverage.EnsureCharacterTypes | script.js:96-119 | the loop over the mutable password computes exactly the pass `Repair` over the checks built from the base alphabets, and keeps a non-empty password's length |
| Coverage.RepairIdentity | script.js:105-116 | a password that already contains every enabled class comes back unchanged |
| Coverage.RepairChangesOnlyFiredPositions | script.js:108-113 | every changed position was written by a step whose class was enabled and missing from the password as it stood at that step |
| Coverage.RepairStaysInCharset | script.js:111-113 | if the input and every enabled class's alphabet lie in a charset, so does every output character |
| Coverage.RepairSkipsDisabled | script.js:106 | disabled checks from position k to the end do not change the pass's result: it equals the pass over the first k checks |
| Coverage.RepairKeepsLastEnabled | script.js:105-116 | the output contains a character of the last enabled check in the order |
| Coverage.LaterStepErasesEarlier | script.js:105-116 | two classes both missing and repaired at the same position: the output is the input with only the second write, and the first class is missing from it |
| Coverage.CollisionErasesEarlierClass | script.js:96-119 | with upper, lower and numbers enabled, the candidate "5555" and every draw at 0, the pass returns "a555", which lacks the enabled uppercase class |
| Generator.CharsetLength | script.js:47-50 | the charset's length is the sum of the enabled effective alphabets' lengths |
| Generator.CharsetMembers | script.js:47-50 | a character is in the charset iff some enabled class's effective alphabet contains it |
| Generator.CharsetEmptyIffNoneSelected | script.js:47-56 | the charset is empty iff no class is enabled |
| Generator.ChecksUseEffectiveAlphabets | script.js:98-103 | the fallbacks never apply: check k tests the effective alphabet of class k, and every enabled class's effective alphabet lies in the charset |
| Generator.BuildCharset | script.js:34-50 | the statement-by-statement build returns the effective alphabets and the ordered concatenation of the enabled ones |
| Generator.SampledInCharset | script.js:63-69 | the candidate has one character per random value, each from the charset |
| Generator.Candidate | script.js:63-69 | the loop returns as many characters as random values; character i is the charset character at the random value modulo the charset length, and so is in the charset |
| Generator.GenerateRefusesIffNoneSelected | script.js:52-56 | generation is refused iff no class is enabled |
| Generator.GeneratedHasLastEnabledClass | script.js:62-82 | a generated password contains the last enabled class; its length is the requested length, or 1 when 0 was requested |
| Generator.GeneratedCharactersAllowed | script.js:62-82 | every generated character is in the charset: it belongs to an enabled class and, with avoid-similar on, is not similar |
| Generator.CharsetCharactersAllowed | script.js:39-50 | every charset character belongs to an enabled class's alphabet and, with avoid-similar on, is not in the similar-characters string |
| Generator.GeneratePassword | script.js:29-93 | the generation steps compute the specification `Generate`, and refuse exactly when no class is enabled |

## Left out

- The DOM (slider, checkboxes, output field), the fade animation and the `setTimeout` delay are left out. The slider and checkbox values become the `Config` input.
- The second reading of the checkboxes is left out. The charset is built from them at script.js:47-50, and the repair's options are read again at script.js:73-76, inside the delayed callback. `Config` holds one reading used for both, so the model assumes no checkbox changes during the 150 ms delay. If one does, the repair can write a character of a newly enabled class that is not in the charset, which `GeneratedCharactersAllowed` does not cover.
- The failure of `crypto.getRandomValues` (script.js:65) is not modelled. The call throws when asked for more than 65536 bytes, that is, more than 16384 `Uint32` values. The exception escapes the delayed callback, so no password is produced and the output field stays faded. The model accepts every length and generates a password for it. The slider's range, which is not in script.js, is expected to keep the length below 16384.
- `parseInt` of the slider value is left out; the length is a natural number.
- The notifications and the clipboard copy (`copyToClipboard`, `showNotification` and its error message) are left out as page I/O. The refusal is the `NoCharacterType` outcome.
- `crypto.getRandomValues` and `Math.random` are left out as sources of randomness. Their values are inputs (`Uint32` values and `Pick`s), so nothing about uniformity is stated.
- The model does not state the modulo bias of the candidate mapping, since distributions are outside a deterministic model. The mapping itself is modelled exactly.
- The `charset` parameter of `ensureCharacterTypes`, which the function never reads, is not part of the model.
- The filtered uppercase and lowercase alphabets are characterised by membership (`EffectiveAlphabetMembers`), order (`WithoutAppend`) and non-emptiness, not spelled out as literals.
- Coverage.Repair: states only the length of its result. What the pass does is stated by the `Step` contract and the lemmas about `Repair` listed above.
