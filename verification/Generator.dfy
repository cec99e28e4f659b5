/**
 * `generatePassword`: build the charset from the enabled classes' effective
 * alphabets, refuse when it is empty, map each 32-bit random value to a
 * charset character, and hand the candidate to the coverage repair.
 *
 * The page state the source reads (slider, checkboxes) is the `Config`; the
 * contents of the `Uint32Array` filled by `crypto.getRandomValues` are the
 * `random` sequence, and the repair's `Math.random` draws are the `picks`.
 */
module Generator {
  import opened CharacterSets
  import opened Coverage

  /** An unsigned 32-bit value, as stored in a `Uint32Array`. */
  newtype Uint32 = x: int | 0 <= x < 0x1_0000_0000

  /** The inputs `generatePassword` reads from the page. */
  datatype Config = Config(length: nat, options: Options, avoidSimilar: bool)

  /** The result of a generation: a password, or the refusal when no class is enabled. */
  datatype Outcome = Generated(password: string) | NoCharacterType

  /** `baseUppercase` … `baseSymbols`: the effective alphabets of all four classes. */
  function Bases(avoidSimilar: bool): BaseChars
  {
    BaseChars(EffectiveAlphabet(Upper, avoidSimilar), EffectiveAlphabet(Lower, avoidSimilar),
              EffectiveAlphabet(Number, avoidSimilar), EffectiveAlphabet(Symbol, avoidSimilar))
  }

  /** What class `c` adds to the charset: its effective alphabet when enabled, nothing otherwise. */
  function Part(cfg: Config, c: CharClass): string
  {
    if cfg.options.Selected(c) then EffectiveAlphabet(c, cfg.avoidSimilar) else ""
  }

  /** The charset: the enabled effective alphabets concatenated in the fixed class order. */
  function Charset(cfg: Config): string
  {
    Part(cfg, Upper) + Part(cfg, Lower) + Part(cfg, Number) + Part(cfg, Symbol)
  }

  /** No class is enabled. */
  predicate NoneSelected(options: Options)
  {
    !options.uppercase && !options.lowercase && !options.numbers && !options.symbols
  }

  /** The charset's length is the sum of the enabled effective alphabets' lengths. */
  lemma CharsetLength(cfg: Config)
    ensures |Charset(cfg)| ==
            (if cfg.options.uppercase then |EffectiveAlphabet(Upper, cfg.avoidSimilar)| else 0) +
            (if cfg.options.lowercase then |EffectiveAlphabet(Lower, cfg.avoidSimilar)| else 0) +
            (if cfg.options.numbers then |EffectiveAlphabet(Number, cfg.avoidSimilar)| else 0) +
            (if cfg.options.symbols then |EffectiveAlphabet(Symbol, cfg.avoidSimilar)| else 0)
  {
  }

  /** A character is in the charset exactly when an enabled class's effective alphabet has it. */
  lemma CharsetMembers(cfg: Config, ch: char)
    ensures ch in Charset(cfg) <==>
            exists c :: cfg.options.Selected(c) && ch in EffectiveAlphabet(c, cfg.avoidSimilar)
  {
    assert ch in Charset(cfg) <==>
           ch in Part(cfg, Upper) || ch in Part(cfg, Lower) || ch in Part(cfg, Number) || ch in Part(cfg, Symbol);
    if exists c :: cfg.options.Selected(c) && ch in EffectiveAlphabet(c, cfg.avoidSimilar) {
      var c :| cfg.options.Selected(c) && ch in EffectiveAlphabet(c, cfg.avoidSimilar);
      assert ch in Part(cfg, c);
    }
  }

  /** The charset is empty exactly when no class is enabled, since no effective alphabet is empty. */
  lemma CharsetEmptyIffNoneSelected(cfg: Config)
    ensures |Charset(cfg)| == 0 <==> NoneSelected(cfg.options)
  {
    CharsetLength(cfg);
    EffectiveAlphabetNonEmpty(Upper, cfg.avoidSimilar);
    EffectiveAlphabetNonEmpty(Lower, cfg.avoidSimilar);
    EffectiveAlphabetNonEmpty(Number, cfg.avoidSimilar);
    EffectiveAlphabetNonEmpty(Symbol, cfg.avoidSimilar);
  }

  /**
   * The fallbacks to the literal alphabets never apply: each check tests the class's
   * effective alphabet, and each such alphabet lies inside the charset when
   * its class is enabled.
   */
  lemma ChecksUseEffectiveAlphabets(cfg: Config)
    ensures forall k :: 0 <= k < |ClassOrder| ==>
              Checks(Bases(cfg.avoidSimilar))[k] == Check(ClassOrder[k], EffectiveAlphabet(ClassOrder[k], cfg.avoidSimilar))
    ensures forall k, j ::
              (0 <= k < |ClassOrder| && cfg.options.Selected(ClassOrder[k]) &&
               0 <= j < |EffectiveAlphabet(ClassOrder[k], cfg.avoidSimilar)|) ==>
              EffectiveAlphabet(ClassOrder[k], cfg.avoidSimilar)[j] in Charset(cfg)
  {
    EffectiveAlphabetNonEmpty(Upper, cfg.avoidSimilar);
    EffectiveAlphabetNonEmpty(Lower, cfg.avoidSimilar);
    EffectiveAlphabetNonEmpty(Number, cfg.avoidSimilar);
    EffectiveAlphabetNonEmpty(Symbol, cfg.avoidSimilar);
    forall k, j | 0 <= k < |ClassOrder| && cfg.options.Selected(ClassOrder[k]) &&
                  0 <= j < |EffectiveAlphabet(ClassOrder[k], cfg.avoidSimilar)|
      ensures EffectiveAlphabet(ClassOrder[k], cfg.avoidSimilar)[j] in Charset(cfg)
    {
      CharsetMembers(cfg, EffectiveAlphabet(ClassOrder[k], cfg.avoidSimilar)[j]);
    }
  }

  /** The base alphabets, filtered when asked, then appended to the charset class by class. */
  method BuildCharset(cfg: Config) returns (charset: string, baseChars: BaseChars)
    ensures baseChars == Bases(cfg.avoidSimilar)
    ensures charset == Charset(cfg)
  {
    var baseUppercase := UppercaseAlphabet;
    var baseLowercase := LowercaseAlphabet;
    var baseNumbers := NumberAlphabet;
    var baseSymbols := SymbolAlphabet;
    if cfg.avoidSimilar {
      baseUppercase := RemoveSimilar(UppercaseAlphabet);
      baseLowercase := RemoveSimilar(LowercaseAlphabet);
      baseNumbers := RemoveSimilar(NumberAlphabet);
      baseSymbols := RemoveSimilar(SymbolAlphabet);
    }
    baseChars := BaseChars(baseUppercase, baseLowercase, baseNumbers, baseSymbols);
    assert baseChars == Bases(cfg.avoidSimilar);
    charset := "";
    if cfg.options.uppercase { charset := charset + baseUppercase; }
    assert charset == Part(cfg, Upper);
    if cfg.options.lowercase { charset := charset + baseLowercase; }
    assert charset == Part(cfg, Upper) + Part(cfg, Lower);
    if cfg.options.numbers { charset := charset + baseNumbers; }
    assert charset == Part(cfg, Upper) + Part(cfg, Lower) + Part(cfg, Number);
    if cfg.options.symbols { charset := charset + baseSymbols; }
  }

  /** The candidate: character `i` is the charset character indexed by `random[i]` modulo the charset's length. */
  function Sampled(charset: string, random: seq<Uint32>): string
    requires |charset| > 0
  {
    seq(|random|, i requires 0 <= i < |random| => charset[random[i] as int % |charset|])
  }

  /** The candidate has one character per random value, each of them from the charset. */
  lemma SampledInCharset(charset: string, random: seq<Uint32>)
    requires |charset| > 0
    ensures |Sampled(charset, random)| == |random|
    ensures forall i :: 0 <= i < |random| ==> Sampled(charset, random)[i] in charset
  {
  }

  /** The candidate loop: one charset character appended per random value. */
  method Candidate(charset: string, random: seq<Uint32>) returns (password: string)
    requires |charset| > 0
    ensures password == Sampled(charset, random)
    ensures |password| == |random|
    ensures forall i :: 0 <= i < |password| ==> password[i] == charset[random[i] as int % |charset|]
    ensures forall i :: 0 <= i < |password| ==> password[i] in charset
  {
    password := "";
    for i := 0 to |random|
      invariant password == Sampled(charset, random[..i])
    {
      password := password + [charset[random[i] as int % |charset|]];
      assert random[..i + 1][..i] == random[..i];
    }
    assert random[..|random|] == random;
  }

  /** The position in the fixed order of the last enabled class, if any. */
  predicate LastSelected(options: Options, k: nat)
  {
    k < |ClassOrder| && options.Selected(ClassOrder[k]) &&
    forall j :: k < j < |ClassOrder| ==> !options.Selected(ClassOrder[j])
  }

  /** What the random inputs must satisfy: one 32-bit value per character and one fitting pick per check. */
  predicate RandomFits(cfg: Config, random: seq<Uint32>, picks: seq<Pick>)
  {
    |random| == cfg.length && |picks| == |ClassOrder| &&
    forall k :: 0 <= k < |picks| ==> Fits(picks[k], Checks(Bases(cfg.avoidSimilar))[k], cfg.length)
  }

  /** `generatePassword` as a function of its inputs: refuse on an empty charset, else repair the candidate. */
  function Generate(cfg: Config, random: seq<Uint32>, picks: seq<Pick>): Outcome
    requires RandomFits(cfg, random, picks)
  {
    var charset := Charset(cfg);
    if |charset| == 0 then NoCharacterType
    else Generated(Repair(Sampled(charset, random), Checks(Bases(cfg.avoidSimilar)), cfg.options, picks))
  }

  /** Generation is refused exactly when no class is enabled. */
  lemma GenerateRefusesIffNoneSelected(cfg: Config, random: seq<Uint32>, picks: seq<Pick>)
    requires RandomFits(cfg, random, picks)
    ensures Generate(cfg, random, picks).NoCharacterType? <==> NoneSelected(cfg.options)
  {
    CharsetEmptyIffNoneSelected(cfg);
  }

  /**
   * A generated password contains a character of the last enabled class in
   * the fixed order; it has the requested length, or 1 when the requested
   * length is 0, because the repair's write grows the empty array.
   */
  lemma GeneratedHasLastEnabledClass(cfg: Config, random: seq<Uint32>, picks: seq<Pick>, k: nat)
    requires RandomFits(cfg, random, picks) && LastSelected(cfg.options, k)
    ensures Generate(cfg, random, picks).Generated?
    ensures HasType(Generate(cfg, random, picks).password, EffectiveAlphabet(ClassOrder[k], cfg.avoidSimilar))
    ensures |Generate(cfg, random, picks).password| == if cfg.length == 0 then 1 else cfg.length
  {
    CharsetEmptyIffNoneSelected(cfg);
    ChecksUseEffectiveAlphabets(cfg);
    var candidate := Sampled(Charset(cfg), random);
    RepairKeepsLastEnabled(candidate, Checks(Bases(cfg.avoidSimilar)), cfg.options, picks, k);
  }

  /**
   * Every character of a generated password is in the charset, so it comes
   * from an enabled class and, with "avoid similar" on, is not similar.
   */
  lemma GeneratedCharactersAllowed(cfg: Config, random: seq<Uint32>, picks: seq<Pick>)
    requires RandomFits(cfg, random, picks)
    ensures Generate(cfg, random, picks).Generated? ==>
              var password := Generate(cfg, random, picks).password;
              forall i :: 0 <= i < |password| ==> password[i] in Charset(cfg) && Allowed(cfg, password[i])
  {
    var charset := Charset(cfg);
    if |charset| > 0 {
      ChecksUseEffectiveAlphabets(cfg);
      var password := Generate(cfg, random, picks).password;
      RepairStaysInCharset(Sampled(charset, random), Checks(Bases(cfg.avoidSimilar)), cfg.options, picks, charset);
      forall i | 0 <= i < |password|
        ensures password[i] in charset && Allowed(cfg, password[i])
      {
        CharsetCharactersAllowed(cfg, password[i]);
      }
    }
  }

  /** `generatePassword` without its page I/O: the charset, the refusal, the candidate loop and the repair. */
  method GeneratePassword(cfg: Config, random: seq<Uint32>, picks: seq<Pick>) returns (outcome: Outcome)
    requires RandomFits(cfg, random, picks)
    ensures outcome == Generate(cfg, random, picks)
    ensures outcome.NoCharacterType? <==> NoneSelected(cfg.options)
  {
    var charset, baseChars := BuildCharset(cfg);
    CharsetEmptyIffNoneSelected(cfg);
    if |charset| == 0 {
      return NoCharacterType;
    }
    var password := Candidate(charset, random);
    password := EnsureCharacterTypes(password, cfg.options, baseChars, picks);
    outcome := Generated(password);
  }

  /** A character of an enabled class's literal alphabet that, with "avoid similar" on, is not similar. */
  predicate Allowed(cfg: Config, ch: char)
  {
    (exists c :: cfg.options.Selected(c) && ch in Alphabet(c)) &&
    (cfg.avoidSimilar ==> ch !in SimilarCharacters)
  }

  /** Every charset character is allowed by the configuration. */
  lemma CharsetCharactersAllowed(cfg: Config, ch: char)
    requires ch in Charset(cfg)
    ensures Allowed(cfg, ch)
  {
    CharsetMembers(cfg, ch);
    var c :| cfg.options.Selected(c) && ch in EffectiveAlphabet(c, cfg.avoidSimilar);
    EffectiveAlphabetMembers(c, cfg.avoidSimilar, ch);
  }
}
