/**
 * The exit-code filter of the target binary and the default values of the
 * fuzzer's configuration (src/configuration.rs).
 */
module Configuration {
  import opened Primitives

  /** Which exit codes of the target count as interesting: all of them, or those in a set. */
  datatype ExitCodeFilter = Any | Set(codes: set<i32>)

  /** How a sample is handed to the target: on standard input or as a file. */
  datatype PassStyle = Stdin | File

  datatype GenerationOptions = GenerationOptions(population: usize, sampleLimit: usize)

  /** `match_code`: whether the filter lets an exit code through. */
  function MatchCode(f: ExitCodeFilter, code: i32): bool {
    match f
    case Any => true
    case Set(s) => code in s
  }

  /** `accepts_any`: whether the filter is the `Any` variant (a test of the variant, not of the codes). */
  function AcceptsAny(f: ExitCodeFilter): bool {
    f.Any?
  }

  function DefaultFilter(): ExitCodeFilter {
    Any
  }

  function DefaultPassStyle(): PassStyle {
    Stdin
  }

  function DefaultPopulationSize(): usize {
    1_000
  }

  function DefaultSampleLimit(): usize {
    100
  }

  function DefaultGenerationOptions(): GenerationOptions {
    GenerationOptions(DefaultPopulationSize(), DefaultSampleLimit())
  }

  // ---------------------------------------------------------------------------
  // Properties

  /** `Any` lets every `i32` through. */
  lemma AnyMatchesEveryCode(code: i32)
    ensures MatchCode(Any, code)
  {
  }

  /** A set filter lets a code through exactly when the code is in the set. */
  lemma SetMatchesMembers(s: set<i32>, code: i32)
    ensures MatchCode(Set(s), code) <==> code in s
  {
  }

  /** The empty set lets nothing through. */
  lemma EmptySetRejectsEveryCode(code: i32)
    ensures !MatchCode(Set({}), code)
  {
  }

  /** `accepts_any` holds of `Any` and of no set, whatever the set holds. */
  lemma AcceptsAnyExactlyAny(f: ExitCodeFilter)
    ensures AcceptsAny(f) <==> f == Any
  {
  }

  /** When `accepts_any` holds, `match_code` holds for every code. */
  lemma AcceptsAnyMatchesAll(f: ExitCodeFilter, code: i32)
    requires AcceptsAny(f)
    ensures MatchCode(f, code)
  {
  }

  /**
   * The converse fails: a set that happens to hold a code lets it through,
   * yet `accepts_any` is false, since it only looks at the variant.
   */
  lemma SetIsNeverAny(s: set<i32>, code: i32)
    requires code in s
    ensures MatchCode(Set(s), code) && !AcceptsAny(Set(s))
  {
  }

  /** A filter matches a code when it is `Any` or its set holds the code, and only then. */
  lemma MatchCodeCases(f: ExitCodeFilter, code: i32)
    ensures MatchCode(f, code) <==> (AcceptsAny(f) || (f.Set? && code in f.codes))
  {
  }

  /** The default filter is `Any`: when none is configured every exit code is interesting. */
  lemma DefaultAcceptsEveryCode(code: i32)
    ensures AcceptsAny(DefaultFilter()) && MatchCode(DefaultFilter(), code)
  {
  }

  /** The default generation options: a population of 1000 and a sample limit of 100. */
  lemma GenerationDefaults()
    ensures DefaultGenerationOptions() == GenerationOptions(1000, 100)
  {
  }

  /** Samples go to the target on standard input unless configured otherwise. */
  lemma PassStyleDefault()
    ensures DefaultPassStyle() == Stdin
  {
  }
}
