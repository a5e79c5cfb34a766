# bocchifuzz core in Dafny

bocchifuzz is a grammar-based fuzzer. A user describes the inputs of a target
program in a small grammar DSL. Worker threads generate samples from that
grammar, run the target on them and keep statistics of the outcomes. A
configuration file says how samples reach the target and which exit codes
count as interesting.

This project models three parts of that core:

- **The grammar DSL parser** (`src/grammar.rs`), in modules `GrammarParser`,
  `GrammarFacts` and `GrammarPrint`.
  - Every PEG rule of `grammar_parser` is a function from the remaining input
    to `Option<(value, rest)>`.
  - Ordered choice is modelled as a chain of `match`/`if`.
  - Greedy repetition (`*`, `+`, `++`) is a recursion that never backtracks
    into itself. The public rule must consume the whole input.
  - A grammar is the map from non-terminal to its alternatives. A later
    production for the same name replaces an earlier one.
  - Regex compilation is the function parameter `compiles`.
  - `GrammarPrint` adds a printer for productions. It proves that parsing
    the printed text gives back the same tokens, alternatives and grammar
    map, for every printable production list.
- **The per-run statistics of a fuzzing worker** (`src/fuzz_thread.rs`), in
  module `FuzzThread`.
  - `State` is a class with the five counters the worker loop updates in
    place. `Record` is one iteration of the update.
  - The counters are also given as a value, `Counters`, with the update
    `Apply` and its fold `ApplyAll` over a sequence of runs.
  - `State` keeps a ghost history of the runs it has recorded. Its
    invariant ties the counters to `ApplyAll` over that history.
  - Proved facts about the counters:
    - `tested_samples` equals the number of runs;
    - each run increments exactly one of working, nonzero and crashes;
    - improvements never exceed the number of tested samples;
    - no counter ever decreases.
- **The exit-code filter and the configuration defaults**
  (`src/configuration.rs`), in module `Configuration`.
  - `match_code` and `accepts_any`, with their relationship: `accepts_any`
    implies every code matches, but not the other way round.
  - The default filter, pass style and generation options.

Module `Primitives` holds `Option` and the Rust integer types as newtypes
(`u8`, `u32`, `i32`, `usize`).

The worker loop does not consult the exit-code filter when it updates the
counters. A nonzero exit code is counted in `total_nonzero` whatever the
filter says, and only a signal counts as a crash. The model follows the code
in this (`FuzzThread.NonzeroExitIsNoCrash`).

## Model

| member | source | states |
|---|---|---|
| GrammarParser.SkipWs | src/grammar.rs:121 | rule `_`: what is left is no longer than the input and does not start with space, CR, LF or tab |
| GrammarParser.SkipWsSkipsWhitespace | src/grammar.rs:121 | rule `_` drops exactly a leading run of space, CR, LF and tab: the result is a suffix of the input and every skipped character is whitespace |
| GrammarParser.DecodeHex | src/grammar.rs:39 | decoding 2k hex digits gives k bytes (values byte by byte: `DecodeHexAt`) |
| GrammarParser.DecodeHexAt | src/grammar.rs:38-40 | byte i of a decoded hex block is 16 times the value of digit 2i plus the value of digit 2i+1, in either letter case |
| GrammarParser.ParseHexString | src/grammar.rs:33-41 | `0x` followed by the maximal run of hex digits succeeds exactly when the run is nonempty and even; it gives half as many bytes and leaves the input after the run |
| GrammarParser.ParseStringChar | src/grammar.rs:43-48 | input starting with `\"` reads as a quote; any other character but `"` reads as itself, a lone backslash included; `"` and end of input fail |
| GrammarParser.StringChars | src/grammar.rs:52 | the greedy repetition of `stringchar` stops at a quote or the end of input and never grows the input |
| GrammarParser.StringCharsSuffix | src/grammar.rs:52 | what the repetition of `stringchar` leaves is a suffix of its input |
| GrammarParser.StringCharsClosed | src/grammar.rs:43-52 | text read up to a closing quote never ends with a backslash, since a backslash before a quote is read as the escape |
| GrammarParser.ParseString | src/grammar.rs:51-54 | a string literal starts with a quote, holds at least one character, ends with a quote right before the rest it leaves, and its text never ends with a backslash |
| GrammarParser.ParseIdentifier | src/grammar.rs:56-59 | succeeds exactly when the input starts with a letter or `_`; the identifier is the maximal run of letters, digits and `_` |
| GrammarParser.ParseNumber | src/grammar.rs:61-64 | succeeds only on input that starts with a digit, and consumes the maximal run of digits (the value read and when it fails: `GrammarFacts.NumberValue`) |
| GrammarParser.RegexOpen | src/grammar.rs:67 | the opening `re ( "pattern"` shared by both regex forms starts with `re`, has `(` after optional whitespace, and holds a nonempty pattern without a trailing backslash |
| GrammarParser.RegexBound | src/grammar.rs:67 | the tail `, N )` of the first regex form consumes input (its value: `GrammarPrint.RegexRoundTrip`) |
| GrammarParser.ParseRegex | src/grammar.rs:66-73 | a regex token always has a nonempty pattern that compiles and does not end with a backslash, and the input started with `re` and `(` |
| GrammarParser.ParseToken | src/grammar.rs:77-93 | every token consumes input (its ordered choice: `TokenValid` and the `GrammarFacts` token lemmas) |
| GrammarParser.TokenValid | src/grammar.rs:77-93 | every token is valid, which makes it printable: an identifier never starts with `Nothing`, a text or pattern never ends with a backslash, a hex block and a pattern are nonempty, and a pattern compiles; the token starts with an identifier character, a quote or `0`, and the empty string token comes only from `Nothing` |
| GrammarParser.RhsTail | src/grammar.rs:96 | the repetition `(_ token())*` after the first token never grows the input |
| GrammarParser.RhsTailValid | src/grammar.rs:96 | the tokens read after the first token of a right-hand side are all valid |
| GrammarParser.ParseRhs | src/grammar.rs:95-96 | a right-hand side consumes input (its tokens: `RhsValid`, `GrammarPrint.RhsRoundTrip`) |
| GrammarParser.RhsValid | src/grammar.rs:95-96 | a right-hand side holds at least one token, all valid |
| GrammarParser.ParseMoreRhs | src/grammar.rs:98-99 | a further alternative `\| rhs` consumes input |
| GrammarParser.MoreRhsStar | src/grammar.rs:103 | the repetition `more_rhs()*` never grows the input |
| GrammarParser.MoreRhsStarValid | src/grammar.rs:98-99 | every further alternative read by `more_rhs()*` is a valid right-hand side |
| GrammarParser.ParseAlternatives | src/grammar.rs:103-106 | the part from `->` to `;` of a production consumes input (its alternatives: `AlternativesValid`, `GrammarPrint.AlternativesRoundTrip`) |
| GrammarParser.AlternativesValid | src/grammar.rs:103-106 | a production has at least one alternative, and each alternative is a valid right-hand side |
| GrammarParser.ParseProduction | src/grammar.rs:102-107 | a production consumes input (its content: `ProductionValid`, `GrammarPrint.ProductionRoundTrip`) |
| GrammarParser.ProductionValid | src/grammar.rs:102-107 | a production has an identifier on its left and at least one valid alternative |
| GrammarParser.ProductionStar | src/grammar.rs:110 | the repetition of `production()` never grows the input |
| GrammarParser.ProductionStarValid | src/grammar.rs:110 | every production the repetition of `production()` reads is valid; that there is at least one is checked by `ParseGrammar` |
| GrammarParser.Fold | src/grammar.rs:111 | the grammar map has exactly the left-hand sides of the productions as keys |
| GrammarParser.FoldLookup | src/grammar.rs:111 | the grammar map sends a name to the alternatives of its last production in the list |
| GrammarParser.FoldValid | src/grammar.rs:111 | collecting valid productions gives a map whose keys are identifiers with valid alternatives |
| GrammarParser.ParseGrammar | src/grammar.rs:109-112 | a parsed grammar is nonempty and valid |
| GrammarFacts.SkipWsConcat | src/grammar.rs:121 | any run of whitespace before a non-whitespace character is skipped in full |
| GrammarFacts.HexOddRejected | src/grammar.rs:34-37 | a hex block with an odd number of digits is rejected, not truncated |
| GrammarFacts.HexBytes | src/grammar.rs:38-40 | each byte of a parsed hex block comes from two hex digits of the input |
| GrammarFacts.HexExample | src/grammar.rs:33-41 | `0x00ff` and `0x00FF` both give the bytes 0x00, 0xFF |
| GrammarFacts.NumberValue | src/grammar.rs:61-64 | rule number succeeds exactly when the leading run of digits is nonempty and its value fits `u32`; it then gives that value and leaves the input after the run |
| GrammarFacts.NumberLeadingZeros | src/grammar.rs:61-64 | leading zeros are allowed: `007` reads as 7 |
| GrammarFacts.NumberTooLarge | src/grammar.rs:63 | a run of digits whose value does not fit `u32` is no number |
| GrammarFacts.OneCharString | src/grammar.rs:51-54 | a literal of one character other than a quote or backslash reads as that character and leaves what follows its closing quote |
| GrammarFacts.EmptyStringRejected | src/grammar.rs:51-54 | `""` is not a string literal |
| GrammarFacts.EmptyStrOnlyFromNothing | src/grammar.rs:78-80 | a token holding the empty string was read from `Nothing` and consumed exactly those seven characters |
| GrammarFacts.IdentifierExact | src/grammar.rs:56-59 | every identifier is read in full when the next character cannot continue it |
| GrammarFacts.IdentifierNeedsStart | src/grammar.rs:57 | input that starts with a digit, a quote or punctuation is no identifier |
| GrammarFacts.NothingBeforeIdentifier | src/grammar.rs:77-87 | `Nothing` wins over the identifier reading of the same text |
| GrammarFacts.RegexBeforeIdentifier | src/grammar.rs:81-87 | a regex wins over the identifier `re` |
| GrammarFacts.IdentifierToken | src/grammar.rs:85-87 | when neither `Nothing` nor a regex applies, an identifier is read as an identifier token |
| GrammarFacts.StringToken | src/grammar.rs:88-90 | input starting with a quote is a token exactly when it is a string literal |
| GrammarFacts.HexToken | src/grammar.rs:91-93 | input starting with `0` is a token exactly when it is a hex block |
| GrammarFacts.NothingElseSplits | src/grammar.rs:78-80 | `Nothing` has no word boundary: `NothingElse` is the empty string followed by the identifier `Else` |
| GrammarFacts.AdjacentTokens | src/grammar.rs:96 | tokens need no whitespace between them: `"a"b` is two tokens |
| GrammarFacts.BlankInputRejected | src/grammar.rs:109-112 | blank input, the empty input included, is not a grammar |
| GrammarPrint.DecodeEncodeHex | src/grammar.rs:38-40 | decoding the hex digits of a byte string gives back the bytes |
| GrammarPrint.DecimalValueOf | src/grammar.rs:61-64 | the decimal digits of a number have that number as their value |
| GrammarPrint.HexBlock | src/grammar.rs:33-41 | a `0x` block of an even, nonempty run of hex digits decodes those digits and leaves what follows |
| GrammarPrint.NumberRoundTrip | src/grammar.rs:61-64 | reading back the decimal form of any `u32` gives that number |
| GrammarPrint.EscapedQuote | src/grammar.rs:44 | the escape `\"` reads as a quote, whatever follows it |
| GrammarPrint.PlainChar | src/grammar.rs:46-48 | any character other than a quote reads as itself, unless it is a backslash right before a quote |
| GrammarPrint.StringCharsRoundTrip | src/grammar.rs:43-48 | the characters of a string with its quotes escaped read back as that string, up to the closing quote |
| GrammarPrint.StringRoundTrip | src/grammar.rs:51-54 | a nonempty string without a trailing backslash, quoted and escaped, reads back as itself |
| GrammarPrint.RegexRoundTrip | src/grammar.rs:66-69 | `re("p", N)` reads back as pattern p with bound N when p compiles |
| GrammarPrint.RegexDefaultBound | src/grammar.rs:71-73 | `re("p")` gets the bound 100 when p compiles |
| GrammarPrint.RegexNotCompiling | src/grammar.rs:66-87 | when p does not compile, `re("p")` is no regex; rule token reads the identifier `re`, and no token can follow it at `(` |
| GrammarPrint.TokenRoundTrip | src/grammar.rs:77-93 | every valid token reads back as itself when a space follows it and then a character that is neither whitespace nor `(` |
| GrammarPrint.RhsRoundTrip | src/grammar.rs:95-96 | a printed right-hand side reads back as the same tokens, in order |
| GrammarPrint.MoreRhsRoundTrip | src/grammar.rs:98-99 | printed further alternatives read back as the same alternatives, in order |
| GrammarPrint.AlternativesRoundTrip | src/grammar.rs:103-106 | the printed alternatives of a production read back in order, the first one first |
| GrammarPrint.ProductionRoundTrip | src/grammar.rs:102-107 | a printed production reads back as the same name and alternatives |
| GrammarPrint.ProductionsRoundTrip | src/grammar.rs:110 | printed productions read back as the same list, in order |
| GrammarPrint.GrammarRoundTrip | src/grammar.rs:109-112 | parsing a printed, nonempty list of valid productions gives exactly the map collected from that list |
| GrammarPrint.ParsedGrammarRoundTrip | src/grammar.rs:109-112 | every accepted grammar text can be printed from the productions it was read as, and the printed text parses to the same grammar |
| Configuration.MatchCode | src/configuration.rs:94-99 | `match_code` (its meaning: `MatchCodeCases`, `SetMatchesMembers`, `AnyMatchesEveryCode`) |
| Configuration.AcceptsAny | src/configuration.rs:101-103 | `accepts_any` (its meaning: `AcceptsAnyExactlyAny`, `AcceptsAnyMatchesAll`, `SetIsNeverAny`) |
| Configuration.DefaultFilter | src/configuration.rs:87-91 | the default filter (its value: `DefaultAcceptsEveryCode`) |
| Configuration.DefaultPassStyle | src/configuration.rs:39-43 | the default pass style (its value: `PassStyleDefault`) |
| Configuration.DefaultPopulationSize | src/configuration.rs:62-64 | the default population size (its value: `GenerationDefaults`) |
| Configuration.DefaultSampleLimit | src/configuration.rs:66-68 | the default sample limit (its value: `GenerationDefaults`) |
| Configuration.DefaultGenerationOptions | src/configuration.rs:53-60 | the default generation options (their value: `GenerationDefaults`) |
| Configuration.AnyMatchesEveryCode | src/configuration.rs:96 | the `Any` filter lets every `i32` exit code through |
| Configuration.SetMatchesMembers | src/configuration.rs:97 | a set filter lets a code through exactly when the set holds it |
| Configuration.EmptySetRejectsEveryCode | src/configuration.rs:97 | an empty set filter lets no code through |
| Configuration.MatchCodeCases | src/configuration.rs:94-99 | a code matches exactly when the filter is `Any` or its set holds the code |
| Configuration.AcceptsAnyExactlyAny | src/configuration.rs:101-103 | `accepts_any` holds exactly for the `Any` variant |
| Configuration.AcceptsAnyMatchesAll | src/configuration.rs:94-103 | `accepts_any` implies that `match_code` holds for every code |
| Configuration.SetIsNeverAny | src/configuration.rs:97-103 | a set filter is never `accepts_any`, even when it holds the code being asked about |
| Configuration.DefaultAcceptsEveryCode | src/configuration.rs:87-91 | the default filter is `Any` and lets every code through |
| Configuration.GenerationDefaults | src/configuration.rs:53-68 | the default generation options are population 1000 and sample limit 100 |
| Configuration.PassStyleDefault | src/configuration.rs:39-43 | the default pass style is standard input |
| FuzzThread.Apply | src/fuzz_thread.rs:77-87 | the counter update after one run (its effect: `ApplyOneRun`) |
| FuzzThread.ApplyAll | src/fuzz_thread.rs:66-88 | the updates of the worker loop over a sequence of runs, in order (its meaning: `ApplyAllIsTally`, `CountersConsistent`, `ApplyAllGrows`) |
| FuzzThread.ApplyOneRun | src/fuzz_thread.rs:77-87 | one run adds one to tested samples, one to improvements exactly on a size improvement, and one to exactly the outcome counter matching exit code zero, another code or a signal |
| FuzzThread.NonzeroExitIsNoCrash | src/fuzz_thread.rs:84-86 | a nonzero exit code counts as nonzero, not as a crash |
| FuzzThread.ApplyAllIsTally | src/fuzz_thread.rs:75-87 | after any runs from zero, each counter is the number of runs of its kind |
| FuzzThread.OutcomesPartition | src/fuzz_thread.rs:83-87 | every run has exactly one of the three outcomes, so their counts add up to the number of runs |
| FuzzThread.CountersConsistent | src/fuzz_thread.rs:75-87 | from zero, tested samples equals the runs, the three outcome counters sum to it and improvements never exceed it |
| FuzzThread.ApplyAllGrows | src/fuzz_thread.rs:75-87 | no counter ever decreases, and tested samples grows by the number of runs |
| FuzzThread.State.constructor | src/fuzz_thread.rs:18 | assumed, not taken from the source: the shared state the worker receives starts with all counters zero and no run recorded |
| FuzzThread.State.Record | src/fuzz_thread.rs:75-87 | recording a run applies the update to the counters in place, keeps the invariant, and keeps the outcome sum equal to tested samples |
| FuzzThread.State.RecordAll | src/fuzz_thread.rs:66-88 | the worker loop over a sequence of runs folds the update over them in order, and no counter decreases |

## Left out

- `src/main.rs` and every module that `src/fuzz_thread.rs` calls (`fuzzing`, `execution`, mutator construction, the library of samples, the coverage mapping) are not part of this model. A run's status and exit result are inputs to `Record`.
- Threads, the `Mutex` around the state, the atomic running flag and the panic on a failed run are left out. `RecordAll` stands for the loop body under the lock, run sequentially.
- Reading the configuration file (`load_config`, TOML and serde deserialization, the field defaults serde fills in) is left out, because it is I/O and a foreign library. `SeedOptions`, `BinaryConfig` and `default_stdin_limit` are not modelled, because no modelled operation reads them.
- Regex compilation (`compile_regex`) is the parameter `compiles`: whether the regex parser accepts the pattern. The compiled automaton is kept as the pattern and its bound. A panic inside `with_hir` is not modelled.
- Parse errors are `None`. The error messages and positions of the PEG library are not modelled.
- ParseNumber: a run of digits whose value exceeds `u32` makes the rule fail, where the source panics in `unwrap`. A grammar containing such a number is rejected in the model rather than aborting the program.
- Grammar generation (random sampling from the grammar) is not part of the core that is modelled.
- FuzzThread.State: the counters are unbounded naturals; `usize` overflow after 2^64 runs is not modelled.
- GrammarPrint.GrammarRoundTrip: holds for valid productions only. These are all the parser produces (`GrammarParser.TokenValid`, `GrammarPrint.ParsedGrammarRoundTrip`). Identifiers starting with `Nothing`, texts or patterns ending in a backslash, and empty hex blocks or patterns cannot be written in the DSL. A pattern that does not compile is rejected (`GrammarPrint.RegexNotCompiling`). The printed text is one canonical layout, not the original text with its whitespace.
- FuzzThread.State.constructor: the `State` type and its initial value belong to the `state` module, which is not part of this model. That the counters start at zero is an assumption.
