# Configuration variable resolver

A model of the variable resolver in SyncStream's `ConfigurationService`. It looks up string values in a configuration store and in the process environment. On the way it:

- normalises key names, rewriting the path separators `/`, `::` and `->`;
- substitutes `${env:NAME}` references with environment variables;
- substitutes `${NAME}` references with store values;
- puts the environment prefix (`SS_` by default) in front of environment-variable names.

The project has six modules:

- `Wrappers`: `Option` and a failure-compatible `Result`.
- `Text`: the .NET string operations the resolver uses.
  - `String.Trim` with `char.IsWhiteSpace`.
  - `StartsWith`, compared ordinally (the source's call compares in the current culture; see "Left out").
  - `String.Replace`: every non-overlapping occurrence, scanned from the left.
- `Patterns`: the three regular expressions, written out as the scans the .NET engine performs.
  - The separator alternation used with `Regex.Replace`. Alternatives are tried in order at each position, so in environment form `:` wins over `::`.
  - The greedy `\$\{(.*)\}` and `\$\{env:(.*)\}` matches. They are case-insensitive, and `.` stops at a newline, so a match runs from an opening to the last `}` on its line.
- `Resolution`: what each resolver operation computes.
  - Each is a function of the state it reads. That state is the configuration (null until `Configure`), the environment and the prefix.
  - The lemmas state what the source promises about them.
  - The source has no guard against reference cycles. So every function takes `fuel`, the number of nested lookups still allowed. Running out gives `Failure(OutOfFuel)`, which stands for the stack overflow a cycle causes.
- `Service`: the class `ConfigurationService`.
  - Its mutable fields are `configuration` and `environmentPrefix`.
  - `Configure` updates them.
  - The resolver operations are methods. Their `foreach` loops reassign the source string step by step.
  - Each method is proved to compute the corresponding `Resolution` function: `NormalizeVariableName` computes `Normalize`, `ReplaceEnvironmentVariableReferences` computes `ReplaceEnvironmentReferences`, `ReplaceVariableReferences` computes `ReplaceReferences`, `GetEnvironmentVariableValue` computes `EnvironmentValue`, and `GetValue` computes `GetValue`.
- `Examples`: concrete behaviour, all stated for every word or name of the given shape.
  - Each separator, each form.
  - The greedy match.
  - A chained `${env:...}` lookup.
  - The store-form key used for environment variables.

Two errors of the source are modelled as failures instead of exceptions:

- `MissingEnvironmentVariable(key)`: `Environment.GetEnvironmentVariable` returns null for a variable that is not set, and `regex.Matches(null)` then throws.
- `NotConfigured`: `Configuration[...]` is called on a null `Configuration`.

In several places the code does not do what its method names and comments suggest; the model follows the code:

- **The match is greedy.** `"${a}-${b}"` is one match whose name is `a}-${b`. Each reference is not replaced separately (`Examples.GreedyMatch`).
- **`GetValue` runs the `${env:...}` pass twice.** It never runs the `${...}` pass on the stored value itself. So a `${NAME}` stored in a value comes back unresolved (`Resolution.GetValueLeavesReferences`). A stored `"${GREETING}, world"` is resolved only through `ReplaceVariableReferences` (`Resolution.OneReference`).
- **A missing environment variable is an error**, not an empty value (`Resolution.MissingVariableFails`).
- **Environment lookups use the store form.** `GetEnvironmentVariableValue("a/b")` looks for `SS_a:b`, not `SS_a_b` (`Examples.StoreFormEnvironmentKey`).
- **In environment form `::` becomes `__`**, not `_` (`Examples.DoubleColonEnvironmentForm`).
- **A self-referencing variable never resolves** (`Resolution.SelfReferenceRunsOutOfFuel`).

## Model

| member | source | states |
|---|---|---|
| Service.ConfigurationService.constructor | ConfigurationService.cs:17-22 | at start-up no configuration is set and the environment prefix is `SS_` |
| Service.ConfigurationService.Configure | ConfigurationService.cs:28-35 | the configuration becomes the given instance, that same instance is returned, and the prefix is unchanged |
| Service.ConfigurationService.SetEnvironmentPrefix | ConfigurationService.cs:22 | setting the prefix changes it and leaves the configuration as it was |
| Service.ConfigurationService.NormalizeVariableName | ConfigurationService.cs:244-247 | returns the separator rewrite followed by the `${env:...}` pass and then the `${...}` pass, as `Resolution.Normalize` defines it; a successful result is trimmed |
| Service.ConfigurationService.ReplaceEnvironmentVariableReferences | ConfigurationService.cs:254-266 | the loop over the matches of the original source replaces each match's text in the current string by its variable's value, stops with the first lookup failure, and trims; equal to `Resolution.ReplaceEnvironmentReferences` |
| Service.ConfigurationService.ReplaceVariableReferences | ConfigurationService.cs:273-285 | the same loop over `${...}` matches, with `GetValue` supplying values and a null value deleting the text; equal to `Resolution.ReplaceReferences` |
| Service.ConfigurationService.GetEnvironmentVariableValue | ConfigurationService.cs:113-117 | normalises the prefixed name, fails on an unset variable, and resolves the value with both passes; equal to `Resolution.EnvironmentValue`, and trimmed |
| Service.ConfigurationService.GetValue | ConfigurationService.cs:158-178 | normalises the name, fails when no configuration is set, and runs a value that needs resolution through the environment pass twice; equal to `Resolution.GetValue` |
| Resolution.PrefixedName | ConfigurationService.cs:115-116 | the name looked up starts with the prefix; it is the name itself when that already starts with the prefix, and the prefix followed by the name otherwise |
| Resolution.PrefixNeverDoubled | ConfigurationService.cs:115-116 | prefixing an already prefixed name changes nothing |
| Resolution.Normalize | ConfigurationService.cs:244-247 | a normalised name is trimmed |
| Resolution.ReplaceEnvironmentReferences | ConfigurationService.cs:265 | the environment pass returns a trimmed result |
| Resolution.ReplaceReferences | ConfigurationService.cs:284 | the reference pass returns a trimmed result |
| Resolution.EnvironmentValue | ConfigurationService.cs:113-117 | an environment variable's resolved value is trimmed |
| Resolution.GetValue | ConfigurationService.cs:158-178 | fails whenever no configuration is set; `GetValueRaw` states that a missing, blank or match-free value comes back raw, `GetValueLeavesReferences` that a value with only `${NAME}` references comes back trimmed and unresolved, and `Examples.ChainedEnvironmentReference` that a `${env:NAME}` in it is resolved |
| Resolution.NeedsResolution | ConfigurationService.cs:167-168 | the condition for resolving a stored value: not empty, not only white space, and a `${...}` match in it; `GetValueRaw` and `Examples.EnvironmentReferenceNeedsResolution` state its two outcomes |
| Resolution.Lookup | ConfigurationService.cs:164 | the store's value for the key, or none where the indexer returns null; `GetValueRaw` states that a missing key gives a null value |
| Resolution.SubstituteEnvironment | ConfigurationService.cs:261-262 | the `foreach` of the environment pass over the original matches, stopping at the first failed lookup; `SingleLineEnvironmentPass` and `OneEnvironmentReference` state its outcome, and `ReplaceEnvironmentVariableReferences` is proved to follow it step by step |
| Resolution.SubstituteReferences | ConfigurationService.cs:280-281 | the `foreach` of the reference pass, a null value deleting the match's text; `SingleLineReferencePass` and `OneReference` state its outcome, and `ReplaceVariableReferences` is proved to follow it step by step |
| Resolution.SectionName | ConfigurationService.cs:230-234 | the section name is the attribute's name when the type has the attribute, and the type's name otherwise |
| Resolution.PlainTextPasses | ConfigurationService.cs:254-285 | text with no `${` comes out of both passes trimmed and otherwise unchanged, for any store, environment and fuel, so no lookup is made |
| Resolution.NoEnvironmentOpeningPass | ConfigurationService.cs:257-265 | text with no `${env:` comes out of the environment pass trimmed and otherwise unchanged |
| Resolution.NormalizePlain | ConfigurationService.cs:244-247 | a name with no `${` normalises to its separator rewrite, trimmed |
| Resolution.NormalizePlainKey | ConfigurationService.cs:244-247 | a trimmed key with no separator token and no `${` normalises to itself |
| Resolution.SingleLineEnvironmentPass | ConfigurationService.cs:257-265 | on one line, the span from the first `${env:` to the last `}` is replaced by the value of the name between them; a failed lookup fails the pass |
| Resolution.SingleLineReferencePass | ConfigurationService.cs:276-284 | on one line, the span from the first `${` to the last `}` is replaced by the stored value of the name between them, or deleted when the key is missing |
| Resolution.OneEnvironmentReference | ConfigurationService.cs:257-265 | `pre${env:NAME}post`, with no `$` in `pre` and no `}` in `post`, becomes `pre` + value of NAME + `post`, trimmed |
| Resolution.OneReference | ConfigurationService.cs:276-284 | `pre${NAME}post`, with no `$` in `pre`, no `}` in `post` and no newline, becomes `pre` + stored value of NAME (empty when missing) + `post`, trimmed |
| Resolution.GetValueRaw | ConfigurationService.cs:161-178 | a stored value that is missing, empty, only white space or free of `${...}` matches is returned raw: untrimmed, or null |
| Resolution.GetValueLeavesReferences | ConfigurationService.cs:167-174 | a value with `${...}` but no `${env:` comes back only trimmed: its `${NAME}` references are not resolved |
| Resolution.GetValueNotConfigured | ConfigurationService.cs:161-164 | before `Configure`, `GetValue` of a key without references fails |
| Resolution.MissingVariableFails | ConfigurationService.cs:113-117 | an unset variable fails, naming the key looked for: the prefixed name in store form, trimmed |
| Resolution.PlainEnvironmentValue | ConfigurationService.cs:113-117 | a variable whose prefixed name is a plain key and whose value has no `${` resolves to its trimmed value |
| Resolution.SelfReferencePass | ConfigurationService.cs:257-262 | the environment pass over `${env:NAME}`, where NAME's value is that same text, never finishes |
| Resolution.SelfReferenceRunsOutOfFuel | ConfigurationService.cs:113-117 | a variable whose value refers to itself runs out of fuel whatever the fuel: there is no cycle guard |
| Patterns.RewriteSeparators | ConfigurationService.cs:245-247 | the `Regex.Replace` of the separator alternation: the result is never longer than the name; `RewriteIntroducesOnlyCanonical`, `RewriteWithoutSeparators`, `EnvironmentFormHasNoSeparators`, `StoreFormHasNoSlashOrArrow` and the `Examples` lemmas state what it leaves |
| Patterns.SeparatorAt | ConfigurationService.cs:246 | the token found is one of the alternatives and starts the text; when none is found, no alternative starts it |
| Patterns.SeparatorHead | ConfigurationService.cs:246 | a separator token starts the text exactly when the text starts with `/` or `->`, or with `:` or `.` in environment form, or with `::` in store form |
| Patterns.RewriteIntroducesOnlyCanonical | ConfigurationService.cs:245-246 | every character of the rewrite is the canonical separator or a character of the name |
| Patterns.RewriteWithoutSeparators | ConfigurationService.cs:245-246 | a name without separator tokens is unchanged |
| Patterns.EnvironmentFormHasNoSeparators | ConfigurationService.cs:246 | the environment form leaves no `:`, `.`, `/` or `->` |
| Patterns.StoreFormHasNoSlashOrArrow | ConfigurationService.cs:246 | the store form leaves no `/` or `->` |
| Patterns.EnvironmentFormIdempotent | ConfigurationService.cs:246 | rewriting twice in environment form is rewriting once |
| Patterns.RewriteKeepsNoOpening | ConfigurationService.cs:245 | rewriting separators creates no `${` |
| Patterns.FirstOpen | ConfigurationService.cs:257 | the first index where the opening matches, with none before it, or none at all |
| Patterns.LastClose | ConfigurationService.cs:257 | the last `}` in a range, with none after it, or none at all |
| Patterns.LineEnd | ConfigurationService.cs:257 | the end of the line an index is on: no newline before it, and a newline or the end of text at it |
| Patterns.MatchShape | ConfigurationService.cs:257 | an opening followed by a `}` on its line is a well-formed match whose name lies between them |
| Patterns.Opens | ConfigurationService.cs:257 | the opening `${`, or `${env:` with `env` in any case, at an index; `FirstOpen` finds the first one |
| Patterns.MatchAt | ConfigurationService.cs:257 | the greedy end of a match that opens at an index: a `}` after the opening with no newline before it, and the last `}` on the line; none when the line has no `}` |
| Patterns.MatchesFrom | ConfigurationService.cs:261 | the scan of `regex.Matches` from an index: every match is well formed; `SingleLineMatches` states it finds the greedy span |
| Patterns.Matches | ConfigurationService.cs:261 | every match starts with the opening, ends with `}`, and captures the newline-free text in between |
| Patterns.NoOpeningNoMatch | ConfigurationService.cs:257 | text with no `${` has no match of either pattern |
| Patterns.NoCloseNoMatch | ConfigurationService.cs:257 | with no `}` after the openings there is no match |
| Patterns.SingleLineMatches | ConfigurationService.cs:257 | on one line there is at most one match, from the first opening to the last `}` |
| Patterns.ReplaceSpan | ConfigurationService.cs:262 | the text from the first opening to the last `}` occurs once, so `String.Replace` of it replaces exactly that span |
| Patterns.EmbeddedReference | ConfigurationService.cs:257 | in `pre` + opening + name + `}` + `post`, with no `$` in `pre` and no `}` in `post`, the first opening follows `pre` and the last `}` closes the name |
| Text.IsWhiteSpace | ConfigurationService.cs:265 | the characters `char.IsWhiteSpace` accepts, which `Trim` removes; `Text.Trim` states what is removed |
| Text.AllWhiteSpace | ConfigurationService.cs:167 | `string.IsNullOrWhiteSpace` on a non-null string; `GetValueRaw` states that such a value comes back raw |
| Text.StartsWith | ConfigurationService.cs:115 | the prefix test, compared ordinally; `PrefixedName` and `PrefixNeverDoubled` state its use |
| Text.ReplaceAll | ConfigurationService.cs:262 | `String.Replace`: replacing text by itself changes nothing; `ReplaceAllFirst`, `ReplaceAllAbsent` and `ReplaceSpan` state which occurrences are replaced |
| Text.Trim | ConfigurationService.cs:265 | the trimmed text has no white space at its ends, and only white space of the input lies outside it |
| Text.TrimIdempotent | ConfigurationService.cs:265 | trimming twice is trimming once |
| Text.TrimTrimmed | ConfigurationService.cs:284 | trimming text with no white space at its ends changes nothing |
| Text.ReplaceAllAbsent | ConfigurationService.cs:262 | `String.Replace` of text that does not occur changes nothing |
| Text.ReplaceAllFirst | ConfigurationService.cs:262 | `String.Replace` replaces the leftmost occurrence and resumes right after it |
| Examples.SlashBetweenWords | ConfigurationService.cs:246 | `a/b` becomes `a:b` in store form and `a_b` in environment form |
| Examples.ArrowBetweenWords | ConfigurationService.cs:246 | `a->b` becomes `a:b` in store form and `a_b` in environment form |
| Examples.DoubleColonStoreForm | ConfigurationService.cs:246 | `a::b` becomes `a:b` in store form |
| Examples.DoubleColonEnvironmentForm | ConfigurationService.cs:246 | `a::b` becomes `a__b` in environment form, since `:` is tried before `::` |
| Examples.ColonAndDotStoreForm | ConfigurationService.cs:246 | a single `:` or a `.` between words is kept in store form |
| Examples.ColonAndDotEnvironmentForm | ConfigurationService.cs:246 | a single `:` or a `.` between words becomes `_` in environment form |
| Examples.TripleColonStoreForm | ConfigurationService.cs:246 | `a:::b` becomes `a::b` in store form |
| Examples.StoreFormNotIdempotent | ConfigurationService.cs:246 | rewriting twice in store form can differ from rewriting once |
| Examples.RewriteWord | ConfigurationService.cs:245-246 | a word of letters, digits and `_` is unchanged in either form |
| Examples.GreedyMatch | ConfigurationService.cs:276 | `${a}-${b}` on one line is a single match whose name is `a}-${b` |
| Examples.EnvironmentReferenceNeedsResolution | ConfigurationService.cs:167 | a stored value with a `${env:NAME}` passes the check that triggers resolution |
| Examples.ChainedEnvironmentReference | ConfigurationService.cs:158-178 | a stored `pre${env:NAME}` is returned as `pre` + the value of NAME, trimmed |
| Examples.PrefixedPath | ConfigurationService.cs:113-117 | the key looked up for `a/b` is `SS_a:b` |
| Examples.StoreFormEnvironmentKey | ConfigurationService.cs:113-117 | `GetEnvironmentVariableValue("a/b")` fails unless `SS_a:b` is set, even when `SS_a_b` is |

## Left out

- File loading (the `Configure` overloads over file names, ConfigurationService.cs:44-106): file-system I/O and the external XML/JSON configuration builders.
- `GetTypedValue`, the typed `GetValue<TValue>(name)` and the typed `GetEnvironmentVariableValue<TValue>` (ConfigurationService.cs:127-151, 189-216): they call the serializer, `Convert.ChangeType` and the configuration binder, whose behaviour is not visible.
- Reflection in `GetValue<TValue>()` (ConfigurationService.cs:231): only the choice between the attribute's name and the type's name is modelled, by `Resolution.SectionName` over an optional attribute name.
- `Environment.GetEnvironmentVariable`: the environment is a map fixed when the service is constructed. Changes to the process environment while the service runs are not modelled.
- The `IConfiguration` indexer: the store is a map with exact key comparison. The configuration keys' case-insensitivity and hierarchical sections are not modelled.
- Text.StartsWith, Resolution.PrefixedName: the culture-sensitive `StartsWith(string)` of ConfigurationService.cs:115 is modelled as an ordinal comparison. The two agree on ASCII text under cultures without contractions. They can differ on non-ASCII text and under cultures with contractions:
  - a soft hyphen before `SS_x` makes the name count as prefixed only in the source;
  - `SS_` followed by a combining accent and `x` counts as prefixed only in the model, since the mark combines with `_`;
  - under Czech, with the prefix set to `C`, the name `CHx` starts with `C` only in the model.
- Null names and a null prefix: the model has no null strings, so the exceptions they would cause are not modelled (an `ArgumentNullException` from `Regex.Replace` or `StartsWith`, a `NullReferenceException` from `StartsWith` called on a null name).
- Unbounded recursion: fuel bounds the depth of nested lookups instead of the stack. The model does not prove that a result obtained with some fuel stays the same with more fuel.
- Multi-line values: the scans handle newlines (a match stops at the end of its line). The exact-replacement lemmas are stated for single-line text only.
- `RegexOptions.Compiled` and `RegexOptions.Multiline`: they do not change what the three patterns match, since none of them uses `^` or `$` anchors.
- The dependency-injection extension (SyncStreamConfigurationServiceCollectionExtensions.cs), which only forwards to the file-loading `Configure`. ConfigurationSectionNameAttribute.cs is not part of this model beyond the name it carries.
