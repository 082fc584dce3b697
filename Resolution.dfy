/** What ConfigurationService resolves, as functions of the state it reads.

    The service's lookups call each other: a reference in a value is
    resolved by looking up its name, whose value may hold references again,
    and the source has no guard against a reference cycle. Every function
    here therefore takes `fuel`, the number of nested lookups it may still
    make; a resolution that needs more ends in `Failure(OutOfFuel)`, the
    model of the stack overflow a cycle causes. */
module Resolution {
  import opened Wrappers
  import opened Text
  import opened Patterns

  /** The configuration store and the process environment: a missing key is an absent entry. */
  type Store = map<string, string>

  /** The static state the resolver reads: `Configuration` (null until
      `Configure` runs), the process environment and `EnvironmentPrefix`. */
  datatype Context = Context(configuration: Option<Store>, environment: Store, prefix: string)

  /** Why resolution produced no value. */
  datatype Failure =
    | NotConfigured                             // `Configuration` is null: a NullReferenceException
    | MissingEnvironmentVariable(name: string)  // null reached `regex.Matches`: an ArgumentNullException
    | OutOfFuel                                 // more nested lookups than the fuel allows

  type Outcome<T> = Result<T, Failure>

  /** The initial value of `EnvironmentPrefix`. */
  const DefaultPrefix: string := "SS_"

  /** The name `GetEnvironmentVariableValue` looks up: `prefix` is put in
      front unless the name already starts with it. */
  function PrefixedName(prefix: string, name: string): (r: string)
    ensures StartsWith(r, prefix)
    ensures StartsWith(name, prefix) ==> r == name
    ensures !StartsWith(name, prefix) ==> r == prefix + name
  {
    if StartsWith(name, prefix) then name else prefix + name
  }

  /** The condition of `GetValue` for resolving a stored value: not empty,
      not only white space, and a `${...}` match somewhere in it. */
  predicate NeedsResolution(value: string) {
    |value| > 0 && !AllWhiteSpace(value) && Matches(value, Reference) != []
  }

  /** The store's entry for `key`, `None` where the indexer returns null. */
  function Lookup(store: Store, key: string): Option<string> {
    if key in store then Some(store[key]) else None
  }

  /** `NormalizeVariableName(name, environment)`: rewrite the separator
      tokens, then resolve `${env:...}` and then `${...}` references. */
  function Normalize(ctx: Context, fuel: nat, name: string, environment: bool): (r: Outcome<string>)
    ensures r.Success? ==> IsTrimmed(r.value)
    decreases fuel, 2, 0
  {
    var e :- ReplaceEnvironmentReferences(ctx, fuel, RewriteSeparators(name, environment));
    ReplaceReferences(ctx, fuel, e)
  }

  /** `ReplaceEnvironmentVariableReferences(source)`: every `${env:NAME}`
      match, in order, is replaced wherever its text occurs by the value of
      the environment variable NAME; the result is trimmed. */
  function ReplaceEnvironmentReferences(ctx: Context, fuel: nat, source: string): (r: Outcome<string>)
    ensures r.Success? ==> IsTrimmed(r.value)
    decreases fuel, 1, 0
  {
    var replaced :- SubstituteEnvironment(ctx, fuel, source, Matches(source, EnvironmentReference));
    Success(Trim(replaced))
  }

  /** The loop of `ReplaceEnvironmentVariableReferences` over the matches `ms`. */
  function SubstituteEnvironment(ctx: Context, fuel: nat, source: string, ms: seq<Match>): Outcome<string>
    requires forall m :: m in ms ==> WellFormed(m, EnvironmentReference)
    decreases fuel, 0, |ms|
  {
    if ms == [] then Success(source)
    else if fuel == 0 then Failure(OutOfFuel)
    else
      assert ms[0] in ms && WellFormed(ms[0], EnvironmentReference);
      var value :- EnvironmentValue(ctx, fuel - 1, ms[0].name);
      SubstituteEnvironment(ctx, fuel, ReplaceAll(source, ms[0].token, value), ms[1..])
  }

  /** `ReplaceVariableReferences(source)`: every `${NAME}` match, in order,
      is replaced wherever its text occurs by `GetValue(NAME)`, a null value
      deleting it; the result is trimmed. */
  function ReplaceReferences(ctx: Context, fuel: nat, source: string): (r: Outcome<string>)
    ensures r.Success? ==> IsTrimmed(r.value)
    decreases fuel, 1, 0
  {
    var replaced :- SubstituteReferences(ctx, fuel, source, Matches(source, Reference));
    Success(Trim(replaced))
  }

  /** The loop of `ReplaceVariableReferences` over the matches `ms`. */
  function SubstituteReferences(ctx: Context, fuel: nat, source: string, ms: seq<Match>): Outcome<string>
    requires forall m :: m in ms ==> WellFormed(m, Reference)
    decreases fuel, 0, |ms|
  {
    if ms == [] then Success(source)
    else if fuel == 0 then Failure(OutOfFuel)
    else
      assert ms[0] in ms && WellFormed(ms[0], Reference);
      var value :- GetValue(ctx, fuel - 1, ms[0].name);
      SubstituteReferences(ctx, fuel, ReplaceAll(source, ms[0].token, value.GetOr("")), ms[1..])
  }

  /** `GetEnvironmentVariableValue(name)`: the environment variable named by
      the prefixed name, normalised in store form, with its `${env:...}`
      and then its `${...}` references resolved. */
  function EnvironmentValue(ctx: Context, fuel: nat, name: string): (r: Outcome<string>)
    ensures r.Success? ==> IsTrimmed(r.value)
    decreases fuel, 3, 0
  {
    var key :- Normalize(ctx, fuel, PrefixedName(ctx.prefix, name), false);
    if key !in ctx.environment then Failure(MissingEnvironmentVariable(key))
    else
      var once :- ReplaceEnvironmentReferences(ctx, fuel, ctx.environment[key]);
      ReplaceReferences(ctx, fuel, once)
  }

  /** `GetValue(name)`: the stored value of the normalised name; a value
      with a `${...}` in it goes through the `${env:...}` pass twice. */
  function GetValue(ctx: Context, fuel: nat, name: string): (r: Outcome<Option<string>>)
    ensures ctx.configuration.None? ==> r.Failure?
    decreases fuel, 3, 0
  {
    var key :- Normalize(ctx, fuel, name, false);
    if ctx.configuration.None? then Failure(NotConfigured)
    else
      var value := Lookup(ctx.configuration.value, key);
      if value.Some? && NeedsResolution(value.value) then
        var once :- ReplaceEnvironmentReferences(ctx, fuel, value.value);
        var twice :- ReplaceEnvironmentReferences(ctx, fuel, once);
        Success(Some(twice))
      else Success(value)
  }

  /** `GetValue<TValue>()`: the section name is the one the type's
      `ConfigurationSectionName` attribute declares, else the type's name. */
  function SectionName(attribute: Option<string>, typeName: string): (r: string)
    ensures attribute.Some? ==> r == attribute.value
    ensures attribute.None? ==> r == typeName
  {
    attribute.GetOr(typeName)
  }

  // ---------------------------------------------------------------------
  // The prefix rule
  // ---------------------------------------------------------------------

  /** The prefix is never doubled: prefixing an already prefixed name changes nothing. */
  lemma PrefixNeverDoubled(prefix: string, name: string)
    ensures PrefixedName(prefix, PrefixedName(prefix, name)) == PrefixedName(prefix, name)
  {
  }

  // ---------------------------------------------------------------------
  // Text without references
  // ---------------------------------------------------------------------

  /** Trimming cannot create an opening. */
  lemma TrimKeepsNoOpening(s: string, p: Pattern)
    requires FreeOfOpenings(s, p)
    ensures FreeOfOpenings(Trim(s), p)
  {
    var r := Trim(s);
    var i := SkipWhiteSpace(s, 0);
    forall k | 0 <= k < |r| ensures !Opens(r, k, p) {
      assert !Opens(s, i + k, p);
    }
  }

  /** Text with no `${` goes through both passes untouched but for trimming,
      whatever the store, the environment and the fuel: no lookup is made. */
  lemma PlainTextPasses(ctx: Context, fuel: nat, s: string)
    requires FreeOfOpenings(s, Reference)
    ensures ReplaceEnvironmentReferences(ctx, fuel, s) == Success(Trim(s))
    ensures ReplaceReferences(ctx, fuel, s) == Success(Trim(s))
  {
    NoOpeningNoMatch(s, EnvironmentReference);
    NoOpeningNoMatch(s, Reference);
  }

  /** A name with no `${` normalises to its rewritten, trimmed self. */
  lemma NormalizePlain(ctx: Context, fuel: nat, name: string, environment: bool)
    requires FreeOfOpenings(name, Reference)
    ensures Normalize(ctx, fuel, name, environment) == Success(Trim(RewriteSeparators(name, environment)))
  {
    var x := RewriteSeparators(name, environment);
    RewriteKeepsNoOpening(name, environment);
    PlainTextPasses(ctx, fuel, x);
    TrimKeepsNoOpening(x, Reference);
    PlainTextPasses(ctx, fuel, Trim(x));
    TrimIdempotent(x);
  }

  /** A key that is already in normal form: trimmed, without separator tokens and without `${`. */
  predicate PlainKey(key: string) {
    && IsTrimmed(key)
    && FreeOfSeparators(key, Separators(false))
    && FreeOfOpenings(key, Reference)
  }

  /** A plain key normalises to itself. */
  lemma NormalizePlainKey(ctx: Context, fuel: nat, key: string)
    requires PlainKey(key)
    ensures Normalize(ctx, fuel, key, false) == Success(key)
  {
    NormalizePlain(ctx, fuel, key, false);
    RewriteWithoutSeparators(key, false);
    TrimTrimmed(key);
  }

  // ---------------------------------------------------------------------
  // One line, one match
  // ---------------------------------------------------------------------

  /** On one line, the environment pass replaces the span from the first
      `${env:` to the last `}` by the value of the name in between. */
  lemma SingleLineEnvironmentPass(ctx: Context, fuel: nat, s: string, i: nat, j: nat)
    requires '\n' !in s && fuel > 0
    requires FirstOpen(s, 0, EnvironmentReference) == Some(i) && LastClose(s, 0, |s|) == Some(j)
    requires i + 6 <= j
    ensures ReplaceEnvironmentReferences(ctx, fuel, s) ==
      var value :- EnvironmentValue(ctx, fuel - 1, s[i + 6..j]);
      Success(Trim(s[..i] + value + s[j + 1..]))
  {
    var m := Match(s[i..j + 1], s[i + 6..j]);
    SingleLineMatches(s, EnvironmentReference);
    assert Matches(s, EnvironmentReference) == [m];
    var value := EnvironmentValue(ctx, fuel - 1, m.name);
    if value.Success? {
      assert SubstituteEnvironment(ctx, fuel, s, [m]) == Success(ReplaceAll(s, m.token, value.value)) by {
        assert [m][1..] == [];
      }
      ReplaceSpan(s, i, j, EnvironmentReference, value.value);
    }
  }

  /** On one line, the reference pass replaces the span from the first `${`
      to the last `}` by the stored value of the name in between, and a
      missing key deletes it. */
  lemma SingleLineReferencePass(ctx: Context, fuel: nat, s: string, i: nat, j: nat)
    requires '\n' !in s && fuel > 0
    requires FirstOpen(s, 0, Reference) == Some(i) && LastClose(s, 0, |s|) == Some(j)
    requires i + 2 <= j
    ensures ReplaceReferences(ctx, fuel, s) ==
      var value :- GetValue(ctx, fuel - 1, s[i + 2..j]);
      Success(Trim(s[..i] + value.GetOr("") + s[j + 1..]))
  {
    var m := Match(s[i..j + 1], s[i + 2..j]);
    SingleLineMatches(s, Reference);
    assert Matches(s, Reference) == [m];
    var value := GetValue(ctx, fuel - 1, m.name);
    if value.Success? {
      var text := value.value.GetOr("");
      assert SubstituteReferences(ctx, fuel, s, [m]) == Success(ReplaceAll(s, m.token, text)) by {
        assert [m][1..] == [];
      }
      ReplaceSpan(s, i, j, Reference, text);
    }
  }

  /** One `${env:NAME}` on a line, with no `$` before it and no `}` after
      it: the pass puts the value of NAME in its place and trims. */
  lemma OneEnvironmentReference(ctx: Context, fuel: nat, pre: string, name: string, post: string)
    requires fuel > 0 && '$' !in pre && '}' !in post
    requires '\n' !in pre && '\n' !in name && '\n' !in post
    ensures ReplaceEnvironmentReferences(ctx, fuel, pre + "${env:" + name + "}" + post) ==
      var value :- EnvironmentValue(ctx, fuel - 1, name);
      Success(Trim(pre + value + post))
  {
    var s := pre + "${env:" + name + "}" + post;
    EmbeddedReference(s, pre, name, post, EnvironmentReference);
    SingleLineEnvironmentPass(ctx, fuel, s, |pre|, |pre| + 6 + |name|);
  }

  /** One `${NAME}` on a line, with no `$` before it and no `}` after it:
      the pass puts the stored value of NAME in its place, or deletes it
      when the store has none, and trims. */
  lemma OneReference(ctx: Context, fuel: nat, pre: string, name: string, post: string)
    requires fuel > 0 && '$' !in pre && '}' !in post
    requires '\n' !in pre && '\n' !in name && '\n' !in post
    ensures ReplaceReferences(ctx, fuel, pre + "${" + name + "}" + post) ==
      var value :- GetValue(ctx, fuel - 1, name);
      Success(Trim(pre + value.GetOr("") + post))
  {
    var s := pre + "${" + name + "}" + post;
    EmbeddedReference(s, pre, name, post, Reference);
    SingleLineReferencePass(ctx, fuel, s, |pre|, |pre| + 2 + |name|);
  }

  // ---------------------------------------------------------------------
  // GetValue and GetEnvironmentVariableValue
  // ---------------------------------------------------------------------

  /** `GetValue` returns the raw stored value, untrimmed, or `None` for a
      missing key, when that value is empty, only white space, or has no
      `${...}` in it. */
  lemma GetValueRaw(ctx: Context, fuel: nat, key: string)
    requires PlainKey(key) && ctx.configuration.Some?
    requires key in ctx.configuration.value ==> !NeedsResolution(ctx.configuration.value[key])
    ensures GetValue(ctx, fuel, key) == Success(Lookup(ctx.configuration.value, key))
  {
    NormalizePlainKey(ctx, fuel, key);
  }

  /** `GetValue` never runs the `${...}` pass: a stored value with no
      `${env:` in it comes back trimmed, its `${NAME}` references unresolved. */
  lemma GetValueLeavesReferences(ctx: Context, fuel: nat, key: string)
    requires PlainKey(key) && ctx.configuration.Some?
    requires key in ctx.configuration.value
    requires NeedsResolution(ctx.configuration.value[key])
    requires FreeOfOpenings(ctx.configuration.value[key], EnvironmentReference)
    ensures GetValue(ctx, fuel, key) == Success(Some(Trim(ctx.configuration.value[key])))
  {
    var v := ctx.configuration.value[key];
    var t := Trim(v);
    NormalizePlainKey(ctx, fuel, key);
    assert Lookup(ctx.configuration.value, key) == Some(v);
    NoEnvironmentOpeningPass(ctx, fuel, v);
    TrimKeepsNoOpening(v, EnvironmentReference);
    NoEnvironmentOpeningPass(ctx, fuel, t);
    TrimIdempotent(v);
  }

  /** Text with no `${env:` goes through the environment pass untouched but for trimming. */
  lemma NoEnvironmentOpeningPass(ctx: Context, fuel: nat, s: string)
    requires FreeOfOpenings(s, EnvironmentReference)
    ensures ReplaceEnvironmentReferences(ctx, fuel, s) == Success(Trim(s))
  {
    NoMatchFrom(s, 0, EnvironmentReference);
  }

  /** Before `Configure`, `GetValue` of a key without references fails. */
  lemma GetValueNotConfigured(ctx: Context, fuel: nat, key: string)
    requires ctx.configuration.None?
    requires FreeOfOpenings(key, Reference)
    ensures GetValue(ctx, fuel, key) == Failure(NotConfigured)
  {
    NormalizePlain(ctx, fuel, key, false);
  }

  /** `GetEnvironmentVariableValue` fails on a variable that is not set,
      naming the key it looked for: the prefixed name in STORE form. */
  lemma MissingVariableFails(ctx: Context, fuel: nat, name: string)
    requires FreeOfOpenings(PrefixedName(ctx.prefix, name), Reference)
    requires Trim(RewriteSeparators(PrefixedName(ctx.prefix, name), false)) !in ctx.environment
    ensures EnvironmentValue(ctx, fuel, name) ==
      Failure(MissingEnvironmentVariable(Trim(RewriteSeparators(PrefixedName(ctx.prefix, name), false))))
  {
    NormalizePlain(ctx, fuel, PrefixedName(ctx.prefix, name), false);
  }

  /** An environment variable whose prefixed name is a plain key and whose
      value has no `${` resolves to its trimmed value. */
  lemma PlainEnvironmentValue(ctx: Context, fuel: nat, name: string)
    requires PlainKey(PrefixedName(ctx.prefix, name))
    requires PrefixedName(ctx.prefix, name) in ctx.environment
    requires FreeOfOpenings(ctx.environment[PrefixedName(ctx.prefix, name)], Reference)
    ensures EnvironmentValue(ctx, fuel, name) == Success(Trim(ctx.environment[PrefixedName(ctx.prefix, name)]))
  {
    var key := PrefixedName(ctx.prefix, name);
    var v := ctx.environment[key];
    NormalizePlainKey(ctx, fuel, key);
    PlainTextPasses(ctx, fuel, v);
    TrimKeepsNoOpening(v, Reference);
    PlainTextPasses(ctx, fuel, Trim(v));
    TrimIdempotent(v);
  }

  // ---------------------------------------------------------------------
  // The passes step by step, and running out of fuel
  // ---------------------------------------------------------------------

  /** The environment pass's loop ends with the failure of the first match's lookup. */
  lemma SubstituteEnvironmentFails(ctx: Context, fuel: nat, s: string, ms: seq<Match>, value: Outcome<string>)
    requires forall m :: m in ms ==> WellFormed(m, EnvironmentReference)
    requires fuel > 0 && ms != [] && EnvironmentValue(ctx, fuel - 1, ms[0].name) == value && value.Failure?
    ensures SubstituteEnvironment(ctx, fuel, s, ms) == Failure(value.error)
  {
    assert ms[0] in ms;
  }

  /** The environment pass's loop substitutes the first match's value and
      goes on with the rest. */
  lemma SubstituteEnvironmentContinues(ctx: Context, fuel: nat, s: string, ms: seq<Match>, value: Outcome<string>)
    requires forall m :: m in ms ==> WellFormed(m, EnvironmentReference)
    requires fuel > 0 && ms != [] && EnvironmentValue(ctx, fuel - 1, ms[0].name) == value && value.Success?
    ensures |ms[0].token| > 0
    ensures SubstituteEnvironment(ctx, fuel, s, ms) ==
      SubstituteEnvironment(ctx, fuel, ReplaceAll(s, ms[0].token, value.value), ms[1..])
  {
    assert ms[0] in ms;
  }

  /** The reference pass's loop ends with the failure of the first match's lookup. */
  lemma SubstituteReferencesFails(ctx: Context, fuel: nat, s: string, ms: seq<Match>, value: Outcome<Option<string>>)
    requires forall m :: m in ms ==> WellFormed(m, Reference)
    requires fuel > 0 && ms != [] && GetValue(ctx, fuel - 1, ms[0].name) == value && value.Failure?
    ensures SubstituteReferences(ctx, fuel, s, ms) == Failure(value.error)
  {
    assert ms[0] in ms;
  }

  /** The reference pass's loop substitutes the first match's value, or
      nothing for a missing key, and goes on with the rest. */
  lemma SubstituteReferencesContinues(ctx: Context, fuel: nat, s: string, ms: seq<Match>, value: Outcome<Option<string>>)
    requires forall m :: m in ms ==> WellFormed(m, Reference)
    requires fuel > 0 && ms != [] && GetValue(ctx, fuel - 1, ms[0].name) == value && value.Success?
    ensures |ms[0].token| > 0
    ensures SubstituteReferences(ctx, fuel, s, ms) ==
      SubstituteReferences(ctx, fuel, ReplaceAll(s, ms[0].token, value.value.GetOr("")), ms[1..])
  {
    assert ms[0] in ms;
  }

  /** The shape of `${env:NAME}` when the name has no `}` and no newline:
      one line, opening at 0, closing at its last character. */
  lemma SelfReferenceShape(name: string)
    requires '\n' !in name && '}' !in name
    ensures var s := "${env:" + name + "}";
      && '\n' !in s && |s| >= 7
      && FirstOpen(s, 0, EnvironmentReference) == Some(0)
      && LastClose(s, 0, |s|) == Some(|s| - 1)
      && s[6..|s| - 1] == name
  {
    var s := "${env:" + name + "}";
    assert s == [] + Opening(EnvironmentReference) + name + "}" + [];
    EmbeddedReference(s, [], name, [], EnvironmentReference);
  }

  /** Without fuel, the environment pass fails on a value with a match. */
  lemma PassWithoutFuel(ctx: Context, s: string)
    requires Matches(s, EnvironmentReference) != []
    ensures ReplaceEnvironmentReferences(ctx, 0, s) == Failure(OutOfFuel)
  {
  }

  /** The environment pass over `${env:NAME}` when NAME's own value is that
      same reference: it runs out of fuel. */
  lemma {:induction false} SelfReferencePass(ctx: Context, fuel: nat, name: string, s: string)
    requires FreeOfOpenings(PrefixedName(ctx.prefix, name), Reference)
    requires '\n' !in name && '}' !in name && s == "${env:" + name + "}"
    requires var key := Trim(RewriteSeparators(PrefixedName(ctx.prefix, name), false));
      key in ctx.environment && ctx.environment[key] == s
    ensures ReplaceEnvironmentReferences(ctx, fuel, s) == Failure(OutOfFuel)
    decreases fuel, 0
  {
    SelfReferenceShape(name);
    if fuel == 0 {
      SingleLineMatches(s, EnvironmentReference);
      PassWithoutFuel(ctx, s);
    } else {
      SingleLineEnvironmentPass(ctx, fuel, s, 0, |s| - 1);
      SelfReferenceRunsOutOfFuel(ctx, fuel - 1, name);
    }
  }

  /** No cycle guard: an environment variable whose value is a reference to
      itself never resolves, whatever the fuel. */
  lemma {:induction false} SelfReferenceRunsOutOfFuel(ctx: Context, fuel: nat, name: string)
    requires FreeOfOpenings(PrefixedName(ctx.prefix, name), Reference)
    requires '\n' !in name && '}' !in name
    requires var key := Trim(RewriteSeparators(PrefixedName(ctx.prefix, name), false));
      key in ctx.environment && ctx.environment[key] == "${env:" + name + "}"
    ensures EnvironmentValue(ctx, fuel, name) == Failure(OutOfFuel)
    decreases fuel, 1
  {
    var key := Trim(RewriteSeparators(PrefixedName(ctx.prefix, name), false));
    NormalizePlain(ctx, fuel, PrefixedName(ctx.prefix, name), false);
    SelfReferencePass(ctx, fuel, name, ctx.environment[key]);
  }
}
