/** The `ConfigurationService` class: the configuration store and the
    environment prefix it holds, and the resolver operations that read them.

    The C# class keeps its state in static properties; here one object holds
    that state, and the process environment the service reads is a field
    given at construction. Each resolver operation is a method, its loops
    following the source's `foreach`, proved to compute the corresponding
    function in `Resolution` (`NormalizeVariableName` computes `Normalize`,
    `GetEnvironmentVariableValue` computes `EnvironmentValue`, and so on).
    The methods change nothing, so the state they
    read is the state `State()` describes before and after the call. */
module Service {
  import opened Wrappers
  import opened Text
  import opened Patterns
  import opened Resolution

  class ConfigurationService {
    /** `Configuration`: `None` until `Configure` sets it. */
    var configuration: Option<Store>
    /** `EnvironmentPrefix`, a settable property. */
    var environmentPrefix: string
    /** The process environment `Environment.GetEnvironmentVariable` reads. */
    const environment: Store

    /** The static state at start-up: no configuration, the default prefix. */
    constructor(environment: Store)
      ensures configuration == None && environmentPrefix == DefaultPrefix
      ensures this.environment == environment
    {
      configuration := None;
      environmentPrefix := DefaultPrefix;
      this.environment := environment;
    }

    /** The state the resolver reads. */
    function State(): Resolution.Context
      reads this
    {
      Resolution.Context(configuration, environment, environmentPrefix)
    }

    /** `Configure(configuration)`: sets the configuration and returns it;
        the prefix is left as it was. */
    method Configure(configuration: Option<Store>) returns (r: Option<Store>)
      modifies this
      ensures this.configuration == configuration && r == configuration
      ensures environmentPrefix == old(environmentPrefix)
    {
      this.configuration := configuration;
      r := this.configuration;
    }

    /** The `EnvironmentPrefix` setter: the configuration is left as it was. */
    method SetEnvironmentPrefix(prefix: string)
      modifies this
      ensures environmentPrefix == prefix
      ensures configuration == old(configuration)
    {
      environmentPrefix := prefix;
    }

    /** `NormalizeVariableName(name, environment)`. */
    method NormalizeVariableName(fuel: nat, name: string, environment: bool) returns (r: Outcome<string>)
      ensures r == Normalize(State(), fuel, name, environment)
      ensures r.Success? ==> IsTrimmed(r.value)
      decreases fuel, 2, 0
    {
      var replaced :- ReplaceEnvironmentVariableReferences(fuel, RewriteSeparators(name, environment));
      r := ReplaceVariableReferences(fuel, replaced);
    }

    /** `ReplaceEnvironmentVariableReferences(source)`: the matches are taken
        from the original source, and each one's text is replaced in the
        current string by the value of its environment variable. */
    method ReplaceEnvironmentVariableReferences(fuel: nat, source: string) returns (r: Outcome<string>)
      ensures r == ReplaceEnvironmentReferences(State(), fuel, source)
      ensures r.Success? ==> IsTrimmed(r.value)
      decreases fuel, 1, 0
    {
      var ms := Matches(source, EnvironmentReference);
      var current := source;
      var rest := ms;
      ghost var context := State();
      while rest != []
        invariant forall m :: m in rest ==> WellFormed(m, EnvironmentReference)
        invariant SubstituteEnvironment(context, fuel, source, ms) == SubstituteEnvironment(context, fuel, current, rest)
        decreases |rest|
      {
        if fuel == 0 {
          return Failure(OutOfFuel);
        }
        var value := GetEnvironmentVariableValue(fuel - 1, rest[0].name);
        assert State() == context;
        if value.Failure? {
          SubstituteEnvironmentFails(context, fuel, current, rest, value);
          return Failure(value.error);
        }
        SubstituteEnvironmentContinues(context, fuel, current, rest, value);
        current := ReplaceAll(current, rest[0].token, value.value);
        rest := rest[1..];
      }
      return Success(Trim(current));
    }

    /** `ReplaceVariableReferences(source)`: the same loop over the `${...}`
        matches, with `GetValue` supplying the values and a null value
        deleting the match's text. */
    method ReplaceVariableReferences(fuel: nat, source: string) returns (r: Outcome<string>)
      ensures r == ReplaceReferences(State(), fuel, source)
      ensures r.Success? ==> IsTrimmed(r.value)
      decreases fuel, 1, 0
    {
      var ms := Matches(source, Reference);
      var current := source;
      var rest := ms;
      ghost var context := State();
      while rest != []
        invariant forall m :: m in rest ==> WellFormed(m, Reference)
        invariant SubstituteReferences(context, fuel, source, ms) == SubstituteReferences(context, fuel, current, rest)
        decreases |rest|
      {
        if fuel == 0 {
          return Failure(OutOfFuel);
        }
        var value := GetValue(fuel - 1, rest[0].name);
        assert State() == context;
        if value.Failure? {
          SubstituteReferencesFails(context, fuel, current, rest, value);
          return Failure(value.error);
        }
        SubstituteReferencesContinues(context, fuel, current, rest, value);
        current := ReplaceAll(current, rest[0].token, value.value.GetOr(""));
        rest := rest[1..];
      }
      return Success(Trim(current));
    }

    /** `GetEnvironmentVariableValue(name)`: the prefixed name normalised in
        store form; a variable that is not set fails, and a value that is
        set has its references resolved. */
    method GetEnvironmentVariableValue(fuel: nat, name: string) returns (r: Outcome<string>)
      ensures r == EnvironmentValue(State(), fuel, name)
      ensures r.Success? ==> IsTrimmed(r.value)
      decreases fuel, 3, 0
    {
      var key :- NormalizeVariableName(fuel, PrefixedName(environmentPrefix, name), false);
      if key !in environment {
        return Failure(MissingEnvironmentVariable(key));
      }
      var once :- ReplaceEnvironmentVariableReferences(fuel, environment[key]);
      r := ReplaceVariableReferences(fuel, once);
    }

    /** `GetValue(name)`: the stored value of the normalised name; a value
        with a `${...}` match in it goes through the `${env:...}` pass twice. */
    method GetValue(fuel: nat, name: string) returns (r: Outcome<Option<string>>)
      ensures r == Resolution.GetValue(State(), fuel, name)
      ensures configuration.None? ==> r.Failure?
      decreases fuel, 3, 0
    {
      var key :- NormalizeVariableName(fuel, name, false);
      if configuration.None? {
        return Failure(NotConfigured);
      }
      var value := Lookup(configuration.value, key);
      if value.Some? && NeedsResolution(value.value) {
        var once :- ReplaceEnvironmentVariableReferences(fuel, value.value);
        var twice :- ReplaceEnvironmentVariableReferences(fuel, once);
        return Success(Some(twice));
      }
      return Success(value);
    }
  }
}
