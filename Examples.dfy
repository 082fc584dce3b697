/** Worked cases of the resolver, stated for any words, texts and contexts
    of the given shape: how keys are rewritten, how greedily references are
    matched, and what `GetValue` and `GetEnvironmentVariableValue` return. */
module Examples {
  import opened Wrappers
  import opened Text
  import opened Patterns
  import opened Resolution

  /** A name made of letters, digits and underscores. */
  predicate Word(s: string) {
    forall k :: 0 <= k < |s| ==>
      ('A' <= s[k] <= 'Z') || ('a' <= s[k] <= 'z') || ('0' <= s[k] <= '9') || s[k] == '_'
  }

  // ---------------------------------------------------------------------
  // Separators
  // ---------------------------------------------------------------------

  /** A character that starts no separator token is copied. */
  lemma RewriteCopies(s: string, environment: bool)
    requires |s| > 0 && s[0] != '/' && s[0] != '-' && s[0] != ':' && s[0] != '.'
    ensures RewriteSeparators(s, environment) == [s[0]] + RewriteSeparators(s[1..], environment)
  {
    SeparatorHead(s, environment);
  }

  /** The token that starts `s` is `t` when `t` is the only separator
      token of the form that starts it. */
  lemma OnlyToken(s: string, environment: bool, t: string)
    requires t in Separators(environment) && StartsWith(s, t)
    requires forall u :: u in Separators(environment) && StartsWith(s, u) ==> u == t
    ensures SeparatorAt(s, Separators(environment)) == Some(t)
  {
  }

  /** A token found at the head of `s` becomes the canonical character. */
  lemma RewriteToken(s: string, environment: bool, t: string)
    requires |s| > 0 && SeparatorAt(s, Separators(environment)) == Some(t)
    ensures RewriteSeparators(s, environment) == [Canonical(environment)] + RewriteSeparators(s[|t|..], environment)
  {
  }

  /** A `/` is a separator token in either form. */
  lemma RewriteSlash(s: string, environment: bool)
    requires |s| > 0 && s[0] == '/'
    ensures RewriteSeparators(s, environment) == [Canonical(environment)] + RewriteSeparators(s[1..], environment)
  {
    StartsWithShort(s, ":");
    StartsWithShort(s, ".");
    StartsWithShort(s, "/");
    StartsWithShort(s, "::");
    StartsWithShort(s, "->");
    OnlyToken(s, environment, "/");
    RewriteToken(s, environment, "/");
  }

  /** A `->` is a separator token in either form. */
  lemma RewriteArrow(s: string, environment: bool)
    requires |s| > 1 && s[0] == '-' && s[1] == '>'
    ensures RewriteSeparators(s, environment) == [Canonical(environment)] + RewriteSeparators(s[2..], environment)
  {
    StartsWithShort(s, ":");
    StartsWithShort(s, ".");
    StartsWithShort(s, "/");
    StartsWithShort(s, "::");
    StartsWithShort(s, "->");
    OnlyToken(s, environment, "->");
    RewriteToken(s, environment, "->");
  }

  /** In store form `::` is a separator token. */
  lemma RewriteDoubleColon(s: string)
    requires |s| > 1 && s[0] == ':' && s[1] == ':'
    ensures RewriteSeparators(s, false) == [Canonical(false)] + RewriteSeparators(s[2..], false)
  {
    StartsWithShort(s, "/");
    StartsWithShort(s, "::");
    StartsWithShort(s, "->");
    OnlyToken(s, false, "::");
    RewriteToken(s, false, "::");
  }

  /** In environment form `:` is tried first, so a `:` is a token on its own. */
  lemma RewriteColon(s: string)
    requires |s| > 0 && s[0] == ':'
    ensures RewriteSeparators(s, true) == [Canonical(true)] + RewriteSeparators(s[1..], true)
  {
    StartsWithShort(s, ":");
    assert SeparatorAt(s, Separators(true)) == Some(":");
    RewriteToken(s, true, ":");
  }

  /** In environment form `.` is a separator token. */
  lemma RewriteDot(s: string)
    requires |s| > 0 && s[0] == '.'
    ensures RewriteSeparators(s, true) == [Canonical(true)] + RewriteSeparators(s[1..], true)
  {
    StartsWithShort(s, ":");
    StartsWithShort(s, ".");
    StartsWithShort(s, "/");
    StartsWithShort(s, "::");
    StartsWithShort(s, "->");
    OnlyToken(s, true, ".");
    RewriteToken(s, true, ".");
  }

  /** In store form a `.`, or a `:` not followed by another, is copied. */
  lemma RewriteKeepsInStoreForm(s: string)
    requires |s| > 0 && (s[0] == '.' || (s[0] == ':' && !(|s| > 1 && s[1] == ':')))
    ensures RewriteSeparators(s, false) == [s[0]] + RewriteSeparators(s[1..], false)
  {
    SeparatorHead(s, false);
  }

  /** The tail of a word is a word. */
  lemma WordTail(a: string)
    requires Word(a) && |a| > 0
    ensures Word(a[1..])
  {
    forall k | 0 <= k < |a[1..]| ensures a[1..][k] == a[k + 1] {
    }
  }

  /** A word character in front is copied. */
  lemma RewriteWordCharacter(c: char, rest: string, environment: bool)
    requires Word([c])
    ensures RewriteSeparators([c] + rest, environment) == [c] + RewriteSeparators(rest, environment)
  {
    var s := [c] + rest;
    assert s[0] == c && s[1..] == rest;
    RewriteCopies(s, environment);
  }

  /** A word in front is kept as it is, in either form. */
  lemma {:induction false} RewriteAfterWord(a: string, t: string, environment: bool)
    requires Word(a)
    ensures RewriteSeparators(a + t, environment) == a + RewriteSeparators(t, environment)
    decreases |a|
  {
    if |a| == 0 {
      assert a + t == t;
    } else {
      var r := RewriteSeparators(t, environment);
      HeadAndTail(a, t);
      assert Word([a[0]]);
      RewriteWordCharacter(a[0], a[1..] + t, environment);
      WordTail(a);
      RewriteAfterWord(a[1..], t, environment);
      HeadAndTail(a, r);
    }
  }

  /** A word is left unchanged, in either form. */
  lemma RewriteWord(b: string, environment: bool)
    requires Word(b)
    ensures RewriteSeparators(b, environment) == b
  {
    RewriteAfterWord(b, "", environment);
    assert b + "" == b;
  }

  /** A separator between two words is rewritten as its head lemma says
      and the words around it are kept. */
  lemma BetweenWords(a: string, separator: string, b: string, environment: bool, out: string)
    requires Word(a) && Word(b)
    requires RewriteSeparators(separator + b, environment) == out + RewriteSeparators(b, environment)
    ensures RewriteSeparators(a + separator + b, environment) == a + out + b
  {
    Regroup(a, separator, b);
    RewriteAfterWord(a, separator + b, environment);
    RewriteWord(b, environment);
    Regroup(a, out, b);
  }

  /** `/` in front of `b`. */
  lemma SlashHead(b: string, environment: bool)
    ensures RewriteSeparators("/" + b, environment) == [Canonical(environment)] + RewriteSeparators(b, environment)
  {
    var s := "/" + b;
    assert s[0] == '/' && s[1..] == b;
    RewriteSlash(s, environment);
  }

  /** `->` in front of `b`. */
  lemma ArrowHead(b: string, environment: bool)
    ensures RewriteSeparators("->" + b, environment) == [Canonical(environment)] + RewriteSeparators(b, environment)
  {
    var s := "->" + b;
    assert s[0] == '-' && s[1] == '>' && s[2..] == b;
    RewriteArrow(s, environment);
  }

  /** `::` in front of `b`, in store form. */
  lemma DoubleColonHead(b: string)
    ensures RewriteSeparators("::" + b, false) == ":" + RewriteSeparators(b, false)
  {
    var s := "::" + b;
    assert s[0] == ':' && s[1] == ':' && s[2..] == b;
    RewriteDoubleColon(s);
  }

  /** `:` in front of `b`, in environment form. */
  lemma ColonHead(b: string)
    ensures RewriteSeparators(":" + b, true) == "_" + RewriteSeparators(b, true)
  {
    var s := ":" + b;
    assert s[0] == ':' && s[1..] == b;
    RewriteColon(s);
  }

  /** `.` in front of `b`, in environment form. */
  lemma DotHead(b: string)
    ensures RewriteSeparators("." + b, true) == "_" + RewriteSeparators(b, true)
  {
    var s := "." + b;
    assert s[0] == '.' && s[1..] == b;
    RewriteDot(s);
  }

  /** A `.`, or a `:` not followed by another, in front of `b`, in store form. */
  lemma KeptHead(c: char, b: string)
    requires c == '.' || (c == ':' && (|b| == 0 || b[0] != ':'))
    ensures RewriteSeparators([c] + b, false) == [c] + RewriteSeparators(b, false)
  {
    var s := [c] + b;
    assert s[0] == c && s[1..] == b;
    RewriteKeepsInStoreForm(s);
  }

  /** `a/b` becomes `a:b` in store form and `a_b` in environment form. */
  lemma SlashBetweenWords(a: string, b: string, environment: bool)
    requires Word(a) && Word(b)
    ensures RewriteSeparators(a + "/" + b, environment) == a + [Canonical(environment)] + b
  {
    SlashHead(b, environment);
    BetweenWords(a, "/", b, environment, [Canonical(environment)]);
  }

  /** `a->b` becomes `a:b` in store form and `a_b` in environment form. */
  lemma ArrowBetweenWords(a: string, b: string, environment: bool)
    requires Word(a) && Word(b)
    ensures RewriteSeparators(a + "->" + b, environment) == a + [Canonical(environment)] + b
  {
    ArrowHead(b, environment);
    BetweenWords(a, "->", b, environment, [Canonical(environment)]);
  }

  /** `a::b` becomes `a:b` in store form. */
  lemma DoubleColonStoreForm(a: string, b: string)
    requires Word(a) && Word(b)
    ensures RewriteSeparators(a + "::" + b, false) == a + ":" + b
  {
    DoubleColonHead(b);
    BetweenWords(a, "::", b, false, ":");
  }

  /** `::` in front of `b`, in environment form: two `:` tokens. */
  lemma DoubleColonEnvironmentHead(b: string)
    ensures RewriteSeparators("::" + b, true) == "__" + RewriteSeparators(b, true)
  {
    HeadAndTail("::", b);
    ColonHead(":" + b);
    ColonHead(b);
    HeadAndTail("__", RewriteSeparators(b, true));
  }

  /** In environment form `:` is tried before `::`, so `a::b` becomes `a__b`. */
  lemma DoubleColonEnvironmentForm(a: string, b: string)
    requires Word(a) && Word(b)
    ensures RewriteSeparators(a + "::" + b, true) == a + "__" + b
  {
    DoubleColonEnvironmentHead(b);
    BetweenWords(a, "::", b, true, "__");
  }

  /** A single `:` or a `.` between words is kept in store form. */
  lemma ColonAndDotStoreForm(a: string, b: string)
    requires Word(a) && Word(b)
    ensures RewriteSeparators(a + ":" + b, false) == a + ":" + b
    ensures RewriteSeparators(a + "." + b, false) == a + "." + b
  {
    KeptHead(':', b);
    KeptHead('.', b);
    BetweenWords(a, ":", b, false, ":");
    BetweenWords(a, ".", b, false, ".");
  }

  /** A single `:` or a `.` between words becomes `_` in environment form. */
  lemma ColonAndDotEnvironmentForm(a: string, b: string)
    requires Word(a) && Word(b)
    ensures RewriteSeparators(a + ":" + b, true) == a + "_" + b
    ensures RewriteSeparators(a + "." + b, true) == a + "_" + b
  {
    ColonHead(b);
    DotHead(b);
    BetweenWords(a, ":", b, true, "_");
    BetweenWords(a, ".", b, true, "_");
  }

  /** `:::` in front of a word, in store form: a `::` token, then a kept `:`. */
  lemma TripleColonHead(b: string)
    requires Word(b)
    ensures RewriteSeparators(":::" + b, false) == "::" + RewriteSeparators(b, false)
  {
    assert ":::" + b == "::" + (":" + b);
    DoubleColonHead(":" + b);
    assert |b| == 0 || b[0] != ':';
    KeptHead(':', b);
    HeadAndTail("::", RewriteSeparators(b, false));
  }

  /** `a:::b` becomes `a::b` in store form: the first two colons are one
      separator and the third is kept. */
  lemma TripleColonStoreForm(a: string, b: string)
    requires Word(a) && Word(b)
    ensures RewriteSeparators(a + ":::" + b, false) == a + "::" + b
  {
    TripleColonHead(b);
    BetweenWords(a, ":::", b, false, "::");
  }

  /** The store form is not idempotent: `a:::b` rewrites to `a::b`, which
      rewrites again to `a:b`. */
  lemma StoreFormNotIdempotent(a: string, b: string)
    requires Word(a) && Word(b)
    ensures RewriteSeparators(a + ":::" + b, false) != RewriteSeparators(RewriteSeparators(a + ":::" + b, false), false)
  {
    TripleColonStoreForm(a, b);
    DoubleColonStoreForm(a, b);
    assert |a + "::" + b| != |a + ":" + b|;
  }

  // ---------------------------------------------------------------------
  // Matching
  // ---------------------------------------------------------------------

  /** The match is greedy: `${a}-${b}` on one line is one match, from the
      first `${` to the last `}`, whose name `a}-${b` spans both. */
  lemma GreedyMatch(a: string, b: string)
    requires '\n' !in a && '\n' !in b
    ensures var s := "${" + a + "}-${" + b + "}";
      Matches(s, Reference) == [Match(s, a + "}-${" + b)]
  {
    var s := "${" + a + "}-${" + b + "}";
    var name := a + "}-${" + b;
    assert s == [] + Opening(Reference) + name + "}" + [];
    assert '\n' !in "}-${";
    assert '\n' !in name by {
      assert forall c :: c in name ==> c in a || c in "}-${" || c in b;
    }
    EmbeddedReference(s, [], name, [], Reference);
    SingleLineMatches(s, Reference);
    assert s[0..|s|] == s;
  }

  // ---------------------------------------------------------------------
  // Resolution
  // ---------------------------------------------------------------------

  /** A value with a `${env:NAME}` after text without `$` needs resolution. */
  lemma EnvironmentReferenceNeedsResolution(v: string, pre: string, name: string)
    requires v == pre + "${env:" + name + "}" && '$' !in pre
    requires '\n' !in pre && '\n' !in name
    ensures NeedsResolution(v)
  {
    assert v == pre + Opening(Reference) + ("env:" + name) + "}" + [];
    EmbeddedReference(v, pre, "env:" + name, [], Reference);
    SingleLineMatches(v, Reference);
    assert !IsWhiteSpace(v[|pre|]);
  }

  /** Text without `$` comes out of the environment pass trimmed. */
  lemma DollarFreePass(ctx: Context, fuel: nat, s: string)
    requires '$' !in s
    ensures ReplaceEnvironmentReferences(ctx, fuel, Trim(s)) == Success(Trim(s))
  {
    TrimKeepsNoOpening(s, EnvironmentReference);
    NoEnvironmentOpeningPass(ctx, fuel, Trim(s));
    TrimIdempotent(s);
  }

  /** `GetValue(key)` of a stored `pre${env:NAME}` is `pre` followed by the
      value of the environment variable NAME, trimmed: with
      `url = http://${env:HOST}` and `SS_HOST=localhost` it is
      `http://localhost`. */
  lemma ChainedEnvironmentReference(ctx: Context, fuel: nat, key: string, pre: string, name: string)
    requires fuel >= 1 && ctx.configuration.Some? && PlainKey(key)
    requires key in ctx.configuration.value && ctx.configuration.value[key] == pre + "${env:" + name + "}"
    requires '$' !in pre && '\n' !in pre && '\n' !in name
    requires EnvironmentValue(ctx, fuel - 1, name).Success?
    requires '$' !in EnvironmentValue(ctx, fuel - 1, name).value
    ensures GetValue(ctx, fuel, key) == Success(Some(Trim(pre + EnvironmentValue(ctx, fuel - 1, name).value)))
  {
    var v := ctx.configuration.value[key];
    var value := EnvironmentValue(ctx, fuel - 1, name).value;
    NormalizePlainKey(ctx, fuel, key);
    assert Lookup(ctx.configuration.value, key) == Some(v);
    EnvironmentReferenceNeedsResolution(v, pre, name);
    assert v == pre + "${env:" + name + "}" + [];
    OneEnvironmentReference(ctx, fuel, pre, name, []);
    assert pre + value + [] == pre + value;
    assert '$' !in pre + value;
    DollarFreePass(ctx, fuel, pre + value);
  }


  /** A word after the prefix is still a word. */
  lemma PrefixedWord(a: string)
    requires Word(a)
    ensures Word(DefaultPrefix + a)
  {
  }

  /** A string of words and separators has no `${` in it. */
  lemma NoDollar(s: string)
    requires '$' !in s
    ensures FreeOfOpenings(s, Reference)
  {
    forall k | 0 <= k < |s| ensures s[k] != '$' {
    }
  }

  /** The store form of the prefixed `a/b`. */
  lemma PrefixedPath(a: string, b: string)
    requires Word(a) && Word(b) && |b| > 0
    requires !StartsWith(a + "/" + b, DefaultPrefix)
    ensures var name := PrefixedName(DefaultPrefix, a + "/" + b);
      && FreeOfOpenings(name, Reference)
      && Trim(RewriteSeparators(name, false)) == DefaultPrefix + a + ":" + b
  {
    var key := DefaultPrefix + a + ":" + b;
    var name := DefaultPrefix + a + "/" + b;
    Regroup(DefaultPrefix, a, "/");
    Regroup(DefaultPrefix, a + "/", b);
    PrefixedWord(a);
    SlashBetweenWords(DefaultPrefix + a, b, false);
    assert key[0] == 'S' && key[|key| - 1] == b[|b| - 1];
    TrimTrimmed(key);
    assert '$' !in name;
    NoDollar(name);
  }

  /** `GetEnvironmentVariableValue("a/b")` looks for `SS_a:b`, the store
      form, and so fails on an environment that has no such variable, even
      one where `SS_a_b` is set. */
  lemma StoreFormEnvironmentKey(ctx: Context, fuel: nat, a: string, b: string)
    requires ctx.prefix == DefaultPrefix && Word(a) && Word(b) && |b| > 0
    requires !StartsWith(a + "/" + b, DefaultPrefix)
    requires DefaultPrefix + a + ":" + b !in ctx.environment
    ensures EnvironmentValue(ctx, fuel, a + "/" + b) ==
      Failure(MissingEnvironmentVariable(DefaultPrefix + a + ":" + b))
  {
    PrefixedPath(a, b);
    MissingVariableFails(ctx, fuel, a + "/" + b);
  }
}
