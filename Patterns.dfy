/** The three regular expressions of the configuration service, each written
    out as the scan the .NET regex engine performs for it:
    - the separator pattern of NormalizeVariableName, `\/|::|-\>` (store
      form) or `:|\.|\/|::|-\>` (environment form), used with Regex.Replace;
    - the reference pattern `\$\{(.*)\}` and the environment-reference
      pattern `\$\{env:(.*)\}`, both case-insensitive, used with
      Regex.Matches and Regex.IsMatch. `.*` is greedy and `.` does not match
      a newline, so a match runs from its opening to the last `}` on that
      line. */
module Patterns {
  import opened Wrappers
  import opened Text

  // ---------------------------------------------------------------------
  // Separator tokens (Regex.Replace in NormalizeVariableName)
  // ---------------------------------------------------------------------

  /** The alternatives of the separator pattern, in the order the regular
      expression tries them at each position. */
  function Separators(environment: bool): seq<string> {
    if environment then [":", ".", "/", "::", "->"] else ["/", "::", "->"]
  }

  /** The text every separator token is replaced with. */
  function Canonical(environment: bool): char {
    if environment then '_' else ':'
  }

  /** The first of `alternatives` that matches at the start of `s`. */
  function SeparatorAt(s: string, alternatives: seq<string>): (r: Option<string>)
    requires forall a :: a in alternatives ==> |a| > 0
    ensures r.Some? ==> r.value in alternatives && |r.value| > 0 && StartsWith(s, r.value)
    ensures r.None? ==> forall a :: a in alternatives ==> !StartsWith(s, a)
  {
    if |alternatives| == 0 then None
    else if StartsWith(s, alternatives[0]) then Some(alternatives[0])
    else SeparatorAt(s, alternatives[1..])
  }

  /** No separator token of the given form starts anywhere in `s`. */
  predicate FreeOfSeparators(s: string, alternatives: seq<string>)
    requires forall a :: a in alternatives ==> |a| > 0
  {
    forall k :: 0 <= k < |s| ==> SeparatorAt(s[k..], alternatives).None?
  }

  /** `Regex.Replace(name, separators, canonical)`: scanning from the left,
      each separator token (the first alternative that matches at that
      position) becomes the canonical separator; every other character is
      copied. */
  function RewriteSeparators(s: string, environment: bool): (r: string)
    ensures |r| <= |s|
    decreases |s|
  {
    if |s| == 0 then []
    else match SeparatorAt(s, Separators(environment))
      case Some(t) => [Canonical(environment)] + RewriteSeparators(s[|t|..], environment)
      case None => [s[0]] + RewriteSeparators(s[1..], environment)
  }

  /** The rewrite starts with the canonical separator or with the first character of `s`. */
  lemma RewriteHead(s: string, environment: bool)
    ensures var r := RewriteSeparators(s, environment);
      |r| > 0 <==> |s| > 0
    ensures var r := RewriteSeparators(s, environment);
      |r| > 0 ==> r[0] == Canonical(environment) || r[0] == s[0]
  {
  }

  /** A character of a suffix is a character of the whole. */
  lemma InSuffix(s: string, n: nat, c: char)
    requires n <= |s| && c in s[n..]
    ensures c in s
  {
    var j :| 0 <= j < |s| - n && s[n..][j] == c;
    assert s[n + j] == c;
  }

  /** Rewriting introduces no character but the canonical separator. */
  lemma {:induction false} RewriteIntroducesOnlyCanonical(s: string, environment: bool)
    ensures forall k :: 0 <= k < |RewriteSeparators(s, environment)| ==>
      RewriteSeparators(s, environment)[k] == Canonical(environment) || RewriteSeparators(s, environment)[k] in s
    decreases |s|
  {
    if |s| > 0 {
      var sep := SeparatorAt(s, Separators(environment));
      var n := if sep.Some? then |sep.value| else 1;
      var c := if sep.Some? then Canonical(environment) else s[0];
      var r' := RewriteSeparators(s[n..], environment);
      var r := RewriteSeparators(s, environment);
      assert r == [c] + r';
      RewriteIntroducesOnlyCanonical(s[n..], environment);
      forall k | 0 <= k < |r| ensures r[k] == Canonical(environment) || r[k] in s {
        if k > 0 && r'[k - 1] != Canonical(environment) {
          assert r'[k - 1] in s[n..];
          InSuffix(s, n, r'[k - 1]);
        }
      }
    }
  }

  /** A name without separator tokens is left unchanged. */
  lemma {:induction false} RewriteWithoutSeparators(s: string, environment: bool)
    requires FreeOfSeparators(s, Separators(environment))
    ensures RewriteSeparators(s, environment) == s
    decreases |s|
  {
    if |s| > 0 {
      assert s[0..] == s;
      assert SeparatorAt(s, Separators(environment)).None?;
      forall k | 0 <= k < |s[1..]|
        ensures SeparatorAt(s[1..][k..], Separators(environment)).None?
      {
        assert s[1..][k..] == s[k + 1..];
      }
      RewriteWithoutSeparators(s[1..], environment);
    }
  }

  /** `StartsWith` for a one- or two-character prefix, character by character. */
  lemma StartsWithShort(s: string, t: string)
    requires 1 <= |t| <= 2
    ensures StartsWith(s, t) <==> |t| <= |s| && s[0] == t[0] && (|t| == 2 ==> s[1] == t[1])
  {
    if |t| <= |s| && s[0] == t[0] && (|t| == 2 ==> s[1] == t[1]) {
      assert s[..|t|] == t;
    }
  }

  /** Whether a separator token of either form starts `s`, character by character. */
  lemma SeparatorHead(s: string, environment: bool)
    ensures SeparatorAt(s, Separators(environment)).None? <==>
      || |s| == 0
      || (&& s[0] != '/'
          && !(|s| > 1 && s[0] == '-' && s[1] == '>')
          && (environment ==> s[0] != ':' && s[0] != '.')
          && (!environment ==> !(|s| > 1 && s[0] == ':' && s[1] == ':')))
  {
    if environment {
      EnvironmentSeparatorHead(s);
    } else {
      StoreSeparatorHead(s);
    }
  }

  /** `SeparatorHead` for the environment form. */
  lemma EnvironmentSeparatorHead(s: string)
    ensures SeparatorAt(s, [":", ".", "/", "::", "->"]).None? <==>
      || |s| == 0
      || (s[0] != '/' && !(|s| > 1 && s[0] == '-' && s[1] == '>') && s[0] != ':' && s[0] != '.')
  {
    StartsWithShort(s, ":");
    StartsWithShort(s, ".");
    StartsWithShort(s, "/");
    StartsWithShort(s, "::");
    StartsWithShort(s, "->");
  }

  /** `SeparatorHead` for the store form. */
  lemma StoreSeparatorHead(s: string)
    ensures SeparatorAt(s, ["/", "::", "->"]).None? <==>
      || |s| == 0
      || (s[0] != '/' && !(|s| > 1 && s[0] == '-' && s[1] == '>') && !(|s| > 1 && s[0] == ':' && s[1] == ':'))
  {
    StartsWithShort(s, "/");
    StartsWithShort(s, "::");
    StartsWithShort(s, "->");
  }

  /** Whether a `/` or a `->` starts `s`, character by character. */
  lemma SlashOrArrowHead(s: string)
    ensures SeparatorAt(s, ["/", "->"]).None? <==>
      |s| == 0 || (s[0] != '/' && !(|s| > 1 && s[0] == '-' && s[1] == '>'))
  {
    StartsWithShort(s, "/");
    StartsWithShort(s, "->");
  }

  /** The environment form leaves no separator token behind: no `:`, `.`, `/` and no `->`. */
  lemma {:induction false} EnvironmentFormHasNoSeparators(s: string)
    ensures FreeOfSeparators(RewriteSeparators(s, true), Separators(true))
    decreases |s|
  {
    var r := RewriteSeparators(s, true);
    if |s| > 0 {
      var sep := SeparatorAt(s, Separators(true));
      var rest := if sep.Some? then s[|sep.value|..] else s[1..];
      var r' := RewriteSeparators(rest, true);
      assert r == [r[0]] + r';
      EnvironmentFormHasNoSeparators(rest);
      forall k | 0 <= k < |r|
        ensures SeparatorAt(r[k..], Separators(true)).None?
      {
        if k == 0 {
          RewriteHead(rest, true);
          SeparatorHead(s, true);
          assert r[0..] == r;
          SeparatorHead(r, true);
        } else {
          assert r[k..] == r'[k - 1..];
        }
      }
    }
  }

  /** The store form leaves no `/` and no `->` behind (a `::` can remain:
      `":::"` becomes `"::"`). */
  lemma {:induction false} StoreFormHasNoSlashOrArrow(s: string)
    ensures FreeOfSeparators(RewriteSeparators(s, false), ["/", "->"])
    decreases |s|
  {
    var r := RewriteSeparators(s, false);
    if |s| > 0 {
      var sep := SeparatorAt(s, Separators(false));
      var rest := if sep.Some? then s[|sep.value|..] else s[1..];
      var r' := RewriteSeparators(rest, false);
      assert r == [r[0]] + r';
      StoreFormHasNoSlashOrArrow(rest);
      forall k | 0 <= k < |r|
        ensures SeparatorAt(r[k..], ["/", "->"]).None?
      {
        if k == 0 {
          RewriteHead(rest, false);
          SeparatorHead(s, false);
          assert r[0..] == r;
          SlashOrArrowHead(r);
        } else {
          assert r[k..] == r'[k - 1..];
        }
      }
    }
  }

  /** Normalising a name twice in environment form is normalising it once. */
  lemma EnvironmentFormIdempotent(s: string)
    ensures RewriteSeparators(RewriteSeparators(s, true), true) == RewriteSeparators(s, true)
  {
    EnvironmentFormHasNoSeparators(s);
    RewriteWithoutSeparators(RewriteSeparators(s, true), true);
  }

  /** A suffix of a text free of openings is free of them too. */
  lemma FreeOfOpeningsDrop(s: string, n: nat, p: Pattern)
    requires n <= |s| && FreeOfOpenings(s, p)
    ensures FreeOfOpenings(s[n..], p)
  {
    forall k | 0 <= k < |s| - n ensures !Opens(s[n..], k, p) {
      assert !Opens(s, n + k, p);
    }
  }

  /** One character in front of a text free of `${` adds no `${` unless it
      is a `$` before a `{`. */
  lemma FreeOfOpeningsCons(c: char, r: string)
    requires FreeOfOpenings(r, Reference)
    requires c == '$' && |r| > 0 ==> r[0] != '{'
    ensures FreeOfOpenings([c] + r, Reference)
  {
    var t := [c] + r;
    forall k | 0 < k < |t| ensures !Opens(t, k, Reference) {
      assert !Opens(r, k - 1, Reference);
    }
  }

  /** Rewriting never creates a `${` that was not already in the name. */
  lemma {:induction false} RewriteKeepsNoOpening(s: string, environment: bool)
    requires FreeOfOpenings(s, Reference)
    ensures FreeOfOpenings(RewriteSeparators(s, environment), Reference)
    decreases |s|
  {
    if |s| > 0 {
      var sep := SeparatorAt(s, Separators(environment));
      var n := if sep.Some? then |sep.value| else 1;
      var rest := s[n..];
      var c := if sep.Some? then Canonical(environment) else s[0];
      var r' := RewriteSeparators(rest, environment);
      assert RewriteSeparators(s, environment) == [c] + r';
      FreeOfOpeningsDrop(s, n, Reference);
      RewriteKeepsNoOpening(rest, environment);
      if c == '$' && |r'| > 0 {
        RewriteHead(rest, environment);
        assert !Opens(s, 0, Reference);
      }
      FreeOfOpeningsCons(c, r');
    }
  }

  // ---------------------------------------------------------------------
  // Reference matches (Regex.Matches / Regex.IsMatch)
  // ---------------------------------------------------------------------

  /** The two reference patterns: `\$\{(.*)\}` and `\$\{env:(.*)\}`. */
  datatype Pattern = Reference | EnvironmentReference

  /** One match: its whole text (group 0) and the captured name (group 1). */
  datatype Match = Match(token: string, name: string)

  /** Length of the literal opening: `${` or `${env:`. */
  function OpenLength(p: Pattern): nat {
    match p
    case Reference => 2
    case EnvironmentReference => 6
  }

  /** The opening of `p` matches at index `k`; `env` is compared ignoring case. */
  predicate Opens(s: string, k: int, p: Pattern) {
    && 0 <= k && k + OpenLength(p) <= |s|
    && s[k] == '$' && s[k + 1] == '{'
    && (p == EnvironmentReference ==>
          && (s[k + 2] == 'e' || s[k + 2] == 'E')
          && (s[k + 3] == 'n' || s[k + 3] == 'N')
          && (s[k + 4] == 'v' || s[k + 4] == 'V')
          && s[k + 5] == ':')
  }

  /** The end of the line that index `a` is on: the first newline at or after `a`, or `|s|`. */
  function LineEnd(s: string, a: nat): (e: nat)
    requires a <= |s|
    ensures a <= e <= |s|
    ensures forall k :: a <= k < e ==> s[k] != '\n'
    ensures e == |s| || s[e] == '\n'
    decreases |s| - a
  {
    if a == |s| || s[a] == '\n' then a else LineEnd(s, a + 1)
  }

  /** The last `}` in `s[lo..hi]`. */
  function LastClose(s: string, lo: nat, hi: nat): (j: Option<nat>)
    requires lo <= hi <= |s|
    ensures j.Some? ==> lo <= j.value < hi && s[j.value] == '}'
    ensures j.Some? ==> forall k :: j.value < k < hi ==> s[k] != '}'
    ensures j.None? ==> forall k :: lo <= k < hi ==> s[k] != '}'
    decreases hi
  {
    if hi == lo then None
    else if s[hi - 1] == '}' then Some(hi - 1)
    else LastClose(s, lo, hi - 1)
  }

  /** The first index at or after `k` where the opening of `p` matches. */
  function FirstOpen(s: string, k: nat, p: Pattern): (i: Option<nat>)
    requires k <= |s|
    ensures i.Some? ==> k <= i.value < |s| && Opens(s, i.value, p)
    ensures i.Some? ==> forall m :: k <= m < i.value ==> !Opens(s, m, p)
    ensures i.None? ==> forall m :: k <= m < |s| ==> !Opens(s, m, p)
    decreases |s| - k
  {
    if k == |s| then None
    else if Opens(s, k, p) then Some(k)
    else FirstOpen(s, k + 1, p)
  }

  /** The greedy match of `p` that starts at `k`: from the opening to the last `}` on its line. */
  function MatchAt(s: string, k: nat, p: Pattern): (r: Option<nat>)
    requires Opens(s, k, p)
    ensures r.Some? ==> k + OpenLength(p) <= r.value < |s| && s[r.value] == '}'
    ensures r.Some? ==> forall m :: k + OpenLength(p) <= m <= r.value ==> s[m] != '\n'
    ensures r.Some? ==> forall m :: r.value < m < LineEnd(s, k + OpenLength(p)) ==> s[m] != '}'
    ensures r.None? ==> forall m :: k + OpenLength(p) <= m < LineEnd(s, k + OpenLength(p)) ==> s[m] != '}'
  {
    LastClose(s, k + OpenLength(p), LineEnd(s, k + OpenLength(p)))
  }

  /** What every match of `p` looks like: the opening, a name without a
      newline, and the closing `}`. */
  predicate WellFormed(m: Match, p: Pattern) {
    && |m.token| > OpenLength(p)
    && Opens(m.token, 0, p)
    && m.token[|m.token| - 1] == '}'
    && m.name == m.token[OpenLength(p)..|m.token| - 1]
    && '\n' !in m.name
  }

  /** The text from an opening at `k` to a `}` at `j` on the same line is a well-formed match. */
  lemma MatchShape(s: string, k: nat, j: nat, p: Pattern)
    requires Opens(s, k, p) && k + OpenLength(p) <= j < |s| && s[j] == '}'
    requires forall q :: k + OpenLength(p) <= q < j ==> s[q] != '\n'
    ensures WellFormed(Match(s[k..j + 1], s[k + OpenLength(p)..j]), p)
  {
    var token := s[k..j + 1];
    var name := s[k + OpenLength(p)..j];
    var inner := token[OpenLength(p)..|token| - 1];
    assert |inner| == |name|;
    forall i | 0 <= i < |name| ensures inner[i] == name[i] {
      assert inner[i] == s[k + OpenLength(p) + i];
    }
    forall i | 0 <= i < |name| ensures name[i] != '\n' {
      assert name[i] == s[k + OpenLength(p) + i];
    }
  }

  /** The successive matches of `p` in `s` from index `k`, as Regex.Matches
      finds them: the leftmost opening that has a `}` after it on its line,
      matched greedily, then the search resumes after that `}`. */
  function MatchesFrom(s: string, k: nat, p: Pattern): (ms: seq<Match>)
    requires k <= |s|
    ensures forall m :: m in ms ==> WellFormed(m, p)
    decreases |s| - k
  {
    if k == |s| then []
    else if Opens(s, k, p) && MatchAt(s, k, p).Some? then
      var j := MatchAt(s, k, p).value;
      MatchShape(s, k, j, p);
      [Match(s[k..j + 1], s[k + OpenLength(p)..j])] + MatchesFrom(s, j + 1, p)
    else MatchesFrom(s, k + 1, p)
  }

  /** `regex.Matches(s)` for the pattern `p`. */
  function Matches(s: string, p: Pattern): (ms: seq<Match>)
    ensures forall m :: m in ms ==> WellFormed(m, p)
  {
    MatchesFrom(s, 0, p)
  }

  /** No opening of `p` anywhere in `s`; for `Reference`, no `${`. */
  predicate FreeOfOpenings(s: string, p: Pattern) {
    forall k :: 0 <= k < |s| ==> !Opens(s, k, p)
  }

  /** No opening from `k` on has a `}` after it on its line: nothing more matches. */
  lemma {:induction false} NoMatchFrom(s: string, k: nat, p: Pattern)
    requires k <= |s|
    requires forall m :: k <= m < |s| && Opens(s, m, p) ==> MatchAt(s, m, p).None?
    ensures MatchesFrom(s, k, p) == []
    decreases |s| - k
  {
    if k < |s| {
      NoMatchFrom(s, k + 1, p);
    }
  }

  /** The scan skips the positions before the first opening. */
  lemma {:induction false} SkipToOpen(s: string, k: nat, i: nat, p: Pattern)
    requires k <= i <= |s|
    requires forall m :: k <= m < i ==> !Opens(s, m, p)
    ensures MatchesFrom(s, k, p) == MatchesFrom(s, i, p)
    decreases i - k
  {
    if k < i {
      SkipToOpen(s, k + 1, i, p);
    }
  }

  /** A string with no `${` has no match of either pattern. */
  lemma NoOpeningNoMatch(s: string, p: Pattern)
    requires FreeOfOpenings(s, Reference)
    ensures Matches(s, p) == []
  {
    forall k | 0 <= k < |s| ensures !Opens(s, k, p) {
      assert !Opens(s, k, Reference);
    }
    NoMatchFrom(s, 0, p);
  }

  /** The single match on one line, as first opening and last `}` determine it. */
  function SingleLineMatch(s: string, p: Pattern): seq<Match> {
    var first := FirstOpen(s, 0, p);
    var last := LastClose(s, 0, |s|);
    if first.Some? && last.Some? && first.value + OpenLength(p) <= last.value then
      [Match(s[first.value..last.value + 1], s[first.value + OpenLength(p)..last.value])]
    else []
  }

  /** No `}` lies beyond the opening of any match candidate from `k` on: nothing more matches. */
  lemma NoCloseNoMatch(s: string, k: nat, p: Pattern)
    requires k <= |s|
    requires forall q :: k + OpenLength(p) <= q < |s| ==> s[q] != '}'
    ensures MatchesFrom(s, k, p) == []
  {
    forall m | k <= m < |s| && Opens(s, m, p) ensures MatchAt(s, m, p).None? {
    }
    NoMatchFrom(s, k, p);
  }

  /** Without a newline, every line ends at the end of the string. */
  lemma SingleLineEnd(s: string, a: nat)
    requires '\n' !in s && a <= |s|
    ensures LineEnd(s, a) == |s|
  {
    assert forall k :: 0 <= k < |s| ==> s[k] != '\n';
  }

  /** The last `}` of the whole line is the last `}` after any index before it. */
  lemma LastCloseFrom(s: string, a: nat, j: nat)
    requires a <= j && LastClose(s, 0, |s|) == Some(j)
    ensures LastClose(s, a, |s|) == Some(j)
  {
    var at := LastClose(s, a, |s|);
    assert at.Some? ==> at.value <= j;
    assert at.Some? && at.value >= j;
  }

  /** On one line, the match at an opening ends at the line's last `}` when that lies beyond it. */
  lemma SingleLineMatchEnd(s: string, i: nat, j: nat, p: Pattern)
    requires '\n' !in s
    requires Opens(s, i, p) && i + OpenLength(p) <= j
    requires LastClose(s, 0, |s|) == Some(j)
    ensures MatchAt(s, i, p) == Some(j)
  {
    SingleLineEnd(s, i + OpenLength(p));
    LastCloseFrom(s, i + OpenLength(p), j);
  }

  /** The scan at an opening whose match ends at `j` takes that match and resumes after `j`. */
  lemma MatchesFromAt(s: string, i: nat, j: nat, p: Pattern)
    requires Opens(s, i, p) && MatchAt(s, i, p) == Some(j)
    ensures MatchesFrom(s, i, p) == [Match(s[i..j + 1], s[i + OpenLength(p)..j])] + MatchesFrom(s, j + 1, p)
  {
  }

  /** The match at the first opening, when the line's last `}` lies beyond it. */
  lemma SingleLineMatchAt(s: string, i: nat, j: nat, p: Pattern)
    requires '\n' !in s
    requires Opens(s, i, p) && i + OpenLength(p) <= j
    requires LastClose(s, 0, |s|) == Some(j)
    ensures MatchesFrom(s, i, p) == [Match(s[i..j + 1], s[i + OpenLength(p)..j])]
  {
    SingleLineMatchEnd(s, i, j, p);
    MatchesFromAt(s, i, j, p);
    NoCloseNoMatch(s, j + 1, p);
  }

  /** From the first opening on, with the line's last `}` beyond it: one match. */
  lemma SingleLineMatchesClosed(s: string, i: nat, j: nat, p: Pattern)
    requires '\n' !in s && FirstOpen(s, 0, p) == Some(i)
    requires LastClose(s, 0, |s|) == Some(j) && i + OpenLength(p) <= j
    ensures Matches(s, p) == [Match(s[i..j + 1], s[i + OpenLength(p)..j])]
  {
    SkipToOpen(s, 0, i, p);
    SingleLineMatchAt(s, i, j, p);
  }

  /** From the first opening on, with no `}` beyond it: no match. */
  lemma SingleLineMatchesUnclosed(s: string, i: nat, p: Pattern)
    requires FirstOpen(s, 0, p) == Some(i)
    requires forall q :: i + OpenLength(p) <= q < |s| ==> s[q] != '}'
    ensures Matches(s, p) == []
  {
    SkipToOpen(s, 0, i, p);
    NoCloseNoMatch(s, i, p);
  }

  /** From the first opening on, the single-line match is what is left. */
  lemma SingleLineMatchesFrom(s: string, i: nat, p: Pattern)
    requires '\n' !in s && FirstOpen(s, 0, p) == Some(i)
    ensures Matches(s, p) == SingleLineMatch(s, p)
  {
    var last := LastClose(s, 0, |s|);
    if last.Some? && i + OpenLength(p) <= last.value {
      SingleLineMatchesClosed(s, i, last.value, p);
    } else {
      SingleLineMatchesUnclosed(s, i, p);
    }
  }

  /** On a line without newlines there is at most one match: it runs from the
      first opening of `p` to the last `}` of the line, and the name is the
      text in between. */
  lemma SingleLineMatches(s: string, p: Pattern)
    requires '\n' !in s
    ensures Matches(s, p) == SingleLineMatch(s, p)
  {
    var first := FirstOpen(s, 0, p);
    if first.None? {
      NoMatchFrom(s, 0, p);
    } else {
      SingleLineMatchesFrom(s, first.value, p);
    }
  }

  /** The text from the first opening to a later `}` does not occur
      before that opening: an earlier occurrence would be an earlier opening. */
  lemma NoOccurrenceBefore(s: string, i: nat, j: nat, t: string, p: Pattern)
    requires FirstOpen(s, 0, p) == Some(i) && i + OpenLength(p) <= j < |s| && t == s[i..j + 1]
    ensures forall k :: 0 <= k < i ==> !OccursAt(s, k, t)
  {
    forall k | 0 <= k < i ensures !OccursAt(s, k, t) {
      if OccursAt(s, k, t) {
        var u := s[k..k + |t|];
        assert u[0] == s[k] && u[1] == s[k + 1];
        assert s[k] == s[i] && s[k + 1] == s[i + 1];
        if p == EnvironmentReference {
          assert u[2] == s[k + 2] && u[3] == s[k + 3] && u[4] == s[k + 4] && u[5] == s[k + 5];
        }
        assert Opens(s, k, p);
      }
    }
  }

  /** Text ending in `}` does not occur after the last `}`. */
  lemma NoOccurrenceAfter(s: string, j: nat, b: string, t: string)
    requires LastClose(s, 0, |s|) == Some(j) && b == s[j + 1..]
    requires |t| > 0 && t[|t| - 1] == '}'
    ensures forall k :: 0 <= k <= |b| - |t| ==> !OccursAt(b, k, t)
  {
    forall k | 0 <= k <= |b| - |t| ensures !OccursAt(b, k, t) {
      assert b[k + |t| - 1] == s[j + 1 + k + |t| - 1] != '}';
      assert b[k..k + |t|][|t| - 1] == b[k + |t| - 1];
    }
  }

  /** Text that occurs in `a + t + b` only at `|a|` is replaced there alone. */
  lemma ReplaceOnce(a: string, t: string, b: string, v: string)
    requires |t| > 0
    requires forall k :: 0 <= k < |a| ==> !OccursAt(a + t + b, k, t)
    requires forall k :: 0 <= k <= |b| - |t| ==> !OccursAt(b, k, t)
    ensures ReplaceAll(a + t + b, t, v) == a + v + b
  {
    ReplaceAllFirst(a, t, b, v);
    ReplaceAllAbsent(b, t, v);
  }

  /** The text from the first opening to the last `}` occurs only once in
      `s`, so `String.Replace` of it replaces exactly that span. */
  lemma ReplaceSpan(s: string, i: nat, j: nat, p: Pattern, v: string)
    requires FirstOpen(s, 0, p) == Some(i) && LastClose(s, 0, |s|) == Some(j)
    requires i + OpenLength(p) <= j
    ensures ReplaceAll(s, s[i..j + 1], v) == s[..i] + v + s[j + 1..]
  {
    var t, a, b := s[i..j + 1], s[..i], s[j + 1..];
    SplitAround(s, i, j + 1);
    NoOccurrenceBefore(s, i, j, t, p);
    NoOccurrenceAfter(s, j, b, t);
    ReplaceOnce(a, t, b, v);
  }

  /** The opening as written in a value: `${`, or `${env:` in lower case. */
  function Opening(p: Pattern): (r: string)
    ensures |r| == OpenLength(p) && Opens(r, 0, p)
  {
    match p
    case Reference => "${"
    case EnvironmentReference => "${env:"
  }

  /** The first opening is at `i` when one is there and none comes before it. */
  lemma FirstOpenAt(s: string, i: nat, p: Pattern)
    requires Opens(s, i, p) && forall k :: 0 <= k < i ==> !Opens(s, k, p)
    ensures FirstOpen(s, 0, p) == Some(i)
  {
  }

  /** The last `}` is at `j` when one is there and none comes after it. */
  lemma LastCloseAt(s: string, j: nat)
    requires j < |s| && s[j] == '}' && forall k :: j < k < |s| ==> s[k] != '}'
    ensures LastClose(s, 0, |s|) == Some(j)
  {
  }

  /** In `pre + Opening(p) + rest` with no `$` in `pre`, the first opening is right after `pre`. */
  lemma OpeningAfter(s: string, pre: string, rest: string, p: Pattern)
    requires s == pre + Opening(p) + rest && '$' !in pre
    ensures FirstOpen(s, 0, p) == Some(|pre|)
  {
    var i := |pre|;
    forall t | 0 <= t < OpenLength(p) ensures s[i + t] == Opening(p)[t] {
    }
    forall k | 0 <= k < i ensures !Opens(s, k, p) {
      assert s[k] == pre[k];
    }
    FirstOpenAt(s, i, p);
  }

  /** In `front + "}" + post` with no `}` in `post`, the last `}` is right after `front`. */
  lemma CloseBefore(s: string, front: string, post: string)
    requires s == front + "}" + post && '}' !in post
    ensures LastClose(s, 0, |s|) == Some(|front|)
  {
    forall k | |front| < k < |s| ensures s[k] != '}' {
      assert s[k] == post[k - |front| - 1];
    }
    LastCloseAt(s, |front|);
  }

  /** The parts of `pre + Opening(p) + name + "}" + post`, and no newline
      in it when there is none in the parts. */
  lemma EmbeddedParts(s: string, pre: string, name: string, post: string, p: Pattern)
    requires s == pre + Opening(p) + name + "}" + post
    requires '\n' !in pre && '\n' !in name && '\n' !in post
    ensures var i := |pre|;
      var j := |pre| + OpenLength(p) + |name|;
      && '\n' !in s
      && s[..i] == pre && s[i + OpenLength(p)..j] == name && s[j + 1..] == post
  {
    var i := |pre|;
    var j := |pre| + OpenLength(p) + |name|;
    assert s[..i] == pre;
    assert s[i + OpenLength(p)..j] == name;
    assert s[j + 1..] == post;
    assert '\n' !in Opening(p);
    assert '\n' !in pre + Opening(p);
    assert '\n' !in pre + Opening(p) + name;
    assert '\n' !in pre + Opening(p) + name + "}";
  }

  /** A reference written between a `pre` without `$` and a `post` without
      `}`: the first opening is right after `pre`, and the last `}` is the
      one that closes the name, however many `}` the name holds. */
  lemma EmbeddedReference(s: string, pre: string, name: string, post: string, p: Pattern)
    requires s == pre + Opening(p) + name + "}" + post
    requires '$' !in pre && '}' !in post
    requires '\n' !in pre && '\n' !in name && '\n' !in post
    ensures var i := |pre|;
      var j := |pre| + OpenLength(p) + |name|;
      && '\n' !in s
      && FirstOpen(s, 0, p) == Some(i)
      && LastClose(s, 0, |s|) == Some(j)
      && s[..i] == pre && s[i + OpenLength(p)..j] == name && s[j + 1..] == post
  {
    RegroupRight(pre + Opening(p), name, "}", post);
    OpeningAfter(s, pre, name + "}" + post, p);
    CloseBefore(s, pre + Opening(p) + name, post);
    EmbeddedParts(s, pre, name, post, p);
  }
}
