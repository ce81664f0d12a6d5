/**
 * Rule compilation: the blacklist arguments, each written `FIELD=PATTERN`,
 * become a map from field name to the list of patterns rejecting that field.
 */
module Rules {
  import opened Wrappers
  import opened Regex

  /**
   * Splitting a rule once, on its first '=' (`splitn(2, '=')` followed by
   * `collect_tuple()`): `None` when there is no '=', otherwise the field
   * before the first '=' and the pattern after it, which may hold more '='.
   */
  function SplitRule(s: string): (r: Option<(string, string)>)
    ensures r.None? <==> '=' !in s
    ensures r.Some? ==> s == r.value.0 + "=" + r.value.1 && '=' !in r.value.0
  {
    if s == [] then None
    else if s[0] == '=' then Some(([], s[1..]))
    else match SplitRule(s[1..])
      case None => None
      case Some((field, pattern)) =>
        assert s == [s[0]] + s[1..];
        Some(([s[0]] + field, pattern))
  }

  /** A field without '=' followed by '=' and any pattern splits back into that field and pattern. */
  lemma {:induction false} SplitJoin(field: string, pattern: string)
    requires '=' !in field
    ensures SplitRule(field + "=" + pattern) == Some((field, pattern))
    decreases |field|
  {
    var s := field + "=" + pattern;
    if field == [] {
      assert s == "=" + pattern;
    } else {
      assert s[0] == field[0] && field[0] != '=';
      assert s[1..] == field[1..] + "=" + pattern;
      SplitJoin(field[1..], pattern);
      assert field == [field[0]] + field[1..];
    }
  }

  /**
   * One rule string read and compiled: the (field, pattern) it adds, or the
   * diagnostic it is skipped with — a missing '=' first, then a pattern the
   * engine does not compile.
   */
  function ParseRule(re: Engine, s: string): (r: Result<(string, string), string>)
    ensures '=' !in s ==> r == Err("Invalid blacklist rule: " + s)
    ensures r.Ok? ==> s == r.value.0 + "=" + r.value.1 && '=' !in r.value.0 && re.compiles(r.value.1)
  {
    match SplitRule(s)
    case None => Err("Invalid blacklist rule: " + s)
    case Some((field, pattern)) =>
      if re.compiles(pattern) then Ok((field, pattern))
      else Err("Invalid blacklist regex: " + pattern + "\n" + re.errorText(pattern))
  }

  /** A well-formed rule is accepted exactly when its pattern compiles, and is then read back unchanged. */
  lemma ParseRuleJoin(re: Engine, field: string, pattern: string)
    requires '=' !in field
    ensures re.compiles(pattern) ==> ParseRule(re, field + "=" + pattern) == Ok((field, pattern))
    ensures !re.compiles(pattern) ==> ParseRule(re, field + "=" + pattern).Err?
  {
    SplitJoin(field, pattern);
  }

  /** The patterns the accepted rules give `field`, in the order the rules come. */
  function PatternsFor(re: Engine, rules: seq<string>, field: string): seq<string>
  {
    if rules == [] then []
    else
      PatternsFor(re, rules[..|rules| - 1], field) +
      match ParseRule(re, rules[|rules| - 1])
      case Ok((f, pattern)) => if f == field then [pattern] else []
      case Err(_) => []
  }

  /** The diagnostics of the skipped rules, in the order the rules come. */
  function RuleDiagnostics(re: Engine, rules: seq<string>): seq<string>
  {
    if rules == [] then []
    else
      RuleDiagnostics(re, rules[..|rules| - 1]) +
      match ParseRule(re, rules[|rules| - 1])
      case Ok(_) => []
      case Err(message) => [message]
  }

  /** The blacklist map, built rule by rule: a valid rule's pattern is appended to its field's list. */
  function RuleMap(re: Engine, rules: seq<string>): map<string, seq<string>>
  {
    if rules == [] then map[]
    else
      var m0 := RuleMap(re, rules[..|rules| - 1]);
      match ParseRule(re, rules[|rules| - 1])
      case Ok((field, pattern)) =>
        if field in m0 then m0[field := m0[field] + [pattern]] else m0[field := [pattern]]
      case Err(_) => m0
  }

  /**
   * A field is a key of the blacklist map exactly when some accepted rule
   * names it, and its list holds the patterns of those rules in order.
   */
  lemma {:induction false} RuleMapSpec(re: Engine, rules: seq<string>)
    ensures forall field :: field in RuleMap(re, rules) <==> PatternsFor(re, rules, field) != []
    ensures forall field :: field in RuleMap(re, rules) ==> RuleMap(re, rules)[field] == PatternsFor(re, rules, field)
  {
    if rules != [] {
      RuleMapSpec(re, rules[..|rules| - 1]);
    }
  }

  /** A rule string without '=' changes no field's patterns and adds one diagnostic. */
  lemma MalformedRuleSkipped(re: Engine, rules: seq<string>, s: string)
    requires '=' !in s
    ensures RuleMap(re, rules + [s]) == RuleMap(re, rules)
    ensures RuleDiagnostics(re, rules + [s]) == RuleDiagnostics(re, rules) + ["Invalid blacklist rule: " + s]
  {
    assert (rules + [s])[..|rules|] == rules;
  }

  /** A rule whose pattern does not compile changes no field's patterns and adds one diagnostic. */
  lemma BadPatternSkipped(re: Engine, rules: seq<string>, field: string, pattern: string)
    requires '=' !in field && !re.compiles(pattern)
    ensures RuleMap(re, rules + [field + "=" + pattern]) == RuleMap(re, rules)
    ensures RuleDiagnostics(re, rules + [field + "=" + pattern])
         == RuleDiagnostics(re, rules) + ["Invalid blacklist regex: " + pattern + "\n" + re.errorText(pattern)]
  {
    SplitJoin(field, pattern);
    assert (rules + [field + "=" + pattern])[..|rules|] == rules;
  }

  /**
   * A valid rule appends its pattern to its field's list, after the patterns
   * already there (duplicates included), and leaves every other field alone.
   */
  lemma ValidRuleAccumulates(re: Engine, rules: seq<string>, field: string, pattern: string)
    requires '=' !in field && re.compiles(pattern)
    ensures PatternsFor(re, rules + [field + "=" + pattern], field) == PatternsFor(re, rules, field) + [pattern]
    ensures forall other :: other != field ==>
      PatternsFor(re, rules + [field + "=" + pattern], other) == PatternsFor(re, rules, other)
    ensures RuleDiagnostics(re, rules + [field + "=" + pattern]) == RuleDiagnostics(re, rules)
  {
    SplitJoin(field, pattern);
    assert (rules + [field + "=" + pattern])[..|rules|] == rules;
  }

  /** Every rule string is either accepted or reported: there are no diagnostics exactly when all are accepted. */
  lemma {:induction false} NoDiagnosticsIffAllAccepted(re: Engine, rules: seq<string>)
    ensures RuleDiagnostics(re, rules) == [] <==> forall i :: 0 <= i < |rules| ==> ParseRule(re, rules[i]).Ok?
  {
    if rules != [] {
      var init := rules[..|rules| - 1];
      NoDiagnosticsIffAllAccepted(re, init);
      assert forall i :: 0 <= i < |init| ==> init[i] == rules[i];
    }
  }

  /**
   * Builds the blacklist map in place, one rule string at a time, as the
   * rule loop does: a rule without '=' or with a pattern that does not
   * compile is reported and skipped; a valid one is pushed onto its field's
   * list, which is created on the field's first rule.
   */
  method CompileRules(re: Engine, rules: seq<string>) returns (blacklist: map<string, seq<string>>, log: seq<string>)
    ensures blacklist == RuleMap(re, rules)
    ensures forall field :: field in blacklist ==> blacklist[field] != []
    ensures log == RuleDiagnostics(re, rules)
  {
    blacklist, log := map[], [];
    for i := 0 to |rules|
      invariant blacklist == RuleMap(re, rules[..i])
      invariant log == RuleDiagnostics(re, rules[..i])
    {
      assert rules[..i + 1][..i] == rules[..i];
      var split := SplitRule(rules[i]);
      if split.None? {
        log := log + ["Invalid blacklist rule: " + rules[i]];
        continue;
      }
      var (key, value) := split.value;
      if !re.compiles(value) {
        log := log + ["Invalid blacklist regex: " + value + "\n" + re.errorText(value)];
        continue;
      }
      if key in blacklist {
        blacklist := blacklist[key := blacklist[key] + [value]];
      } else {
        blacklist := blacklist[key := [value]];
      }
    }
    assert rules[..|rules|] == rules;
    RuleMapSpec(re, rules);
  }
}
