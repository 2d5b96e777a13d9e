/** The configuration step of build.js: the environment name is checked,
    the revision and build paths are worked out, and the combine rules are
    expanded through `ruleMap`. */
module Build {
  import opened Wrappers
  import opened Strings
  import opened Util
  import opened Paths
  import Combiner

  // ---------------------------------------------------------------------
  // Environment
  // ---------------------------------------------------------------------

  /** The environments a build may target. */
  const Envs: seq<string> := ["dev", "test", "pre", "prod"]

  lemma {:induction false} LowerIdempotent(s: string)
    ensures Lower(Lower(s)) == Lower(s)
  {
    forall i | 0 <= i < |s| ensures Lower(Lower(s))[i] == Lower(s)[i] {
      var c := s[i];
      if 'A' <= c <= 'Z' {
        assert 'a' <= LowerChar(c) <= 'z';
      }
    }
  }

  /** `String(options.env).toLowerCase()`, which must name a known
      environment or the build stops; a missing option reads as
      `"undefined"`. The check ignores the case of ASCII letters. */
  function CheckEnv(env: Option<string>): (r: Result<string>)
    ensures r.Ok? <==> Lower(env.GetOr("undefined")) in Envs
    ensures r.Ok? ==> r.value in Envs && Lower(r.value) == r.value
    ensures r.Ok? ==> r.value == Lower(env.GetOr("undefined"))
    ensures r.Err? ==> r.error == InvalidEnv
  {
    var e := Lower(env.GetOr("undefined"));
    LowerIdempotent(env.GetOr("undefined"));
    if e in Envs then Ok(e) else Err(InvalidEnv)
  }

  /** Upper-case spellings are accepted, and mean the lower-case environment. */
  lemma CheckEnvCase(a: string, b: string)
    requires Lower(a) == Lower(b)
    ensures CheckEnv(Some(a)) == CheckEnv(Some(b))
  {
  }

  // ---------------------------------------------------------------------
  // Combine rules
  // ---------------------------------------------------------------------

  /** A rule as written in the configuration: `{ match, list }`. */
  datatype RawRule = RawRule(matching: string, list: seq<string>)

  type RuleMap = map<string, Combiner.Rule>

  /** The globs a list expands to, as build.js writes them: every item is
      kept, and right after an item naming an earlier rule's `match` comes
      that rule's whole list as one element (`list.push.call(list, ...)`
      pushes the array itself). */
  function ExpandList(items: seq<string>, ruleMap: RuleMap): (r: seq<Combiner.GlobItem>)
    ensures |r| >= |items|
    decreases |items|
  {
    if |items| == 0 then []
    else
      var x := items[0];
      [Combiner.Glob(x)] + (if x in ruleMap then [Combiner.Nested(ruleMap[x].list)] else [])
        + ExpandList(items[1..], ruleMap)
  }

  /** `(rawConfig.combine || []).map(...)` from the rule `ruleMap` holds so
      far: each rule is expanded and then stored under its `match`,
      replacing an earlier rule with the same `match`. */
  function Expand(raw: seq<RawRule>, ruleMap: RuleMap): (r: seq<Combiner.Rule>)
    ensures |r| == |raw|
    ensures forall i :: 0 <= i < |raw| ==> r[i].matching == raw[i].matching
    decreases |raw|
  {
    if |raw| == 0 then []
    else
      var rule := Combiner.Rule(raw[0].matching, ExpandList(raw[0].list, ruleMap));
      var rest := Expand(raw[1..], ruleMap[raw[0].matching := rule]);
      assert forall i :: 1 <= i < |raw| ==> raw[i] == raw[1..][i - 1];
      [rule] + rest
  }

  function ExpandRules(raw: Option<seq<RawRule>>): (r: seq<Combiner.Rule>)
    ensures raw.None? ==> r == []
    ensures |r| == |raw.GetOr([])|
  {
    Expand(raw.GetOr([]), map[])
  }

  /** The map from `match` to rule after storing `rules` in order: the last
      rule with a given `match` wins. */
  function RuleMapOf(start: RuleMap, rules: seq<Combiner.Rule>): (r: RuleMap)
    ensures forall k :: k in r <==> k in start || exists j :: 0 <= j < |rules| && rules[j].matching == k
    decreases |rules|
  {
    if |rules| == 0 then start
    else
      var last := rules[|rules| - 1];
      var init := rules[..|rules| - 1];
      assert forall j :: 0 <= j < |rules| - 1 ==> init[j] == rules[j];
      RuleMapOf(start, init)[last.matching := last]
  }

  /** The entry for `k` is the last rule whose `match` is `k`. */
  lemma {:induction false} RuleMapOfLast(start: RuleMap, rules: seq<Combiner.Rule>, j: nat)
    requires j < |rules|
    requires forall l :: j < l < |rules| ==> rules[l].matching != rules[j].matching
    ensures RuleMapOf(start, rules)[rules[j].matching] == rules[j]
  {
    if j < |rules| - 1 {
      var init := rules[..|rules| - 1];
      assert init[j] == rules[j];
      RuleMapOfLast(start, init, j);
    }
  }

  lemma {:induction false} ExpandStep(raw: seq<RawRule>, ruleMap: RuleMap, i: nat)
    requires i < |raw|
    ensures Expand(raw, ruleMap)[i].list == ExpandList(raw[i].list, RuleMapOf(ruleMap, Expand(raw, ruleMap)[..i]))
    decreases i
  {
    if i > 0 {
      var rule := Combiner.Rule(raw[0].matching, ExpandList(raw[0].list, ruleMap));
      var m1 := ruleMap[raw[0].matching := rule];
      var rest := Expand(raw[1..], m1);
      ExpandStep(raw[1..], m1, i - 1);
      RuleMapOfShift(ruleMap, rule, rest[..i - 1]);
      assert Expand(raw, ruleMap)[..i] == [rule] + rest[..i - 1];
    }
  }

  lemma {:induction false} RuleMapOfShift(start: RuleMap, first: Combiner.Rule, rules: seq<Combiner.Rule>)
    ensures RuleMapOf(start[first.matching := first], rules) == RuleMapOf(start, [first] + rules)
    decreases |rules|
  {
    var all := [first] + rules;
    ConsTake(first, rules);
    RuleMapOfSnoc(start, all);
    if |rules| > 0 {
      var init := rules[..|rules| - 1];
      RuleMapOfShift(start, first, init);
      RuleMapOfSnoc(start[first.matching := first], rules);
    }
  }

  /** `RuleMapOf` on a non-empty list, one step unfolded. */
  lemma RuleMapOfSnoc(start: RuleMap, rules: seq<Combiner.Rule>)
    requires |rules| > 0
    ensures RuleMapOf(start, rules) == RuleMapOf(start, rules[..|rules| - 1])[rules[|rules| - 1].matching := rules[|rules| - 1]]
  {
  }

  /** Only earlier rules are consulted: the list of rule `i` is expanded
      from the map the rules before it build, the last of equal `match`es
      winning. */
  lemma ExpandEarlier(raw: Option<seq<RawRule>>, i: nat)
    requires i < |raw.GetOr([])|
    ensures ExpandRules(raw)[i].list == ExpandList(raw.GetOr([])[i].list, RuleMapOf(map[], ExpandRules(raw)[..i]))
  {
    ExpandStep(raw.GetOr([]), map[], i);
  }

  lemma ExpandRulesEarlier(raw: Option<seq<RawRule>>)
    ensures forall i :: 0 <= i < |ExpandRules(raw)| ==>
      ExpandRules(raw)[i].list == ExpandList(raw.GetOr([])[i].list, RuleMapOf(map[], ExpandRules(raw)[..i]))
  {
    forall i | 0 <= i < |ExpandRules(raw)|
      ensures ExpandRules(raw)[i].list == ExpandList(raw.GetOr([])[i].list, RuleMapOf(map[], ExpandRules(raw)[..i]))
    {
      ExpandEarlier(raw, i);
    }
  }

  /** A rule whose `match` no earlier rule has never absorbs itself. */
  lemma NoSelfAbsorb(raw: Option<seq<RawRule>>, i: nat)
    requires i < |raw.GetOr([])|
    requires forall j :: 0 <= j < i ==> raw.GetOr([])[j].matching != raw.GetOr([])[i].matching
    ensures raw.GetOr([])[i].matching !in RuleMapOf(map[], ExpandRules(raw)[..i])
  {
    var rules := ExpandRules(raw);
    var x := raw.GetOr([])[i].matching;
    forall j | 0 <= j < i ensures rules[..i][j].matching != x {
      assert rules[..i][j] == rules[j];
    }
  }

  /** The plain items of a glob list, in order. */
  function Literals(globs: seq<Combiner.GlobItem>): (r: seq<string>)
    decreases |globs|
  {
    if |globs| == 0 then [] else Literal(globs[0]) + Literals(globs[1..])
  }

  function Literal(g: Combiner.GlobItem): seq<string> {
    match g
    case Glob(x) => [x]
    case Nested(_) => []
  }

  lemma {:induction false} LiteralsConcat(a: seq<Combiner.GlobItem>, b: seq<Combiner.GlobItem>)
    ensures Literals(a + b) == Literals(a) + Literals(b)
    decreases |a|
  {
    if |a| == 0 {
      assert a + b == b;
    } else {
      assert (a + b)[0] == a[0];
      assert (a + b)[1..] == a[1..] + b;
      LiteralsConcat(a[1..], b);
      ConcatAssoc(Literal(a[0]), Literals(a[1..]), Literals(b));
    }
  }

  /** Every configured item is kept, in order, as a plain glob. */
  lemma {:induction false} ExpandListLiterals(items: seq<string>, ruleMap: RuleMap)
    ensures Literals(ExpandList(items, ruleMap)) == items
    decreases |items|
  {
    if |items| > 0 {
      var x := items[0];
      var extra: seq<Combiner.GlobItem> := if x in ruleMap then [Combiner.Nested(ruleMap[x].list)] else [];
      ExpandListLiterals(items[1..], ruleMap);
      LiteralsConcat([Combiner.Glob(x)] + extra, ExpandList(items[1..], ruleMap));
      LiteralsConcat([Combiner.Glob(x)], extra);
      assert Literals(extra) == [] by {
        if x in ruleMap {
          assert extra[1..] == [];
        }
      }
      assert [Combiner.Glob(x)][1..] == [];
      assert items == [x] + items[1..];
    }
  }

  /** A nested element only ever follows an item naming a known rule, and
      holds that rule's list. */
  lemma {:induction false} ExpandListNested(items: seq<string>, ruleMap: RuleMap, k: nat)
    requires k < |ExpandList(items, ruleMap)|
    requires ExpandList(items, ruleMap)[k].Nested?
    ensures k > 0 && ExpandList(items, ruleMap)[k - 1].Glob?
    ensures var x := ExpandList(items, ruleMap)[k - 1].pattern;
      x in ruleMap && ExpandList(items, ruleMap)[k].items == ruleMap[x].list
    decreases |items|
  {
    var x := items[0];
    var head: seq<Combiner.GlobItem> := [Combiner.Glob(x)] + (if x in ruleMap then [Combiner.Nested(ruleMap[x].list)] else []);
    var r := ExpandList(items, ruleMap);
    assert r == head + ExpandList(items[1..], ruleMap);
    if k >= |head| {
      ExpandListNested(items[1..], ruleMap, k - |head|);
      assert r[k] == ExpandList(items[1..], ruleMap)[k - |head|];
      if k - |head| > 0 {
        assert r[k - 1] == ExpandList(items[1..], ruleMap)[k - |head| - 1];
      }
    }
  }

  /** An item naming a known rule is followed by that rule's list. */
  lemma {:induction false} ExpandListAbsorbs(items: seq<string>, ruleMap: RuleMap, i: nat)
    requires i < |items| && items[i] in ruleMap
    ensures Combiner.Nested(ruleMap[items[i]].list) in ExpandList(items, ruleMap)
    decreases |items|
  {
    var x := items[0];
    var head: seq<Combiner.GlobItem> := [Combiner.Glob(x)] + (if x in ruleMap then [Combiner.Nested(ruleMap[x].list)] else []);
    assert ExpandList(items, ruleMap) == head + ExpandList(items[1..], ruleMap);
    if i == 0 {
      assert head[1] == Combiner.Nested(ruleMap[x].list);
    } else {
      ExpandListAbsorbs(items[1..], ruleMap, i - 1);
    }
  }

  // ---------------------------------------------------------------------
  // The flattening expansion
  // ---------------------------------------------------------------------

  /** The expansion build.js evidently means (`push.apply` rather than
      `push.call`): the absorbed rule's globs are spread into the list. */
  function ExpandListFlat(items: seq<string>, ruleMap: RuleMap): (r: seq<Combiner.GlobItem>)
    decreases |items|
  {
    if |items| == 0 then []
    else
      var x := items[0];
      [Combiner.Glob(x)] + (if x in ruleMap then ruleMap[x].list else []) + ExpandListFlat(items[1..], ruleMap)
  }

  function ExpandFlat(raw: seq<RawRule>, ruleMap: RuleMap): (r: seq<Combiner.Rule>)
    ensures |r| == |raw|
    ensures forall i :: 0 <= i < |raw| ==> r[i].matching == raw[i].matching
    decreases |raw|
  {
    if |raw| == 0 then []
    else
      var rule := Combiner.Rule(raw[0].matching, ExpandListFlat(raw[0].list, ruleMap));
      var rest := ExpandFlat(raw[1..], ruleMap[raw[0].matching := rule]);
      assert forall i :: 1 <= i < |raw| ==> raw[i] == raw[1..][i - 1];
      [rule] + rest
  }

  predicate AllGlobs(globs: seq<Combiner.GlobItem>) {
    forall k :: 0 <= k < |globs| ==> globs[k].Glob?
  }

  predicate FlatMap(ruleMap: RuleMap) {
    forall k :: k in ruleMap ==> AllGlobs(ruleMap[k].list)
  }

  lemma {:induction false} ExpandListFlatGlobs(items: seq<string>, ruleMap: RuleMap)
    requires FlatMap(ruleMap)
    ensures AllGlobs(ExpandListFlat(items, ruleMap))
    ensures |items| > 0 ==> Literals(ExpandListFlat(items, ruleMap)) == [items[0]] + (if items[0] in ruleMap then Literals(ruleMap[items[0]].list) else []) + Literals(ExpandListFlat(items[1..], ruleMap))
    decreases |items|
  {
    if |items| > 0 {
      var x := items[0];
      var extra := if x in ruleMap then ruleMap[x].list else [];
      var rest := ExpandListFlat(items[1..], ruleMap);
      ExpandListFlatGlobs(items[1..], ruleMap);
      LiteralsConcat([Combiner.Glob(x)] + extra, rest);
      LiteralsConcat([Combiner.Glob(x)], extra);
      assert [Combiner.Glob(x)][1..] == [];
    }
  }

  /** The flat expansion only ever produces plain globs. */
  lemma {:induction false} ExpandFlatGlobs(raw: seq<RawRule>, ruleMap: RuleMap)
    requires FlatMap(ruleMap)
    ensures forall i :: 0 <= i < |raw| ==> AllGlobs(ExpandFlat(raw, ruleMap)[i].list)
    decreases |raw|
  {
    if |raw| > 0 {
      var rule := Combiner.Rule(raw[0].matching, ExpandListFlat(raw[0].list, ruleMap));
      ExpandListFlatGlobs(raw[0].list, ruleMap);
      ExpandFlatGlobs(raw[1..], ruleMap[raw[0].matching := rule]);
      assert forall i :: 1 <= i < |raw| ==> ExpandFlat(raw, ruleMap)[i] == ExpandFlat(raw[1..], ruleMap[raw[0].matching := rule])[i - 1];
    }
  }

  /** A glob list of plain globs can always be tested. */
  lemma {:induction false} MatchCountGlobs(globs: seq<Combiner.GlobItem>, x: string, m: Combiner.Matcher)
    requires AllGlobs(globs)
    ensures Combiner.MatchCount(globs, x, m).Ok?
    decreases |globs|
  {
    if |globs| > 0 {
      MatchCountGlobs(globs[1..], x, m);
    }
  }

  /** A glob list holding a nested list fails whatever file is tested. */
  lemma {:induction false} MatchCountNested(globs: seq<Combiner.GlobItem>, x: string, m: Combiner.Matcher)
    requires exists k :: 0 <= k < |globs| && globs[k].Nested?
    ensures Combiner.MatchCount(globs, x, m) == Err(InvalidPattern)
    decreases |globs|
  {
    if globs[0].Glob? {
      var k :| 0 <= k < |globs| && globs[k].Nested?;
      assert globs[1..][k - 1] == globs[k];
      MatchCountNested(globs[1..], x, m);
    }
  }

  /** As written: once a rule lists an earlier rule's `match`, testing any
      file against its globs fails, so any list in which that rule picks a
      primary and something else is left to test cannot be combined. */
  lemma AbsorbingRuleFails(raw: seq<RawRule>, i: nat, j: nat, x: string, m: Combiner.Matcher)
    requires i < j < |raw|
    requires raw[i].matching in raw[j].list
    ensures exists k :: 0 <= k < |Expand(raw, map[])[j].list| && Expand(raw, map[])[j].list[k].Nested?
    ensures Combiner.MatchCount(Expand(raw, map[])[j].list, x, m) == Err(InvalidPattern)
  {
    var rules := Expand(raw, map[]);
    var before := RuleMapOf(map[], rules[..j]);
    ExpandStep(raw, map[], j);
    assert rules[..j][i].matching == raw[i].matching;
    assert raw[i].matching in before;
    var p :| 0 <= p < |raw[j].list| && raw[j].list[p] == raw[i].matching;
    ExpandListAbsorbs(raw[j].list, before, p);
    var nested := Combiner.Nested(before[raw[i].matching].list);
    var k :| 0 <= k < |rules[j].list| && rules[j].list[k] == nested;
    MatchCountNested(rules[j].list, x, m);
  }

  /** Corrected: with the globs spread, every expanded rule can be tested
      against every file. */
  lemma FlatRulesTestable(raw: seq<RawRule>, i: nat, x: string, m: Combiner.Matcher)
    requires i < |raw|
    ensures AllGlobs(ExpandFlat(raw, map[])[i].list)
    ensures Combiner.MatchCount(ExpandFlat(raw, map[])[i].list, x, m).Ok?
  {
    ExpandFlatGlobs(raw, map[]);
    MatchCountGlobs(ExpandFlat(raw, map[])[i].list, x, m);
  }

  // ---------------------------------------------------------------------
  // The configuration
  // ---------------------------------------------------------------------

  datatype Options = Options(env: Option<string>, rev: Option<string>)

  datatype RawConfig = RawConfig(
    staticPath: string,
    buildToServer: string,
    buildToStatic: string,
    combine: Option<seq<RawRule>>,
    staticHosts: Option<map<string, seq<string>>>,
    staticUrlPrefix: string,
    standalone: Option<seq<string>>)

  /** `actualConfig`; an absent `static_hosts` and one without an entry for
      the environment both read as `None`. */
  datatype Config = Config(
    env: string,
    server: Abs,
    staticRoot: Abs,
    buildToServer: string,
    buildToStatic: string,
    rev: string,
    combine: seq<Combiner.Rule>,
    staticHosts: Option<seq<string>>,
    staticUrlPrefix: string,
    standalone: seq<string>)

  /** `String(options.rev || '').toLowerCase()`, with `generated` standing
      for the date-based revision chosen when none is given. */
  function Revision(rev: Option<string>, generated: string): (r: string)
    ensures rev.Some? && rev.value != "" ==> r == Lower(rev.value) && |r| == |rev.value|
    ensures rev.None? || rev.value == "" ==> r == generated
  {
    var given := Lower(rev.GetOr(""));
    if given == "" then generated else given
  }

  /** A build path: resolved against the project and then `{$rev}` and
      `{$env}` substituted. */
  function BuildPath(project: Abs, p: string, rev: string, env: string): string {
    ParseVars(Format(ResolveFrom(project, p)), map["rev" := rev, "env" := env])
  }

  /** build.js lines 17-89: everything but the autogenerated revision and
      the gulp child process. */
  function Configure(project: Abs, options: Options, raw: RawConfig, generated: string): (r: Result<Config>)
    ensures r.Ok? <==> Lower(options.env.GetOr("undefined")) in Envs
    ensures r.Ok? ==> r.value.env == Lower(options.env.GetOr("undefined"))
    ensures r.Ok? ==> r.value.rev == Revision(options.rev, generated)
    ensures r.Ok? ==> |r.value.combine| == |raw.combine.GetOr([])|
    ensures r.Ok? ==> forall i :: 0 <= i < |r.value.combine| ==> r.value.combine[i].matching == raw.combine.GetOr([])[i].matching
    ensures r.Ok? ==> forall i :: 0 <= i < |r.value.combine| ==>
      r.value.combine[i].list == ExpandList(raw.combine.GetOr([])[i].list, RuleMapOf(map[], r.value.combine[..i]))
    ensures r.Ok? ==> r.value.standalone == raw.standalone.GetOr([])
    ensures r.Ok? ==> (r.value.staticHosts.Some? <==> raw.staticHosts.Some? && r.value.env in raw.staticHosts.value)
    ensures r.Ok? && r.value.staticHosts.Some? ==> r.value.staticHosts.value == raw.staticHosts.value[r.value.env]
    ensures r.Ok? ==> r.value.server == project && r.value.staticRoot == ResolveFrom(project, raw.staticPath)
    ensures r.Ok? ==> r.value.buildToServer == BuildPath(project, raw.buildToServer, r.value.rev, r.value.env)
    ensures r.Ok? ==> r.value.buildToStatic == BuildPath(project, raw.buildToStatic, r.value.rev, r.value.env)
    ensures r.Ok? ==> r.value.staticUrlPrefix == raw.staticUrlPrefix
    ensures r.Err? ==> r.error == InvalidEnv
  {
    var env :- CheckEnv(options.env);
    var rev := Revision(options.rev, generated);
    ExpandRulesEarlier(raw.combine);
    Ok(Config(
      env,
      project,
      ResolveFrom(project, raw.staticPath),
      BuildPath(project, raw.buildToServer, rev, env),
      BuildPath(project, raw.buildToStatic, rev, env),
      rev,
      ExpandRules(raw.combine),
      if raw.staticHosts.Some? && env in raw.staticHosts.value then Some(raw.staticHosts.value[env]) else None,
      raw.staticUrlPrefix,
      raw.standalone.GetOr([])))
  }

  /** A build path ending in the `{$rev}` placeholder ends in the revision. */
  lemma BuildPathRev(project: Abs, p: string, rev: string, env: string, dir: string)
    requires Format(ResolveFrom(project, p)) == dir + "{$rev}"
    requires '{' !in dir
    ensures BuildPath(project, p, rev, env) == dir + rev
  {
    var data := map["rev" := rev, "env" := env];
    var name := "rev";
    assert "{$" + name + "}" == "{$rev}";
    ParseVarsLiteralPrefix(dir, "{$" + name + "}", data);
    ParseVarsPlaceholder(name, data);
    assert Lookup(data, name) == rev;
  }

  /** A build path with no placeholder is the resolved path. */
  lemma BuildPathPlain(project: Abs, p: string, rev: string, env: string)
    requires !HasPlaceholder(Format(ResolveFrom(project, p)))
    ensures BuildPath(project, p, rev, env) == Format(ResolveFrom(project, p))
  {
    ParseVarsNoPlaceholder(Format(ResolveFrom(project, p)), map["rev" := rev, "env" := env]);
  }
}
