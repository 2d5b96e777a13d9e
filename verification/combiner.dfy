/** lib/asset-combiner.js: each asset list of a template's manifest is cut
    into entries -- files kept apart and bundles built by the combine rules --
    and every bundle is written once, under the hash of its contents. */
module Combiner {
  import opened Wrappers
  import opened Strings
  import opened Util
  import opened Paths
  import opened Resolve
  import Templates
  import AssetGraph

  /** An item of a rule's list. Rule expansion (build.js) can push a whole
      earlier list as one item, which then reaches `minimatch` as a pattern. */
  datatype GlobItem = Glob(pattern: string) | Nested(items: seq<GlobItem>)

  /** A combine rule; `matching` is its `match` pattern. */
  datatype Rule = Rule(matching: string, list: seq<GlobItem>)

  /** `minimatch(path, pattern)`. */
  type Matcher = (string, string) -> bool

  /** An element of a list's result: a file kept as it is, or several files
      to be written as one bundle. */
  datatype Entry = Single(path: string) | Bundle(paths: seq<string>)

  /** How a secondary is tested against the globs of the primary's rule:
      `AsWritten` tests every glob and pushes the file once per matching
      glob, as lib/asset-combiner.js does; `FirstGlob` stops at the first
      matching glob, which is what the `some` call is evidently for. */
  datatype Counting = AsWritten | FirstGlob

  // ---------------------------------------------------------------------
  // Files kept apart
  // ---------------------------------------------------------------------

  /** A file that is never bundled: an external URL, or one matched by a
      glob of the `standalone` configuration. */
  predicate Standalone(x: string, sta: seq<string>, m: Matcher) {
    IsURL(x) || exists g :: g in sta && m(x, g)
  }

  datatype Partition = Partition(pulled: seq<string>, cands: seq<string>)

  /** The first `while` loop: standalone files are spliced out, in order, and
      the rest stay behind as candidates for bundling. */
  function PullStandalone(deps: seq<string>, sta: seq<string>, m: Matcher): (r: Partition)
    ensures forall x :: x in r.pulled ==> Standalone(x, sta, m)
    ensures forall x :: x in r.cands ==> !Standalone(x, sta, m)
    ensures multiset(r.pulled) + multiset(r.cands) == multiset(deps)
  {
    if |deps| == 0 then Partition([], [])
    else
      var r := PullStandalone(deps[1..], sta, m);
      assert deps == [deps[0]] + deps[1..];
      if Standalone(deps[0], sta, m) then Partition([deps[0]] + r.pulled, r.cands)
      else Partition(r.pulled, [deps[0]] + r.cands)
  }

  // ---------------------------------------------------------------------
  // Testing globs
  // ---------------------------------------------------------------------

  /** The callback of `currentGlobs.some(...)` never returns true, so every
      glob is tested; the result is how many of them `x` matches. Testing a
      nested list fails: minimatch rejects a pattern that is not a string. */
  function MatchCount(globs: seq<GlobItem>, x: string, m: Matcher): (r: Result<nat>)
    ensures r.Ok? ==> r.value <= |globs|
    decreases |globs|
  {
    if |globs| == 0 then Ok(0)
    else
      match globs[0]
      case Nested(_) => Err(InvalidPattern)
      case Glob(g) =>
        var rest :- MatchCount(globs[1..], x, m);
        Ok((if m(x, g) then 1 else 0) + rest)
  }

  /** The intended test: the globs are tried in order up to the first that
      `x` matches; a nested list fails only when it is reached. */
  function MatchFirst(globs: seq<GlobItem>, x: string, m: Matcher): Result<bool>
    decreases |globs|
  {
    if |globs| == 0 then Ok(false)
    else
      match globs[0]
      case Nested(_) => Err(InvalidPattern)
      case Glob(g) => if m(x, g) then Ok(true) else MatchFirst(globs[1..], x, m)
  }

  /** Counting succeeds exactly when no item is nested, and counts nothing
      exactly when no glob matches. */
  lemma {:induction false} MatchCountSpec(globs: seq<GlobItem>, x: string, m: Matcher)
    ensures MatchCount(globs, x, m).Ok? <==> forall k :: 0 <= k < |globs| ==> globs[k].Glob?
    ensures MatchCount(globs, x, m).Ok? ==>
      (MatchCount(globs, x, m).value == 0 <==> forall k :: 0 <= k < |globs| ==> !m(x, globs[k].pattern))
    decreases |globs|
  {
    if |globs| > 0 {
      assert forall k :: 1 <= k < |globs| ==> globs[k] == globs[1..][k - 1];
      MatchCountSpec(globs[1..], x, m);
    }
  }

  /** The first-match test says no when every item is a glob `x` misses, and
      yes when some glob matches and every item before it is a glob `x` misses. */
  lemma MatchFirstSpec(globs: seq<GlobItem>, x: string, m: Matcher)
    ensures MatchFirst(globs, x, m) == Ok(false) <==> forall k :: 0 <= k < |globs| ==> globs[k].Glob? && !m(x, globs[k].pattern)
    ensures MatchFirst(globs, x, m) == Ok(true) <==>
      exists k :: 0 <= k < |globs| && globs[k].Glob? && m(x, globs[k].pattern)
                 && forall j :: 0 <= j < k ==> globs[j].Glob? && !m(x, globs[j].pattern)
  {
    MatchFirstFalse(globs, x, m);
    MatchFirstTrue(globs, x, m);
  }

  /** `x` misses the globs before index `n`, all of which are globs. */
  predicate MissesBefore(globs: seq<GlobItem>, x: string, m: Matcher, n: nat)
    requires n <= |globs|
  {
    forall j :: 0 <= j < n ==> globs[j].Glob? && !m(x, globs[j].pattern)
  }

  /** The first glob `x` matches is at `k`. */
  predicate FirstHit(globs: seq<GlobItem>, x: string, m: Matcher, k: nat)
  {
    k < |globs| && globs[k].Glob? && m(x, globs[k].pattern) && MissesBefore(globs, x, m, k)
  }

  lemma {:induction false} MatchFirstFalse(globs: seq<GlobItem>, x: string, m: Matcher)
    ensures MatchFirst(globs, x, m) == Ok(false) <==> MissesBefore(globs, x, m, |globs|)
    decreases |globs|
  {
    if |globs| > 0 {
      assert forall k :: 1 <= k < |globs| ==> globs[k] == globs[1..][k - 1];
      MatchFirstFalse(globs[1..], x, m);
    }
  }

  lemma {:induction false} MatchFirstTrue(globs: seq<GlobItem>, x: string, m: Matcher)
    ensures MatchFirst(globs, x, m) == Ok(true) <==> exists k: nat :: FirstHit(globs, x, m, k)
    decreases |globs|
  {
    if |globs| > 0 {
      MatchFirstTrue(globs[1..], x, m);
      if MatchFirst(globs, x, m) == Ok(true) {
        if globs[0].Glob? && !m(x, globs[0].pattern) {
          var k: nat :| FirstHit(globs[1..], x, m, k);
          HitShift(globs, x, m, k);
        } else {
          assert FirstHit(globs, x, m, 0);
        }
      }
      if k: nat :| FirstHit(globs, x, m, k) {
        if k > 0 {
          HitUnshift(globs, x, m, k);
        }
      }
    }
  }

  lemma HitShift(globs: seq<GlobItem>, x: string, m: Matcher, k: nat)
    requires |globs| > 0 && globs[0].Glob? && !m(x, globs[0].pattern)
    requires FirstHit(globs[1..], x, m, k)
    ensures FirstHit(globs, x, m, k + 1)
  {
    assert forall j :: 1 <= j < |globs| ==> globs[j] == globs[1..][j - 1];
  }

  lemma HitUnshift(globs: seq<GlobItem>, x: string, m: Matcher, k: nat)
    requires 0 < k && FirstHit(globs, x, m, k)
    ensures globs[0].Glob? && !m(x, globs[0].pattern)
    ensures FirstHit(globs[1..], x, m, k - 1)
  {
    assert forall j :: 0 <= j < |globs| - 1 ==> globs[1..][j] == globs[j + 1];
  }

  /** How many times a secondary is pushed. */
  function Times(c: Counting, globs: seq<GlobItem>, x: string, m: Matcher): Result<nat> {
    match c
    case AsWritten => MatchCount(globs, x, m)
    case FirstGlob =>
      var b :- MatchFirst(globs, x, m);
      Ok(if b then 1 else 0)
  }

  /** When every glob is tried without failure, stopping at the first match
      and counting all matches agree on whether `x` matches at all. */
  lemma {:induction false} MatchModesAgree(globs: seq<GlobItem>, x: string, m: Matcher)
    requires MatchCount(globs, x, m).Ok?
    ensures MatchFirst(globs, x, m) == Ok(MatchCount(globs, x, m).value > 0)
    decreases |globs|
  {
    if |globs| > 0 && !m(x, globs[0].pattern) {
      MatchModesAgree(globs[1..], x, m);
    }
  }

  /** `combineRules.some(...)`: the list of the first rule whose `match`
      pattern the primary matches. */
  function FirstRule(rules: seq<Rule>, x: string, m: Matcher): Option<seq<GlobItem>>
    decreases |rules|
  {
    if |rules| == 0 then None
    else if m(x, rules[0].matching) then Some(rules[0].list)
    else FirstRule(rules[1..], x, m)
  }

  /** No list when no rule's `match` pattern matches; otherwise the list of
      the first rule whose pattern matches. */
  lemma {:induction false} FirstRuleSpec(rules: seq<Rule>, x: string, m: Matcher)
    ensures FirstRule(rules, x, m).None? <==> forall k :: 0 <= k < |rules| ==> !m(x, rules[k].matching)
    ensures FirstRule(rules, x, m).Some? ==>
      exists k :: 0 <= k < |rules| && m(x, rules[k].matching) && FirstRule(rules, x, m).value == rules[k].list
                  && forall j :: 0 <= j < k ==> !m(x, rules[j].matching)
    decreases |rules|
  {
    if |rules| > 0 && !m(x, rules[0].matching) {
      assert forall k :: 1 <= k < |rules| ==> rules[k] == rules[1..][k - 1];
      FirstRuleSpec(rules[1..], x, m);
      if FirstRule(rules, x, m).Some? {
        var k :| 0 <= k < |rules[1..]| && m(x, rules[1..][k].matching) && FirstRule(rules, x, m).value == rules[1..][k].list
                 && forall j :: 0 <= j < k ==> !m(x, rules[1..][j].matching);
        assert rules[k + 1] == rules[1..][k];
        assert forall j :: 0 <= j < k + 1 ==> !m(x, rules[j].matching) by {
          forall j | 0 <= j < k + 1 ensures !m(x, rules[j].matching) {
            if j > 0 {
              assert rules[j] == rules[1..][j - 1];
            }
          }
        }
      }
    }
  }

  // ---------------------------------------------------------------------
  // Primaries and secondaries
  // ---------------------------------------------------------------------

  /** The state the two nested loops share: the `combined` flags of the
      candidates, `counter`, and the bundles pushed so far. */
  datatype Pass = Pass(combined: seq<bool>, counter: nat, groups: seq<seq<string>>)

  /** The inner loop's state: the secondaries pushed for one primary. */
  datatype Scanned = Scanned(combines: seq<string>, combined: seq<bool>, counter: nat)

  function Repeat(x: string, k: nat): (r: seq<string>)
    ensures |r| == k && forall y :: y in r ==> y == x
  {
    seq(k, _ => x)
  }

  /** Secondaries are pushed `Times` times: a positive count. */
  predicate Pushes(c: Counting, globs: seq<GlobItem>, x: string, m: Matcher) {
    Times(c, globs, x, m).Ok? && Times(c, globs, x, m).value > 0
  }

  /** The inner loop from index `j`: every other candidate not yet combined
      is tested against `globs`; one that matches is pushed, flagged and
      counted, once per `Times`. */
  function Secondaries(c: Counting, cands: seq<string>, i: nat, globs: seq<GlobItem>, m: Matcher, j: nat, s: Scanned): (r: Result<Scanned>)
    requires i < |cands| && |s.combined| == |cands|
    ensures r.Ok? ==> |r.value.combined| == |cands| && r.value.combined[i] == s.combined[i]
    ensures r.Ok? ==> forall k :: 0 <= k < |cands| && s.combined[k] ==> r.value.combined[k]
    ensures r.Ok? ==> s.combines <= r.value.combines
    ensures r.Ok? ==> r.value.counter + |s.combines| == s.counter + |r.value.combines|
    ensures r.Ok? ==> forall x :: x in r.value.combines[|s.combines|..] ==> x in cands && Pushes(c, globs, x, m)
    decreases |cands| - j
  {
    if j >= |cands| then Ok(s)
    else if j == i || s.combined[j] then Secondaries(c, cands, i, globs, m, j + 1, s)
    else
      var k :- Times(c, globs, cands[j], m);
      if k == 0 then Secondaries(c, cands, i, globs, m, j + 1, s)
      else
        var s' := Scanned(s.combines + Repeat(cands[j], k), s.combined[j := true], s.counter + k);
        var r := Secondaries(c, cands, i, globs, m, j + 1, s');
        assert r.Ok? ==> r.value.combines[|s.combines|..] == Repeat(cands[j], k) + r.value.combines[|s'.combines|..];
        r
  }

  /** A bundle made by the primary loop: the primary, which a rule's `match`
      selects, followed by at least one secondary its list selects. */
  predicate Joins(c: Counting, rules: seq<Rule>, m: Matcher, g: seq<string>) {
    |g| >= 2 && FirstRule(rules, g[0], m).Some?
    && forall x :: x in g[1..] ==> Pushes(c, FirstRule(rules, g[0], m).value, x, m)
  }

  /** The outer loop from index `i`, which runs while `i` and `counter` are
      both below the number of candidates. A candidate already combined, or
      matched by no rule, is passed over; otherwise the secondaries of its
      rule are collected, and only when there are some does it lead a new
      bundle and count as combined. */
  function Primaries(c: Counting, cands: seq<string>, rules: seq<Rule>, m: Matcher, i: nat, p: Pass): (r: Result<Pass>)
    requires |p.combined| == |cands|
    ensures r.Ok? ==> |r.value.combined| == |cands| && p.groups <= r.value.groups
    ensures r.Ok? ==> forall g :: g in r.value.groups[|p.groups|..] ==> Joins(c, rules, m, g) && g[0] in cands
    decreases |cands| - i
  {
    if i >= |cands| || p.counter >= |cands| then Ok(p)
    else if p.combined[i] then Primaries(c, cands, rules, m, i + 1, p)
    else match FirstRule(rules, cands[i], m)
      case None => Primaries(c, cands, rules, m, i + 1, p)
      case Some(globs) =>
        var s :- Secondaries(c, cands, i, globs, m, 0, Scanned([], p.combined, p.counter));
        if |s.combines| == 0 then Primaries(c, cands, rules, m, i + 1, Pass(s.combined, s.counter, p.groups))
        else
          var g := [cands[i]] + s.combines;
          assert g[1..] == s.combines[0..];
          var p' := Pass(s.combined[i := true], s.counter + 1, p.groups + [g]);
          var r := Primaries(c, cands, rules, m, i + 1, p');
          assert r.Ok? ==> r.value.groups[|p.groups|..] == [g] + r.value.groups[|p'.groups|..];
          r
  }

  /** The candidates whose flag is `b`, in order; with `false` this is the
      `filter` that collects the rests. */
  function Marked(cands: seq<string>, combined: seq<bool>, b: bool): (r: seq<string>)
    requires |combined| == |cands|
    ensures |r| <= |cands|
    decreases |cands|
  {
    if |cands| == 0 then []
    else
      var n := |cands| - 1;
      Marked(cands[..n], combined[..n], b) + (if combined[n] == b then [cands[n]] else [])
  }

  /** `rests`: nothing once `counter` has reached the number of candidates,
      otherwise the candidates not combined. */
  function Rests(cands: seq<string>, p: Pass): seq<string>
    requires |p.combined| == |cands|
  {
    if p.counter == |cands| then [] else Marked(cands, p.combined, false)
  }

  /** One rest is kept as it is; several become one more bundle. */
  function Leftover(rests: seq<string>): (r: seq<Entry>)
    ensures |rests| == 0 ==> r == []
    ensures |rests| == 1 ==> r == [Single(rests[0])]
    ensures |rests| > 1 ==> r == [Bundle(rests)]
  {
    if |rests| == 1 then [Single(rests[0])]
    else if |rests| > 1 then [Bundle(rests)]
    else []
  }

  function Singles(xs: seq<string>): (r: seq<Entry>)
    ensures |r| == |xs| && forall k :: 0 <= k < |xs| ==> r[k] == Single(xs[k])
  {
    seq(|xs|, k requires 0 <= k < |xs| => Single(xs[k]))
  }

  function Bundles(gs: seq<seq<string>>): (r: seq<Entry>)
    ensures |r| == |gs| && forall k :: 0 <= k < |gs| ==> r[k] == Bundle(gs[k])
  {
    seq(|gs|, k requires 0 <= k < |gs| => Bundle(gs[k]))
  }

  function Unflagged(n: nat): (r: seq<bool>)
    ensures |r| == n && forall k :: 0 <= k < n ==> !r[k]
  {
    seq(n, _ => false)
  }

  /** The entries of one asset list, in the order they are pushed: the
      standalone files, then the bundles of the primary loop, then the rests. */
  function Arrange(c: Counting, deps: seq<string>, rules: seq<Rule>, sta: seq<string>, m: Matcher): (r: Result<seq<Entry>>)
    ensures r.Ok? ==> forall k :: 0 <= k < |r.value| && r.value[k].Bundle? ==> |r.value[k].paths| >= 2
  {
    var part := PullStandalone(deps, sta, m);
    var p :- Primaries(c, part.cands, rules, m, 0, Pass(Unflagged(|part.cands|), 0, []));
    BundlesOfTwo(part.pulled, p.groups, Rests(part.cands, p));
    Ok(Singles(part.pulled) + Bundles(p.groups) + Leftover(Rests(part.cands, p)))
  }

  /** Only two or more files are ever bundled. */
  lemma BundlesOfTwo(pulled: seq<string>, groups: seq<seq<string>>, rests: seq<string>)
    requires forall g :: g in groups ==> |g| >= 2
    ensures var es := Singles(pulled) + Bundles(groups) + Leftover(rests);
      forall k :: 0 <= k < |es| && es[k].Bundle? ==> |es[k].paths| >= 2
  {
    var es := Singles(pulled) + Bundles(groups) + Leftover(rests);
    forall k | 0 <= k < |es| ensures es[k].Bundle? ==> |es[k].paths| >= 2 {
      if k < |pulled| {
        assert es[k] == Singles(pulled)[k];
      } else if k < |pulled| + |groups| {
        assert es[k] == Bundles(groups)[k - |pulled|];
        assert groups[k - |pulled|] in groups;
      } else {
        assert es[k] == Leftover(rests)[k - |pulled| - |groups|];
      }
    }
  }

  /** The files an entry stands for. */
  function Members(e: Entry): seq<string> {
    match e
    case Single(x) => [x]
    case Bundle(xs) => xs
  }

  function Contents(es: seq<Entry>): seq<string>
    decreases |es|
  {
    if |es| == 0 then [] else Members(es[0]) + Contents(es[1..])
  }

  function Flat(gs: seq<seq<string>>): seq<string>
    decreases |gs|
  {
    if |gs| == 0 then [] else gs[0] + Flat(gs[1..])
  }

  // ---------------------------------------------------------------------
  // The corrected counting partitions the candidates
  // ---------------------------------------------------------------------

  lemma MultisetAdd(a: multiset<string>, b: multiset<string>, c: multiset<string>, x: string)
    requires a + b == c
    ensures (a + multiset{x}) + b == c + multiset{x}
    ensures a + (b + multiset{x}) == c + multiset{x}
  {
    assert forall y :: (a + b)[y] == c[y];
  }

  /** One more candidate goes to exactly one side. */
  lemma SplitStep(t: seq<string>, f: seq<string>, c: seq<string>, x: string, b: bool, tt: seq<string>, ff: seq<string>)
    requires multiset(t) + multiset(f) == multiset(c)
    requires tt == t + (if b == true then [x] else []) && ff == f + (if b == false then [x] else [])
    ensures multiset(tt) + multiset(ff) == multiset(c + [x])
  {
    assert multiset(c + [x]) == multiset(c) + multiset{x};
    if b {
      assert ff == f;
      assert multiset(t + [x]) == multiset(t) + multiset{x};
    } else {
      assert tt == t;
      assert multiset(f + [x]) == multiset(f) + multiset{x};
    }
  }

  /** `Marked` on a non-empty list, one step unfolded. */
  lemma MarkedSnoc(cands: seq<string>, combined: seq<bool>, b: bool)
    requires |combined| == |cands| > 0
    ensures Marked(cands, combined, b)
         == Marked(cands[..|cands| - 1], combined[..|cands| - 1], b) + (if combined[|cands| - 1] == b then [cands[|cands| - 1]] else [])
  {
  }

  lemma {:induction false} MarkedSplit(cands: seq<string>, combined: seq<bool>)
    requires |combined| == |cands|
    ensures multiset(Marked(cands, combined, true)) + multiset(Marked(cands, combined, false)) == multiset(cands)
  {
    if |cands| > 0 {
      var n := |cands| - 1;
      MarkedSnoc(cands, combined, true);
      MarkedSnoc(cands, combined, false);
      SnocLast(cands);
      MarkedSplit(cands[..n], combined[..n]);
      SplitStep(Marked(cands[..n], combined[..n], true), Marked(cands[..n], combined[..n], false), cands[..n], cands[n], combined[n],
        Marked(cands, combined, true), Marked(cands, combined, false));
    }
  }

  /** Flagging one more candidate adds exactly that candidate to the flagged ones. */
  lemma {:induction false} MarkedFlip(cands: seq<string>, combined: seq<bool>, j: nat)
    requires |combined| == |cands| && j < |cands| && !combined[j]
    ensures multiset(Marked(cands, combined[j := true], true)) == multiset(Marked(cands, combined, true)) + multiset{cands[j]}
    decreases |cands|
  {
    var n := |cands| - 1;
    var flipped := combined[j := true];
    var pre := cands[..n];
    MarkedSnoc(cands, combined, true);
    MarkedSnoc(cands, flipped, true);
    UpdateTake(combined, n, j, true);
    if j < n {
      var tail := if combined[n] == true then [cands[n]] else [];
      assert flipped[n] == combined[n];
      assert pre[j] == cands[j];
      MarkedFlip(pre, combined[..n], j);
      FlipChain(Marked(cands, flipped, true), Marked(cands, combined, true),
        Marked(pre, flipped[..n], true), Marked(pre, combined[..n], true), tail, cands[j]);
    } else {
      assert flipped[..n] == combined[..n];
      FlipChain(Marked(cands, flipped, true), Marked(cands, combined, true),
        Marked(pre, combined[..n], true) + [cands[n]], Marked(pre, combined[..n], true), [], cands[n]);
    }
  }

  /** Equal tails keep a multiset difference of one element. */
  lemma FlipChain(a: seq<string>, b: seq<string>, a0: seq<string>, b0: seq<string>, tail: seq<string>, x: string)
    requires a == a0 + tail && b == b0 + tail && multiset(a0) == multiset(b0) + multiset{x}
    ensures multiset(a) == multiset(b) + multiset{x}
  {
    assert multiset(a0 + tail) == multiset(a0) + multiset(tail);
    assert multiset(b0 + tail) == multiset(b0) + multiset(tail);
  }

  lemma MultisetCancel(a1: multiset<string>, b1: multiset<string>, a2: multiset<string>, b2: multiset<string>, x: string)
    requires a1 + (b1 + multiset{x}) == (a2 + multiset{x}) + b2
    ensures a1 + b1 == a2 + b2
  {
    forall y ensures (a1 + b1)[y] == (a2 + b2)[y] {
      assert (a1 + (b1 + multiset{x}))[y] == ((a2 + multiset{x}) + b2)[y];
    }
  }

  /** With `FirstGlob` the inner loop pushes each newly flagged candidate once. */
  lemma {:induction false} FirstGlobSecondaries(cands: seq<string>, i: nat, globs: seq<GlobItem>, m: Matcher, j: nat, s: Scanned)
    requires i < |cands| && |s.combined| == |cands|
    requires Secondaries(FirstGlob, cands, i, globs, m, j, s).Ok?
    ensures var r := Secondaries(FirstGlob, cands, i, globs, m, j, s).value;
      multiset(Marked(cands, r.combined, true)) + multiset(s.combines)
        == multiset(Marked(cands, s.combined, true)) + multiset(r.combines)
    decreases |cands| - j
  {
    if j < |cands| {
      if j == i || s.combined[j] || Times(FirstGlob, globs, cands[j], m).value == 0 {
        FirstGlobSecondaries(cands, i, globs, m, j + 1, s);
      } else {
        assert Times(FirstGlob, globs, cands[j], m).value == 1;
        var s' := Scanned(s.combines + Repeat(cands[j], 1), s.combined[j := true], s.counter + 1);
        assert Secondaries(FirstGlob, cands, i, globs, m, j, s) == Secondaries(FirstGlob, cands, i, globs, m, j + 1, s');
        var r := Secondaries(FirstGlob, cands, i, globs, m, j + 1, s').value;
        assert Repeat(cands[j], 1) == [cands[j]];
        MarkedFlip(cands, s.combined, j);
        FirstGlobSecondaries(cands, i, globs, m, j + 1, s');
        assert multiset(s'.combines) == multiset(s.combines) + multiset{cands[j]};
        MultisetCancel(multiset(Marked(cands, r.combined, true)), multiset(s.combines),
                       multiset(Marked(cands, s.combined, true)), multiset(r.combines), cands[j]);
      }
    }
  }

  lemma {:induction false} FlatAppend(gs: seq<seq<string>>, g: seq<string>)
    ensures Flat(gs + [g]) == Flat(gs) + g
    decreases |gs|
  {
    if |gs| > 0 {
      assert (gs + [g])[1..] == gs[1..] + [g];
      FlatAppend(gs[1..], g);
      ConcatAssoc(gs[0], Flat(gs[1..]), g);
    }
  }

  /** The bundles hold exactly the flagged candidates, and `counter` counts them. */
  predicate Tallied(cands: seq<string>, p: Pass)
    requires |p.combined| == |cands|
  {
    multiset(Flat(p.groups)) == multiset(Marked(cands, p.combined, true))
    && p.counter == |Marked(cands, p.combined, true)|
  }

  /** A primary whose scan pushed nothing leaves the tally as it was. */
  lemma TalliedIdle(cands: seq<string>, p: Pass, s: Scanned)
    requires |p.combined| == |cands| == |s.combined| && Tallied(cands, p) && |s.combines| == 0
    requires multiset(Marked(cands, s.combined, true)) == multiset(Marked(cands, p.combined, true))
    requires s.counter == p.counter
    ensures Tallied(cands, Pass(s.combined, s.counter, p.groups))
  {
    assert |multiset(Marked(cands, s.combined, true))| == |multiset(Marked(cands, p.combined, true))|;
  }

  /** A primary with secondaries adds itself and them to the tally. */
  lemma TalliedGroup(cands: seq<string>, p: Pass, s: Scanned, i: nat)
    requires |p.combined| == |cands| == |s.combined| && i < |cands| && !s.combined[i] && Tallied(cands, p)
    requires multiset(Marked(cands, s.combined, true)) == multiset(Marked(cands, p.combined, true)) + multiset(s.combines)
    requires s.counter == p.counter + |s.combines|
    ensures Tallied(cands, Pass(s.combined[i := true], s.counter + 1, p.groups + [[cands[i]] + s.combines]))
  {
    var g := [cands[i]] + s.combines;
    MarkedFlip(cands, s.combined, i);
    FlatAppend(p.groups, g);
    var after := Marked(cands, s.combined[i := true], true);
    assert multiset(Flat(p.groups + [g])) == multiset(after);
    assert |multiset(after)| == |multiset(Marked(cands, p.combined, true))| + |s.combines| + 1;
  }

  lemma {:induction false} FirstGlobPrimaries(cands: seq<string>, rules: seq<Rule>, m: Matcher, i: nat, p: Pass)
    requires |p.combined| == |cands| && Tallied(cands, p)
    requires Primaries(FirstGlob, cands, rules, m, i, p).Ok?
    ensures Tallied(cands, Primaries(FirstGlob, cands, rules, m, i, p).value)
    decreases |cands| - i
  {
    if i >= |cands| || p.counter >= |cands| {
      PrimariesStop(FirstGlob, cands, rules, m, i, p);
    } else if p.combined[i] || FirstRule(rules, cands[i], m).None? {
      PrimariesSkip(FirstGlob, cands, rules, m, i, p);
      FirstGlobPrimaries(cands, rules, m, i + 1, p);
    } else {
      var globs := FirstRule(rules, cands[i], m).value;
      var s0 := Scanned([], p.combined, p.counter);
      PrimariesScans(FirstGlob, cands, rules, m, i, p, globs);
      var s := Secondaries(FirstGlob, cands, i, globs, m, 0, s0).value;
      assert multiset(Marked(cands, s.combined, true)) == multiset(Marked(cands, p.combined, true)) + multiset(s.combines) by {
        FirstGlobSecondaries(cands, i, globs, m, 0, s0);
        assert multiset(s0.combines) == multiset{};
      }
      if |s.combines| == 0 {
        PrimariesIdle(FirstGlob, cands, rules, m, i, p, globs, s);
        TalliedIdle(cands, p, s);
        FirstGlobPrimaries(cands, rules, m, i + 1, Pass(s.combined, s.counter, p.groups));
      } else {
        PrimariesGroup(FirstGlob, cands, rules, m, i, p, globs, s);
        TalliedGroup(cands, p, s, i);
        FirstGlobPrimaries(cands, rules, m, i + 1, Pass(s.combined[i := true], s.counter + 1, p.groups + [[cands[i]] + s.combines]));
      }
    }
  }

  lemma {:induction false} ContentsConcat(a: seq<Entry>, b: seq<Entry>)
    ensures Contents(a + b) == Contents(a) + Contents(b)
    decreases |a|
  {
    if |a| > 0 {
      assert (a + b)[0] == a[0] && (a + b)[1..] == a[1..] + b;
      ContentsConcat(a[1..], b);
      ConcatAssoc(Members(a[0]), Contents(a[1..]), Contents(b));
    } else {
      assert a + b == b;
    }
  }

  lemma {:induction false} ContentsSingles(xs: seq<string>)
    ensures Contents(Singles(xs)) == xs
    decreases |xs|
  {
    if |xs| > 0 {
      assert Singles(xs)[1..] == Singles(xs[1..]);
      ContentsSingles(xs[1..]);
    }
  }

  lemma {:induction false} ContentsBundles(gs: seq<seq<string>>)
    ensures Contents(Bundles(gs)) == Flat(gs)
    decreases |gs|
  {
    if |gs| > 0 {
      assert Bundles(gs)[1..] == Bundles(gs[1..]);
      ContentsBundles(gs[1..]);
    }
  }

  lemma ContentsLeftover(rests: seq<string>)
    ensures Contents(Leftover(rests)) == rests
  {
    if |rests| == 1 {
      assert Contents(Leftover(rests)) == [rests[0]];
    }
  }

  /** The entries list each file of the asset list exactly as often as it occurs. */
  lemma ArrangeContents(c: Counting, deps: seq<string>, rules: seq<Rule>, sta: seq<string>, m: Matcher)
    requires Arrange(c, deps, rules, sta, m).Ok?
    ensures var part := PullStandalone(deps, sta, m);
      var p := Primaries(c, part.cands, rules, m, 0, Pass(Unflagged(|part.cands|), 0, [])).value;
      Contents(Arrange(c, deps, rules, sta, m).value) == part.pulled + Flat(p.groups) + Rests(part.cands, p)
  {
    var part := PullStandalone(deps, sta, m);
    var p := Primaries(c, part.cands, rules, m, 0, Pass(Unflagged(|part.cands|), 0, [])).value;
    ContentsConcat(Singles(part.pulled) + Bundles(p.groups), Leftover(Rests(part.cands, p)));
    ContentsConcat(Singles(part.pulled), Bundles(p.groups));
    ContentsSingles(part.pulled);
    ContentsBundles(p.groups);
    ContentsLeftover(Rests(part.cands, p));
  }

  lemma MarkedNone(cands: seq<string>)
    ensures Marked(cands, Unflagged(|cands|), true) == []
  {
    if |cands| > 0 {
      var n := |cands| - 1;
      assert Unflagged(|cands|)[..n] == Unflagged(n);
      MarkedNone(cands[..n]);
    }
  }

  /** With the corrected counting every file of the asset list ends up in
      exactly one entry: standalone, in one bundle, or among the rests. */
  lemma ArrangePartition(deps: seq<string>, rules: seq<Rule>, sta: seq<string>, m: Matcher)
    requires Arrange(FirstGlob, deps, rules, sta, m).Ok?
    ensures multiset(Contents(Arrange(FirstGlob, deps, rules, sta, m).value)) == multiset(deps)
  {
    var part := PullStandalone(deps, sta, m);
    var cands := part.cands;
    var p0 := Pass(Unflagged(|cands|), 0, []);
    MarkedNone(cands);
    assert Tallied(cands, p0);
    FirstGlobPrimaries(cands, rules, m, 0, p0);
    var p := Primaries(FirstGlob, cands, rules, m, 0, p0).value;
    ArrangeContents(FirstGlob, deps, rules, sta, m);
    MarkedSplit(cands, p.combined);
    assert Rests(cands, p) == Marked(cands, p.combined, false) by {
      if p.counter == |cands| {
        assert |multiset(Marked(cands, p.combined, false))| == 0;
      }
    }
  }

  // ---------------------------------------------------------------------
  // When the source's counting is harmless
  // ---------------------------------------------------------------------

  /** Every rule list is plain, and no file of the list matches two of its globs. */
  predicate SingleMatches(deps: seq<string>, rules: seq<Rule>, m: Matcher) {
    forall k, x :: 0 <= k < |rules| && x in deps ==>
      MatchCount(rules[k].list, x, m).Ok? && MatchCount(rules[k].list, x, m).value <= 1
  }

  lemma TimesAgree(globs: seq<GlobItem>, x: string, m: Matcher)
    requires MatchCount(globs, x, m).Ok? && MatchCount(globs, x, m).value <= 1
    ensures Times(AsWritten, globs, x, m) == Times(FirstGlob, globs, x, m)
  {
    MatchModesAgree(globs, x, m);
  }

  lemma {:induction false} SecondariesAgree(cands: seq<string>, i: nat, globs: seq<GlobItem>, m: Matcher, j: nat, s: Scanned)
    requires i < |cands| && |s.combined| == |cands|
    requires forall x :: x in cands ==> MatchCount(globs, x, m).Ok? && MatchCount(globs, x, m).value <= 1
    ensures Secondaries(AsWritten, cands, i, globs, m, j, s) == Secondaries(FirstGlob, cands, i, globs, m, j, s)
    decreases |cands| - j
  {
    if j < |cands| {
      if j == i || s.combined[j] {
        SecondariesAgree(cands, i, globs, m, j + 1, s);
      } else {
        TimesAgree(globs, cands[j], m);
        var k := Times(AsWritten, globs, cands[j], m).value;
        if k == 0 {
          SecondariesAgree(cands, i, globs, m, j + 1, s);
        } else {
          SecondariesAgree(cands, i, globs, m, j + 1, Scanned(s.combines + Repeat(cands[j], k), s.combined[j := true], s.counter + k));
        }
      }
    }
  }

  lemma {:induction false} PrimariesAgree(cands: seq<string>, rules: seq<Rule>, m: Matcher, i: nat, p: Pass)
    requires |p.combined| == |cands| && SingleMatches(cands, rules, m)
    ensures Primaries(AsWritten, cands, rules, m, i, p) == Primaries(FirstGlob, cands, rules, m, i, p)
    decreases |cands| - i
  {
    if i < |cands| && p.counter < |cands| {
      if p.combined[i] || FirstRule(rules, cands[i], m).None? {
        PrimariesAgree(cands, rules, m, i + 1, p);
      } else {
        var globs := FirstRule(rules, cands[i], m).value;
        var s0 := Scanned([], p.combined, p.counter);
        FirstRuleSpec(rules, cands[i], m);
        SecondariesAgree(cands, i, globs, m, 0, s0);
        var r := Secondaries(FirstGlob, cands, i, globs, m, 0, s0);
        if r.Ok? {
          var s := r.value;
          if |s.combines| == 0 {
            PrimariesAgree(cands, rules, m, i + 1, Pass(s.combined, s.counter, p.groups));
          } else {
            PrimariesAgree(cands, rules, m, i + 1, Pass(s.combined[i := true], s.counter + 1, p.groups + [[cands[i]] + s.combines]));
          }
        }
      }
    }
  }

  /** When no file of the list matches two globs of any rule, and no rule
      list is nested, the source's counting gives the corrected result, so
      every file lands in exactly one entry. */
  lemma ArrangeSingleMatches(deps: seq<string>, rules: seq<Rule>, sta: seq<string>, m: Matcher)
    requires SingleMatches(deps, rules, m)
    ensures Arrange(AsWritten, deps, rules, sta, m) == Arrange(FirstGlob, deps, rules, sta, m)
    ensures Arrange(AsWritten, deps, rules, sta, m).Ok? ==>
      multiset(Contents(Arrange(AsWritten, deps, rules, sta, m).value)) == multiset(deps)
  {
    var part := PullStandalone(deps, sta, m);
    assert forall x :: x in part.cands ==> x in deps by {
      forall x | x in part.cands ensures x in deps {
        assert x in multiset(part.cands);
        assert x in multiset(deps);
      }
    }
    PrimariesAgree(part.cands, rules, m, 0, Pass(Unflagged(|part.cands|), 0, []));
    if Arrange(FirstGlob, deps, rules, sta, m).Ok? {
      ArrangePartition(deps, rules, sta, m);
    }
  }

  // ---------------------------------------------------------------------
  // Finding: a secondary matching two globs
  // ---------------------------------------------------------------------

  /** A list with no standalone file is kept whole as candidates. */
  lemma {:induction false} PullNone(deps: seq<string>, sta: seq<string>, m: Matcher)
    requires forall x :: x in deps ==> !Standalone(x, sta, m)
    ensures PullStandalone(deps, sta, m) == Partition([], deps)
  {
    if |deps| > 0 {
      assert deps[0] in deps;
      assert forall x :: x in deps[1..] ==> x in deps;
      PullNone(deps[1..], sta, m);
      assert [deps[0]] + deps[1..] == deps;
    }
  }

  lemma PrimariesStop(c: Counting, cands: seq<string>, rules: seq<Rule>, m: Matcher, i: nat, p: Pass)
    requires |p.combined| == |cands| && (i >= |cands| || p.counter >= |cands|)
    ensures Primaries(c, cands, rules, m, i, p) == Ok(p)
  {
  }

  lemma PrimariesSkip(c: Counting, cands: seq<string>, rules: seq<Rule>, m: Matcher, i: nat, p: Pass)
    requires |p.combined| == |cands| && i < |cands| && p.counter < |cands|
    requires p.combined[i] || FirstRule(rules, cands[i], m).None?
    ensures Primaries(c, cands, rules, m, i, p) == Primaries(c, cands, rules, m, i + 1, p)
  {
  }

  lemma PrimariesScans(c: Counting, cands: seq<string>, rules: seq<Rule>, m: Matcher, i: nat, p: Pass, globs: seq<GlobItem>)
    requires |p.combined| == |cands| && i < |cands| && p.counter < |cands| && !p.combined[i]
    requires FirstRule(rules, cands[i], m) == Some(globs)
    requires Primaries(c, cands, rules, m, i, p).Ok?
    ensures Secondaries(c, cands, i, globs, m, 0, Scanned([], p.combined, p.counter)).Ok?
  {
  }

  lemma PrimariesIdle(c: Counting, cands: seq<string>, rules: seq<Rule>, m: Matcher, i: nat, p: Pass, globs: seq<GlobItem>, s: Scanned)
    requires |p.combined| == |cands| && i < |cands| && p.counter < |cands| && !p.combined[i]
    requires FirstRule(rules, cands[i], m) == Some(globs)
    requires Secondaries(c, cands, i, globs, m, 0, Scanned([], p.combined, p.counter)) == Ok(s) && |s.combines| == 0
    ensures Primaries(c, cands, rules, m, i, p) == Primaries(c, cands, rules, m, i + 1, Pass(s.combined, s.counter, p.groups))
  {
  }

  lemma PrimariesGroup(c: Counting, cands: seq<string>, rules: seq<Rule>, m: Matcher, i: nat, p: Pass, globs: seq<GlobItem>, s: Scanned)
    requires |p.combined| == |cands| && i < |cands| && p.counter < |cands| && !p.combined[i]
    requires FirstRule(rules, cands[i], m) == Some(globs)
    requires Secondaries(c, cands, i, globs, m, 0, Scanned([], p.combined, p.counter)) == Ok(s) && |s.combines| > 0
    ensures Primaries(c, cands, rules, m, i, p)
         == Primaries(c, cands, rules, m, i + 1, Pass(s.combined[i := true], s.counter + 1, p.groups + [[cands[i]] + s.combines]))
  {
  }

  /** Three candidates `a`, `b`, `x` where `a` selects a rule whose two
      globs both match `b` and neither matches `x`. */
  predicate Doubled(a: string, b: string, x: string, pat: string, g1: string, g2: string, sta: seq<string>, m: Matcher) {
    && !Standalone(a, sta, m) && !Standalone(b, sta, m) && !Standalone(x, sta, m)
    && m(a, pat) && !m(x, pat)
    && m(b, g1) && m(b, g2) && !m(x, g1) && !m(x, g2)
  }

  lemma DoubledTimes(c: Counting, b: string, x: string, g1: string, g2: string, m: Matcher)
    requires m(b, g1) && m(b, g2) && !m(x, g1) && !m(x, g2)
    ensures Times(c, [Glob(g1), Glob(g2)], b, m) == Ok(if c == AsWritten then 2 else 1)
    ensures Times(c, [Glob(g1), Glob(g2)], x, m) == Ok(0)
  {
    var globs := [Glob(g1), Glob(g2)];
    assert globs[1..] == [Glob(g2)] && [Glob(g2)][1..] == [];
    assert MatchCount([Glob(g2)], b, m) == Ok(1) && MatchCount([Glob(g2)], x, m) == Ok(0);
    assert MatchCount(globs, b, m) == Ok(2) && MatchCount(globs, x, m) == Ok(0);
    assert MatchFirst([Glob(g2)], x, m) == Ok(false);
    assert MatchFirst(globs, b, m) == Ok(true) && MatchFirst(globs, x, m) == Ok(false);
  }

  /** The scan for the primary `a`, pushing `b` once per `Times`. */
  lemma DoubledSecondaries(c: Counting, a: string, b: string, x: string, g1: string, g2: string, m: Matcher)
    requires m(b, g1) && m(b, g2) && !m(x, g1) && !m(x, g2)
    ensures var k := if c == AsWritten then 2 else 1;
      Secondaries(c, [a, b, x], 0, [Glob(g1), Glob(g2)], m, 0, Scanned([], [false, false, false], 0))
        == Ok(Scanned(Repeat(b, k), [false, true, false], k))
  {
    var k := if c == AsWritten then 2 else 1;
    var cands := [a, b, x];
    var globs := [Glob(g1), Glob(g2)];
    DoubledTimes(c, b, x, g1, g2, m);
    var s0 := Scanned([], [false, false, false], 0);
    var s1 := Scanned([] + Repeat(cands[1], k), s0.combined[1 := true], s0.counter + k);
    assert s1 == Scanned(Repeat(b, k), [false, true, false], k);
    assert Secondaries(c, cands, 0, globs, m, 2, s1) == Secondaries(c, cands, 0, globs, m, 3, s1);
    assert Secondaries(c, cands, 0, globs, m, 1, s0) == Secondaries(c, cands, 0, globs, m, 2, s1);
  }

  lemma DoubledPrimaries(c: Counting, a: string, b: string, x: string, pat: string, g1: string, g2: string, sta: seq<string>, m: Matcher)
    requires Doubled(a, b, x, pat, g1, g2, sta, m)
    ensures var k := if c == AsWritten then 2 else 1;
      Primaries(c, [a, b, x], [Rule(pat, [Glob(g1), Glob(g2)])], m, 0, Pass([false, false, false], 0, []))
        == Primaries(c, [a, b, x], [Rule(pat, [Glob(g1), Glob(g2)])], m, 1, Pass([true, true, false], k + 1, [[a] + Repeat(b, k)]))
  {
    var k := if c == AsWritten then 2 else 1;
    var rules := [Rule(pat, [Glob(g1), Glob(g2)])];
    DoubledSecondaries(c, a, b, x, g1, g2, m);
    assert FirstRule(rules, a, m) == Some([Glob(g1), Glob(g2)]);
    assert [false, true, false][0 := true] == [true, true, false];
    var g := [[a, b, x][0]] + Repeat(b, k);
    assert g == [a] + Repeat(b, k) && [] + [g] == [g];
    PrimariesGroup(c, [a, b, x], rules, m, 0, Pass([false, false, false], 0, []), [Glob(g1), Glob(g2)], Scanned(Repeat(b, k), [false, true, false], k));
  }

  lemma DoubledAsWritten(a: string, b: string, x: string, pat: string, g1: string, g2: string, sta: seq<string>, m: Matcher)
    requires Doubled(a, b, x, pat, g1, g2, sta, m)
    ensures Primaries(AsWritten, [a, b, x], [Rule(pat, [Glob(g1), Glob(g2)])], m, 0, Pass([false, false, false], 0, []))
         == Ok(Pass([true, true, false], 3, [[a, b, b]]))
  {
    DoubledPrimaries(AsWritten, a, b, x, pat, g1, g2, sta, m);
    assert [a] + Repeat(b, 2) == [a, b, b];
    PrimariesStop(AsWritten, [a, b, x], [Rule(pat, [Glob(g1), Glob(g2)])], m, 1, Pass([true, true, false], 3, [[a, b, b]]));
  }

  lemma DoubledFirstGlob(a: string, b: string, x: string, pat: string, g1: string, g2: string, sta: seq<string>, m: Matcher)
    requires Doubled(a, b, x, pat, g1, g2, sta, m)
    ensures Primaries(FirstGlob, [a, b, x], [Rule(pat, [Glob(g1), Glob(g2)])], m, 0, Pass([false, false, false], 0, []))
         == Ok(Pass([true, true, false], 2, [[a, b]]))
  {
    var cands := [a, b, x];
    var rules := [Rule(pat, [Glob(g1), Glob(g2)])];
    DoubledPrimaries(FirstGlob, a, b, x, pat, g1, g2, sta, m);
    assert [a] + Repeat(b, 1) == [a, b];
    var pf := Pass([true, true, false], 2, [[a, b]]);
    PrimariesSkip(FirstGlob, cands, rules, m, 1, pf);
    assert FirstRule(rules, x, m).None?;
    PrimariesSkip(FirstGlob, cands, rules, m, 2, pf);
    PrimariesStop(FirstGlob, cands, rules, m, 3, pf);
  }

  lemma ArrangeIs(c: Counting, deps: seq<string>, rules: seq<Rule>, sta: seq<string>, m: Matcher, u: seq<bool>, p: Pass, es: seq<Entry>)
    requires PullStandalone(deps, sta, m) == Partition([], deps) && u == Unflagged(|deps|)
    requires Primaries(c, deps, rules, m, 0, Pass(u, 0, [])) == Ok(p)
    requires |p.combined| == |deps| && Bundles(p.groups) + Leftover(Rests(deps, p)) == es
    ensures Arrange(c, deps, rules, sta, m) == Ok(es)
  {
    EmptyConcat(Singles([]), Bundles(p.groups));
  }

  lemma DoubledMarked(a: string, b: string, x: string)
    ensures Marked([a, b, x], [true, true, false], false) == [x]
  {
    assert [a, b, x][..2] == [a, b] && [true, true, false][..2] == [true, true];
    assert [a, b][..1] == [a] && [true, true][..1] == [true];
    assert Marked([a], [true], false) == [];
    assert Marked([a, b], [true, true], false) == [];
  }

  lemma DoubledEntries(a: string, b: string, x: string)
    ensures Bundles([[a, b, b]]) + Leftover(Rests([a, b, x], Pass([true, true, false], 3, [[a, b, b]]))) == [Bundle([a, b, b])]
    ensures Bundles([[a, b]]) + Leftover(Rests([a, b, x], Pass([true, true, false], 2, [[a, b]]))) == [Bundle([a, b]), Single(x)]
  {
    DoubledMarked(a, b, x);
    assert Leftover([x]) == [Single(x)];
  }

  lemma UnflaggedThree(a: string, b: string, x: string)
    ensures Unflagged(|[a, b, x]|) == [false, false, false]
  {
  }

  lemma PullNoneThree(a: string, b: string, x: string, sta: seq<string>, m: Matcher)
    requires !Standalone(a, sta, m) && !Standalone(b, sta, m) && !Standalone(x, sta, m)
    ensures PullStandalone([a, b, x], sta, m) == Partition([], [a, b, x])
  {
    PullNone([a, b, x], sta, m);
  }

  /** `Arrange` on the three candidates, from the pass `Primaries` ends with. */
  lemma DoubledArrangeOf(c: Counting, a: string, b: string, x: string, rules: seq<Rule>, sta: seq<string>, m: Matcher, p: Pass, es: seq<Entry>)
    requires !Standalone(a, sta, m) && !Standalone(b, sta, m) && !Standalone(x, sta, m)
    requires Primaries(c, [a, b, x], rules, m, 0, Pass([false, false, false], 0, [])) == Ok(p)
    requires |p.combined| == 3 && Bundles(p.groups) + Leftover(Rests([a, b, x], p)) == es
    ensures Arrange(c, [a, b, x], rules, sta, m) == Ok(es)
  {
    PullNoneThree(a, b, x, sta, m);
    UnflaggedThree(a, b, x);
    ArrangeIs(c, [a, b, x], rules, sta, m, [false, false, false], p, es);
  }

  lemma DoubledArrangeAsWritten(a: string, b: string, x: string, pat: string, g1: string, g2: string, sta: seq<string>, m: Matcher)
    requires Doubled(a, b, x, pat, g1, g2, sta, m)
    ensures Arrange(AsWritten, [a, b, x], [Rule(pat, [Glob(g1), Glob(g2)])], sta, m) == Ok([Bundle([a, b, b])])
  {
    DoubledAsWritten(a, b, x, pat, g1, g2, sta, m);
    DoubledEntries(a, b, x);
    DoubledArrangeOf(AsWritten, a, b, x, [Rule(pat, [Glob(g1), Glob(g2)])], sta, m, Pass([true, true, false], 3, [[a, b, b]]), [Bundle([a, b, b])]);
  }

  lemma DoubledArrangeFirstGlob(a: string, b: string, x: string, pat: string, g1: string, g2: string, sta: seq<string>, m: Matcher)
    requires Doubled(a, b, x, pat, g1, g2, sta, m)
    ensures Arrange(FirstGlob, [a, b, x], [Rule(pat, [Glob(g1), Glob(g2)])], sta, m) == Ok([Bundle([a, b]), Single(x)])
  {
    DoubledFirstGlob(a, b, x, pat, g1, g2, sta, m);
    DoubledEntries(a, b, x);
    DoubledArrangeOf(FirstGlob, a, b, x, [Rule(pat, [Glob(g1), Glob(g2)])], sta, m, Pass([true, true, false], 2, [[a, b]]), [Bundle([a, b]), Single(x)]);
  }

  /** When `b` matches both globs of the rule `a` selects, the source pushes
      `b` twice and counts it twice; `counter` then equals the number of
      candidates, so the rests are skipped and `x` is lost. The corrected
      counting keeps `x` as a rest. */
  lemma DoubleCountDrops(a: string, b: string, x: string, pat: string, g1: string, g2: string, sta: seq<string>, m: Matcher)
    requires Doubled(a, b, x, pat, g1, g2, sta, m)
    ensures Arrange(AsWritten, [a, b, x], [Rule(pat, [Glob(g1), Glob(g2)])], sta, m) == Ok([Bundle([a, b, b])])
    ensures Arrange(FirstGlob, [a, b, x], [Rule(pat, [Glob(g1), Glob(g2)])], sta, m) == Ok([Bundle([a, b]), Single(x)])
  {
    DoubledArrangeAsWritten(a, b, x, pat, g1, g2, sta, m);
    DoubledArrangeFirstGlob(a, b, x, pat, g1, g2, sta, m);
  }

  /** A matcher that knows the patterns `b*` and `*.js` and literal names. */
  function DemoMatch(p: string, g: string): bool {
    if g == "b*" then |p| > 0 && p[0] == 'b'
    else if g == "*.js" then EndsWith(p, ".js")
    else p == g
  }

  /** The rule `{ match: 'a.js', list: ['b*', '*.js'] }` over the list
      `a.js`, `b.js`, `c.txt`: `c.txt` disappears from the result. */
  lemma DoubleCount()
    ensures Arrange(AsWritten, ["a.js", "b.js", "c.txt"], [Rule("a.js", [Glob("b*"), Glob("*.js")])], [], DemoMatch)
         == Ok([Bundle(["a.js", "b.js", "b.js"])])
  {
    NoSlashNotURL("a.js");
    NoSlashNotURL("b.js");
    NoSlashNotURL("c.txt");
    assert DemoMatch("b.js", "*.js") && !DemoMatch("c.txt", "*.js");
    DoubleCountDrops("a.js", "b.js", "c.txt", "a.js", "b*", "*.js", [], DemoMatch);
  }

  // ---------------------------------------------------------------------
  // Writing bundles
  // ---------------------------------------------------------------------

  /** What `combine` works with: the static output root and the files under
      it, the MD5 map, the combine rules and standalone globs, `minimatch`,
      and the MD5 hex digest. */
  datatype Setup = Setup(
    base: Abs,
    files: map<Abs, string>,
    md5Map: map<string, string>,
    rules: seq<Rule>,
    sta: seq<string>,
    m: Matcher,
    digest: string -> string)

  /** `md5Map[p]`; `undefined` when absent. */
  function Md5Of(md5Map: map<string, string>, p: string): Option<string> {
    if p in md5Map then Some(md5Map[p]) else None
  }

  /** `filePaths.join(',')`, where `undefined` joins as the empty string. */
  function JoinPaths(paths: seq<Option<string>>): string {
    Join(',', seq(|paths|, k requires 0 <= k < |paths| => paths[k].GetOr("")))
  }

  /** The memo key of a bundle. */
  function BundleKey(base: Abs, paths: seq<Option<string>>): string {
    "[" + Format(base) + "]" + JoinPaths(paths)
  }

  /** Reading each member from below the root: `path.join` rejects an
      undefined path, and a file that is not there cannot be read. */
  function ReadAll(base: Abs, files: map<Abs, string>, paths: seq<Option<string>>): (r: Result<seq<string>>)
    ensures r.Ok? <==> forall k :: 0 <= k < |paths| ==> paths[k].Some? && Paths.Resolve(base, paths[k].value) in files
    ensures r.Ok? ==> |r.value| == |paths|
    ensures r.Ok? ==> forall k :: 0 <= k < |paths| ==> r.value[k] == files[Paths.Resolve(base, paths[k].value)]
    decreases |paths|
  {
    if |paths| == 0 then Ok([])
    else
      assert forall k :: 1 <= k < |paths| ==> paths[k] == paths[1..][k - 1];
      match paths[0]
      case None => Err(UndefinedPath)
      case Some(p) =>
        var f := Paths.Resolve(base, p);
        if f !in files then Err(MissingFile(f))
        else
          var rest :- ReadAll(base, files, paths[1..]);
          Ok([files[f]] + rest)
  }

  datatype Written = Written(path: string, cache: map<string, string>)

  /** The cache entries `cache[key]` finds (those with a non-empty path) are kept. */
  predicate Keeps(old_: map<string, string>, new_: map<string, string>) {
    forall k :: k in old_ && old_[k] != "" ==> k in new_ && new_[k] == old_[k]
  }

  /** `fileCombiner.combine`: a bundle whose key is cached with a non-empty
      path is not written again; otherwise the members are read, joined with
      newlines and named after the first 16 hex digits of their MD5, with
      the extension of the asset type, under `~combines`, and the path
      relative to the root is cached under the key. */
  function BundleFile(s: Setup, cache: map<string, string>, paths: seq<Option<string>>, t: AssetGraph.AssetKind): (r: Result<Written>)
    ensures r.Ok? ==> Keeps(cache, r.value.cache)
    ensures r.Ok? ==> BundleKey(s.base, paths) in r.value.cache && r.value.cache[BundleKey(s.base, paths)] == r.value.path
    ensures r.Ok? ==> forall k :: k in r.value.cache ==> k in cache || k == BundleKey(s.base, paths)
  {
    var key := BundleKey(s.base, paths);
    if key in cache && cache[key] != "" then Ok(Written(cache[key], cache))
    else
      var texts :- ReadAll(s.base, s.files, paths);
      var content := Join('\n', texts);
      var name := ConvertExtname(CalcMd5(s.digest, content, 16), TypeName(t));
      var target := Paths.Resolve(Paths.Resolve(s.base, "~combines"), name);
      var rel := NormalizeSlash(Relative(s.base, target));
      Ok(Written(rel, cache[key := rel]))
  }

  /** The extension a bundle of each asset type gets. */
  function BundleExt(t: AssetGraph.AssetKind): string {
    match t
    case HeadJs => ".raw.js"
    case Js => ".raw.js"
    case Css => ".css.js"
    case ModJs => ".js"
  }

  ghost predicate HexDigest(digest: string -> string) {
    forall s :: IsHex(digest(s))
  }

  lemma NoDotNoExt(h: string)
    requires '.' !in h
    ensures ExtLen(h) == 0
  {
    var w := TrailingWordRun(h);
    if w >= 1 && w < |h| {
      assert h[|h| - w - 1] in h;
    }
  }

  /** The type's extension is appended to a hexadecimal digest. */
  lemma BundleNameIs(h: string, t: AssetGraph.AssetKind)
    requires IsHex(h)
    ensures ConvertExtname(h, TypeName(t)) == h + BundleExt(t)
    ensures IsSegment(h + BundleExt(t)) && '\\' !in h + BundleExt(t)
  {
    assert forall i :: 0 <= i < |h| ==> h[i] != '.' && h[i] != '/' && h[i] != '\\';
    NoDotNoExt(h);
    var name := h + BundleExt(t);
    assert forall i :: 0 <= i < |name| ==> name[i] != '/' && name[i] != '\\' by {
      forall i | 0 <= i < |name| ensures name[i] != '/' && name[i] != '\\' {
        if i >= |h| {
          assert name[i] == BundleExt(t)[i - |h|];
        }
      }
    }
  }

  lemma JoinTwo(a: string, b: string)
    ensures Join('/', [a, b]) == a + "/" + b
  {
    assert [a, b][1..] == [b];
  }

  lemma BundleTargetIs(base: Abs, name: string)
    requires IsSegment(name)
    ensures Paths.Resolve(Paths.Resolve(base, "~combines"), name) == base + ["~combines", name]
  {
    ResolveSegment(base, "~combines");
    ResolveSegment(base + ["~combines"], name);
    assert base + ["~combines"] + [name] == base + ["~combines", name];
  }

  lemma BundleRelIs(base: Abs, name: string)
    requires '\\' !in name
    ensures NormalizeSlash(Relative(base, base + ["~combines", name])) == "~combines/" + name
  {
    RelativeBelow(base, ["~combines", name]);
    JoinTwo("~combines", name);
    NormalizeSlashConcat("~combines/", name);
    NormalizeSlashPlain("~combines/");
    NormalizeSlashPlain(name);
  }

  /** A hexadecimal name with a bundle extension, placed under `~combines`,
      is written relative to the root as `~combines/<name>`. */
  lemma BundlePathIs(base: Abs, h: string, t: AssetGraph.AssetKind)
    requires IsHex(h)
    ensures NormalizeSlash(Relative(base, Paths.Resolve(Paths.Resolve(base, "~combines"), ConvertExtname(h, TypeName(t)))))
         == "~combines/" + h + BundleExt(t)
  {
    var name := h + BundleExt(t);
    BundleNameIs(h, t);
    BundleTargetIs(base, name);
    BundleRelIs(base, name);
    ConcatAssoc("~combines/", h, BundleExt(t));
  }

  /** A fresh bundle is written as `~combines/` followed by the first 16 hex
      digits of the MD5 of its newline-joined members and the extension of
      its type. */
  lemma BundleFileName(s: Setup, cache: map<string, string>, paths: seq<Option<string>>, t: AssetGraph.AssetKind)
    requires HexDigest(s.digest)
    requires BundleFile(s, cache, paths, t).Ok?
    requires BundleKey(s.base, paths) !in cache
    ensures ReadAll(s.base, s.files, paths).Ok?
    ensures BundleFile(s, cache, paths, t).value.path
         == "~combines/" + CalcMd5(s.digest, Join('\n', ReadAll(s.base, s.files, paths).value), 16) + BundleExt(t)
  {
    var content := Join('\n', ReadAll(s.base, s.files, paths).value);
    CalcMd5Hex(s.digest, content, 16);
    BundlePathIs(s.base, CalcMd5(s.digest, content, 16), t);
  }

  /** Writing the same bundle again finds it under its key and returns the
      same path with the cache unchanged. */
  lemma BundleFileRepeat(s: Setup, cache: map<string, string>, paths: seq<Option<string>>, t: AssetGraph.AssetKind)
    requires HexDigest(s.digest)
    requires BundleFile(s, cache, paths, t).Ok?
    ensures var w := BundleFile(s, cache, paths, t).value;
      BundleFile(s, w.cache, paths, t) == Ok(w)
  {
    var key := BundleKey(s.base, paths);
    if !(key in cache && cache[key] != "") {
      var w := BundleFile(s, cache, paths, t).value;
      if key in cache {
        var texts := ReadAll(s.base, s.files, paths).value;
        var content := Join('\n', texts);
        CalcMd5Hex(s.digest, content, 16);
        BundlePathIs(s.base, CalcMd5(s.digest, content, 16), t);
      } else {
        BundleFileName(s, cache, paths, t);
      }
      assert w.path != "";
    }
  }

  // ---------------------------------------------------------------------
  // Emitting a list
  // ---------------------------------------------------------------------

  datatype Emitted = Emitted(paths: seq<Option<string>>, cache: map<string, string>)

  /** The members of a bundle, as the MD5 map names their built files. */
  function BundleMembers(md5Map: map<string, string>, ps: seq<string>): (r: seq<Option<string>>)
    ensures |r| == |ps| && forall k :: 0 <= k < |ps| ==> r[k] == Md5Of(md5Map, RevertExtname(ps[k]))
  {
    seq(|ps|, k requires 0 <= k < |ps| => Md5Of(md5Map, RevertExtname(ps[k])))
  }

  /** One entry of `result.map(...)`: a single file becomes its MD5 path
      (undefined when the MD5 map lacks it), a bundle becomes the path it is
      written to. */
  function EmitOne(s: Setup, t: AssetGraph.AssetKind, e: Entry, cache: map<string, string>): (r: Result<Emitted>)
    ensures r.Ok? ==> |r.value.paths| == 1 && Keeps(cache, r.value.cache)
    ensures r.Ok? && e.Single? ==> r.value.paths[0] == Md5Of(s.md5Map, e.path)
    ensures r.Ok? && e.Bundle? ==> r.value.paths[0].Some?
  {
    match e
    case Single(p) => Ok(Emitted([Md5Of(s.md5Map, p)], cache))
    case Bundle(ps) =>
      var w :- BundleFile(s, cache, BundleMembers(s.md5Map, ps), t);
      Ok(Emitted([Some(w.path)], w.cache))
  }

  predicate EmittedAs(md5Map: map<string, string>, e: Entry, p: Option<string>) {
    (e.Single? ==> p == Md5Of(md5Map, e.path)) && (e.Bundle? ==> p.Some?)
  }

  lemma KeepsTrans(a: map<string, string>, b: map<string, string>, c: map<string, string>)
    requires Keeps(a, b) && Keeps(b, c)
    ensures Keeps(a, c)
  { }

  lemma EmittedCons(md5Map: map<string, string>, es: seq<Entry>, p: Option<string>, rest: seq<Option<string>>)
    requires |es| > 0 && |rest| == |es| - 1 && EmittedAs(md5Map, es[0], p)
    requires forall k :: 0 <= k < |es[1..]| ==> EmittedAs(md5Map, es[1..][k], rest[k])
    ensures forall k :: 0 <= k < |es| ==> EmittedAs(md5Map, es[k], ([p] + rest)[k])
  {
    forall k | 0 <= k < |es| ensures EmittedAs(md5Map, es[k], ([p] + rest)[k]) {
      if k > 0 {
        assert es[k] == es[1..][k - 1];
      }
    }
  }

  /** `result.map(...)` over the arranged entries, threading the bundle cache. */
  function Emit(s: Setup, t: AssetGraph.AssetKind, es: seq<Entry>, cache: map<string, string>): (r: Result<Emitted>)
    ensures r.Ok? ==> |r.value.paths| == |es| && Keeps(cache, r.value.cache)
    ensures r.Ok? ==> forall k :: 0 <= k < |es| ==> EmittedAs(s.md5Map, es[k], r.value.paths[k])
    decreases |es|
  {
    if |es| == 0 then Ok(Emitted([], cache))
    else
      var one :- EmitOne(s, t, es[0], cache);
      var rest :- Emit(s, t, es[1..], one.cache);
      EmittedCons(s.md5Map, es, one.paths[0], rest.paths);
      KeepsTrans(cache, one.cache, rest.cache);
      var paths := [one.paths[0]] + rest.paths;
      Ok(Emitted(paths, rest.cache))
  }

  // ---------------------------------------------------------------------
  // Combining every page
  // ---------------------------------------------------------------------

  /** One list of a page: its entries arranged and then emitted. */
  function CombineList(s: Setup, c: Counting, t: AssetGraph.AssetKind, deps: seq<string>, cache: map<string, string>): (r: Result<Emitted>)
    ensures r.Ok? ==> Keeps(cache, r.value.cache)
    ensures r.Ok? <==> Arrange(c, deps, s.rules, s.sta, s.m).Ok? && Emit(s, t, Arrange(c, deps, s.rules, s.sta, s.m).value, cache).Ok?
    ensures r.Ok? ==> |r.value.paths| == |Arrange(c, deps, s.rules, s.sta, s.m).value|
    ensures r.Ok? ==> forall k :: 0 <= k < |r.value.paths| ==>
      EmittedAs(s.md5Map, Arrange(c, deps, s.rules, s.sta, s.m).value[k], r.value.paths[k])
  {
    var es :- Arrange(c, deps, s.rules, s.sta, s.m);
    Emit(s, t, es, cache)
  }

  /** The lists `combine` visits, in its order. */
  const Kinds: seq<AssetGraph.AssetKind> := [HeadJs, Css, Js, ModJs]

  datatype Page = Page(lists: map<string, seq<Option<string>>>, cache: map<string, string>)

  /** The keys of a page: a kind has a list exactly when the manifest has
      files of that kind, and every key names one of the kinds. */
  predicate KeysFor(man: Templates.Manifest, kinds: seq<AssetGraph.AssetKind>, lists: map<string, seq<Option<string>>>) {
    && (forall t :: t in kinds ==> (TypeName(t) in lists <==> |Templates.Get(man, t)| > 0))
    && (forall k :: k in lists ==> exists t :: t in kinds && TypeName(t) == k)
  }

  lemma KeysForEmpty(man: Templates.Manifest, kinds: seq<AssetGraph.AssetKind>)
    requires |kinds| == 0
    ensures KeysFor(man, kinds, map[])
  { }

  /** A kind with no files adds no key. */
  lemma KeysForSkip(man: Templates.Manifest, kinds: seq<AssetGraph.AssetKind>, lists: map<string, seq<Option<string>>>)
    requires |kinds| > 0 && |Templates.Get(man, kinds[0])| == 0 && KeysFor(man, kinds[1..], lists)
    ensures KeysFor(man, kinds, lists)
  {
    forall t | t in kinds ensures TypeName(t) in lists <==> |Templates.Get(man, t)| > 0 {
      if t != kinds[0] {
        assert t in kinds[1..] by { KindsTail(kinds, t); }
      }
    }
    forall k | k in lists ensures exists t :: t in kinds && TypeName(t) == k {
      var t :| t in kinds[1..] && TypeName(t) == k;
      assert t in kinds;
    }
  }

  /** A kind with files adds its own key. */
  lemma KeysForAdd(man: Templates.Manifest, kinds: seq<AssetGraph.AssetKind>, lists: map<string, seq<Option<string>>>, v: seq<Option<string>>)
    requires |kinds| > 0 && |Templates.Get(man, kinds[0])| > 0 && KeysFor(man, kinds[1..], lists)
    ensures KeysFor(man, kinds, lists[TypeName(kinds[0]) := v])
  {
    var l := lists[TypeName(kinds[0]) := v];
    forall t | t in kinds ensures TypeName(t) in l <==> |Templates.Get(man, t)| > 0 {
      if t != kinds[0] {
        assert t in kinds[1..] by { KindsTail(kinds, t); }
        TypeNameInjective(t, kinds[0]);
      }
    }
    forall k | k in l ensures exists t :: t in kinds && TypeName(t) == k {
      if k != TypeName(kinds[0]) {
        var t :| t in kinds[1..] && TypeName(t) == k;
        assert t in kinds;
      }
    }
  }

  lemma KindsTail(kinds: seq<AssetGraph.AssetKind>, t: AssetGraph.AssetKind)
    requires |kinds| > 0 && t in kinds && t != kinds[0]
    ensures t in kinds[1..]
  {
    var i :| 0 <= i < |kinds| && kinds[i] == t;
    assert kinds[1..][i - 1] == t;
  }

  lemma TypeNameInjective(t: AssetGraph.AssetKind, u: AssetGraph.AssetKind)
    requires t != u
    ensures TypeName(t) != TypeName(u)
  { }

  /** A page's list of kind `t` is that kind's `combine` result: one emitted
      path per arranged entry of the manifest's files of that kind. */
  predicate ListFor(s: Setup, c: Counting, man: Templates.Manifest, t: AssetGraph.AssetKind, l: seq<Option<string>>) {
    var a := Arrange(c, Templates.Get(man, t), s.rules, s.sta, s.m);
    && a.Ok? && |l| == |a.value|
    && forall k :: 0 <= k < |l| ==> EmittedAs(s.md5Map, a.value[k], l[k])
  }

  /** Every list a page has is its kind's `combine` result. */
  predicate ListsFor(s: Setup, c: Counting, man: Templates.Manifest, kinds: seq<AssetGraph.AssetKind>, lists: map<string, seq<Option<string>>>) {
    forall t :: t in kinds && TypeName(t) in lists ==> ListFor(s, c, man, t, lists[TypeName(t)])
  }

  lemma ListsForSkip(s: Setup, c: Counting, man: Templates.Manifest, kinds: seq<AssetGraph.AssetKind>, lists: map<string, seq<Option<string>>>)
    requires |kinds| > 0 && KeysFor(man, kinds[1..], lists) && ListsFor(s, c, man, kinds[1..], lists)
    ensures ListsFor(s, c, man, kinds, lists)
  {
    forall t | t in kinds && TypeName(t) in lists ensures ListFor(s, c, man, t, lists[TypeName(t)]) {
      var u :| u in kinds[1..] && TypeName(u) == TypeName(t);
      if t != u {
        TypeNameInjective(t, u);
      }
    }
  }

  lemma ListsForAdd(s: Setup, c: Counting, man: Templates.Manifest, kinds: seq<AssetGraph.AssetKind>, lists: map<string, seq<Option<string>>>, v: seq<Option<string>>)
    requires |kinds| > 0 && ListsFor(s, c, man, kinds[1..], lists) && ListFor(s, c, man, kinds[0], v)
    ensures ListsFor(s, c, man, kinds, lists[TypeName(kinds[0]) := v])
  {
    var l := lists[TypeName(kinds[0]) := v];
    forall t | t in kinds && TypeName(t) in l ensures ListFor(s, c, man, t, l[TypeName(t)]) {
      if t != kinds[0] {
        assert t in kinds[1..] by { KindsTail(kinds, t); }
        TypeNameInjective(t, kinds[0]);
      }
    }
  }

  /** `['headjs', 'css', 'js', 'modjs'].forEach(...)` for one page: an
      empty list is skipped and gets no key; the others are combined. */
  function CombinePage(s: Setup, c: Counting, man: Templates.Manifest, kinds: seq<AssetGraph.AssetKind>, cache: map<string, string>): (r: Result<Page>)
    ensures r.Ok? ==> Keeps(cache, r.value.cache)
    ensures r.Ok? ==> KeysFor(man, kinds, r.value.lists)
    ensures r.Ok? ==> ListsFor(s, c, man, kinds, r.value.lists)
    decreases |kinds|
  {
    if |kinds| == 0 then
      KeysForEmpty(man, kinds);
      Ok(Page(map[], cache))
    else
      var t := kinds[0];
      var deps := Templates.Get(man, t);
      if |deps| == 0 then
        var r := CombinePage(s, c, man, kinds[1..], cache);
        if r.Ok? then
          KeysForSkip(man, kinds, r.value.lists);
          ListsForSkip(s, c, man, kinds, r.value.lists);
          r
        else r
      else
        var one :- CombineList(s, c, t, deps, cache);
        var rest :- CombinePage(s, c, man, kinds[1..], one.cache);
        KeysForAdd(man, kinds, rest.lists, one.paths);
        ListsForAdd(s, c, man, kinds, rest.lists, one.paths);
        KeepsTrans(cache, one.cache, rest.cache);
        Ok(Page(rest.lists[TypeName(t) := one.paths], rest.cache))
  }

  /** No page gets a `tpl` or `xtpl` key: those lists are not combined. */
  lemma CombinePageKeys(s: Setup, c: Counting, man: Templates.Manifest, cache: map<string, string>)
    requires CombinePage(s, c, man, Kinds, cache).Ok?
    ensures "tpl" !in CombinePage(s, c, man, Kinds, cache).value.lists
    ensures "xtpl" !in CombinePage(s, c, man, Kinds, cache).value.lists
  {
    KindKeys(man, CombinePage(s, c, man, Kinds, cache).value.lists);
  }

  lemma KindKeys(man: Templates.Manifest, lists: map<string, seq<Option<string>>>)
    requires KeysFor(man, Kinds, lists)
    ensures forall k :: k in lists ==> k == "headjs" || k == "css" || k == "js" || k == "modjs"
  {
    forall k | k in lists ensures k == "headjs" || k == "css" || k == "js" || k == "modjs" {
      var t :| t in Kinds && TypeName(t) == k;
    }
  }

  datatype Site = Site(pages: map<string, map<string, seq<Option<string>>>>, cache: map<string, string>)

  /** A page's lists, as `combine` builds them from its manifest. */
  predicate PageFor(s: Setup, c: Counting, man: Templates.Manifest, lists: map<string, seq<Option<string>>>) {
    KeysFor(man, Kinds, lists) && ListsFor(s, c, man, Kinds, lists)
  }

  /** `depaMap[i]` is the first entry with its page name. */
  predicate FirstNamed(depaMap: seq<(string, Templates.Manifest)>, i: nat)
    requires i < |depaMap|
  {
    forall j :: 0 <= j < i ==> depaMap[j].0 != depaMap[i].0
  }

  /** The pages of a site are exactly the pages of the dependency map, and
      each holds the lists combined from that page's manifest. */
  predicate PagesFor(s: Setup, c: Counting, depaMap: seq<(string, Templates.Manifest)>, pages: map<string, map<string, seq<Option<string>>>>) {
    && (forall i :: 0 <= i < |depaMap| ==> depaMap[i].0 in pages)
    && (forall p :: p in pages ==> exists i :: 0 <= i < |depaMap| && depaMap[i].0 == p)
    && (forall i :: 0 <= i < |depaMap| && FirstNamed(depaMap, i) ==> PageFor(s, c, depaMap[i].1, pages[depaMap[i].0]))
  }

  lemma PagesForAdd(s: Setup, c: Counting, depaMap: seq<(string, Templates.Manifest)>, pages: map<string, map<string, seq<Option<string>>>>, v: map<string, seq<Option<string>>>)
    requires |depaMap| > 0 && PagesFor(s, c, depaMap[1..], pages) && PageFor(s, c, depaMap[0].1, v)
    ensures PagesFor(s, c, depaMap, pages[depaMap[0].0 := v])
  {
    var ps := pages[depaMap[0].0 := v];
    forall i | 0 <= i < |depaMap| ensures depaMap[i].0 in ps {
      if i > 0 {
        assert depaMap[i] == depaMap[1..][i - 1];
      }
    }
    forall p | p in ps ensures exists i :: 0 <= i < |depaMap| && depaMap[i].0 == p {
      if p != depaMap[0].0 {
        var i :| 0 <= i < |depaMap[1..]| && depaMap[1..][i].0 == p;
        assert depaMap[i + 1] == depaMap[1..][i];
      }
    }
    forall i | 0 <= i < |depaMap| && FirstNamed(depaMap, i) ensures PageFor(s, c, depaMap[i].1, ps[depaMap[i].0]) {
      if i > 0 {
        FirstNamedTail(depaMap, i);
      }
    }
  }

  lemma FirstNamedTail(depaMap: seq<(string, Templates.Manifest)>, i: nat)
    requires 0 < i < |depaMap| && FirstNamed(depaMap, i)
    ensures depaMap[i].0 != depaMap[0].0 && depaMap[1..][i - 1] == depaMap[i]
    ensures FirstNamed(depaMap[1..], i - 1)
  {
    assert forall j :: 0 <= j < i - 1 ==> depaMap[1..][j] == depaMap[j + 1];
  }

  /** Page names are object keys, so distinct: then every page holds the
      lists combined from its own manifest. */
  lemma CombineEveryPage(s: Setup, c: Counting, depaMap: seq<(string, Templates.Manifest)>, cache: map<string, string>, i: nat)
    requires Combine(s, c, depaMap, cache).Ok? && i < |depaMap|
    requires forall j, k :: 0 <= j < k < |depaMap| ==> depaMap[j].0 != depaMap[k].0
    ensures depaMap[i].0 in Combine(s, c, depaMap, cache).value.pages
    ensures PageFor(s, c, depaMap[i].1, Combine(s, c, depaMap, cache).value.pages[depaMap[i].0])
  {
    assert FirstNamed(depaMap, i);
  }

  /** `Object.keys(depaMap).forEach(...)`: every page of the dependency
      map, in its key order, gets an entry; the bundle cache is shared. */
  function Combine(s: Setup, c: Counting, depaMap: seq<(string, Templates.Manifest)>, cache: map<string, string>): (r: Result<Site>)
    ensures r.Ok? ==> Keeps(cache, r.value.cache)
    ensures r.Ok? ==> PagesFor(s, c, depaMap, r.value.pages)
    decreases |depaMap|
  {
    if |depaMap| == 0 then Ok(Site(map[], cache))
    else
      var one :- CombinePage(s, c, depaMap[0].1, Kinds, cache);
      var rest :- Combine(s, c, depaMap[1..], one.cache);
      PagesForAdd(s, c, depaMap, rest.pages, one.lists);
      KeepsTrans(cache, one.cache, rest.cache);
      Ok(Site(rest.pages[depaMap[0].0 := one.lists], rest.cache))
  }
}
