/** The direct-dependency scanner of modular scripts in depa.js
    (`assetParsers._modjs.parse`): whole-line comments are removed with two
    multiline regular expressions, then every `require("...")` call is
    extracted with a global one. Each expression is modelled as the match the
    backtracking engine settles on at a given position, and a global
    `replace`/`exec` loop as a scan that resumes where the last match ended. */
module Scanners {
  import opened Wrappers
  import opened Strings
  import opened Resolve

  /** Length of the run of `\s` characters starting at `p`. */
  function SpaceRun(s: string, p: nat): (n: nat)
    requires p <= |s|
    ensures p + n <= |s|
    decreases |s| - p
  {
    if p < |s| && IsSpace(s[p]) then 1 + SpaceRun(s, p + 1) else 0
  }

  /** Length of the run of characters `.` matches (no line terminator). */
  function LineRun(s: string, p: nat): (n: nat)
    requires p <= |s|
    ensures p + n <= |s|
    ensures p + n == |s| || IsLineTerminator(s[p + n])
    decreases |s| - p
  {
    if p < |s| && !IsLineTerminator(s[p]) then 1 + LineRun(s, p + 1) else 0
  }

  /** Where `^` holds in multiline mode. */
  predicate LineStart(s: string, p: nat) {
    p == 0 || (p <= |s| && IsLineTerminator(s[p - 1]))
  }

  /** Where `$` holds in multiline mode. */
  predicate LineEnd(s: string, p: nat) {
    p == |s| || (p < |s| && IsLineTerminator(s[p]))
  }

  /** The last position in `[lo, hi)` holding a line terminator. */
  function LastLineEnd(s: string, lo: nat, hi: nat): (r: Option<nat>)
    requires hi <= |s|
    ensures r.Some? ==> lo <= r.value < hi && LineEnd(s, r.value)
    ensures r.Some? ==> forall t :: r.value < t < hi ==> !LineEnd(s, t)
    ensures r.None? ==> forall t :: lo <= t < hi ==> !LineEnd(s, t)
    decreases hi
  {
    if hi <= lo then None
    else if IsLineTerminator(s[hi - 1]) then Some(hi - 1)
    else LastLineEnd(s, lo, hi - 1)
  }

  /** `\s*$` from `t0`: the greedy run of spaces, backed off to the last
      point where `$` holds. */
  function SpacesToLineEnd(s: string, t0: nat): (r: Option<nat>)
    requires t0 <= |s|
    ensures r.Some? ==> t0 <= r.value <= |s| && LineEnd(s, r.value)
  {
    var w := t0 + SpaceRun(s, t0);
    if w == |s| then Some(w) else LastLineEnd(s, t0, w)
  }

  /** A match end moved by `n` positions. */
  function ShiftOpt(o: Option<nat>, n: nat): Option<nat> {
    match o
    case Some(v) => Some(v + n)
    case None => None
  }

  // ---------------------------------------------------------------------
  // A global `replace(re, '')`
  // ---------------------------------------------------------------------

  /** A matcher gives, for a text and a position, where the match of the
      expression starting there ends. The comment expressions never match
      the empty string, so every match moves the scan forward. */
  ghost predicate Progress(at: (string, nat) -> Option<nat>) {
    forall t: string, p: nat :: p <= |t| && at(t, p).Some? ==> p < at(t, p).value <= |t|
  }

  /** `s.replace(re, '')` for a global `re` from position `i`: where a match
      starts it is dropped and the search resumes at its end; elsewhere the
      character is kept and the search moves on by one. */
  function ReplaceAll(s: string, i: nat, at: (string, nat) -> Option<nat>): (r: string)
    requires i <= |s| && Progress(at)
    ensures |r| <= |s| - i
    decreases |s| - i
  {
    if i == |s| then ""
    else match at(s, i)
      case Some(e) => ReplaceAll(s, e, at)
      case None => [s[i]] + ReplaceAll(s, i + 1, at)
  }

  /** Where nothing matches, nothing is removed. */
  lemma {:induction false} ReplaceAllNone(s: string, i: nat, at: (string, nat) -> Option<nat>)
    requires i <= |s| && Progress(at)
    requires forall q :: i <= q < |s| ==> at(s, q).None?
    ensures ReplaceAll(s, i, at) == s[i..]
    decreases |s| - i
  {
    if i < |s| {
      ReplaceAllNone(s, i + 1, at);
      assert s[i..] == [s[i]] + s[i + 1..];
    }
  }

  lemma ReplaceAllStepSome(s: string, i: nat, at: (string, nat) -> Option<nat>, e: nat)
    requires i < |s| && Progress(at) && at(s, i) == Some(e)
    ensures ReplaceAll(s, i, at) == ReplaceAll(s, e, at)
  {
  }

  lemma ReplaceAllStepNone(s: string, i: nat, at: (string, nat) -> Option<nat>)
    requires i < |s| && Progress(at) && at(s, i).None?
    ensures ReplaceAll(s, i, at) == [s[i]] + ReplaceAll(s, i + 1, at)
  {
  }

  /** Where nothing matches from `lo` to `k`, that stretch is kept as it is. */
  lemma {:induction false} ReplaceAllKeep(s: string, lo: nat, i: nat, k: nat, at: (string, nat) -> Option<nat>)
    requires lo <= i <= k <= |s| && Progress(at)
    requires forall q :: lo <= q < k ==> at(s, q).None?
    ensures ReplaceAll(s, i, at) == s[i..k] + ReplaceAll(s, k, at)
    decreases k - i
  {
    if i < k {
      ReplaceAllStepNone(s, i, at);
      ReplaceAllKeep(s, lo, i + 1, k, at);
      KeepOne(s, i, k, ReplaceAll(s, k, at));
    }
  }

  lemma KeepOne(s: string, i: nat, k: nat, rest: string)
    requires i < k <= |s|
    ensures [s[i]] + (s[i + 1..k] + rest) == s[i..k] + rest
  {
    assert s[i..k] == [s[i]] + s[i + 1..k];
    ConcatAssoc([s[i]], s[i + 1..k], rest);
  }

  /** The matcher finds the same matches in `r` whether or not `u` stands
      before it. */
  ghost predicate Shifts(u: string, r: string, at: (string, nat) -> Option<nat>) {
    forall q :: 0 <= q <= |r| ==> at(u + r, |u| + q) == ShiftOpt(at(r, q), |u|)
  }

  /** Such a matcher makes the replacement of `u + r` from `|u|` that of `r`. */
  lemma {:induction false} ReplaceAllShift(u: string, r: string, p: nat, at: (string, nat) -> Option<nat>)
    requires p <= |r| && Progress(at) && Shifts(u, r, at)
    ensures ReplaceAll(u + r, |u| + p, at) == ReplaceAll(r, p, at)
    decreases |r| - p
  {
    if p < |r| {
      var a := at(r, p);
      assert at(u + r, |u| + p) == ShiftOpt(a, |u|);
      if a.Some? {
        ReplaceAllStepSome(u + r, |u| + p, at, |u| + a.value);
        ReplaceAllStepSome(r, p, at, a.value);
        ReplaceAllShift(u, r, a.value, at);
      } else {
        ReplaceAllStepNone(u + r, |u| + p, at);
        ReplaceAllStepNone(r, p, at);
        assert (u + r)[|u| + p] == r[p];
        ReplaceAllShift(u, r, p + 1, at);
      }
    }
  }

  // ---------------------------------------------------------------------
  // /^\s*\/\*[\s\S]*?\*\/\s*$/mg  replaced by ''
  // ---------------------------------------------------------------------

  // The lazy `[\s\S]*?\*\/` followed by `\s*$`: the first closing star-slash
  // from `e` after which the line ends (through spaces).
  function CloseFrom(s: string, e: nat): (r: Option<nat>)
    requires e <= |s|
    ensures r.Some? ==> e + 2 <= r.value <= |s|
    decreases |s| - e
  {
    if e + 2 > |s| then None
    else if s[e] == '*' && s[e + 1] == '/' && SpacesToLineEnd(s, e + 2).Some? then SpacesToLineEnd(s, e + 2)
    else CloseFrom(s, e + 1)
  }

  predicate OpensBlockAt(s: string, q: nat) {
    q + 1 < |s| && s[q] == '/' && s[q + 1] == '*'
  }

  /** End of the block-comment match starting at `p`, if there is one. The
      leading `\s*` can only succeed at its greedy length, since `/` is not
      a space. */
  function BlockCommentAt(s: string, p: nat): (r: Option<nat>)
    requires p <= |s|
    ensures r.Some? ==> p < r.value <= |s|
  {
    if LineStart(s, p) then BlockFrom(s, p + SpaceRun(s, p)) else None
  }

  function BlockFrom(s: string, q: nat): (r: Option<nat>)
    requires q <= |s|
    ensures r.Some? ==> q < r.value <= |s|
  {
    if OpensBlockAt(s, q) then CloseFrom(s, q + 2) else None
  }

  /** `BlockCommentAt` as a total matcher. */
  function BlockMatcher(t: string, p: nat): (r: Option<nat>)
    ensures r.Some? ==> p < r.value <= |t|
  {
    if p <= |t| then BlockCommentAt(t, p) else None
  }

  lemma BlockProgress()
    ensures Progress(BlockMatcher)
  {
  }

  /** `content.replace(/^\s*\/\*[\s\S]*?\*\/\s*$/mg, '')`. */
  function StripBlockComments(s: string, i: nat): (r: string)
    requires i <= |s|
    ensures |r| <= |s| - i
  {
    BlockProgress();
    ReplaceAll(s, i, BlockMatcher)
  }

  // ---------------------------------------------------------------------
  // /^\s*\/\/.*$/mg  replaced by ''
  // ---------------------------------------------------------------------

  predicate OpensLineAt(s: string, q: nat) {
    q + 1 < |s| && s[q] == '/' && s[q + 1] == '/'
  }

  /** End of the line-comment match starting at `p`: the greedy `.*` always
      stops where `$` holds. */
  function LineCommentAt(s: string, p: nat): (r: Option<nat>)
    requires p <= |s|
    ensures r.Some? ==> p < r.value <= |s| && LineEnd(s, r.value)
  {
    if LineStart(s, p) then LineFrom(s, p + SpaceRun(s, p)) else None
  }

  function LineFrom(s: string, q: nat): (r: Option<nat>)
    requires q <= |s|
    ensures r.Some? ==> q < r.value <= |s| && LineEnd(s, r.value)
  {
    if OpensLineAt(s, q) then Some(q + 2 + LineRun(s, q + 2)) else None
  }

  /** `LineCommentAt` as a total matcher. */
  function LineMatcher(t: string, p: nat): (r: Option<nat>)
    ensures r.Some? ==> p < r.value <= |t|
  {
    if p <= |t| then LineCommentAt(t, p) else None
  }

  lemma LineProgress()
    ensures Progress(LineMatcher)
  {
  }

  /** `content.replace(/^\s*\/\/.*$/mg, '')`. */
  function StripLineComments(s: string, i: nat): (r: string)
    requires i <= |s|
    ensures |r| <= |s| - i
  {
    LineProgress();
    ReplaceAll(s, i, LineMatcher)
  }

  // ---------------------------------------------------------------------
  // /(?:^|[^.$])\brequire\s*\(\s*(["'])([^"'\s\)]+)\1\s*\)/g
  // ---------------------------------------------------------------------

  /** The class `[^"'\s\)]`. */
  predicate ArgChar(c: char) {
    c != '"' && c != '\'' && !IsSpace(c) && c != ')'
  }

  function ArgRun(s: string, p: nat): (n: nat)
    requires p <= |s|
    ensures p + n <= |s|
    ensures forall i :: p <= i < p + n ==> ArgChar(s[i])
    ensures p + n == |s| || !ArgChar(s[p + n])
    decreases |s| - p
  {
    if p < |s| && ArgChar(s[p]) then 1 + ArgRun(s, p + 1) else 0
  }

  predicate IsArg(x: string) {
    |x| > 0 && forall i :: 0 <= i < |x| ==> ArgChar(x[i])
  }

  /** The seven letters of `require` start at `k`. */
  predicate RequireWordAt(s: string, k: nat) {
    && k + 7 <= |s|
    && s[k] == 'r' && s[k + 1] == 'e' && s[k + 2] == 'q' && s[k + 3] == 'u'
    && s[k + 4] == 'i' && s[k + 5] == 'r' && s[k + 6] == 'e'
  }

  /** A match: where it ends and the quoted argument (group 2). */
  datatype Call = Call(end: nat, arg: string)

  /** `\brequire\s*\(\s*(["'])([^"'\s\)]+)\1\s*\)` at `k`. Every `\s*` and
      the argument run can only succeed at their greedy length, since the
      character that has to follow is outside their class. */
  function CallAt(s: string, k: nat): (r: Option<Call>)
    ensures r.Some? ==> RequireWordAt(s, k) && (k == 0 || !IsWordChar(s[k - 1]))
    ensures r.Some? ==> k + 7 < r.value.end <= |s| && IsArg(r.value.arg)
  {
    if !(RequireWordAt(s, k) && (k == 0 || !IsWordChar(s[k - 1]))) then None
    else
      var a := k + 7 + SpaceRun(s, k + 7);
      if !(a < |s| && s[a] == '(') then None
      else
        var b := a + 1 + SpaceRun(s, a + 1);
        if !(b < |s| && (s[b] == '"' || s[b] == '\'')) then None
        else
          var c := b + 1 + ArgRun(s, b + 1);
          if !(c > b + 1 && c < |s| && s[c] == s[b]) then None
          else
            var d := c + 1 + SpaceRun(s, c + 1);
            if !(d < |s| && s[d] == ')') then None
            else Some(Call(d + 1, s[b + 1..c]))
  }

  /** The whole expression at `p`: `^` (only at 0, no `m` flag) is tried
      before `[^.$]`, which consumes the character before `require`. */
  function MatchAt(s: string, p: nat): (r: Option<Call>)
    ensures r.Some? ==> p < r.value.end && IsArg(r.value.arg)
  {
    if p == 0 && CallAt(s, 0).Some? then CallAt(s, 0)
    else if p < |s| && s[p] != '.' && s[p] != '$' then CallAt(s, p + 1)
    else None
  }

  /** A call written as `require(...)` at `k`, not as a member `.require` or
      `$require`. */
  predicate CallFrom(s: string, k: nat, x: string) {
    CallAt(s, k).Some? && CallAt(s, k).value.arg == x && (k == 0 || (s[k - 1] != '.' && s[k - 1] != '$'))
  }

  /** The `exec` loop: group 2 of every match, in order. */
  function ScanRequires(s: string, i: nat): seq<string>
    decreases |s| + 1 - i
  {
    if i > |s| then []
    else match MatchAt(s, i)
      case Some(c) => [c.arg] + ScanRequires(s, c.end)
      case None => ScanRequires(s, i + 1)
  }

  /** Every extracted name is a non-empty run of characters other than
      quotes, white space and `)`. */
  lemma {:induction false} ScanRequiresArgs(s: string, i: nat)
    ensures forall j :: 0 <= j < |ScanRequires(s, i)| ==> IsArg(ScanRequires(s, i)[j])
    decreases |s| + 1 - i
  {
    if i <= |s| {
      match MatchAt(s, i)
      case Some(c) =>
        ScanRequiresArgs(s, c.end);
        var r := ScanRequires(s, c.end);
        assert forall j :: 1 <= j < |r| + 1 ==> ([c.arg] + r)[j] == r[j - 1];
      case None =>
        ScanRequiresArgs(s, i + 1);
    }
  }

  predicate FoundAfter(s: string, i: nat, x: string) {
    exists k :: i <= k <= |s| && CallFrom(s, k, x)
  }

  /** Every extracted argument is that of a `require(...)` call at or after
      the scan start that is not a member call `.require` / `$require`. */
  lemma {:induction false} ScanRequiresSound(s: string, i: nat)
    ensures forall x :: x in ScanRequires(s, i) ==> FoundAfter(s, i, x)
    decreases |s| + 1 - i
  {
    if i <= |s| {
      match MatchAt(s, i)
      case Some(c) =>
        ScanRequiresSound(s, c.end);
        var k := if i == 0 && CallAt(s, 0).Some? then 0 else i + 1;
        assert CallFrom(s, k, c.arg);
        forall x | x in ScanRequires(s, c.end)
          ensures FoundAfter(s, i, x)
        {
          var k' :| c.end <= k' <= |s| && CallFrom(s, k', x);
        }
      case None =>
        ScanRequiresSound(s, i + 1);
        forall x | x in ScanRequires(s, i + 1)
          ensures FoundAfter(s, i, x)
        {
          var k' :| i + 1 <= k' <= |s| && CallFrom(s, k', x);
        }
    }
  }

  lemma NoWordNoMatch(s: string, i: nat)
    requires !RequireWordAt(s, i) && !RequireWordAt(s, i + 1)
    ensures MatchAt(s, i).None?
  {
  }

  lemma ScanStepNone(s: string, i: nat)
    requires MatchAt(s, i).None?
    ensures ScanRequires(s, i) == ScanRequires(s, i + 1)
  {
  }

  lemma ScanStepSome(s: string, i: nat, c: Call)
    requires i <= |s| && MatchAt(s, i) == Some(c)
    ensures ScanRequires(s, i) == [c.arg] + ScanRequires(s, c.end)
  {
  }

  /** A call not preceded by `.` or `$` is matched from the character
      before it. */
  lemma MatchBefore(s: string, k: nat)
    requires k > 0 && CallAt(s, k).Some? && s[k - 1] != '.' && s[k - 1] != '$'
    requires k == 1 ==> !RequireWordAt(s, 0)
    ensures MatchAt(s, k - 1) == CallAt(s, k)
  {
  }

  /** Positions where no match starts add nothing to the scan. */
  lemma {:induction false} ScanPasses(s: string, lo: nat, i: nat, j: nat)
    requires lo <= i <= j && forall p :: lo <= p < j ==> MatchAt(s, p).None?
    ensures ScanRequires(s, i) == ScanRequires(s, j)
    decreases j - i
  {
    if i < j {
      ScanStepNone(s, i);
      ScanPasses(s, lo, i + 1, j);
    }
  }

  lemma NoWordsNoMatches(s: string, i: nat, j: nat)
    requires forall p :: i <= p <= j ==> !RequireWordAt(s, p)
    ensures forall p :: i <= p < j ==> MatchAt(s, p).None?
  {
    forall p | i <= p < j ensures MatchAt(s, p).None? {
      NoWordNoMatch(s, p);
    }
  }

  /** The scan finds the first `require(...)` call from where it starts,
      as long as the call is not a member call `.require` / `$require`. */
  lemma ScanRequiresFirst(s: string, i: nat, k: nat)
    requires (k == 0 && i == 0) || i < k
    requires CallAt(s, k).Some? && (k == 0 || (s[k - 1] != '.' && s[k - 1] != '$'))
    requires forall p :: i <= p < k ==> !RequireWordAt(s, p)
    ensures ScanRequires(s, i) == [CallAt(s, k).value.arg] + ScanRequires(s, CallAt(s, k).value.end)
  {
    var c := CallAt(s, k).value;
    if k == 0 {
      ScanStepSome(s, 0, c);
    } else {
      NoWordsNoMatches(s, i, k - 1);
      ScanPasses(s, i, i, k - 1);
      MatchBefore(s, k);
      ScanStepSome(s, k - 1, c);
    }
  }

  lemma MemberWordNoMatch(s: string, k: nat)
    requires k > 0 && RequireWordAt(s, k) && (s[k - 1] == '.' || s[k - 1] == '$')
    ensures MatchAt(s, k - 1).None? && MatchAt(s, k).None?
  {
    assert !RequireWordAt(s, k - 1);
    assert !RequireWordAt(s, k + 1);
  }

  /** A member call `.require(...)` or `$require(...)` is skipped. */
  lemma ScanSkipsMemberCall(s: string, i: nat, k: nat)
    requires i < k && RequireWordAt(s, k) && (s[k - 1] == '.' || s[k - 1] == '$')
    requires forall p :: i <= p < k ==> !RequireWordAt(s, p)
    ensures ScanRequires(s, i) == ScanRequires(s, k + 1)
  {
    NoWordsNoMatches(s, i, k - 1);
    ScanPasses(s, i, i, k - 1);
    MemberWordNoMatch(s, k);
    ScanStepNone(s, k - 1);
    ScanStepNone(s, k);
  }

  /** Without the word `require` nothing is extracted. */
  lemma {:induction false} ScanRequiresNone(s: string, i: nat)
    requires forall p :: i <= p ==> !RequireWordAt(s, p)
    ensures ScanRequires(s, i) == []
    decreases |s| + 1 - i
  {
    if i <= |s| {
      NoWordNoMatch(s, i);
      ScanStepNone(s, i);
      ScanRequiresNone(s, i + 1);
    }
  }

  // ---------------------------------------------------------------------
  // What the comment passes do
  // ---------------------------------------------------------------------

  /** Text with no comment opener is left alone by the first pass. */
  lemma StripBlockCommentsNone(s: string)
    requires forall q :: 0 <= q < |s| ==> !OpensBlockAt(s, q)
    ensures StripBlockComments(s, 0) == s
  {
    BlockProgress();
    forall q | 0 <= q < |s|
      ensures BlockMatcher(s, q).None?
    {
      assert !OpensBlockAt(s, q + SpaceRun(s, q));
    }
    ReplaceAllNone(s, 0, BlockMatcher);
  }

  /** Text without `//` is left alone by the second pass. */
  lemma StripLineCommentsNone(s: string)
    requires forall q :: 0 <= q < |s| ==> !OpensLineAt(s, q)
    ensures StripLineComments(s, 0) == s
  {
    LineProgress();
    forall q | 0 <= q < |s|
      ensures LineMatcher(s, q).None?
    {
      assert !OpensLineAt(s, q + SpaceRun(s, q));
    }
    ReplaceAllNone(s, 0, LineMatcher);
  }

  /** Text that follows a line break is processed as if it stood alone. */
  predicate AfterBreak(u: string) {
    |u| == 0 || IsLineTerminator(u[|u| - 1])
  }

  lemma {:induction false} SpaceRunShift(u: string, r: string, p: nat)
    requires p <= |r|
    ensures SpaceRun(u + r, |u| + p) == SpaceRun(r, p)
    decreases |r| - p
  {
    if p < |r| {
      assert (u + r)[|u| + p] == r[p];
      SpaceRunShift(u, r, p + 1);
    }
  }

  lemma {:induction false} LineRunShift(u: string, r: string, p: nat)
    requires p <= |r|
    ensures LineRun(u + r, |u| + p) == LineRun(r, p)
    decreases |r| - p
  {
    if p < |r| {
      assert (u + r)[|u| + p] == r[p];
      LineRunShift(u, r, p + 1);
    }
  }

  lemma LineStartShift(u: string, r: string, p: nat)
    requires AfterBreak(u) && p <= |r|
    ensures LineStart(u + r, |u| + p) <==> LineStart(r, p)
  {
    if p > 0 {
      assert (u + r)[|u| + p - 1] == r[p - 1];
    }
  }

  lemma {:induction false} LastLineEndShift(u: string, r: string, lo: nat, hi: nat)
    requires hi <= |r|
    ensures LastLineEnd(u + r, |u| + lo, |u| + hi) == ShiftOpt(LastLineEnd(r, lo, hi), |u|)
    decreases hi
  {
    if lo < hi {
      assert (u + r)[|u| + hi - 1] == r[hi - 1];
      LastLineEndShift(u, r, lo, hi - 1);
    }
  }

  lemma SpacesToLineEndShift(u: string, r: string, t: nat)
    requires t <= |r|
    ensures SpacesToLineEnd(u + r, |u| + t) == ShiftOpt(SpacesToLineEnd(r, t), |u|)
  {
    SpaceRunShift(u, r, t);
    LastLineEndShift(u, r, t, t + SpaceRun(r, t));
  }

  lemma {:induction false} CloseFromShift(u: string, r: string, e: nat)
    requires e <= |r|
    ensures CloseFrom(u + r, |u| + e) == ShiftOpt(CloseFrom(r, e), |u|)
    decreases |r| - e
  {
    if e + 2 <= |r| {
      assert (u + r)[|u| + e] == r[e] && (u + r)[|u| + e + 1] == r[e + 1];
      SpacesToLineEndShift(u, r, e + 2);
      CloseFromShift(u, r, e + 1);
    }
  }

  lemma BlockFromShift(u: string, r: string, q: nat)
    requires q <= |r|
    ensures BlockFrom(u + r, |u| + q) == ShiftOpt(BlockFrom(r, q), |u|)
  {
    if q + 1 < |r| {
      assert (u + r)[|u| + q] == r[q] && (u + r)[|u| + q + 1] == r[q + 1];
      CloseFromShift(u, r, q + 2);
    }
  }

  lemma BlockCommentAtShift(u: string, r: string, p: nat)
    requires AfterBreak(u) && p <= |r|
    ensures BlockCommentAt(u + r, |u| + p) == ShiftOpt(BlockCommentAt(r, p), |u|)
  {
    LineStartShift(u, r, p);
    SpaceRunShift(u, r, p);
    BlockFromShift(u, r, p + SpaceRun(r, p));
  }

  lemma LineFromShift(u: string, r: string, q: nat)
    requires q <= |r|
    ensures LineFrom(u + r, |u| + q) == ShiftOpt(LineFrom(r, q), |u|)
  {
    if q + 1 < |r| {
      assert (u + r)[|u| + q] == r[q] && (u + r)[|u| + q + 1] == r[q + 1];
      LineRunShift(u, r, q + 2);
    }
  }

  lemma LineCommentAtShift(u: string, r: string, p: nat)
    requires AfterBreak(u) && p <= |r|
    ensures LineCommentAt(u + r, |u| + p) == ShiftOpt(LineCommentAt(r, p), |u|)
  {
    LineStartShift(u, r, p);
    SpaceRunShift(u, r, p);
    LineFromShift(u, r, p + SpaceRun(r, p));
  }

  /** After a line break, the first pass goes on as on a text of its own. */
  lemma StripBlockCommentsShift(u: string, r: string)
    requires AfterBreak(u)
    ensures StripBlockComments(u + r, |u|) == StripBlockComments(r, 0)
  {
    BlockProgress();
    forall q | 0 <= q <= |r|
      ensures BlockMatcher(u + r, |u| + q) == ShiftOpt(BlockMatcher(r, q), |u|)
    {
      BlockCommentAtShift(u, r, q);
    }
    ReplaceAllShift(u, r, 0, BlockMatcher);
  }

  /** After a line break, the second pass goes on as on a text of its own. */
  lemma StripLineCommentsShift(u: string, r: string)
    requires AfterBreak(u)
    ensures StripLineComments(u + r, |u|) == StripLineComments(r, 0)
  {
    LineProgress();
    forall q | 0 <= q <= |r|
      ensures LineMatcher(u + r, |u| + q) == ShiftOpt(LineMatcher(r, q), |u|)
    {
      LineCommentAtShift(u, r, q);
    }
    ReplaceAllShift(u, r, 0, LineMatcher);
  }

  /** A `//` comment filling a line disappears; its line break stays. */
  lemma LineCommentDropped(x: string, t: char, r: string)
    requires forall i :: 0 <= i < |x| ==> !IsLineTerminator(x[i])
    requires IsLineTerminator(t)
    ensures StripLineComments("//" + x + [t] + r, 0) == [t] + StripLineComments(r, 0)
  {
    LineProgress();
    var u := "//" + x + [t];
    var s := u + r;
    assert s == "//" + x + [t] + r;
    var e := 2 + |x|;
    LineCommentLine(s, x);
    assert ReplaceAll(s, 0, LineMatcher) == ReplaceAll(s, e, LineMatcher);
    assert s[e] == t && !LineStart(s, e);
    assert ReplaceAll(s, e, LineMatcher) == [t] + ReplaceAll(s, |u|, LineMatcher);
    StripLineCommentsShift(u, r);
  }

  /** A line of code survives the second pass whole, a trailing `//`
      comment included: the expression only matches a comment that starts
      its line. */
  lemma CodeLineKept(c: string, t: char, r: string)
    requires |c| > 0 && !IsSpace(c[0]) && !(|c| >= 2 && c[0] == '/' && c[1] == '/')
    requires forall i :: 0 <= i < |c| ==> !IsLineTerminator(c[i])
    requires IsLineTerminator(t)
    ensures StripLineComments(c + [t] + r, 0) == c + [t] + StripLineComments(r, 0)
  {
    LineProgress();
    var u := c + [t];
    var s := u + r;
    forall q | 0 <= q < |u| ensures LineMatcher(s, q).None? {
      if q == 0 {
        assert s[0] == c[0] && SpaceRun(s, 0) == 0;
        assert s[1] == u[1];
      } else {
        assert s[q - 1] == c[q - 1];
      }
    }
    ReplaceAllKeep(s, 0, 0, |u|, LineMatcher);
    assert s[0..|u|] == u;
    StripLineCommentsShift(u, r);
  }

  /** A line starting with `//` is matched up to its end. */
  lemma LineCommentLine(s: string, x: string)
    requires forall i :: 0 <= i < |x| ==> !IsLineTerminator(x[i])
    requires |s| > 2 + |x| && s[..2 + |x|] == "//" + x && IsLineTerminator(s[2 + |x|])
    ensures LineCommentAt(s, 0) == Some(2 + |x|)
  {
    assert s[0] == '/' && s[1] == '/';
    assert forall i :: 2 <= i < 2 + |x| ==> s[i] == s[..2 + |x|][i] == x[i - 2];
    LineRunIs(s, 2, |x|);
  }

  lemma {:induction false} LineRunIs(s: string, p: nat, n: nat)
    requires p + n <= |s|
    requires forall i :: p <= i < p + n ==> !IsLineTerminator(s[i])
    requires p + n == |s| || IsLineTerminator(s[p + n])
    ensures LineRun(s, p) == n
    decreases n
  {
    if n > 0 {
      LineRunIs(s, p + 1, n - 1);
    }
  }

  /** A comment on a line of its own disappears; its line break stays. The
      comment may not close early and the next line starts with code. */
  lemma BlockCommentDropped(x: string, t: char, r: string)
    requires forall i :: 0 <= i < |x| - 1 ==> !(x[i] == '*' && x[i + 1] == '/')
    requires IsLineTerminator(t) && |r| > 0 && !IsSpace(r[0])
    ensures StripBlockComments("/*" + x + "*/" + [t] + r, 0) == [t] + StripBlockComments(r, 0)
  {
    var u := "/*" + x + "*/" + [t];
    var s := u + r;
    var e := 2 + |x|;
    assert s == "/*" + x + "*/" + [t] + r;
    assert forall i :: 2 <= i < e ==> s[i] == x[i - 2];
    assert s[e] == '*' && s[e + 1] == '/' && s[e + 2] == t && s[e + 3] == r[0];
    assert SpaceRun(s, e + 2) == 1;
    assert SpacesToLineEnd(s, e + 2) == Some(e + 2);
    CloseFromReaches(s, 2, e);
    assert BlockCommentAt(s, 0) == Some(e + 2);
    BlockProgress();
    assert ReplaceAll(s, 0, BlockMatcher) == ReplaceAll(s, e + 2, BlockMatcher);
    assert !LineStart(s, e + 2);
    assert BlockCommentAt(s, e + 2).None?;
    assert ReplaceAll(s, e + 2, BlockMatcher) == [t] + ReplaceAll(s, |u|, BlockMatcher);
    StripBlockCommentsShift(u, r);
  }

  lemma {:induction false} CloseFromReaches(s: string, from: nat, e: nat)
    requires from <= e && e + 2 <= |s|
    requires forall i :: from <= i < e ==> !(s[i] == '*' && s[i + 1] == '/')
    requires s[e] == '*' && s[e + 1] == '/' && SpacesToLineEnd(s, e + 2).Some?
    ensures CloseFrom(s, from) == SpacesToLineEnd(s, e + 2)
    decreases e - from
  {
    if from < e {
      CloseFromReaches(s, from + 1, e);
    }
  }

  /** `assetParsers._modjs.parse`: comments removed, then each required
      module path through `parsePath`. */
  function ModJsDeps(content: string): (r: seq<string>)
    ensures |r| == |ScanRequires(StripLineComments(StripBlockComments(content, 0), 0), 0)|
  {
    var code := StripLineComments(StripBlockComments(content, 0), 0);
    var args := ScanRequires(code, 0);
    seq(|args|, j requires 0 <= j < |args| => ParsePath(args[j]))
  }

  /** Code without comment openers goes straight to the `require` scan: the
      `j`-th dependency is `parsePath` of the `j`-th required name. */
  lemma ModJsDepsPlain(content: string)
    requires forall q :: 0 <= q < |content| ==> !OpensBlockAt(content, q) && !OpensLineAt(content, q)
    ensures |ModJsDeps(content)| == |ScanRequires(content, 0)|
    ensures forall j :: 0 <= j < |ScanRequires(content, 0)| ==> ModJsDeps(content)[j] == ParsePath(ScanRequires(content, 0)[j])
  {
    StripBlockCommentsNone(content);
    StripLineCommentsNone(content);
  }

  /** A `require` inside a whole-line `//` comment is not a dependency. */
  lemma ModJsCommentedRequire(x: string, t: char)
    requires forall i :: 0 <= i < |x| ==> !IsLineTerminator(x[i])
    requires IsLineTerminator(t)
    requires forall q :: 0 <= q < |"//" + x + [t]| ==> !OpensBlockAt("//" + x + [t], q)
    ensures ModJsDeps("//" + x + [t]) == []
  {
    var s := "//" + x + [t];
    StripBlockCommentsNone(s);
    LineCommentDropped(x, t, []);
    assert s + [] == s;
    assert StripLineComments([], 0) == [];
    assert [t] + [] == [t];
    ScanRequiresNone([t], 0);
  }
}
