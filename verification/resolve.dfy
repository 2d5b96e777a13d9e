/** Reference resolution of depa.js: `getRelPath` turns a reference written
    in a template, stylesheet or module into a path relative to the asset
    root with the kind's default extension, and `parsePath` rewrites
    `mod@ver` segments. */
module Resolve {
  import opened Wrappers
  import opened Strings
  import opened Util
  import opened Paths

  /** The `assetType` strings `getRelPath` is called with. */
  datatype AssetType = HeadJs | Css | Js | ModJs | Xtpl

  function TypeName(t: AssetType): string {
    match t
    case HeadJs => "headjs"
    case Css => "css"
    case Js => "js"
    case ModJs => "modjs"
    case Xtpl => "xtpl"
  }

  /** Extension added to a reference that has none (without the dot). */
  function DefaultExt(t: AssetType): string {
    match t
    case HeadJs => "raw.js"
    case Js => "raw.js"
    case ModJs => "js"
    case _ => TypeName(t)
  }

  // ---------------------------------------------------------------------
  // Query strings:  /\?.*$/  and  /\?(.*)$/
  // ---------------------------------------------------------------------

  predicate NoLineTerminator(s: string) {
    forall i :: 0 <= i < |s| ==> !IsLineTerminator(s[i])
  }

  /** Index of the leftmost `?` from which `.*$` reaches the end. */
  function QueryStart(s: string): (r: Option<nat>)
    ensures r.Some? ==> r.value < |s| && s[r.value] == '?' && NoLineTerminator(s[r.value + 1..])
    ensures r.Some? ==> forall k :: 0 <= k < r.value && s[k] == '?' ==> !NoLineTerminator(s[k + 1..])
    ensures r.None? ==> forall k :: 0 <= k < |s| && s[k] == '?' ==> !NoLineTerminator(s[k + 1..])
  {
    if |s| == 0 then None
    else if s[0] == '?' && NoLineTerminator(s[1..]) then Some(0)
    else match QueryStart(s[1..])
      case None => None
      case Some(i) =>
        assert s[1..][i + 1..] == s[i + 2..];
        assert forall k :: 1 <= k < |s| ==> s[1..][k - 1] == s[k] && s[1..][k..] == s[k + 1..];
        Some(i + 1)
  }

  /** The reference without its query, and the query text when there is one. */
  function SplitQuery(s: string): (string, Option<string>) {
    match QueryStart(s)
    case Some(i) => (s[..i], Some(s[i + 1..]))
    case None => (s, None)
  }

  function StripQuery(s: string): (r: string)
    ensures '?' !in s ==> r == s
    ensures NoLineTerminator(s) ==> '?' !in r
    ensures r == s || (|r| < |s| && r == s[..|r|] && s[|r|] == '?')
  {
    var r := SplitQuery(s).0;
    assert NoLineTerminator(s) ==> '?' !in r by {
      if NoLineTerminator(s) {
        QueryStartFirst(s);
      }
    }
    r
  }

  /** On a single line, the query starts at the first `?`. */
  lemma {:induction false} QueryStartFirst(s: string)
    requires NoLineTerminator(s)
    ensures '?' in s ==> QueryStart(s).Some? && '?' !in s[..QueryStart(s).value]
  {
    if |s| > 0 && s[0] != '?' {
      assert NoLineTerminator(s[1..]);
      QueryStartFirst(s[1..]);
      if '?' in s {
        assert '?' in s[1..];
        var i := QueryStart(s[1..]).value;
        assert s[..i + 1] == [s[0]] + s[1..][..i];
      }
    } else if |s| > 0 {
      assert NoLineTerminator(s[1..]);
    }
  }

  lemma StripQueryIdempotent(s: string)
    ensures StripQuery(StripQuery(s)) == StripQuery(s)
  {
    match QueryStart(s)
    case None =>
    case Some(i) =>
      var r := s[..i];
      forall k | 0 <= k < |r| && r[k] == '?'
        ensures !NoLineTerminator(r[k + 1..])
      {
        assert !NoLineTerminator(s[k + 1..]);
        var m :| 0 <= m < |s[k + 1..]| && IsLineTerminator(s[k + 1..][m]);
        assert k + 1 + m < i;
        assert r[k + 1..][m] == s[k + 1 + m];
      }
      assert QueryStart(r).None? by {
        QueryStartNone(r);
      }
  }

  lemma {:induction false} QueryStartNone(r: string)
    requires forall k :: 0 <= k < |r| && r[k] == '?' ==> !NoLineTerminator(r[k + 1..])
    ensures QueryStart(r).None?
  {
    if |r| > 0 {
      forall k | 0 <= k < |r[1..]| && r[1..][k] == '?'
        ensures !NoLineTerminator(r[1..][k + 1..])
      {
        assert r[1..][k + 1..] == r[k + 2..];
      }
      QueryStartNone(r[1..]);
    }
  }

  // ---------------------------------------------------------------------
  // getRelPath
  // ---------------------------------------------------------------------

  /** A resolved location before the default extension is added; `trailing`
      records the separator `path.join` keeps at the end. */
  datatype Located = Located(segs: Abs, trailing: bool)

  /** `.`-prefixed references resolve against the context file's directory
      (`path.resolve`), all others under the asset root (`path.join`). */
  function Locate(base: Abs, ctx: Abs, ref: string): Located {
    if |ref| > 0 && ref[0] == '.' then Located(Resolve(Dirname(ctx), ref), false)
    else Located(Resolve(base, ref), |ref| > 0 && ref[|ref| - 1] == '/')
  }

  /** `assetPath += '.' + ext` on the path string. */
  function AppendExt(loc: Located, t: AssetType): Abs {
    var suffix := "." + DefaultExt(t);
    var n := |loc.segs|;
    if loc.trailing || n == 0 then loc.segs + [suffix]
    else
      loc.segs[..n - 1] + [loc.segs[n - 1] + suffix]
  }

  lemma SuffixPlain(t: AssetType)
    ensures '\\' !in "." + DefaultExt(t) && '/' !in "." + DefaultExt(t)
  {
  }

  /** The extension step of `getRelPath`: add the kind's default extension
      unless `path.extname` finds one already. */
  function Finish(loc: Located, t: AssetType): Abs {
    if HasExt(loc.segs) then loc.segs else AppendExt(loc, t)
  }

  /** `getRelPath(assetPath, contextPath, assetType)`. */
  function GetRelPath(base: Abs, ref: string, ctx: Abs, t: AssetType): (r: string)
    ensures '\\' !in r
  {
    NormalizeSlash(Relative(base, Finish(Locate(base, ctx, StripQuery(ref)), t)))
  }

  lemma {:induction false} NotInJoin(c: char, sep: char, parts: seq<string>)
    requires c != sep
    requires forall i :: 0 <= i < |parts| ==> c !in parts[i]
    ensures c !in Join(sep, parts)
  {
    if |parts| > 1 {
      NotInJoin(c, sep, parts[1..]);
    }
  }

  lemma {:induction false} JoinAppendLast(sep: char, parts: seq<string>, suffix: string)
    requires |parts| > 0
    ensures Join(sep, parts[..|parts| - 1] + [parts[|parts| - 1] + suffix]) == Join(sep, parts) + suffix
  {
    var q := parts[..|parts| - 1] + [parts[|parts| - 1] + suffix];
    if |parts| > 1 {
      JoinAppendLast(sep, parts[1..], suffix);
      assert q[1..] == parts[1..][..|parts[1..]| - 1] + [parts[1..][|parts[1..]| - 1] + suffix];
    }
  }

  lemma {:induction false} JoinHead(sep: char, parts: seq<string>)
    requires |parts| > 0 && |parts[0]| > 0
    ensures |Join(sep, parts)| > 0 && Join(sep, parts)[0] == parts[0][0]
  {
  }

  lemma {:induction false} JoinLast(sep: char, parts: seq<string>)
    requires |parts| > 0 && |parts[|parts| - 1]| > 0
    ensures |Join(sep, parts)| > 0
    ensures Join(sep, parts)[|Join(sep, parts)| - 1] == parts[|parts| - 1][|parts[|parts| - 1]| - 1]
  {
    if |parts| > 1 {
      JoinLast(sep, parts[1..]);
    }
  }

  predicate Plain(segs: seq<string>) {
    forall i :: 0 <= i < |segs| ==> '\\' !in segs[i] && '?' !in segs[i] && NoLineTerminator(segs[i])
  }

  lemma PlainConcat(a: seq<string>, b: seq<string>)
    requires Plain(a) && Plain(b)
    ensures Plain(a + b)
  {
    assert forall i :: 0 <= i < |a + b| ==> (a + b)[i] == if i < |a| then a[i] else b[i - |a|];
  }

  /** The segments below the root once the extension step is done. */
  function WithExt(rest: Abs, t: AssetType): (r: Abs)
    requires |rest| > 0
  {
    var n := |rest|;
    if NameHasExt(rest[n - 1]) then rest
    else
      var suffix := "." + DefaultExt(t);
      rest[..n - 1] + [rest[n - 1] + suffix]
  }

  lemma FinishBelow(base: Abs, rest: Abs, t: AssetType)
    requires |rest| > 0
    ensures Finish(Located(base + rest, false), t) == base + WithExt(rest, t)
  {
    var segs := base + rest;
    assert segs[|segs| - 1] == rest[|rest| - 1];
    if !HasExt(segs) {
      var suffix := "." + DefaultExt(t);
      var last := rest[|rest| - 1] + suffix;
      assert AppendExt(Located(segs, false), t) == segs[..|segs| - 1] + [last];
      assert WithExt(rest, t) == rest[..|rest| - 1] + [last];
      assert segs[..|segs| - 1] == base + rest[..|rest| - 1];
    }
  }

  lemma WithExtJoin(rest: Abs, t: AssetType)
    requires |rest| > 0 && Plain(rest)
    ensures !NameHasExt(rest[|rest| - 1]) ==> Join('/', WithExt(rest, t)) == Join('/', rest) + "." + DefaultExt(t)
    ensures NameHasExt(rest[|rest| - 1]) ==> Join('/', WithExt(rest, t)) == Join('/', rest)
    ensures '\\' !in Join('/', WithExt(rest, t))
  {
    var w := WithExt(rest, t);
    if !NameHasExt(rest[|rest| - 1]) {
      var suffix := "." + DefaultExt(t);
      var last := rest[|rest| - 1] + suffix;
      assert w == rest[..|rest| - 1] + [last];
      JoinAppendLast('/', rest, suffix);
      assert Join('/', rest) + suffix == Join('/', rest) + "." + DefaultExt(t);
      SuffixPlain(t);
      assert '\\' !in last;
      assert forall i :: 0 <= i < |w| ==> '\\' !in w[i] by {
        assert forall i :: 0 <= i < |w| - 1 ==> w[i] == rest[i];
      }
    }
    NotInJoin('\\', '/', w);
  }

  /** Once a reference is located below the root, the result is the
      segments below the root, with the default extension when the last
      one has none. */
  lemma GetRelPathBelow(base: Abs, ref: string, ctx: Abs, t: AssetType, rest: Abs)
    requires |rest| > 0 && Plain(rest)
    requires Locate(base, ctx, StripQuery(ref)) == Located(base + rest, false)
    ensures !NameHasExt(rest[|rest| - 1]) ==> GetRelPath(base, ref, ctx, t) == Join('/', rest) + "." + DefaultExt(t)
    ensures NameHasExt(rest[|rest| - 1]) ==> GetRelPath(base, ref, ctx, t) == Join('/', rest)
  {
    FinishBelow(base, rest, t);
    RelativeBelow(base, WithExt(rest, t));
    WithExtJoin(rest, t);
    NormalizeSlashPlain(Join('/', WithExt(rest, t)));
  }

  lemma LocateRoot(base: Abs, ctx: Abs, segs: Abs)
    requires |segs| > 0 && IsNormal(segs) && Plain(segs) && segs[0][0] != '.'
    ensures StripQuery(Join('/', segs)) == Join('/', segs)
    ensures Locate(base, ctx, Join('/', segs)) == Located(base + segs, false)
  {
    NotInJoin('?', '/', segs);
    JoinHead('/', segs);
    JoinLast('/', segs);
    SplitJoin(segs, '/');
    WalkPlain(base, segs);
  }

  /** A plain reference not starting with `.` resolves under the asset root:
      it comes back as written, plus the kind's default extension when its
      last segment has none. */
  lemma GetRelPathFromRoot(base: Abs, ctx: Abs, t: AssetType, segs: Abs)
    requires |segs| > 0 && IsNormal(segs) && Plain(segs) && segs[0][0] != '.'
    ensures !NameHasExt(segs[|segs| - 1]) ==> GetRelPath(base, Join('/', segs), ctx, t) == Join('/', segs) + "." + DefaultExt(t)
    ensures NameHasExt(segs[|segs| - 1]) ==> GetRelPath(base, Join('/', segs), ctx, t) == Join('/', segs)
  {
    LocateRoot(base, ctx, segs);
    GetRelPathBelow(base, Join('/', segs), ctx, t, segs);
  }

  lemma SplitDotRef(segs: Abs)
    requires |segs| > 0 && IsNormal(segs)
    ensures Split("./" + Join('/', segs), '/') == ["."] + segs
  {
    var j := Join('/', segs);
    assert "./" + j == "." + ['/'] + j;
    SplitSepPrefix(".", j, '/');
    SplitJoin(segs, '/');
  }

  lemma ContextLocate(base: Abs, ctx: Abs, dir: Abs, ref: string, segs: Abs)
    requires Dirname(ctx) == base + dir && IsNormal(segs)
    requires |ref| > 0 && ref[0] == '.'
    requires Split(ref, '/') == ["."] + segs
    ensures Locate(base, ctx, ref) == Located(base + (dir + segs), false)
  {
    LocateDotIn(base, ctx, base + dir, ref, segs);
    ConcatAssoc(base, dir, segs);
  }

  lemma LocateDotIn(base: Abs, ctx: Abs, d: Abs, ref: string, segs: Abs)
    requires Dirname(ctx) == d && IsNormal(segs)
    requires |ref| > 0 && ref[0] == '.'
    requires Split(ref, '/') == ["."] + segs
    ensures Locate(base, ctx, ref) == Located(d + segs, false)
  {
    assert (["."] + segs)[0] == "." && (["."] + segs)[1..] == segs;
    WalkPlain(d, segs);
    assert Locate(base, ctx, ref) == Located(Resolve(d, ref), false);
  }

  /** A `./`-prefixed plain reference resolves in the directory of the
      file it is written in, here `dir` below the root. */
  lemma GetRelPathFromContext(base: Abs, ctx: Abs, dir: Abs, t: AssetType, segs: Abs)
    requires Dirname(ctx) == base + dir
    requires |segs| > 0 && IsNormal(segs) && Plain(segs) && Plain(dir)
    ensures !NameHasExt(segs[|segs| - 1]) ==>
      GetRelPath(base, "./" + Join('/', segs), ctx, t) == Join('/', dir + segs) + "." + DefaultExt(t)
    ensures NameHasExt(segs[|segs| - 1]) ==>
      GetRelPath(base, "./" + Join('/', segs), ctx, t) == Join('/', dir + segs)
  {
    var ref := "./" + Join('/', segs);
    SplitDotRef(segs);
    NotInJoin('?', '/', segs);
    assert '?' !in ref && ref[0] == '.';
    ContextLocate(base, ctx, dir, ref, segs);
    PlainConcat(dir, segs);
    assert (dir + segs)[|dir + segs| - 1] == segs[|segs| - 1];
    GetRelPathBelow(base, ref, ctx, t, dir + segs);
  }

  /** A query suffix never changes the resolved path. */
  lemma GetRelPathIgnoresQuery(base: Abs, ref: string, ctx: Abs, t: AssetType)
    ensures GetRelPath(base, ref, ctx, t) == GetRelPath(base, StripQuery(ref), ctx, t)
  {
    StripQueryIdempotent(ref);
  }

  // ---------------------------------------------------------------------
  // parsePath:  p.replace(/([^\\\/]+)@([^\\\/]+)/g, '$1/$2/$1')
  // ---------------------------------------------------------------------

  predicate IsSep(c: char) {
    c == '/' || c == '\\'
  }

  /** Length of the leading run of non-separator characters. */
  function SegRun(s: string): (n: nat)
    ensures n <= |s|
    ensures forall i :: 0 <= i < n ==> !IsSep(s[i])
    ensures n == |s| || IsSep(s[n])
  {
    if |s| > 0 && !IsSep(s[0]) then 1 + SegRun(s[1..]) else 0
  }

  /** The split point the greedy first group settles on: the last `@` with
      at least one character on each side. */
  function LastAt(seg: string, j: int): (r: Option<nat>)
    requires j < |seg|
    ensures r.Some? ==> 1 <= r.value <= j && r.value < |seg| - 1 && seg[r.value] == '@'
    ensures r.Some? ==> forall k :: r.value < k <= j && k < |seg| - 1 ==> seg[k] != '@'
    ensures r.None? ==> forall k :: 1 <= k <= j && k < |seg| - 1 ==> seg[k] != '@'
    decreases j
  {
    if j < 1 then None
    else if j < |seg| - 1 && seg[j] == '@' then Some(j)
    else LastAt(seg, j - 1)
  }

  function RewriteSegment(seg: string): string {
    match LastAt(seg, |seg| - 1)
    case Some(j) => seg[..j] + "/" + seg[j + 1..] + "/" + seg[..j]
    case None => seg
  }

  function ParsePath(s: string): string
    decreases |s|
  {
    if |s| == 0 then ""
    else if IsSep(s[0]) then [s[0]] + ParsePath(s[1..])
    else
      var n := SegRun(s);
      RewriteSegment(s[..n]) + ParsePath(s[n..])
  }

  /** A path is processed segment by segment. */
  lemma ParsePathSegment(seg: string, sep: char, rest: string)
    requires |seg| > 0 && IsSep(sep)
    requires forall i :: 0 <= i < |seg| ==> !IsSep(seg[i])
    ensures ParsePath(seg + [sep] + rest) == RewriteSegment(seg) + [sep] + ParsePath(rest)
  {
    var s := seg + ([sep] + rest);
    assert seg + [sep] + rest == s;
    assert s[..|seg|] == seg;
    assert s[|seg|..] == [sep] + rest;
    assert forall i :: 0 <= i < |seg| ==> s[i] == seg[i];
    SegRunIs(s, |seg|);
    assert !IsSep(s[0]);
    assert ParsePath(s) == RewriteSegment(seg) + ParsePath([sep] + rest);
    assert ([sep] + rest)[1..] == rest;
  }

  lemma {:induction false} SegRunIs(s: string, n: nat)
    requires n <= |s|
    requires forall i :: 0 <= i < n ==> !IsSep(s[i])
    requires n == |s| || IsSep(s[n])
    ensures SegRun(s) == n
  {
    if n > 0 {
      SegRunIs(s[1..], n - 1);
    }
  }

  /** Segments without `@` are left alone. */
  lemma RewriteSegmentNoAt(seg: string)
    requires '@' !in seg
    ensures RewriteSegment(seg) == seg
  {
  }

  /** `mod@ver` becomes `mod/ver/mod`; a `@` inside `mod` stays there. */
  lemma RewriteSegmentModVer(m: string, v: string)
    requires |m| > 0 && |v| > 0 && '@' !in v
    ensures RewriteSegment(m + "@" + v) == m + "/" + v + "/" + m
  {
    var seg := m + "@" + v;
    assert seg[|m|] == '@';
    assert forall k :: |m| < k < |seg| ==> seg[k] == v[k - |m| - 1];
    assert LastAt(seg, |seg| - 1) == Some(|m|) by {
      LastAtFinds(seg, |seg| - 1, |m|);
    }
    assert seg[..|m|] == m;
    assert seg[|m| + 1..] == v;
  }

  lemma {:induction false} LastAtFinds(seg: string, j: int, at: nat)
    requires j < |seg|
    requires 1 <= at <= j && at < |seg| - 1 && seg[at] == '@'
    requires forall k :: at < k <= j ==> seg[k] != '@'
    ensures LastAt(seg, j) == Some(at)
    decreases j
  {
    if j != at {
      LastAtFinds(seg, j - 1, at);
    }
  }

  /** A path without `@` is unchanged. */
  lemma {:induction false} ParsePathNoAt(s: string)
    requires '@' !in s
    ensures ParsePath(s) == s
    decreases |s|
  {
    if |s| > 0 {
      if IsSep(s[0]) {
        assert '@' !in s[1..];
        ParsePathNoAt(s[1..]);
        assert s == [s[0]] + s[1..];
      } else {
        var n := SegRun(s);
        var head, tail := s[..n], s[n..];
        assert s == head + tail;
        assert '@' !in head && '@' !in tail;
        RewriteSegmentNoAt(head);
        ParsePathNoAt(tail);
      }
    }
  }

  /** `mod@ver/rest` is `mod/ver/mod/rest`, as in `pkg@1.2.3/x`. */
  lemma ParsePathModVer(m: string, v: string, rest: string)
    requires |m| > 0 && |v| > 0 && '@' !in v
    requires forall i :: 0 <= i < |m| ==> !IsSep(m[i])
    requires forall i :: 0 <= i < |v| ==> !IsSep(v[i])
    ensures ParsePath(m + "@" + v + "/" + rest) == m + "/" + v + "/" + m + "/" + ParsePath(rest)
  {
    var seg := m + "@" + v;
    assert forall i :: 0 <= i < |seg| ==> seg[i] == if i < |m| then m[i] else if i == |m| then '@' else v[i - |m| - 1];
    assert m + "@" + v + "/" + rest == seg + ['/'] + rest;
    ParsePathSegment(seg, '/', rest);
    RewriteSegmentModVer(m, v);
  }
}
