/** The part of Node's POSIX `path` module the build relies on, over
    absolute paths kept as lists of segments: normalising `join`/`resolve`,
    `dirname`, whether `extname` is non-empty, and `relative`. */
module Paths {
  import opened Strings

  /** A segment of a normalised path: not empty, not `.` or `..`, no `/`. */
  predicate IsSegment(s: string) {
    s != "" && s != "." && s != ".." && '/' !in s
  }

  predicate IsNormal(p: seq<string>) {
    forall i :: 0 <= i < |p| ==> IsSegment(p[i])
  }

  /** An absolute path: `/a/b/c` is `["a", "b", "c"]`, `/` is `[]`. The
      paths the operations below produce from normal paths are normal
      (`WalkNormal`). */
  type Abs = seq<string>

  /** Applies `/`-separated parts to a directory the way `path.normalize`
      does: empty parts and `.` vanish, `..` climbs (never above `/`). */
  function Walk(cur: Abs, parts: seq<string>): Abs
    decreases |parts|
  {
    if |parts| == 0 then cur
    else if parts[0] == "" || parts[0] == "." then Walk(cur, parts[1..])
    else if parts[0] == ".." then Walk(if |cur| > 0 then cur[..|cur| - 1] else cur, parts[1..])
    else Walk(cur + [parts[0]], parts[1..])
  }

  /** Walking from a normal path with separator-free parts gives a normal path. */
  lemma {:induction false} WalkNormal(cur: Abs, parts: seq<string>)
    requires IsNormal(cur)
    requires forall i :: 0 <= i < |parts| ==> '/' !in parts[i]
    ensures IsNormal(Walk(cur, parts))
    decreases |parts|
  {
    if |parts| > 0 {
      if parts[0] == "" || parts[0] == "." {
        WalkNormal(cur, parts[1..]);
      } else if parts[0] == ".." {
        WalkNormal(if |cur| > 0 then cur[..|cur| - 1] else cur, parts[1..]);
      } else {
        NormalConcat(cur, [parts[0]]);
        WalkNormal(cur + [parts[0]], parts[1..]);
      }
    }
  }

  /** Parts that are plain segments are simply appended. */
  lemma {:induction false} WalkPlain(cur: Abs, parts: seq<string>)
    requires IsNormal(parts)
    ensures Walk(cur, parts) == cur + parts
    decreases |parts|
  {
    if |parts| > 0 {
      WalkPlain(cur + [parts[0]], parts[1..]);
      assert cur + [parts[0]] + parts[1..] == cur + parts;
    }
  }

  /** `path.resolve(dir, rel)` / `path.join(dir, rel)` for a relative `rel`,
      ignoring a trailing separator. */
  function Resolve(dir: Abs, rel: string): Abs {
    Walk(dir, Split(rel, '/'))
  }

  /** Joining a single plain segment appends it. */
  lemma ResolveSegment(dir: Abs, seg: string)
    requires IsSegment(seg)
    ensures Resolve(dir, seg) == dir + [seg]
  {
    SplitNoSep(seg, '/');
    WalkPlain(dir, [seg]);
  }

  /** `path.dirname`: the parent, and `/` for `/`. */
  function Dirname(p: Abs): (d: Abs)
    ensures |p| > 0 ==> p == d + [p[|p| - 1]]
  {
    if |p| > 0 then p[..|p| - 1] else p
  }

  /** `path.extname(name) !== ''` for the last component `name`: there is a
      dot after the first character, and the name is not `..`. */
  predicate NameHasExt(name: string) {
    |name| > 1 && '.' in name[1..] && name != ".."
  }

  predicate HasExt(p: Abs) {
    |p| > 0 && NameHasExt(p[|p| - 1])
  }

  lemma NormalConcat(a: Abs, b: Abs)
    requires IsNormal(a) && IsNormal(b)
    ensures IsNormal(a + b)
  {
    assert forall i :: 0 <= i < |a + b| ==> (a + b)[i] == if i < |a| then a[i] else b[i - |a|];
  }

  lemma ResolveNormal(dir: Abs, rel: string)
    requires IsNormal(dir)
    ensures IsNormal(Resolve(dir, rel))
  {
    WalkNormal(dir, Split(rel, '/'));
  }

  /** Number of leading segments two paths share. */
  function CommonLen(a: seq<string>, b: seq<string>): (n: nat)
    ensures n <= |a| && n <= |b|
    ensures a[..n] == b[..n]
    ensures n == |a| || n == |b| || a[n] != b[n]
  {
    if |a| > 0 && |b| > 0 && a[0] == b[0] then
      var n := 1 + CommonLen(a[1..], b[1..]);
      assert a[..n] == [a[0]] + a[1..][..n - 1];
      assert b[..n] == [b[0]] + b[1..][..n - 1];
      n
    else 0
  }

  function Ups(n: nat): (r: seq<string>)
    ensures |r| == n
    ensures forall i :: 0 <= i < n ==> r[i] == ".."
  {
    seq(n, _ => "..")
  }

  /** `path.relative(from, to)`: climb out of `from` to the shared prefix, then down into `to`. */
  function Relative(from: Abs, to: Abs): string {
    var c := CommonLen(from, to);
    Join('/', Ups(|from| - c) + to[c..])
  }

  lemma {:induction false} CommonLenPrefix(base: seq<string>, rest: seq<string>)
    ensures CommonLen(base, base + rest) == |base|
  {
    if |base| > 0 {
      assert (base + rest)[1..] == base[1..] + rest;
      CommonLenPrefix(base[1..], rest);
    }
  }

  /** A path below `from` is written relative to it as its remaining segments. */
  lemma RelativeBelow(from: Abs, rest: Abs)
    ensures Relative(from, from + rest) == Join('/', rest)
  {
    CommonLenPrefix(from, rest);
    assert (from + rest)[|from|..] == rest;
    assert Ups(0) + rest == rest;
  }

  /** A path written out as a string, as Node prints it: `/a/b`, or `/`. */
  function Format(p: Abs): string {
    "/" + Join('/', p)
  }

  /** `path.resolve(dir, p)`: an absolute `p` starts again from `/`. */
  function ResolveFrom(dir: Abs, p: string): Abs {
    if StartsWith(p, "/") then Walk([], Split(p, '/')) else Resolve(dir, p)
  }

  /** A reference that does not start with `/` is resolved from `dir`. */
  lemma ResolveFromRelative(dir: Abs, p: string)
    requires !StartsWith(p, "/")
    ensures ResolveFrom(dir, p) == Resolve(dir, p)
  {
  }

  /** A normal path written out resolves back to itself, from any directory. */
  lemma ResolveFromFormat(dir: Abs, p: Abs)
    requires IsNormal(p)
    ensures ResolveFrom(dir, Format(p)) == p
  {
    var s := Format(p);
    assert s[..1] == "/" && s[1..] == Join('/', p);
    if |p| == 0 {
      assert s == "/" && s[1..] == "";
      assert Split(s, '/') == [""] + [""];
      assert Walk([], [""]) == Walk([], []);
    } else {
      SplitJoin(p, '/');
      assert Split(s, '/') == [""] + p;
      assert ([""] + p)[1..] == p;
      WalkPlain([], p);
    }
  }

  /** A written-out path starts with `/`, then the first segment's first character. */
  lemma FormatHead(p: Abs)
    requires IsNormal(p) && |p| > 0
    ensures |Format(p)| > 1 && Format(p)[0] == '/' && Format(p)[1] == p[0][0]
  {
    assert IsSegment(p[0]);
    if |p| > 1 {
      assert Join('/', p) == p[0] + ['/'] + Join('/', p[1..]);
    }
  }
}
