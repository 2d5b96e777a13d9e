/** `assetParsers` of depa.js: the transitive closure of the same-kind
    dependencies of an asset, memoised per absolute path. File contents are a
    map; the `@import` scanner of stylesheets is a parameter. */
module AssetGraph {
  import opened Wrappers
  import opened Strings
  import opened Util
  import opened Paths
  import opened Resolve
  import opened Dedup
  import opened Scanners

  /** The kinds that have a dependency parser (`_headjs`, `_css`, `_js`, `_modjs`). */
  type AssetKind = t: AssetType | t != Xtpl witness HeadJs

  /** What the parsers read: the asset root, the files below it, the parser
      table (`assetParsers[type].parse`: the raw direct references of a
      file's text), and the reference resolver (`getRelPath` bound to the
      asset root). `DepaEnv` builds the environment depa.js sets up. */
  datatype Env = Env(
    base: Abs,
    files: map<Abs, string>,
    parse: (AssetKind, string) -> seq<string>,
    resolve: (string, Abs, AssetType) -> string)

  /** `parser.parse(filePath, fileContent)` of depa.js: the raw direct
      references; the `@import url(...)` scan of stylesheets is a parameter. */
  function DirectDeps(cssImports: string -> seq<string>, t: AssetKind, content: string): (r: seq<string>)
    ensures t == HeadJs || t == Js ==> r == []
  {
    match t
    case Css => cssImports(content)
    case ModJs => ModJsDeps(content)
    case _ => []
  }

  /** The environment depa.js sets up: its four parsers and `getRelPath`
      over the asset root. */
  function DepaEnv(base: Abs, files: map<Abs, string>, cssImports: string -> seq<string>): (env: Env)
    ensures env.base == base && env.files == files
    ensures forall t, content :: env.parse(t, content) == DirectDeps(cssImports, t, content)
    ensures forall ref, ctx, t :: env.resolve(ref, ctx, t) == GetRelPath(base, ref, ctx, t)
  {
    Env(base, files, (t: AssetKind, content) => DirectDeps(cssImports, t, content), (ref, ctx, t) => GetRelPath(base, ref, ctx, t))
  }

  /** A resolver whose results carry no backslash, as `getRelPath`'s do. */
  ghost predicate SlashFree(env: Env) {
    forall ref, ctx, t :: '\\' !in env.resolve(ref, ctx, t)
  }

  lemma DepaEnvSlashFree(base: Abs, files: map<Abs, string>, cssImports: string -> seq<string>)
    ensures SlashFree(DepaEnv(base, files, cssImports))
  {
  }

  /** The shape of every dependency list the parser produces and caches. */
  predicate DepList(deps: seq<string>) {
    NoDups(deps) && "" !in deps
  }

  predicate CacheOk(cache: map<Abs, seq<string>>) {
    forall k :: k in cache ==> DepList(cache[k])
  }

  /** Entries once written are never changed. */
  predicate Extends<K, V(==)>(old_: map<K, V>, new_: map<K, V>) {
    forall k :: k in old_ ==> k in new_ && new_[k] == old_[k]
  }

  datatype Parsed = Parsed(deps: seq<string>, cache: map<Abs, seq<string>>)

  /** `assetParsers.parse` for the file at `path`: a cached list is returned
      as it is (any entry, whatever kind wrote it); otherwise the file is
      read, every non-URL direct reference is resolved against the file and
      followed by its own closure, and the de-duplicated list is cached.
      The cache is written only after the recursion, so a cycle recurses
      until the fuel runs out. */
  function ParseFile(env: Env, cache: map<Abs, seq<string>>, path: Abs, t: AssetKind, fuel: nat): (r: Result<Parsed>)
    requires CacheOk(cache)
    ensures r.Ok? ==> CacheOk(r.value.cache) && Extends(cache, r.value.cache)
    ensures r.Ok? ==> path in r.value.cache && r.value.cache[path] == r.value.deps
    ensures r.Ok? ==> DepList(r.value.deps)
    decreases fuel, 0, 0
  {
    if path in cache then Ok(Parsed(cache[path], cache))
    else if fuel == 0 then Err(OutOfFuel)
    else if path !in env.files then Err(MissingFile(path))
    else
      var folded :- Fold(env, cache, path, t, env.parse(t, env.files[path]), [], fuel - 1);
      var deps := UniqueArray(folded.deps);
      Ok(Parsed(deps, folded.cache[path := deps]))
  }

  /** The `forEach` over the direct references of the file at `path`,
      appending to `acc`. */
  function Fold(env: Env, cache: map<Abs, seq<string>>, path: Abs, t: AssetKind, ds: seq<string>, acc: seq<string>, fuel: nat): (r: Result<Parsed>)
    requires CacheOk(cache)
    ensures r.Ok? ==> CacheOk(r.value.cache) && Extends(cache, r.value.cache)
    ensures r.Ok? ==> acc <= r.value.deps
    decreases fuel, 1, |ds|
  {
    if |ds| == 0 then Ok(Parsed(acc, cache))
    else if IsURL(ds[0]) then Fold(env, cache, path, t, ds[1..], acc, fuel)
    else
      var dep := env.resolve(ds[0], path, t);
      var sub :- ParseFile(env, cache, Paths.Resolve(env.base, dep), t, fuel);
      Fold(env, sub.cache, path, t, ds[1..], acc + [dep] + sub.deps, fuel)
  }

  /** One step of `ParseFile` on a path that is not cached. */
  lemma ParseFileUnfold(env: Env, cache: map<Abs, seq<string>>, path: Abs, t: AssetKind, fuel: nat)
    requires CacheOk(cache) && path !in cache && ParseFile(env, cache, path, t, fuel).Ok?
    ensures fuel > 0 && path in env.files
    ensures var f := Fold(env, cache, path, t, env.parse(t, env.files[path]), [], fuel - 1);
      f.Ok? && ParseFile(env, cache, path, t, fuel) == Ok(Parsed(UniqueArray(f.value.deps), f.value.cache[path := UniqueArray(f.value.deps)]))
  {
  }

  /** `assetParsers.parse(fileRelPath, type)`: the file is `path.join(basePath, fileRelPath)`. */
  function Parse(env: Env, cache: map<Abs, seq<string>>, rel: string, t: AssetKind, fuel: nat): (r: Result<Parsed>)
    requires CacheOk(cache)
    ensures r.Ok? ==> CacheOk(r.value.cache) && Extends(cache, r.value.cache) && DepList(r.value.deps)
    ensures r.Ok? ==> Paths.Resolve(env.base, rel) in r.value.cache
  {
    ParseFile(env, cache, Paths.Resolve(env.base, rel), t, fuel)
  }

  /** `x` is what the resolver makes of a reference that is not a URL. */
  ghost predicate FromLocalRef(env: Env, x: string) {
    exists ref, ctx, t :: !IsURL(ref) && x == env.resolve(ref, ctx, t)
  }

  ghost predicate CacheLocal(env: Env, cache: map<Abs, seq<string>>) {
    forall k, x :: k in cache && x in cache[k] ==> FromLocalRef(env, x)
  }

  /** URL references are never followed: every entry of a result, and of the
      cache, is the resolution of a local reference. */
  lemma {:induction false} ParseFileLocal(env: Env, cache: map<Abs, seq<string>>, path: Abs, t: AssetKind, fuel: nat)
    requires CacheOk(cache) && CacheLocal(env, cache)
    requires ParseFile(env, cache, path, t, fuel).Ok?
    ensures CacheLocal(env, ParseFile(env, cache, path, t, fuel).value.cache)
    ensures forall x :: x in ParseFile(env, cache, path, t, fuel).value.deps ==> FromLocalRef(env, x)
    decreases fuel, 0, 0
  {
    if path !in cache {
      ParseFileUnfold(env, cache, path, t, fuel);
      var ds := env.parse(t, env.files[path]);
      FoldLocal(env, cache, path, t, ds, [], fuel - 1);
      var folded := Fold(env, cache, path, t, ds, [], fuel - 1).value;
      CacheLocalWrite(env, folded.cache, path, folded.deps);
    }
  }

  lemma CacheLocalWrite(env: Env, cache: map<Abs, seq<string>>, path: Abs, ds: seq<string>)
    requires CacheLocal(env, cache) && forall x :: x in ds ==> FromLocalRef(env, x)
    ensures CacheLocal(env, cache[path := UniqueArray(ds)])
    ensures forall x :: x in UniqueArray(ds) ==> FromLocalRef(env, x)
  {
  }

  lemma {:induction false} FoldLocal(env: Env, cache: map<Abs, seq<string>>, path: Abs, t: AssetKind, ds: seq<string>, acc: seq<string>, fuel: nat)
    requires CacheOk(cache) && CacheLocal(env, cache)
    requires forall x :: x in acc ==> FromLocalRef(env, x)
    requires Fold(env, cache, path, t, ds, acc, fuel).Ok?
    ensures CacheLocal(env, Fold(env, cache, path, t, ds, acc, fuel).value.cache)
    ensures forall x :: x in Fold(env, cache, path, t, ds, acc, fuel).value.deps ==> FromLocalRef(env, x)
    decreases fuel, 1, |ds|
  {
    if |ds| > 0 {
      if IsURL(ds[0]) {
        FoldLocal(env, cache, path, t, ds[1..], acc, fuel);
      } else {
        var dep := env.resolve(ds[0], path, t);
        assert FromLocalRef(env, dep);
        var p := Paths.Resolve(env.base, dep);
        ParseFileLocal(env, cache, p, t, fuel);
        var sub := ParseFile(env, cache, p, t, fuel).value;
        FoldLocal(env, sub.cache, path, t, ds[1..], acc + [dep] + sub.deps, fuel);
      }
    }
  }

  /** With `getRelPath` as resolver, no entry holds a backslash. */
  lemma LocalSlashFree(env: Env, x: string)
    requires SlashFree(env) && FromLocalRef(env, x)
    ensures '\\' !in x
  {
  }

  // ---------------------------------------------------------------------
  // The closure without a cache
  // ---------------------------------------------------------------------

  /** The dependency closure the cache stands for: the first-occurrence
      de-duplication of each resolved direct reference followed by its own
      closure. */
  function Closure(env: Env, path: Abs, t: AssetKind, fuel: nat): (r: Result<seq<string>>)
    ensures r.Ok? ==> DepList(r.value)
    decreases fuel, 0, 0
  {
    if fuel == 0 then Err(OutOfFuel)
    else if path !in env.files then Err(MissingFile(path))
    else
      var all :- ClosureFold(env, path, t, env.parse(t, env.files[path]), fuel - 1);
      Ok(UniqueArray(all))
  }

  function ClosureFold(env: Env, path: Abs, t: AssetKind, ds: seq<string>, fuel: nat): (r: Result<seq<string>>)
    decreases fuel, 1, |ds|
  {
    if |ds| == 0 then Ok([])
    else if IsURL(ds[0]) then ClosureFold(env, path, t, ds[1..], fuel)
    else
      var dep := env.resolve(ds[0], path, t);
      var sub :- Closure(env, Paths.Resolve(env.base, dep), t, fuel);
      var rest :- ClosureFold(env, path, t, ds[1..], fuel);
      Ok([dep] + sub + rest)
  }

  /** More fuel never changes a closure that was found. */
  lemma {:induction false} ClosureMono(env: Env, path: Abs, t: AssetKind, fuel: nat, more: nat)
    requires fuel <= more && Closure(env, path, t, fuel).Ok?
    ensures Closure(env, path, t, more) == Closure(env, path, t, fuel)
    decreases fuel, 0, 0
  {
    ClosureOk(env, path, t, fuel);
    var ds := env.parse(t, env.files[path]);
    var all := ClosureFold(env, path, t, ds, fuel - 1).value;
    ClosureFoldMono(env, path, t, ds, fuel - 1, more - 1);
    ClosureIs(env, path, t, fuel, all);
    ClosureIs(env, path, t, more, all);
  }

  lemma ClosureOk(env: Env, path: Abs, t: AssetKind, fuel: nat)
    requires Closure(env, path, t, fuel).Ok?
    ensures fuel > 0 && path in env.files
    ensures ClosureFold(env, path, t, env.parse(t, env.files[path]), fuel - 1).Ok?
  {
  }

  /** A closure is the de-duplication of the fold of the direct references. */
  lemma ClosureIs(env: Env, path: Abs, t: AssetKind, fuel: nat, all: seq<string>)
    requires fuel > 0 && path in env.files
    requires ClosureFold(env, path, t, env.parse(t, env.files[path]), fuel - 1) == Ok(all)
    ensures Closure(env, path, t, fuel) == Ok(UniqueArray(all))
  {
  }

  lemma {:induction false} ClosureFoldMono(env: Env, path: Abs, t: AssetKind, ds: seq<string>, fuel: nat, more: nat)
    requires fuel <= more && ClosureFold(env, path, t, ds, fuel).Ok?
    ensures ClosureFold(env, path, t, ds, more) == ClosureFold(env, path, t, ds, fuel)
    decreases fuel, 1, |ds|
  {
    if |ds| > 0 {
      if IsURL(ds[0]) {
        ClosureFoldMono(env, path, t, ds[1..], fuel, more);
      } else {
        var dep := env.resolve(ds[0], path, t);
        ClosureMono(env, Paths.Resolve(env.base, dep), t, fuel, more);
        ClosureFoldMono(env, path, t, ds[1..], fuel, more);
      }
    }
  }

  /** Every cached list is the closure of its file, whatever fuel finds it. */
  ghost predicate CacheAgrees(env: Env, cache: map<Abs, seq<string>>, t: AssetKind) {
    forall k, f :: k in cache && Closure(env, k, t, f).Ok? ==> Closure(env, k, t, f).value == cache[k]
  }

  lemma CacheAgreesWrite(env: Env, cache: map<Abs, seq<string>>, t: AssetKind, path: Abs, fuel: nat)
    requires CacheAgrees(env, cache, t) && Closure(env, path, t, fuel).Ok?
    ensures CacheAgrees(env, cache[path := Closure(env, path, t, fuel).value], t)
  {
    var v := Closure(env, path, t, fuel).value;
    var c := cache[path := v];
    forall k, f | k in c && Closure(env, k, t, f).Ok?
      ensures Closure(env, k, t, f).value == c[k]
    {
      if k == path {
        ClosureUnique(env, path, t, f, fuel);
      } else {
        assert k in cache;
      }
    }
  }

  /** Any two fuels that find a closure find the same one. */
  lemma ClosureUnique(env: Env, path: Abs, t: AssetKind, f: nat, g: nat)
    requires Closure(env, path, t, f).Ok? && Closure(env, path, t, g).Ok?
    ensures Closure(env, path, t, f) == Closure(env, path, t, g)
  {
    if f <= g {
      ClosureMono(env, path, t, f, g);
    } else {
      ClosureMono(env, path, t, g, f);
    }
  }

  /** The cache is transparent: starting from a cache that agrees with the
      closure (the empty one, say), the memoised parser finds the closure
      whenever it exists, and its cache still agrees. */
  lemma {:induction false} ParseFileIsClosure(env: Env, cache: map<Abs, seq<string>>, path: Abs, t: AssetKind, fuel: nat)
    requires CacheOk(cache) && CacheAgrees(env, cache, t)
    requires Closure(env, path, t, fuel).Ok?
    ensures ParseFile(env, cache, path, t, fuel).Ok?
    ensures ParseFile(env, cache, path, t, fuel).value.deps == Closure(env, path, t, fuel).value
    ensures CacheAgrees(env, ParseFile(env, cache, path, t, fuel).value.cache, t)
    decreases fuel, 0, 0, 0
  {
    if path !in cache {
      var ds := env.parse(t, env.files[path]);
      FoldIsClosure(env, cache, path, t, ds, [], fuel - 1);
      var folded := Fold(env, cache, path, t, ds, [], fuel - 1).value;
      assert folded.deps == ClosureFold(env, path, t, ds, fuel - 1).value;
      CacheAgreesWrite(env, folded.cache, t, path, fuel);
    }
  }

  lemma {:induction false} FoldIsClosure(env: Env, cache: map<Abs, seq<string>>, path: Abs, t: AssetKind, ds: seq<string>, acc: seq<string>, fuel: nat)
    requires CacheOk(cache) && CacheAgrees(env, cache, t)
    requires ClosureFold(env, path, t, ds, fuel).Ok?
    ensures Fold(env, cache, path, t, ds, acc, fuel).Ok?
    ensures Fold(env, cache, path, t, ds, acc, fuel).value.deps == acc + ClosureFold(env, path, t, ds, fuel).value
    ensures CacheAgrees(env, Fold(env, cache, path, t, ds, acc, fuel).value.cache, t)
    decreases fuel, 1, |ds|, 1
  {
    if |ds| == 0 {
      assert acc + [] == acc;
    } else if IsURL(ds[0]) {
      FoldIsClosure(env, cache, path, t, ds[1..], acc, fuel);
    } else {
      FoldStepIsClosure(env, cache, path, t, ds, acc, fuel);
    }
  }

  lemma {:induction false} FoldStepIsClosure(env: Env, cache: map<Abs, seq<string>>, path: Abs, t: AssetKind, ds: seq<string>, acc: seq<string>, fuel: nat)
    requires CacheOk(cache) && CacheAgrees(env, cache, t)
    requires |ds| > 0 && !IsURL(ds[0])
    requires ClosureFold(env, path, t, ds, fuel).Ok?
    ensures Fold(env, cache, path, t, ds, acc, fuel).Ok?
    ensures Fold(env, cache, path, t, ds, acc, fuel).value.deps == acc + ClosureFold(env, path, t, ds, fuel).value
    ensures CacheAgrees(env, Fold(env, cache, path, t, ds, acc, fuel).value.cache, t)
    decreases fuel, 1, |ds|, 0
  {
    var dep := env.resolve(ds[0], path, t);
    var p := Paths.Resolve(env.base, dep);
    ParseFileIsClosure(env, cache, p, t, fuel);
    var sub := ParseFile(env, cache, p, t, fuel).value;
    var acc' := acc + [dep] + sub.deps;
    assert Fold(env, cache, path, t, ds, acc, fuel) == Fold(env, sub.cache, path, t, ds[1..], acc', fuel);
    FoldIsClosure(env, sub.cache, path, t, ds[1..], acc', fuel);
    var rest := ClosureFold(env, path, t, ds[1..], fuel).value;
    assert ClosureFold(env, path, t, ds, fuel).value == [dep] + sub.deps + rest;
    ConcatAssoc(acc + [dep], sub.deps, rest);
    ConcatAssoc(acc, [dep], sub.deps + rest);
    ConcatAssoc([dep], sub.deps, rest);
  }

  /** With no cache the parser computes exactly the closure. */
  lemma ParseIsClosure(env: Env, rel: string, t: AssetKind, fuel: nat)
    requires Closure(env, Paths.Resolve(env.base, rel), t, fuel).Ok?
    ensures Parse(env, map[], rel, t, fuel).Ok?
    ensures Parse(env, map[], rel, t, fuel).value.deps == Closure(env, Paths.Resolve(env.base, rel), t, fuel).value
  {
    ParseFileIsClosure(env, map[], Paths.Resolve(env.base, rel), t, fuel);
  }

  // ---------------------------------------------------------------------
  // What the closure contains
  // ---------------------------------------------------------------------

  /** Head scripts and plain scripts have no dependencies. */
  lemma ScriptsHaveNoDeps(base: Abs, files: map<Abs, string>, cssImports: string -> seq<string>, cache: map<Abs, seq<string>>, path: Abs, t: AssetKind, fuel: nat)
    requires CacheOk(cache) && (t == HeadJs || t == Js)
    requires path !in cache && path in files && fuel > 0
    ensures ParseFile(DepaEnv(base, files, cssImports), cache, path, t, fuel) == Ok(Parsed([], cache[path := []]))
  {
    var env := DepaEnv(base, files, cssImports);
    assert env.parse(t, env.files[path]) == [];
    assert UniqueArray([]) == [];
  }

  /** Every non-URL direct reference of a file parsed afresh, once resolved,
      is in its result (unless it resolves to the asset root itself). */
  lemma ParseFileHasDirectDeps(env: Env, cache: map<Abs, seq<string>>, path: Abs, t: AssetKind, fuel: nat, d: string)
    requires CacheOk(cache) && path !in cache && path in env.files
    requires d in env.parse(t, env.files[path]) && !IsURL(d)
    requires ParseFile(env, cache, path, t, fuel).Ok?
    requires env.resolve(d, path, t) != ""
    ensures env.resolve(d, path, t) in ParseFile(env, cache, path, t, fuel).value.deps
  {
    ParseFileUnfold(env, cache, path, t, fuel);
    FoldHasDirectDeps(env, cache, path, t, env.parse(t, env.files[path]), [], fuel - 1, d);
  }

  lemma {:induction false} FoldHasDirectDeps(env: Env, cache: map<Abs, seq<string>>, path: Abs, t: AssetKind, ds: seq<string>, acc: seq<string>, fuel: nat, d: string)
    requires CacheOk(cache)
    requires d in ds && !IsURL(d)
    requires Fold(env, cache, path, t, ds, acc, fuel).Ok?
    ensures env.resolve(d, path, t) in Fold(env, cache, path, t, ds, acc, fuel).value.deps
    decreases |ds|
  {
    if IsURL(ds[0]) {
      FoldHasDirectDeps(env, cache, path, t, ds[1..], acc, fuel, d);
    } else {
      var dep := env.resolve(ds[0], path, t);
      var sub := ParseFile(env, cache, Paths.Resolve(env.base, dep), t, fuel).value;
      var acc' := acc + [dep] + sub.deps;
      var r := Fold(env, sub.cache, path, t, ds[1..], acc', fuel).value;
      if d == ds[0] {
        assert acc' <= r.deps && acc'[|acc|] == dep;
      } else {
        FoldHasDirectDeps(env, sub.cache, path, t, ds[1..], acc', fuel, d);
      }
    }
  }

  /** A file whose every reference is a URL depends on nothing. */
  lemma {:induction false} FoldAllURLs(env: Env, cache: map<Abs, seq<string>>, path: Abs, t: AssetKind, ds: seq<string>, acc: seq<string>, fuel: nat)
    requires CacheOk(cache)
    requires forall d :: d in ds ==> IsURL(d)
    ensures Fold(env, cache, path, t, ds, acc, fuel) == Ok(Parsed(acc, cache))
    decreases |ds|
  {
    if |ds| > 0 {
      assert ds[0] in ds;
      FoldAllURLs(env, cache, path, t, ds[1..], acc, fuel);
    }
  }

  /** The first resolved reference leads the closure. */
  lemma ClosureFirst(env: Env, path: Abs, t: AssetKind, fuel: nat, d: string)
    requires fuel > 0 && path in env.files && Closure(env, path, t, fuel).Ok?
    requires var ds := env.parse(t, env.files[path]); |ds| > 0 && ds[0] == d && !IsURL(d)
    requires env.resolve(d, path, t) != ""
    ensures |Closure(env, path, t, fuel).value| > 0
    ensures Closure(env, path, t, fuel).value[0] == env.resolve(d, path, t)
  {
    var ds := env.parse(t, env.files[path]);
    var all := ClosureFold(env, path, t, ds, fuel - 1).value;
    ClosureIs(env, path, t, fuel, all);
    ClosureFoldFirst(env, path, t, ds, fuel - 1);
    UniqueHead(env.resolve(d, path, t), all);
  }

  lemma ClosureFoldFirst(env: Env, path: Abs, t: AssetKind, ds: seq<string>, fuel: nat)
    requires |ds| > 0 && !IsURL(ds[0]) && ClosureFold(env, path, t, ds, fuel).Ok?
    ensures |ClosureFold(env, path, t, ds, fuel).value| > 0
    ensures ClosureFold(env, path, t, ds, fuel).value[0] == env.resolve(ds[0], path, t)
  {
  }

  /** A list led by a non-empty name keeps it in front after de-duplication. */
  lemma UniqueHead(dep: string, all: seq<string>)
    requires |all| > 0 && all[0] == dep && dep != ""
    ensures |UniqueArray(all)| > 0 && UniqueArray(all)[0] == dep
  {
    UniqueArrayPrefix([dep], all[1..]);
    assert [dep] + all[1..] == all;
    assert UniqueArray([dep]) == [dep] by {
      assert [dep][..0] == [];
    }
  }
}
