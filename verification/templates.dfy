/** `tplParser` of depa.js and the page loop around it: each template's
    manifest of the templates it relies on and the head scripts, stylesheets,
    scripts and modules it needs, memoised per template path. The directive
    expressions themselves are a parameter: they hand over the asset items
    and relation targets of a template's text in source order. */
module Templates {
  import opened Wrappers
  import opened Strings
  import opened Util
  import opened Paths
  import opened Resolve
  import opened Dedup
  import opened AssetGraph

  /** One quoted item of an asset-list directive such as `{{ css('a', 'b') }}`. */
  datatype AssetRef = AssetRef(kind: AssetKind, path: string)

  /** What a template's text declares: the items of its asset-list directives
      and the quoted targets of its `extend`, `parse`, `include` and
      `includeOnce` directives, each in source order. */
  datatype Directives = Directives(assets: seq<AssetRef>, relations: seq<string>)

  datatype World = World(env: Env, directives: string -> Directives)

  /** The five lists of a template's result object. */
  datatype Manifest = Manifest(tpl: seq<string>, headjs: seq<string>, css: seq<string>, js: seq<string>, modjs: seq<string>)

  const Empty := Manifest([], [], [], [], [])

  /** `result[key]`, where `Xtpl` stands for the key `tpl`. */
  function Get(m: Manifest, t: AssetType): seq<string> {
    match t
    case Xtpl => m.tpl
    case HeadJs => m.headjs
    case Css => m.css
    case Js => m.js
    case ModJs => m.modjs
  }

  /** `result[key] = result[key].concat(xs)`. */
  function Append(m: Manifest, t: AssetType, xs: seq<string>): (r: Manifest)
    ensures Get(r, t) == Get(m, t) + xs
    ensures forall u :: u != t ==> Get(r, u) == Get(m, u)
  {
    match t
    case Xtpl => m.(tpl := m.tpl + xs)
    case HeadJs => m.(headjs := m.headjs + xs)
    case Css => m.(css := m.css + xs)
    case Js => m.(js := m.js + xs)
    case ModJs => m.(modjs := m.modjs + xs)
  }

  predicate WellFormed(m: Manifest) {
    DepList(m.tpl) && DepList(m.headjs) && DepList(m.css) && DepList(m.js) && DepList(m.modjs)
  }

  /** The final `uniqueArray` over every key. */
  function Finalize(m: Manifest): (r: Manifest)
    ensures WellFormed(r)
    ensures forall t, x :: x in Get(r, t) <==> x in Get(m, t) && x != ""
  {
    Manifest(UniqueArray(m.tpl), UniqueArray(m.headjs), UniqueArray(m.css), UniqueArray(m.js), UniqueArray(m.modjs))
  }

  // ---------------------------------------------------------------------
  // Template relations
  // ---------------------------------------------------------------------

  /** `match[2].replace(/\?(.*)$/, ...)`: the target without its query, and
      whether the query is exactly `csr` or `csrOnly` (`/^csr(?:Only)?$/`). */
  function ParseRelation(raw: string): (r: (string, bool))
    ensures r.0 == StripQuery(raw)
  {
    match SplitQuery(raw)
    case (p, Some(q)) => (p, q == "csr" || q == "csrOnly")
    case (p, None) => (p, false)
  }

  /** A relation on one line: the target is the text before the first `?`,
      and only the queries `csr` and `csrOnly` ask for rendering in the
      browser; any other query is dropped without effect. */
  lemma ParseRelationQuery(p: string, q: string)
    requires '?' !in p && NoLineTerminator(p + "?" + q)
    ensures ParseRelation(p + "?" + q) == (p, q == "csr" || q == "csrOnly")
  {
    var s := p + "?" + q;
    assert s[|p|] == '?' && s[..|p|] == p && s[|p| + 1..] == q;
    assert forall k :: 0 <= k < |p| ==> s[k] == p[k];
    assert NoLineTerminator(q) by {
      assert forall k :: 0 <= k < |q| ==> q[k] == s[|p| + 1 + k];
    }
    assert QueryStart(s) == Some(|p|);
  }

  lemma ParseRelationPlain(p: string)
    requires '?' !in p
    ensures ParseRelation(p) == (p, false)
  {
    assert QueryStart(p).None?;
  }

  /** A followed relation: the resolved target, whether it is rendered in the
      browser, and the target's own manifest. */
  datatype Link = Link(target: string, csr: bool, nested: Manifest)

  /** `p + '.js'` for every template `p`. */
  function JsNames(tpls: seq<string>): (r: seq<string>)
    ensures |r| == |tpls|
    ensures forall i :: 0 <= i < |r| ==> r[i] == tpls[i] + ".js"
  {
    seq(|tpls|, i requires 0 <= i < |tpls| => tpls[i] + ".js")
  }

  /** One relation's effect on the result object: `result.tpl.push(depTpl)`,
      `concatObj(result, depResult)`, and for a browser-rendered template the
      `.js` names of its nested templates and of itself. */
  function AddRelation(m: Manifest, l: Link): (r: Manifest)
    ensures m.tpl <= r.tpl && m.headjs <= r.headjs && m.css <= r.css && m.js <= r.js && m.modjs <= r.modjs
    ensures l.target in r.tpl
  {
    var n := l.nested;
    Manifest(
      m.tpl + [l.target] + n.tpl,
      m.headjs + n.headjs,
      m.css + n.css,
      m.js + n.js,
      m.modjs + n.modjs + (if l.csr then JsNames(n.tpl) + [l.target + ".js"] else []))
  }

  function AddRelations(m: Manifest, links: seq<Link>): Manifest
    decreases |links|
  {
    if |links| == 0 then m else AddRelations(AddRelation(m, links[0]), links[1..])
  }

  /** Relations only ever add to the end of every list. */
  lemma {:induction false} AddRelationsExtends(m: Manifest, links: seq<Link>, t: AssetType)
    ensures Get(m, t) <= Get(AddRelations(m, links), t)
    decreases |links|
  {
    if |links| > 0 {
      var m' := AddRelation(m, links[0]);
      assert Get(m, t) <= Get(m', t);
      AddRelationsExtends(m', links[1..], t);
    }
  }

  /** What one relation brings in is in the unfinished lists for good. */
  lemma {:induction false} AddRelationsKeeps(m: Manifest, links: seq<Link>, t: AssetType, x: string)
    requires x in Get(m, t)
    ensures x in Get(AddRelations(m, links), t)
  {
    AddRelationsExtends(m, links, t);
  }

  /** Every relation target is listed under `tpl`, its manifest's lists are
      merged into the same keys, and a browser-rendered target adds the `.js`
      names of its nested templates and of itself to `modjs`. */
  lemma {:induction false} AddRelationsHas(m: Manifest, links: seq<Link>, i: nat)
    requires i < |links|
    ensures links[i].target in AddRelations(m, links).tpl
    ensures forall t, x :: x in Get(links[i].nested, t) ==> x in Get(AddRelations(m, links), t)
    ensures links[i].csr ==> links[i].target + ".js" in AddRelations(m, links).modjs
    ensures links[i].csr ==> forall p :: p in links[i].nested.tpl ==> p + ".js" in AddRelations(m, links).modjs
    decreases |links|
  {
    var m' := AddRelation(m, links[0]);
    if i > 0 {
      AddRelationsHas(m', links[1..], i - 1);
    } else {
      var l := links[0];
      var r := AddRelations(m, links);
      AddRelationsKeeps(m', links[1..], Xtpl, l.target);
      forall t, x | x in Get(l.nested, t)
        ensures x in Get(r, t)
      {
        AddRelationsKeeps(m', links[1..], t, x);
      }
      if l.csr {
        AddRelationsKeeps(m', links[1..], ModJs, l.target + ".js");
        forall p | p in l.nested.tpl
          ensures p + ".js" in r.modjs
        {
          var j :| 0 <= j < |l.nested.tpl| && l.nested.tpl[j] == p;
          assert JsNames(l.nested.tpl)[j] == p + ".js";
          AddRelationsKeeps(m', links[1..], ModJs, p + ".js");
        }
      }
    }
  }

  /** Conversely, without browser-rendered relations every `modjs` entry
      comes from the template's own declarations or a nested manifest. */
  lemma {:induction false} AddRelationsModJs(m: Manifest, links: seq<Link>, x: string)
    requires forall i :: 0 <= i < |links| ==> !links[i].csr
    requires x in AddRelations(m, links).modjs
    ensures x in m.modjs || exists i :: 0 <= i < |links| && x in links[i].nested.modjs
    decreases |links|
  {
    if |links| > 0 {
      var m' := AddRelation(m, links[0]);
      AddRelationsModJs(m', links[1..], x);
      if x !in m.modjs && x !in links[0].nested.modjs {
        var i :| 0 <= i < |links[1..]| && x in links[1..][i].nested.modjs;
        assert links[i + 1] == links[1..][i];
      }
    }
  }

  // ---------------------------------------------------------------------
  // The parser
  // ---------------------------------------------------------------------

  /** The two caches: `assetParsers._cache` and `tplParser._cache`. */
  datatype State = State(assets: map<Abs, seq<string>>, tpls: map<string, Manifest>)

  predicate StateOk(st: State) {
    CacheOk(st.assets) && forall k :: k in st.tpls ==> WellFormed(st.tpls[k])
  }

  const Initial := State(map[], map[])

  datatype Assets = Assets(manifest: Manifest, cache: map<Abs, seq<string>>)

  /** The loop over asset items of the template at `path`: URLs are skipped,
      every other item goes through `parsePath` and `getRelPath` and is pushed
      with its dependency closure. */
  function AssetsFold(env: Env, cache: map<Abs, seq<string>>, path: Abs, refs: seq<AssetRef>, m: Manifest, fuel: nat): (r: Result<Assets>)
    requires CacheOk(cache)
    ensures r.Ok? ==> CacheOk(r.value.cache) && Extends(cache, r.value.cache)
    ensures r.Ok? ==> r.value.manifest.tpl == m.tpl
    decreases |refs|
  {
    if |refs| == 0 then Ok(Assets(m, cache))
    else if IsURL(refs[0].path) then AssetsFold(env, cache, path, refs[1..], m, fuel)
    else
      var kind := refs[0].kind;
      var p := env.resolve(ParsePath(refs[0].path), path, kind);
      var sub :- AssetGraph.Parse(env, cache, p, kind, fuel);
      AssetsFold(env, sub.cache, path, refs[1..], Append(m, kind, [p] + sub.deps), fuel)
  }

  datatype TplParsed = TplParsed(manifest: Manifest, st: State)
  datatype Linked = Linked(links: seq<Link>, st: State)

  /** `tplParser.parse(fileRelPath)`: a cached manifest is returned as is;
      otherwise the template is read, its asset items are followed, then its
      relations (each parsed recursively), and the de-duplicated manifest is
      cached under the relative path it was asked for. */
  function TplParse(w: World, st: State, rel: string, fuel: nat): (r: Result<TplParsed>)
    requires StateOk(st)
    ensures r.Ok? ==> StateOk(r.value.st) && WellFormed(r.value.manifest)
    ensures r.Ok? ==> Extends(st.assets, r.value.st.assets) && Extends(st.tpls, r.value.st.tpls)
    ensures r.Ok? ==> rel in r.value.st.tpls && r.value.st.tpls[rel] == r.value.manifest
    decreases fuel, 0, 0
  {
    if rel in st.tpls then Ok(TplParsed(st.tpls[rel], st))
    else if fuel == 0 then Err(OutOfFuel)
    else
      var path := Paths.Resolve(w.env.base, rel);
      if path !in w.env.files then Err(MissingFile(path))
      else
        var d := w.directives(w.env.files[path]);
        var own :- AssetsFold(w.env, st.assets, path, d.assets, Empty, fuel - 1);
        var linked :- RelFold(w, st.(assets := own.cache), path, d.relations, fuel - 1);
        var m := Finalize(AddRelations(own.manifest, linked.links));
        Ok(TplParsed(m, linked.st.(tpls := linked.st.tpls[rel := m])))
  }

  /** `l` is what the template at `path` follows for the relation `raw`. */
  predicate FollowsRelation(w: World, path: Abs, raw: string, l: Link) {
    var (target, csr) := ParseRelation(raw);
    l.target == w.env.resolve(target, path, Xtpl) && l.csr == csr && WellFormed(l.nested)
  }

  /** The manifest merged for a relation is the one cached for its target. */
  predicate Cached(st: State, l: Link) {
    l.target in st.tpls && st.tpls[l.target] == l.nested
  }

  /** The loop over the relations of the template at `path`. */
  function RelFold(w: World, st: State, path: Abs, rels: seq<string>, fuel: nat): (r: Result<Linked>)
    requires StateOk(st)
    ensures r.Ok? ==> StateOk(r.value.st) && |r.value.links| == |rels|
    ensures r.Ok? ==> Extends(st.assets, r.value.st.assets) && Extends(st.tpls, r.value.st.tpls)
    ensures r.Ok? ==> forall i :: 0 <= i < |rels| ==> FollowsRelation(w, path, rels[i], r.value.links[i])
    ensures r.Ok? ==> forall i :: 0 <= i < |rels| ==> Cached(r.value.st, r.value.links[i])
    decreases fuel, 1, |rels|
  {
    if |rels| == 0 then Ok(Linked([], st))
    else
      var (target, csr) := ParseRelation(rels[0]);
      var dep := w.env.resolve(target, path, Xtpl);
      var sub :- TplParse(w, st, dep, fuel);
      var rest :- RelFold(w, sub.st, path, rels[1..], fuel);
      var l := Link(dep, csr, sub.manifest);
      assert Cached(rest.st, l);
      LinksCons(w, path, rels, l, rest.links, rest.st);
      ExtendsTrans(st.assets, sub.st.assets, rest.st.assets);
      ExtendsTrans(st.tpls, sub.st.tpls, rest.st.tpls);
      Ok(Linked([l] + rest.links, rest.st))
  }

  lemma ExtendsTrans<K, V>(a: map<K, V>, b: map<K, V>, c: map<K, V>)
    requires Extends(a, b) && Extends(b, c)
    ensures Extends(a, c)
  { }

  /** The link of the first relation leads the links of the others. */
  lemma LinksCons(w: World, path: Abs, rels: seq<string>, l: Link, links: seq<Link>, st: State)
    requires |rels| > 0 && |links| == |rels| - 1
    requires FollowsRelation(w, path, rels[0], l) && Cached(st, l)
    requires forall i :: 0 <= i < |rels[1..]| ==> FollowsRelation(w, path, rels[1..][i], links[i])
    requires forall i :: 0 <= i < |rels[1..]| ==> Cached(st, links[i])
    ensures forall i :: 0 <= i < |rels| ==> FollowsRelation(w, path, rels[i], ([l] + links)[i])
    ensures forall i :: 0 <= i < |rels| ==> Cached(st, ([l] + links)[i])
  {
    forall i | 0 < i < |rels|
      ensures FollowsRelation(w, path, rels[i], ([l] + links)[i]) && Cached(st, ([l] + links)[i])
    {
      assert rels[i] == rels[1..][i - 1];
    }
  }

  /** Every item of an asset-list directive that is not a URL is listed
      under its kind, resolved after `parsePath`, followed by its closure. */
  lemma {:induction false} AssetsFoldHas(env: Env, cache: map<Abs, seq<string>>, path: Abs, refs: seq<AssetRef>, m: Manifest, fuel: nat, i: nat)
    requires CacheOk(cache) && AssetsFold(env, cache, path, refs, m, fuel).Ok?
    requires i < |refs| && !IsURL(refs[i].path)
    ensures env.resolve(ParsePath(refs[i].path), path, refs[i].kind) in Get(AssetsFold(env, cache, path, refs, m, fuel).value.manifest, refs[i].kind)
    decreases |refs|
  {
    var r := AssetsFold(env, cache, path, refs, m, fuel).value.manifest;
    if IsURL(refs[0].path) {
      AssetsFoldHas(env, cache, path, refs[1..], m, fuel, i - 1);
    } else {
      var kind := refs[0].kind;
      var p := env.resolve(ParsePath(refs[0].path), path, kind);
      var sub := AssetGraph.Parse(env, cache, p, kind, fuel).value;
      var m' := Append(m, kind, [p] + sub.deps);
      if i == 0 {
        assert p in Get(m', kind);
        AssetsFoldKeeps(env, sub.cache, path, refs[1..], m', fuel, kind, p);
      } else {
        AssetsFoldHas(env, sub.cache, path, refs[1..], m', fuel, i - 1);
      }
    }
  }

  /** The asset loop only appends. */
  lemma {:induction false} AssetsFoldKeeps(env: Env, cache: map<Abs, seq<string>>, path: Abs, refs: seq<AssetRef>, m: Manifest, fuel: nat, t: AssetType, x: string)
    requires CacheOk(cache) && AssetsFold(env, cache, path, refs, m, fuel).Ok?
    requires x in Get(m, t)
    ensures x in Get(AssetsFold(env, cache, path, refs, m, fuel).value.manifest, t)
    decreases |refs|
  {
    if |refs| > 0 {
      if IsURL(refs[0].path) {
        AssetsFoldKeeps(env, cache, path, refs[1..], m, fuel, t, x);
      } else {
        var kind := refs[0].kind;
        var p := env.resolve(ParsePath(refs[0].path), path, kind);
        var sub := AssetGraph.Parse(env, cache, p, kind, fuel).value;
        var m' := Append(m, kind, [p] + sub.deps);
        assert Get(m, t) <= Get(m', t);
        AssetsFoldKeeps(env, sub.cache, path, refs[1..], m', fuel, t, x);
      }
    }
  }

  /** The own asset lists and the relations a fresh parse of `rel` goes
      through on its way to the manifest. */
  ghost function OwnAssets(w: World, st: State, rel: string, fuel: nat): Assets
    requires StateOk(st) && rel !in st.tpls && TplParse(w, st, rel, fuel).Ok?
  {
    var path := Paths.Resolve(w.env.base, rel);
    var d := w.directives(w.env.files[path]);
    AssetsFold(w.env, st.assets, path, d.assets, Empty, fuel - 1).value
  }

  ghost function Followed(w: World, st: State, rel: string, fuel: nat): Linked
    requires StateOk(st) && rel !in st.tpls && TplParse(w, st, rel, fuel).Ok?
  {
    var path := Paths.Resolve(w.env.base, rel);
    var d := w.directives(w.env.files[path]);
    var own := OwnAssets(w, st, rel, fuel);
    RelFold(w, st.(assets := own.cache), path, d.relations, fuel - 1).value
  }

  /** A fresh parse: every non-URL asset item is in the manifest under its
      kind, resolved after `parsePath`. */
  lemma TplParseOwnAsset(w: World, st: State, rel: string, fuel: nat, i: nat)
    requires StateOk(st) && rel !in st.tpls && TplParse(w, st, rel, fuel).Ok?
    requires var d := w.directives(w.env.files[Paths.Resolve(w.env.base, rel)]);
      i < |d.assets| && !IsURL(d.assets[i].path)
    ensures var path := Paths.Resolve(w.env.base, rel);
      var a := w.directives(w.env.files[path]).assets[i];
      var p := w.env.resolve(ParsePath(a.path), path, a.kind);
      p != "" ==> p in Get(TplParse(w, st, rel, fuel).value.manifest, a.kind)
  {
    var path := Paths.Resolve(w.env.base, rel);
    var a := w.directives(w.env.files[path]).assets[i];
    var p := w.env.resolve(ParsePath(a.path), path, a.kind);
    var own := OwnAssets(w, st, rel, fuel).manifest;
    var pre := AddRelations(own, Followed(w, st, rel, fuel).links);
    TplParseFresh(w, st, rel, fuel);
    AssetsFoldHas(w.env, st.assets, path, w.directives(w.env.files[path]).assets, Empty, fuel - 1, i);
    AddRelationsKeeps(own, Followed(w, st, rel, fuel).links, a.kind, p);
    TplParseIs(w, st, rel, fuel);
    FinalizeGet(pre, a.kind);
  }

  /** What a fresh parse that succeeds has gone through. */
  lemma TplParseFresh(w: World, st: State, rel: string, fuel: nat)
    requires StateOk(st) && rel !in st.tpls && TplParse(w, st, rel, fuel).Ok?
    ensures fuel > 0 && Paths.Resolve(w.env.base, rel) in w.env.files
    ensures var path := Paths.Resolve(w.env.base, rel);
      AssetsFold(w.env, st.assets, path, w.directives(w.env.files[path]).assets, Empty, fuel - 1).Ok?
  {
  }

  lemma TplParseIs(w: World, st: State, rel: string, fuel: nat)
    requires StateOk(st) && rel !in st.tpls && TplParse(w, st, rel, fuel).Ok?
    ensures TplParse(w, st, rel, fuel).value.manifest == Finalize(AddRelations(OwnAssets(w, st, rel, fuel).manifest, Followed(w, st, rel, fuel).links))
  {
  }

  /** A fresh parse: the template's own lists lead the manifest, ahead of
      anything its relations bring in. */
  lemma TplParseOwnFirst(w: World, st: State, rel: string, fuel: nat, t: AssetType)
    requires StateOk(st) && rel !in st.tpls && TplParse(w, st, rel, fuel).Ok?
    ensures UniqueArray(Get(OwnAssets(w, st, rel, fuel).manifest, t)) <= Get(TplParse(w, st, rel, fuel).value.manifest, t)
  {
    var own := OwnAssets(w, st, rel, fuel).manifest;
    var pre := AddRelations(own, Followed(w, st, rel, fuel).links);
    TplParseIs(w, st, rel, fuel);
    AddRelationsExtends(own, Followed(w, st, rel, fuel).links, t);
    PrefixRest(Get(own, t), Get(pre, t));
    UniqueArrayPrefix(Get(own, t), Get(pre, t)[|Get(own, t)|..]);
    FinalizeGet(pre, t);
  }

  lemma FinalizeGet(m: Manifest, t: AssetType)
    ensures Get(Finalize(m), t) == UniqueArray(Get(m, t))
  {
  }

  /** A fresh parse: the `i`-th relation is resolved as an `xtpl` reference
      after its query is dropped; its target is listed under `tpl`; the
      manifest cached for the target is merged key by key; and a `csr` or
      `csrOnly` query adds the `.js` names of the nested templates and of the
      target to `modjs`. */
  lemma TplParseRelation(w: World, st: State, rel: string, fuel: nat, i: nat)
    requires StateOk(st) && rel !in st.tpls && TplParse(w, st, rel, fuel).Ok?
    requires i < |w.directives(w.env.files[Paths.Resolve(w.env.base, rel)]).relations|
    ensures var path := Paths.Resolve(w.env.base, rel);
      FollowsRelation(w, path, w.directives(w.env.files[path]).relations[i], Followed(w, st, rel, fuel).links[i])
    ensures Cached(Followed(w, st, rel, fuel).st, Followed(w, st, rel, fuel).links[i])
    ensures var l := Followed(w, st, rel, fuel).links[i];
      var m := TplParse(w, st, rel, fuel).value.manifest;
      && (l.target != "" ==> l.target in m.tpl)
      && (forall t, x :: x in Get(l.nested, t) ==> x in Get(m, t))
      && (l.csr ==> l.target + ".js" in m.modjs)
      && (l.csr ==> forall p :: p in l.nested.tpl ==> p + ".js" in m.modjs)
  {
    var own := OwnAssets(w, st, rel, fuel);
    var links := Followed(w, st, rel, fuel).links;
    var m := TplParse(w, st, rel, fuel).value.manifest;
    var pre := AddRelations(own.manifest, links);
    TplParseIs(w, st, rel, fuel);
    AddRelationsHas(own.manifest, links, i);
    var l := links[i];
    forall t, x | x in Get(l.nested, t)
      ensures x in Get(m, t)
    {
      WellFormedGet(l.nested, t);
      assert x in Get(pre, t) && x != "";
    }
  }

  lemma WellFormedGet(m: Manifest, t: AssetType)
    requires WellFormed(m)
    ensures DepList(Get(m, t))
  {
  }

  /** The page loop: every page's manifest, parsed with shared caches. Each
      value is what `tplParser.parse` returns for that page: see DepaCached
      and DepaFirst. */
  function Depa(w: World, pages: seq<string>, fuel: nat): (r: Result<map<string, Manifest>>)
    ensures r.Ok? ==> forall p :: p in r.value <==> p in pages
    ensures r.Ok? ==> forall p :: p in r.value ==> WellFormed(r.value[p])
  {
    var d :- DepaFrom(w, Initial, pages, map[], fuel);
    Ok(d.manifests)
  }

  /** The table built so far and the caches after the pages parsed so far. */
  datatype Pages = Pages(manifests: map<string, Manifest>, st: State)

  function DepaFrom(w: World, st: State, pages: seq<string>, acc: map<string, Manifest>, fuel: nat): (r: Result<Pages>)
    requires StateOk(st) && forall p :: p in acc ==> WellFormed(acc[p])
    ensures r.Ok? ==> StateOk(r.value.st) && Extends(st.tpls, r.value.st.tpls)
    ensures r.Ok? ==> forall p :: p in r.value.manifests <==> p in acc || p in pages
    ensures r.Ok? ==> forall p :: p in r.value.manifests ==> WellFormed(r.value.manifests[p])
    ensures r.Ok? ==> forall p :: p in pages ==> p in r.value.st.tpls && r.value.manifests[p] == r.value.st.tpls[p]
    ensures r.Ok? ==> forall p :: p in acc && p !in pages ==> r.value.manifests[p] == acc[p]
    decreases |pages|
  {
    if |pages| == 0 then Ok(Pages(acc, st))
    else
      var parsed :- TplParse(w, st, pages[0], fuel);
      var r :- DepaFrom(w, parsed.st, pages[1..], acc[pages[0] := parsed.manifest], fuel);
      assert forall p :: p in pages <==> p == pages[0] || p in pages[1..];
      Ok(r)
  }

  /** Every page's value is what parsing it returns against the final
      caches, where it is already cached. */
  lemma DepaCached(w: World, pages: seq<string>, fuel: nat, p: string)
    requires Depa(w, pages, fuel).Ok? && p in pages
    ensures var fin := DepaFrom(w, Initial, pages, map[], fuel).value.st;
      TplParse(w, fin, p, fuel) == Ok(TplParsed(Depa(w, pages, fuel).value[p], fin))
  {
  }

  /** The first page's value is what parsing it from empty caches returns. */
  lemma DepaFirst(w: World, pages: seq<string>, fuel: nat)
    requires Depa(w, pages, fuel).Ok? && |pages| > 0
    ensures TplParse(w, Initial, pages[0], fuel).Ok?
    ensures Depa(w, pages, fuel).value[pages[0]] == TplParse(w, Initial, pages[0], fuel).value.manifest
  {
    var parsed := TplParse(w, Initial, pages[0], fuel).value;
    var rest := DepaFrom(w, parsed.st, pages[1..], map[pages[0] := parsed.manifest], fuel).value;
    assert Depa(w, pages, fuel).value == rest.manifests;
    if pages[0] in pages[1..] {
      assert rest.manifests[pages[0]] == rest.st.tpls[pages[0]];
    }
  }
}
