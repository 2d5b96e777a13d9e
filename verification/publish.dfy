/** The computations gulpfile.js performs around the build tasks: the URL
    prefixes assets are served from, the slimmed MD5 map for the browser,
    the final per-template asset lists, and the `url(...)` rewriting of
    stylesheets. */
module Publish {
  import opened Wrappers
  import opened Strings
  import opened Util
  import opened Paths
  import Combiner
  import Md5Export

  /** How JavaScript writes a possibly undefined string into another. */
  function Text(o: Option<string>): string {
    o.GetOr("undefined")
  }

  // ---------------------------------------------------------------------
  // URL prefixes (gulpfile.js lines 78-89)
  // ---------------------------------------------------------------------

  /** `parseVars(static_url_prefix, { host, rev })` with a `/` appended
      unless it already ends in one. */
  function UrlPrefix(prefix: string, host: string, rev: string): (r: string)
    ensures EndsWith(r, "/")
    ensures r == ParseVars(prefix, map["host" := host, "rev" := rev])
         || r == ParseVars(prefix, map["host" := host, "rev" := rev]) + "/"
  {
    var s := ParseVars(prefix, map["host" := host, "rev" := rev]);
    if EndsWith(s, "/") then s else s + "/"
  }

  /** `urlPrefixes.push(urlPrefixes[urlPrefixes.length - 1])` until there
      are three; an empty list pads with `undefined`. */
  function Pad(ps: seq<Option<string>>): (r: seq<Option<string>>)
    ensures |r| == if |ps| > 3 then |ps| else 3
    ensures r[..|ps|] == ps
    ensures forall k :: |ps| <= k < |r| ==> r[k] == (if |ps| == 0 then None else ps[|ps| - 1])
    decreases 3 - |ps|
  {
    if |ps| >= 3 then ps
    else
      var r := Pad(ps + [if |ps| == 0 then None else ps[|ps| - 1]]);
      assert r[..|ps|] == (ps + [if |ps| == 0 then None else ps[|ps| - 1]])[..|ps|];
      r
  }

  function Prefixes(hosts: seq<string>, prefix: string, rev: string): (r: seq<Option<string>>)
    ensures |r| == |hosts|
    ensures forall k :: 0 <= k < |hosts| ==> r[k] == Some(UrlPrefix(prefix, hosts[k], rev))
  {
    seq(|hosts|, k requires 0 <= k < |hosts| => Some(UrlPrefix(prefix, hosts[k], rev)))
  }

  /** `urlPrefixes`: one prefix per static host (a single empty host when
      none are configured), padded to three. */
  function UrlPrefixes(hosts: Option<seq<string>>, prefix: string, rev: string): (r: seq<Option<string>>)
    ensures |r| == if |hosts.GetOr([""])| > 3 then |hosts.GetOr([""])| else 3
  {
    Pad(Prefixes(hosts.GetOr([""]), prefix, rev))
  }

  /** Each configured host has its own prefix, in order, ending in `/`; the
      padding repeats the last one. */
  lemma UrlPrefixesHosts(hosts: seq<string>, prefix: string, rev: string)
    requires |hosts| > 0
    ensures forall k :: 0 <= k < |hosts| ==> UrlPrefixes(Some(hosts), prefix, rev)[k] == Some(UrlPrefix(prefix, hosts[k], rev))
    ensures forall k :: |hosts| <= k < |UrlPrefixes(Some(hosts), prefix, rev)| ==>
      UrlPrefixes(Some(hosts), prefix, rev)[k] == Some(UrlPrefix(prefix, hosts[|hosts| - 1], rev))
    ensures forall k :: 0 <= k < |UrlPrefixes(Some(hosts), prefix, rev)| ==>
      UrlPrefixes(Some(hosts), prefix, rev)[k].Some? && EndsWith(UrlPrefixes(Some(hosts), prefix, rev)[k].value, "/")
  {
    var ps := Prefixes(hosts, prefix, rev);
    var r := Pad(ps);
    forall k | 0 <= k < |hosts| ensures r[k] == ps[k] {
      assert r[..|ps|][k] == r[k];
    }
  }

  /** Without static hosts all three prefixes are the prefix for the empty host. */
  lemma UrlPrefixesNoHosts(prefix: string, rev: string)
    ensures UrlPrefixes(None, prefix, rev) == [Some(UrlPrefix(prefix, "", rev))] + [Some(UrlPrefix(prefix, "", rev))] + [Some(UrlPrefix(prefix, "", rev))]
  {
    var u := Some(UrlPrefix(prefix, "", rev));
    var ps := Prefixes([""], prefix, rev);
    var r := Pad(ps);
    assert r[..1][0] == ps[0] == u;
    ThreeSame(r, u);
  }

  lemma ThreeSame<T>(r: seq<T>, u: T)
    requires |r| == 3 && r[0] == u && r[1] == u && r[2] == u
    ensures r == [u] + [u] + [u]
  { }

  /** An empty host list leaves nothing to repeat: every prefix is undefined. */
  lemma UrlPrefixesEmptyHosts(prefix: string, rev: string)
    ensures UrlPrefixes(Some([]), prefix, rev) == [None, None, None]
  {
  }

  // ---------------------------------------------------------------------
  // The browser MD5 map (gulpfile.js lines 399-409)
  // ---------------------------------------------------------------------

  /** `/\.(xtpl|css|js)$/i`. */
  predicate LoadedStatically(key: string) {
    EndsWith(Lower(key), ".xtpl") || EndsWith(Lower(key), ".css") || EndsWith(Lower(key), ".js")
  }

  /** Templates, stylesheets and module scripts are never loaded on demand,
      so the browser map keeps only the other files and raw scripts. */
  predicate KeepForBrowser(key: string) {
    !LoadedStatically(key) || EndsWith(key, ".raw.js")
  }

  /** `md5Path.split('.').splice(-2, 1)[0]`: the second-to-last part, or the
      whole path when it has no dot. */
  function HashPart(md5Path: string): (r: string)
    ensures '.' !in r
    ensures '.' !in md5Path ==> r == md5Path
  {
    var parts := Split(md5Path, '.');
    assert '.' !in md5Path ==> parts == [md5Path] by {
      if '.' !in md5Path {
        SplitNoSep(md5Path, '.');
      }
    }
    if |parts| >= 2 then parts[|parts| - 2]
    else
      SplitNoDot(md5Path);
      parts[0]
  }

  lemma SplitNoDot(s: string)
    requires |Split(s, '.')| < 2
    ensures '.' !in s && Split(s, '.') == [s]
  {
    JoinSplit(s, '.');
  }

  /** A file renamed with the default separator yields its digest. */
  lemma HashPartOfRenamed(filename: string, hash: string)
    requires '.' in filename && '.' !in hash
    ensures HashPart(Md5Export.Rename(filename, "." + hash)) == hash
  {
    Md5Export.RenameHashSegment(filename, hash);
  }

  /** The kept entries in their original order, each with its digest. */
  function Slim(entries: seq<(string, string)>): (r: seq<(string, string)>)
    ensures forall e :: e in r ==> KeepForBrowser(e.0)
    decreases |entries|
  {
    if |entries| == 0 then []
    else
      var e := entries[0];
      (if KeepForBrowser(e.0) then [(e.0, HashPart(e.1))] else []) + Slim(entries[1..])
  }

  lemma {:induction false} SlimMembers(entries: seq<(string, string)>, key: string, value: string)
    ensures (key, value) in Slim(entries) <==>
      KeepForBrowser(key) && exists k :: 0 <= k < |entries| && entries[k].0 == key && HashPart(entries[k].1) == value
    decreases |entries|
  {
    if |entries| > 0 {
      SlimMembers(entries[1..], key, value);
      if exists k :: 0 <= k < |entries| && entries[k].0 == key && HashPart(entries[k].1) == value {
        var k :| 0 <= k < |entries| && entries[k].0 == key && HashPart(entries[k].1) == value;
        if k > 0 {
          assert entries[1..][k - 1] == entries[k];
        }
      }
      if exists k :: 0 <= k < |entries[1..]| && entries[1..][k].0 == key && HashPart(entries[1..][k].1) == value {
        var k :| 0 <= k < |entries[1..]| && entries[1..][k].0 == key && HashPart(entries[1..][k].1) == value;
        assert entries[k + 1] == entries[1..][k];
      }
    }
  }

  // The code-point order standing in for `Array.prototype.sort`.

  lemma {:induction false} LessStrIrreflexive(a: string)
    ensures !LessStr(a, a)
    decreases |a|
  {
    if |a| > 0 {
      LessStrIrreflexive(a[1..]);
    }
  }

  lemma {:induction false} LessStrTotal(a: string, b: string)
    ensures a == b || LessStr(a, b) || LessStr(b, a)
    decreases |a|
  {
    if |a| > 0 && |b| > 0 && a[0] == b[0] {
      LessStrTotal(a[1..], b[1..]);
      if a[1..] == b[1..] {
        assert a == [a[0]] + a[1..] && b == [b[0]] + b[1..];
      }
    }
  }

  lemma {:induction false} LessStrTransitive(a: string, b: string, c: string)
    requires LessStr(a, b) && LessStr(b, c)
    ensures LessStr(a, c)
    decreases |a|
  {
    if |a| > 0 && a[0] == b[0] && b[0] == c[0] {
      LessStrTransitive(a[1..], b[1..], c[1..]);
    }
  }

  /** Not after: `a` is before `b` or equal to it. */
  predicate NotAfter(a: string, b: string) {
    !LessStr(b, a)
  }

  lemma NotAfterTransitive(a: string, b: string, c: string)
    requires NotAfter(a, b) && NotAfter(b, c)
    ensures NotAfter(a, c)
  {
    if LessStr(c, a) {
      LessStrTotal(a, b);
      if a == b {
      } else if LessStr(a, b) {
        LessStrTransitive(c, a, b);
      }
    }
  }

  predicate SortedKeys(s: seq<(string, string)>) {
    forall i, j :: 0 <= i < j < |s| ==> NotAfter(s[i].0, s[j].0)
  }

  lemma {:induction false} LessStrAsymmetric(a: string, b: string)
    requires LessStr(a, b)
    ensures !LessStr(b, a)
    decreases |a|
  {
    if |a| > 0 && |b| > 0 && a[0] == b[0] {
      LessStrAsymmetric(a[1..], b[1..]);
    }
  }

  /** One step of the sort: `x` goes before the first key that is not before it. */
  function Insert(x: (string, string), s: seq<(string, string)>): (r: seq<(string, string)>)
    ensures multiset(r) == multiset(s) + multiset{x}
    decreases |s|
  {
    if |s| == 0 then [x]
    else if NotAfter(x.0, s[0].0) then [x] + s
    else
      assert s == [s[0]] + s[1..];
      [s[0]] + Insert(x, s[1..])
  }

  lemma {:induction false} InsertSorted(x: (string, string), s: seq<(string, string)>)
    requires SortedKeys(s)
    ensures SortedKeys(Insert(x, s))
    decreases |s|
  {
    if |s| == 0 {
    } else if NotAfter(x.0, s[0].0) {
      forall j | 0 <= j < |s| ensures NotAfter(x.0, s[j].0) {
        if j > 0 {
          NotAfterTransitive(x.0, s[0].0, s[j].0);
        }
      }
      ConsSorted(x, s);
    } else {
      InsertSorted(x, s[1..]);
      InsertAfterHead(x, s);
      ConsSorted(s[0], Insert(x, s[1..]));
    }
  }

  lemma ConsSorted(h: (string, string), r: seq<(string, string)>)
    requires SortedKeys(r)
    requires forall j :: 0 <= j < |r| ==> NotAfter(h.0, r[j].0)
    ensures SortedKeys([h] + r)
  {
    var q := [h] + r;
    forall i, j | 0 <= i < j < |q| ensures NotAfter(q[i].0, q[j].0) {
      assert q[j] == r[j - 1];
      if i > 0 {
        assert q[i] == r[i - 1];
      }
    }
  }

  /** When `x` goes after the head, every key of the rest, `x` included,
      is not before the head. */
  lemma InsertAfterHead(x: (string, string), s: seq<(string, string)>)
    requires |s| > 0 && SortedKeys(s) && !NotAfter(x.0, s[0].0)
    ensures forall j :: 0 <= j < |Insert(x, s[1..])| ==> NotAfter(s[0].0, Insert(x, s[1..])[j].0)
  {
    var rest := Insert(x, s[1..]);
    assert NotAfter(s[0].0, x.0) by {
      LessStrAsymmetric(s[0].0, x.0);
    }
    forall j | 0 <= j < |rest| ensures NotAfter(s[0].0, rest[j].0) {
      var e := rest[j];
      assert e in multiset(rest);
      if e != x {
        assert e in multiset(s[1..]);
        var k :| 0 <= k < |s[1..]| && s[1..][k] == e;
        assert s[k + 1] == e;
      }
    }
  }

  /** `keys.sort()`, written as an insertion sort. */
  function Sort(s: seq<(string, string)>): (r: seq<(string, string)>)
    ensures SortedKeys(r)
    ensures multiset(r) == multiset(s)
    decreases |s|
  {
    if |s| == 0 then []
    else
      assert s == [s[0]] + s[1..];
      InsertSorted(s[0], Sort(s[1..]));
      Insert(s[0], Sort(s[1..]))
  }

  /** The browser map: the kept entries in sorted key order, each reduced to
      its digest. The entries are the MD5 map in its key order. */
  function BrowserMap(entries: seq<(string, string)>): (r: seq<(string, string)>)
    ensures SortedKeys(r)
    ensures multiset(r) == multiset(Slim(entries))
  {
    Sort(Slim(entries))
  }

  /** An entry is in the browser map exactly when its key is kept, with the
      digest part of its MD5 path. */
  lemma BrowserMapMembers(entries: seq<(string, string)>, key: string, value: string)
    ensures (key, value) in BrowserMap(entries) <==>
      KeepForBrowser(key) && exists k :: 0 <= k < |entries| && entries[k].0 == key && HashPart(entries[k].1) == value
  {
    SlimMembers(entries, key, value);
    assert (key, value) in BrowserMap(entries) <==> (key, value) in multiset(BrowserMap(entries));
    assert (key, value) in Slim(entries) <==> (key, value) in multiset(Slim(entries));
  }

  lemma LowerKeepsSuffix(key: string, suffix: string)
    requires EndsWith(key, suffix)
    requires forall i :: 0 <= i < |suffix| ==> !('A' <= suffix[i] <= 'Z')
    ensures EndsWith(Lower(key), suffix)
  {
    var n := |key| - |suffix|;
    forall i | 0 <= i < |suffix| ensures Lower(key)[n + i] == suffix[i] {
      assert key[n + i] == key[n..][i];
    }
  }

  /** Raw scripts stay in whatever case the rest of the name has; module
      scripts, stylesheets and templates go. */
  lemma KeepCases(key: string)
    ensures EndsWith(key, ".raw.js") ==> KeepForBrowser(key)
    ensures EndsWith(key, ".css") || EndsWith(key, ".xtpl") ==> !KeepForBrowser(key)
  {
    if EndsWith(key, ".raw.js") {
      assert key[|key| - 4] == ".raw.js"[3] && key[|key| - 1] == ".raw.js"[6];
    }
    if EndsWith(key, ".css") {
      LowerKeepsSuffix(key, ".css");
      assert key[|key| - 4] == ".css"[0];
    }
    if EndsWith(key, ".xtpl") {
      LowerKeepsSuffix(key, ".xtpl");
      assert key[|key| - 1] == ".xtpl"[4];
    }
  }

  /** `'md5-map.' + calcMd5(text, 10) + '.js'` for the browser map's script
      text, which `JSON.stringify` produces (`json` here). */
  function BrowserMapFileName(digest: string -> string, json: string): (r: string)
    ensures StartsWith(r, "md5-map.") && EndsWith(r, ".js")
    ensures var d := digest("var md5Map = " + json + ";");
      && |r| == 11 + (if |d| < 10 then |d| else 10)
      && r[8..|r| - 3] <= d
  {
    "md5-map." + CalcMd5(digest, "var md5Map = " + json + ";", 10) + ".js"
  }

  // ---------------------------------------------------------------------
  // The final asset lists (gulpfile.js lines 426-445)
  // ---------------------------------------------------------------------

  /** Non-URL references get the prefix (`undefined` ones included). */
  function Prefixed(prefix: Option<string>, ps: seq<Option<string>>): (r: seq<Option<string>>)
    ensures |r| == |ps|
    ensures forall k :: 0 <= k < |ps| ==> r[k] == if IsURL(Text(ps[k])) then ps[k] else Some(Text(prefix) + Text(ps[k]))
  {
    seq(|ps|, k requires 0 <= k < |ps| => if IsURL(Text(ps[k])) then ps[k] else Some(Text(prefix) + Text(ps[k])))
  }

  /** The lists of one template after the final step: the browser map's
      script is put first in `headjs` (created when missing) and every list
      gets its alternating prefix. */
  function Finish(lists: map<string, seq<Option<string>>>, mapFile: string, prefixes: seq<Option<string>>): (r: map<string, seq<Option<string>>>)
    requires |prefixes| >= 2
    ensures r.Keys == lists.Keys + {"headjs"}
    ensures forall k :: k in lists && k !in {"headjs", "css", "modjs", "js"} ==> r[k] == lists[k]
  {
    var head := [Some("md5-map/" + mapFile)] + (if "headjs" in lists then lists["headjs"] else []);
    map k | k in lists.Keys + {"headjs"} ::
      if k == "headjs" then Prefixed(prefixes[0], head)
      else if k == "css" || k == "js" then Prefixed(prefixes[1], lists[k])
      else if k == "modjs" then Prefixed(prefixes[0], lists[k])
      else lists[k]
  }

  /** `i % 2` over the visiting order `headjs`, `css`, `modjs`, `js`:
      `headjs` and `modjs` use the first prefix, `css` and `js` the second,
      and the browser map's script comes first in `headjs`. A list other
      than `headjs` that is missing stays missing. */
  lemma FinishLists(lists: map<string, seq<Option<string>>>, mapFile: string, prefixes: seq<Option<string>>)
    requires |prefixes| >= 2
    ensures Finish(lists, mapFile, prefixes)["headjs"]
         == Prefixed(prefixes[0], [Some("md5-map/" + mapFile)] + (if "headjs" in lists then lists["headjs"] else []))
    ensures "css" in lists ==> Finish(lists, mapFile, prefixes)["css"] == Prefixed(prefixes[1], lists["css"])
    ensures "modjs" in lists ==> Finish(lists, mapFile, prefixes)["modjs"] == Prefixed(prefixes[0], lists["modjs"])
    ensures "js" in lists ==> Finish(lists, mapFile, prefixes)["js"] == Prefixed(prefixes[1], lists["js"])
    ensures forall k :: k in lists.Keys + {"headjs"} <==> k in Finish(lists, mapFile, prefixes)
  {
  }

  /** The browser map's script is the first entry of `headjs`, behind the
      first prefix (it is never a URL: it has no slash before `md5-map/`). */
  lemma FinishHeadFirst(lists: map<string, seq<Option<string>>>, mapFile: string, prefixes: seq<Option<string>>)
    requires |prefixes| >= 2
    ensures |Finish(lists, mapFile, prefixes)["headjs"]| >= 1
    ensures Finish(lists, mapFile, prefixes)["headjs"][0] == Some(Text(prefixes[0]) + "md5-map/" + mapFile)
  {
    var s := "md5-map/" + mapFile;
    assert s[0] == 'm' && s[1] == 'd' && s[2] == '5';
    LetterRunIs(s, 2);
    assert !StartsWith(s[2..], "://") by {
      assert s[2..][0] == '5';
    }
    ConcatAssoc(Text(prefixes[0]), "md5-map/", mapFile);
  }

  /** Every template of the combined dependency map. */
  function FinishAll(assetMap: map<string, map<string, seq<Option<string>>>>, mapFile: string, prefixes: seq<Option<string>>): (r: map<string, map<string, seq<Option<string>>>>)
    requires |prefixes| >= 2
    ensures r.Keys == assetMap.Keys
    ensures forall p :: p in r ==> "headjs" in r[p]
  {
    map p | p in assetMap :: Finish(assetMap[p], mapFile, prefixes)
  }

  // ---------------------------------------------------------------------
  // cssRel2Root (gulpfile.js lines 158-175)
  // ---------------------------------------------------------------------

  /** The replacement for one `url(...)` of a stylesheet at `file` below
      `base`: URLs and data URIs are kept; anything else is resolved as
      `path.resolve` does, from the root when it starts with `/` and from
      the stylesheet's directory otherwise, and replaced by its MD5 path
      behind the in-CSS prefix, quoted as before and passed through `fn`. */
  function CssRel2Root(base: Abs, file: Abs, md5Map: map<string, string>, prefix: string,
                       fn: string -> string, matched: string, quot: string, origPath: string): (r: string)
    ensures IsURL(origPath) || IsBase64(origPath) ==> r == matched
  {
    if IsURL(origPath) || IsBase64(origPath) then matched
    else
      var relPath := NormalizeSlash(Relative(base, ResolveFrom(Dirname(file), origPath)));
      fn(quot + prefix + Text(Combiner.Md5Of(md5Map, relPath)) + quot)
  }

  /** The replacement once the lookup key is known. */
  lemma CssRel2RootKey(base: Abs, file: Abs, md5Map: map<string, string>, prefix: string,
                       fn: string -> string, matched: string, quot: string, origPath: string, key: string)
    requires !IsURL(origPath) && !IsBase64(origPath)
    requires NormalizeSlash(Relative(base, ResolveFrom(Dirname(file), origPath))) == key
    ensures CssRel2Root(base, file, md5Map, prefix, fn, matched, quot, origPath)
         == fn(quot + prefix + Text(Combiner.Md5Of(md5Map, key)) + quot)
  {
  }

  /** A reference to a file in the stylesheet's own directory is looked up
      under its path from the root. */
  lemma CssRel2RootSibling(base: Abs, dir: Abs, name: string, md5Map: map<string, string>, prefix: string,
                           fn: string -> string, matched: string, quot: string, sibling: string)
    requires IsSegment(sibling) && '\\' !in sibling && forall k :: 0 <= k < |dir| ==> '\\' !in dir[k]
    requires !IsBase64(sibling)
    ensures CssRel2Root(base, base + dir + [name], md5Map, prefix, fn, matched, quot, sibling)
         == fn(quot + prefix + Text(Combiner.Md5Of(md5Map, Join('/', dir + [sibling]))) + quot)
  {
    NoSlashNotURL(sibling);
    SiblingPath(base + dir, name, sibling);
    Md5Export.GetPathBelow(base, dir, sibling, None);
    CssRel2RootKey(base, base + dir + [name], md5Map, prefix, fn, matched, quot, sibling, Join('/', dir + [sibling]));
  }

  lemma SiblingPath(d: Abs, name: string, sibling: string)
    requires IsSegment(sibling)
    ensures ResolveFrom(Dirname(d + [name]), sibling) == d + [sibling]
  {
    assert sibling[0] in sibling;
    assert Dirname(d + [name]) == d;
    ResolveFromRelative(d, sibling);
    ResolveSegment(d, sibling);
  }

  /** A path written from the root is neither a URL nor a data URI. */
  lemma RootedPlain(p: Abs)
    requires IsNormal(p)
    ensures !IsURL(Format(p)) && !IsBase64(Format(p))
  {
    var s := Format(p);
    assert s[0] == '/';
    assert !IsAsciiLetter(s[0]);
    assert LetterRun(s) == 0;
    if |p| > 0 {
      FormatHead(p);
      assert s[1] != '/';
    }
    if |s| >= 5 {
      assert Lower(s[..5])[0] == LowerChar('/');
    }
  }

  /** A reference from the root, such as `/css/img/a.png` for a file below
      `base`, is looked up under its path from `base`, wherever the
      stylesheet sits. */
  lemma CssRel2RootRooted(base: Abs, file: Abs, rest: Abs, md5Map: map<string, string>, prefix: string,
                          fn: string -> string, matched: string, quot: string)
    requires IsNormal(base + rest)
    requires forall k :: 0 <= k < |rest| ==> '\\' !in rest[k]
    ensures CssRel2Root(base, file, md5Map, prefix, fn, matched, quot, Format(base + rest))
         == fn(quot + prefix + Text(Combiner.Md5Of(md5Map, Join('/', rest))) + quot)
  {
    RootedPlain(base + rest);
    ResolveFromFormat(Dirname(file), base + rest);
    RelativeBelow(base, rest);
    Md5Export.JoinNoBackslash(rest);
    CssRel2RootKey(base, file, md5Map, prefix, fn, matched, quot, Format(base + rest), Join('/', rest));
  }

  /** Concrete case: in `/p/css/a.css` below `/p`, `url(/img/a.png)` is
      looked up as `../img/a.png`, not below the stylesheet's directory. */
  lemma CssRel2RootAboveBase(md5Map: map<string, string>, prefix: string, fn: string -> string, matched: string, quot: string)
    ensures CssRel2Root(["p"], ["p", "css", "a.css"], md5Map, prefix, fn, matched, quot, "/img/a.png")
         == fn(quot + prefix + Text(Combiner.Md5Of(md5Map, "../img/a.png")) + quot)
  {
    RootedImage();
    assert Dirname(["p", "css", "a.css"]) == ["p", "css"];
    ImageKey();
    CssRel2RootKey(["p"], ["p", "css", "a.css"], md5Map, prefix, fn, matched, quot, "/img/a.png", "../img/a.png");
  }

  lemma RootedImage()
    ensures !IsURL("/img/a.png") && !IsBase64("/img/a.png")
    ensures ResolveFrom(["p", "css"], "/img/a.png") == ["img", "a.png"]
  {
    var target := ["img", "a.png"];
    assert IsSegment("img") && IsSegment("a.png");
    assert Format(target) == "/img/a.png";
    RootedPlain(target);
    ResolveFromFormat(["p", "css"], target);
  }

  lemma ImageKey()
    ensures NormalizeSlash(Relative(["p"], ["img", "a.png"])) == "../img/a.png"
  {
    var target := ["img", "a.png"];
    assert CommonLen(["p"], target) == 0;
    var parts := ["..", "img", "a.png"];
    assert Ups(1) + target[0..] == parts;
    assert Join('/', parts[1..]) == "img" + ['/'] + "a.png";
    assert Join('/', parts) == ".." + ['/'] + Join('/', parts[1..]);
    assert Relative(["p"], target) == "../img/a.png";
    NormalizeSlashPlain("../img/a.png");
  }
}
