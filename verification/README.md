# Back2Front build core, modelled in Dafny

Back2Front's build command turns a project of page templates (`*.page.xtpl`)
and static assets into a deployable tree. This project models the core of that build:

- **Dependency table (`depa.js`).** References are resolved below the asset root.
  `mod@ver` paths are rewritten. Module scripts are scanned for `require` calls.
  Same-kind dependency closures are computed behind a per-file cache. Templates
  are parsed with their `extend`/`parse`/`include` relations, and browser-rendered
  (`?csr`) relations add `.js` module entries. Page manifests are collected.
- **Combination (`lib/asset-combiner.js`).**
  - Standalone files and URLs are pulled out first.
  - Combine rules choose a primary asset, which absorbs the secondaries its globs match.
  - The rest are bundled together, or emitted alone when only one is left.
  - Each bundle is named by the MD5 of its joined contents under `~combines/`, behind a per-key cache.
- **Configuration (`build.js`).**
  - The environment is checked.
  - The revision and the `{$rev}`/`{$env}` build paths are resolved.
  - The combine rules are expanded (one rule's list absorbs an earlier rule's list).
  - The environment's static hosts are selected.
- **MD5 renaming (`lib/gulp-md5-export.js`).** The digest is inserted before a
  file's last extension, and the old and new paths are reported.
- **Publishing steps of `gulpfile.js`.**
  - URL prefixes are padded to three.
  - Relative `url(...)` references in CSS are rewritten to their MD5 paths.
  - The browser MD5 map is slimmed and sorted.
  - Every page's final asset lists are prefixed, with the map file first among the head scripts.
- **Helpers of `lib/util.js`.** `parseVars`, `isURL`, `isBase64`, `normalizeSlash`,
  `convertExtname`/`revertExtname`, `calcMd5` and `formatDate`.

Modules, one per file:

| Module | What it covers |
|---|---|
| `Wrappers` | `Option` and `Result` |
| `Strings` | character classes, `Split`/`Join`, lower-casing and decimals |
| `Paths` | Node's posix `path.resolve`/`join`/`relative`/`dirname` over segment lists |
| `Util` | `lib/util.js` |
| `Resolve` | `getRelPath` and `parsePath` |
| `Dedup` | `uniqueArray` |
| `Scanners` | the module-script comment stripping and `require` scan |
| `AssetGraph` | `assetParsers` |
| `Templates` | `tplParser` and the page loop |
| `Combiner` | the combiner |
| `Build` | `build.js` |
| `Md5Export` | the MD5 renaming plugin |
| `Publish` | the `gulpfile.js` steps |

Things outside the model are passed in as parameters: the file system (a map
from absolute paths to contents), glob matching (`m`), the MD5 digest (`digest`),
the CSS `@import` scan (`cssImports`) and the template directive scan (`directives`).

Some recursion in the source has no bound, for example a template that extends
itself. Such recursion carries a `fuel` argument, and running out gives
`Err(OutOfFuel)`, meaning the build would not return.

The combiner's secondary loop is parameterised by a counting mode:
- `AsWritten`: every matching glob of the rule's list counts.
- `FirstGlob`: the first matching glob stops the scan, as the `some` callback evidently intended.

## Model

| member | source | states |
|---|---|---|
| Util.IsURLSpec | lib/util.js:69 | a string is a URL exactly when it starts with `//` or with an ASCII-letter scheme followed by `://` |
| Util.NoSlashNotURL | lib/util.js:69 | a string without `/` is never a URL |
| Util.IsBase64Spec | lib/util.js:78 | a string is Base64 data exactly when it starts with `data:` in any letter case |
| Util.NormalizeSlash | lib/util.js:135 | the length is kept, no backslash is left, each backslash becomes `/` and every other character is unchanged |
| Util.NormalizeSlashIdempotent | lib/util.js:135 | normalising twice is normalising once |
| Util.NormalizeSlashConcat | lib/util.js:135 | normalisation distributes over concatenation |
| Util.ParseVarsNoPlaceholder | lib/util.js:56-60 | a string with no `{$name}` placeholder is returned unchanged |
| Util.ParseVarsPlaceholder | lib/util.js:56-60 | a lone `{$name}` becomes the value bound to `name`, or the empty string when it is unbound |
| Util.ParseVarsLiteralPrefix | lib/util.js:56-60 | text before any `{` is copied through, and the rest is substituted independently |
| Util.ExtIsLongestMatch | lib/util.js:83 | the extension found is of the `(.\w+)+` form and is the longest such suffix |
| Util.ExtLenAppend | lib/util.js:83 | appending `.word` extends the extension by exactly that part and keeps the stem |
| Util.SourceExtMaps | lib/util.js:86-94 | `.xtpl`, `.css` and `.scss` map to their `.js` forms and back |
| Util.ConvertUntypedSource | lib/util.js:102-111 | with no type, a source extension gets `.js` appended |
| Util.ConvertUntypedOther | lib/util.js:102-111 | with no type, any other extension is left as it is |
| Util.ConvertTyped | lib/util.js:102-111 | with a type, the whole extension is replaced by the type's mapping, an unknown type leaves it, and a path with no extension gets the mapping appended |
| Util.ConvertExtname | lib/util.js:102-111 | the path before its last extension is kept |
| Util.RevertExtname | lib/util.js:119-126 | the path before its last extension is kept |
| Util.RevertCases | lib/util.js:119-126 | a known `.js` form is turned back into its source extension; every other path is unchanged |
| Util.RevertConvertRoundTrip | lib/util.js:102-126 | reverting a converted source path gives the original path back |
| Util.CalcMd5 | lib/util.js:146-153 | the result is a prefix of the digest, the whole digest when no length is given, otherwise of the requested length capped by the digest's |
| Util.CalcMd5Hex | lib/util.js:146-153 | a hexadecimal digest stays hexadecimal when cut and holds no `.`, `/` or `\` |
| Util.FormatRunSpec | lib/util.js:38-44 | a one-letter field is the plain number; a longer run is zero-padded on the left, or cut to its last digits, to exactly the run's length |
| Util.FormatDateLiteral | lib/util.js:37-45 | a format with no date letters is returned unchanged |
| Util.FormatDateRun | lib/util.js:37-45 | a maximal run of one date letter becomes that field formatted to the run's length, followed by the rest of the format |
| Paths.WalkNormal | depa.js:23-25 | resolving keeps a path normal: no empty, `.` or `..` segments |
| Paths.ResolveSegment | lib/gulp-md5-export.js:44 | joining a directory with a plain name appends that name |
| Paths.RelativeBelow | lib/asset-combiner.js:39 | the relative path from a directory to a path below it is the joined remainder |
| Dedup.UniqueArray | depa.js:66-76 | no duplicates, no empty entries, and exactly the non-empty members of the input |
| Dedup.UniqueArrayOrder | depa.js:66-76 | entries keep the order of their first occurrence |
| Dedup.UniqueArrayPrefix | depa.js:66-76 | the deduplicated prefix of a list leads the deduplicated list |
| Dedup.UniqueArrayFixed | depa.js:66-76 | a list with no duplicates and no empty entries is unchanged |
| Dedup.UniqueArrayIdempotent | depa.js:66-76 | deduplicating twice is deduplicating once |
| Resolve.StripQueryIdempotent | depa.js:21 | stripping the query twice is stripping it once |
| Resolve.QueryStartFirst | depa.js:21 | on a single line, the query starts at the first `?` |
| Resolve.GetRelPathIgnoresQuery | depa.js:20-45 | the query of a reference never affects the resolved path |
| Resolve.GetRelPathFromRoot | depa.js:20-45 | a plain reference resolves below the asset root, with the kind's default extension added only when the last segment has none |
| Resolve.GetRelPathFromContext | depa.js:20-45 | a `./` reference resolves below the directory of the file that makes it, with the same extension rule |
| Resolve.LocateDotIn | depa.js:23-25 | a `.`-prefixed reference walks its remaining segments from the context file's directory, with no lookup under the asset root |
| Resolve.StripQuery | depa.js:21 | a reference without `?` is unchanged; otherwise the result is the text before a `?`, and on one line no `?` survives |
| Resolve.GetRelPath | depa.js:44 | the result never holds a backslash |
| Resolve.RewriteSegmentModVer | depa.js:48-56 | a segment `mod@ver` becomes `mod/ver/mod` |
| Resolve.ParsePathModVer | depa.js:48-56 | a leading `mod@ver/` becomes `mod/ver/mod/` and the rest of the path is rewritten on its own |
| Resolve.ParsePathNoAt | depa.js:48-56 | a path with no `@` is unchanged |
| Scanners.ScanRequiresSound | depa.js:127-132 | every name found is the argument of a `require(...)` call that starts at or after the scan position |
| Scanners.ScanRequiresFirst | depa.js:127-132 | the first call not preceded by `.` or `$` is found first, then scanning resumes after it |
| Scanners.ScanSkipsMemberCall | depa.js:127 | a `require` preceded by `.` or `$` is not a dependency |
| Scanners.ScanRequiresArgs | depa.js:127 | every extracted name is non-empty and holds no quote, white space or `)`, as the group `([^"'\s\)]+)` demands |
| Scanners.ScanRequiresNone | depa.js:127-132 | text with no `require` yields no dependencies |
| Scanners.CodeLineKept | depa.js:125 | a line that starts with code, neither white space nor `//`, survives the line-comment pass unchanged with its line break |
| Scanners.StripBlockComments | depa.js:124 | stripping never lengthens the text; what it removes and keeps is stated by Scanners.BlockCommentDropped and Scanners.StripBlockCommentsNone |
| Scanners.LineCommentDropped | depa.js:125 | a whole-line `//` comment is removed up to its line break |
| Scanners.BlockCommentDropped | depa.js:124 | a `/* ... */` comment that fills its lines is removed up to the line break |
| Scanners.StripBlockCommentsNone | depa.js:124 | text with no comment opener is unchanged |
| Scanners.StripLineCommentsNone | depa.js:125 | text with no `//` opener is unchanged |
| Scanners.ModJsDeps | depa.js:118-137 | there is one dependency per `require` call found in the text once both comment forms are removed |
| Scanners.ModJsDepsPlain | depa.js:122-131 | on text with no comment opener, the dependencies are exactly the `require` arguments in order, each with `mod@ver` rewritten |
| Scanners.ModJsCommentedRequire | depa.js:125-131 | a `require` inside a whole-line `//` comment is not a dependency |
| AssetGraph.DirectDeps | depa.js:82-84 | head scripts and plain scripts declare no dependencies |
| AssetGraph.Fold | depa.js:155-164 | the dependency loop only extends the cache and only appends to the list it has built |
| AssetGraph.Parse | depa.js:143-172 | a success caches the file's path, only extends the cache, and returns a duplicate-free list with no empty entries |
| AssetGraph.Closure | depa.js:143-172 | the reference closure, defined without a cache, is a duplicate-free list with no empty entries |
| AssetGraph.ParseFile | depa.js:143-172 | a success caches the file's list under its path, never overwrites an entry, and yields a duplicate-free list with no empty entries |
| AssetGraph.ParseIsClosure | depa.js:143-172 | from an empty cache the parser yields exactly the first-occurrence dependency closure |
| AssetGraph.ParseFileIsClosure | depa.js:148 | the cache is transparent: with a cache that agrees with the closures, the parser still returns the closure |
| AssetGraph.ClosureUnique | depa.js:143-172 | any two fuel bounds that find a closure find the same one |
| AssetGraph.ClosureMono | depa.js:143-172 | more fuel never changes a closure that was found |
| AssetGraph.ParseFileHasDirectDeps | depa.js:155-163 | every non-URL direct reference, once resolved, is in the result |
| AssetGraph.FoldAllURLs | depa.js:157 | a file whose every reference is a URL depends on nothing |
| AssetGraph.ClosureFirst | depa.js:159-163 | the first resolved reference leads the closure |
| AssetGraph.ScriptsHaveNoDeps | depa.js:82-84 | parsing a head or plain script caches and returns the empty list |
| AssetGraph.FoldLocal | depa.js:157-163 | URL references are never followed: every entry comes from resolving a reference |
| Templates.ParseRelation | depa.js:227-230 | the target is the reference with its query removed |
| Templates.AddRelation | depa.js:236-238 | merging a relation keeps every list's entries in front and adds the target as a `tpl` entry |
| Templates.AssetsFold | depa.js:201-217 | the asset loop only extends the asset cache and never touches the `tpl` list |
| Templates.RelFold | depa.js:225-247 | one link per relation, each resolved as an `xtpl` reference and cached, and the caches only grow |
| Templates.Finalize | depa.js:249-251 | every list ends duplicate-free, and holds exactly the non-empty entries it had |
| Templates.ParseRelationQuery | depa.js:227-230 | a relation is browser-rendered exactly when its query is `csr` or `csrOnly`, and the target loses the query |
| Templates.ParseRelationPlain | depa.js:227-230 | a relation with no query is server-rendered and its target unchanged |
| Templates.AddRelationsHas | depa.js:236-246 | every relation target is a `tpl` entry, its manifest is merged in, and a browser-rendered relation adds `target.js` and the target's templates as `.js` module entries |
| Templates.AddRelationsModJs | depa.js:241-246 | without browser-rendered relations, every module entry comes from the template or from a related manifest |
| Templates.TplParse | depa.js:180-256 | a success leaves a well-formed manifest cached under the template's name and never overwrites a cache entry |
| Templates.TplParseOwnAsset | depa.js:201-217 | every non-URL asset item is in the manifest under its own kind |
| Templates.TplParseOwnFirst | depa.js:201-251 | the template's own assets lead each list, ahead of what its relations bring |
| Templates.TplParseRelation | depa.js:225-247 | each relation is resolved as an `xtpl` reference, and its target and cached manifest are reflected in the result |
| Templates.Depa | depa.js:260-274 | the table has exactly the pages as keys, each with a well-formed manifest; each value is tied to the template parser by Templates.DepaFrom, Templates.DepaCached and Templates.DepaFirst |
| Templates.DepaFrom | depa.js:267-270 | each page's value is the manifest the template parser cached for it, the caches only grow, and entries for other keys are kept |
| Templates.DepaCached | depa.js:269 | each page's value is what parsing that page returns with the caches the whole run ends with |
| Templates.DepaFirst | depa.js:268-269 | the first page's value is the parse of that page from empty caches |
| Combiner.PullStandalone | lib/asset-combiner.js:78-89 | URLs and standalone files are pulled out, the rest stay as candidates, and together they are a permutation of the input |
| Combiner.MatchCountSpec | lib/asset-combiner.js:119-125 | counting succeeds exactly when the list holds only globs, and counts zero exactly when none matches |
| Combiner.FirstRuleSpec | lib/asset-combiner.js:103-108 | the first rule whose `match` fits chooses the list, and none is chosen when no rule fits |
| Combiner.Secondaries | lib/asset-combiner.js:113-126 | a success never unflags a candidate, keeps the primary's flag, only appends, and counts every secondary it adds |
| Combiner.Primaries | lib/asset-combiner.js:98-135 | every group added starts with a candidate that has a rule |
| Combiner.Arrange | lib/asset-combiner.js:137-148 | every bundle in an arrangement has at least two members |
| Combiner.Leftover | lib/asset-combiner.js:137-148 | no rest gives nothing, one rest is emitted alone, and several are bundled together |
| Combiner.ArrangeContents | lib/asset-combiner.js:78-148 | the arrangement lists the pulled files, then the groups in order, then the rests |
| Combiner.ArrangePartition | lib/asset-combiner.js:78-148 | with first-glob counting, the arrangement is a permutation of the dependencies |
| Combiner.ArrangeSingleMatches | lib/asset-combiner.js:119-125 | when no dependency matches two globs of a list, both counting modes agree and the arrangement is a permutation |
| Combiner.DoubleCountDrops | lib/asset-combiner.js:119-125 | with two globs matching one secondary, the code as written bundles it twice and drops the last rest |
| Combiner.DoubleCount | lib/asset-combiner.js:119-125 | concrete case: `a.js` absorbs `b.js` twice and `c.txt` is lost |
| Combiner.ReadAll | lib/asset-combiner.js:25-30 | reading succeeds exactly when every member has an MD5 path whose file exists, and gives their contents in order |
| Combiner.BundleFile | lib/asset-combiner.js:18-42 | a success caches its path under the bundle key, and adds no other key |
| Combiner.BundleFileName | lib/asset-combiner.js:33-39 | a fresh bundle's path is `~combines/` plus the first 16 digest characters of the newline-joined contents, plus the kind's extension |
| Combiner.BundleFileRepeat | lib/asset-combiner.js:22 | combining the same list again returns the cached path and leaves the cache unchanged |
| Combiner.BundlePathIs | lib/asset-combiner.js:33-39 | the saved file's path relative to the asset root is `~combines/<hash><ext>` |
| Combiner.BundleMembers | lib/asset-combiner.js:155-157 | each bundle member is looked up in the MD5 map after reverting its extension |
| Combiner.EmitOne | lib/asset-combiner.js:151-165 | an entry gives one path, the MD5 path for a single file, and keeps the cache |
| Combiner.Emit | lib/asset-combiner.js:151-165 | one path per entry, each as the entry's kind demands |
| Combiner.CombineList | lib/asset-combiner.js:71-168 | a list succeeds exactly when arranging and emitting succeed, with one path per arranged entry |
| Combiner.CombinePage | lib/asset-combiner.js:70-72 | a kind has a list exactly when the page's manifest has entries of that kind, there are no other keys, and each list is that kind's arrangement emitted entry by entry |
| Combiner.Combine | lib/asset-combiner.js:65-67 | the result has exactly the pages of the dependency table as keys, and the first entry for each page gives its combined lists |
| Combiner.CombineEveryPage | lib/asset-combiner.js:65-72 | with distinct page names, every page's lists are its kinds' arrangements emitted entry by entry |
| Build.CheckEnv | build.js:18-22 | the environment is accepted exactly when its lower-cased text is `dev`, `test`, `pre` or `prod`, and the lower-cased text is kept |
| Build.Revision | build.js:40-56 | a given revision is lower-cased, and a missing or empty one is the generated value |
| Build.BuildPathRev | build.js:58-59 | a build path ending in `{$rev}` ends in the revision |
| Build.BuildPathPlain | build.js:58-59 | a build path with no placeholder is the resolved path |
| Build.Configure | build.js:17-89 | the configuration exists exactly when the environment is valid; it keeps the rules' `match` values and the standalone list, expands each rule's list against the earlier rules, takes the environment's hosts and the URL prefix, resolves the static root, and builds both output paths with the revision |
| Build.ExpandList | build.js:68-73 | expanding never shortens a list |
| Build.Expand | build.js:65-78 | one rule out per rule in, each with its own `match` |
| Build.ExpandRules | build.js:65-80 | no rules give no rules, otherwise one expanded rule per configured rule |
| Build.RuleMapOf | build.js:75 | the rule map's keys are exactly the rules' `match` values |
| Build.RuleMapOfLast | build.js:75 | a later rule with the same `match` replaces an earlier one |
| Build.ExpandEarlier | build.js:65-80 | each rule's list is expanded against the rules before it only |
| Build.NoSelfAbsorb | build.js:70-75 | a rule never absorbs its own list |
| Build.ExpandListLiterals | build.js:68-69 | the expanded list keeps every configured item, in order |
| Build.ExpandListNested | build.js:70-73 | a nested element follows an item that names an earlier rule, and holds that rule's list |
| Build.ExpandListAbsorbs | build.js:70-73 | an item naming an earlier rule brings that rule's list in |
| Build.AbsorbingRuleFails | build.js:72 | a rule whose list names an earlier rule gets a nested list, and matching against it fails |
| Build.ExpandListFlatGlobs | build.js:68-73 | the corrected expansion contains only globs: each item, then the absorbed rule's items |
| Build.FlatRulesTestable | build.js:65-80 | with the corrected expansion every rule's list can be matched |
| Md5Export.Separator | lib/gulp-md5-export.js:21 | a given non-empty separator is used as it is; a missing or empty one becomes `.` |
| Md5Export.Size | lib/gulp-md5-export.js:22 | a given non-zero size is used as it is; a missing or zero one becomes 10 |
| Md5Export.RenameInsert | lib/gulp-md5-export.js:38-42 | the mark is inserted just before the last extension |
| Md5Export.RenameNoDot | lib/gulp-md5-export.js:38-42 | a name with no dot is left as it is |
| Md5Export.RenameHashSegment | lib/gulp-md5-export.js:38-42 | with the `.` separator, the digest is the second-to-last dot-separated part of the new name |
| Md5Export.Process | lib/gulp-md5-export.js:24-56 | a non-buffer file passes unchanged, the base and contents are kept, and a pair is reported exactly when the file is a buffer and a reporter is given |
| Md5Export.ProcessKeepsDirectory | lib/gulp-md5-export.js:30-44 | the file stays in its directory and gets the renamed name |
| Md5Export.ProcessExport | lib/gulp-md5-export.js:46-51 | the reported pair is the old and the new path relative to the base, with `/` separators |
| Publish.UrlPrefix | gulpfile.js:79-84 | a prefix is the substituted template, with `/` appended only when it does not already end in one |
| Publish.UrlPrefixes | gulpfile.js:78-89 | there are as many prefixes as hosts, and never fewer than three |
| Publish.Pad | gulpfile.js:87-89 | the list is padded to three by repeating its last element |
| Publish.UrlPrefixesHosts | gulpfile.js:78-89 | each host gets its own prefix, later slots repeat the last host's prefix, and every prefix ends in `/` |
| Publish.UrlPrefixesNoHosts | gulpfile.js:78-89 | without hosts, all three prefixes use the empty host |
| Publish.HashPart | gulpfile.js:407 | the kept part holds no `.`, and a path with no `.` is kept whole |
| Publish.Slim | gulpfile.js:403-409 | every entry kept is one the browser may load dynamically |
| Publish.HashPartOfRenamed | gulpfile.js:407 | the browser map keeps exactly the digest that renaming inserted |
| Publish.BrowserMap | gulpfile.js:399-409 | the map is sorted by key and is a permutation of the kept entries |
| Publish.BrowserMapMembers | gulpfile.js:403-409 | an entry is in the map exactly when its key is kept for the browser and its value is the digest part of that key's MD5 path |
| Publish.KeepCases | gulpfile.js:405 | `.raw.js` files are kept, and `.css` and `.xtpl` files are dropped |
| Publish.Sort | gulpfile.js:401 | the result is sorted and a permutation of the input |
| Publish.BrowserMapFileName | gulpfile.js:417-418 | the map file is named `md5-map.` plus a prefix of the digest of `var md5Map = <json>;` of at most ten characters, plus `.js` |
| Publish.Prefixed | gulpfile.js:437-443 | URLs are kept and every other path gets the prefix |
| Publish.Finish | gulpfile.js:426-445 | the kinds present stay, `headjs` is always present, and other keys are untouched |
| Publish.FinishLists | gulpfile.js:426-433 | `headjs` and `modjs` get the first prefix, `css` and `js` the second, `headjs` starts with the browser map's script, and exactly the kinds present plus `headjs` are keys |
| Publish.FinishHeadFirst | gulpfile.js:430-433 | the head scripts start with the prefixed map file |
| Publish.FinishAll | gulpfile.js:426-445 | every page keeps its key and gets a head-script list |
| Publish.CssRel2Root | gulpfile.js:160-162 | URLs and Base64 data are left as they are |
| Publish.CssRel2RootRooted | gulpfile.js:163-172 | a reference from the root (`/...`) to a file below the base is looked up under its path from the base, wherever the stylesheet sits |
| Publish.CssRel2RootAboveBase | gulpfile.js:163-172 | concrete case: in `/p/css/a.css` below `/p`, `url(/img/a.png)` is looked up as `../img/a.png` |
| Publish.CssRel2RootSibling | gulpfile.js:163-172 | a relative reference to a sibling file becomes the quoted prefix plus that file's MD5 path |

## Left out

- Reading files, writing files and creating directories are not modelled; the file system is a map from absolute paths to contents.
  - A missing file is `Err(MissingFile)` rather than a thrown exception.
  - `util.readFile`'s content cache is not modelled.
  - The `fs.existsSync` checks and `mkdirSync` are not modelled.
- Glob matching (`minimatch`) is not modelled; it is a function parameter `m`.
  - `Combiner.Emit`: bundle paths are stated only to be present, because their names depend on the digest.
- The MD5 digest (`crypto`) is not modelled; it is a function parameter `digest`.
- The CSS `@import` scanner (depa.js:97-101) is a function parameter `cssImports`.
  - Its regular expression lacks the `g` flag, so the `while (re.exec(...))` loop never ends on a file with an import.
  - The scanner is kept abstract; a closure that runs through a stylesheet with an `@import` describes a run the program never finishes.
- The template directive regular expressions (depa.js:193-194 and 220) are a function parameter `directives`.
  - The relation query and the asset-item resolution after them are modelled.
- The `glob('**/*.page.xtpl')` walk and its Promise are replaced by the list of page names.
- Recursion has no guard in the source. In the model it carries fuel; running out gives `Err(OutOfFuel)` where the build would loop forever or overflow the stack.
- Caches:
  - The parser caches and the bundle cache are explicit state, threaded through calls.
  - That `assetParsers` hands out copies (`slice`) is not visible in an immutable model.
- JavaScript prototype keys such as `constructor` are treated as ordinary keys, in:
  - `uniqueArray`'s flags;
  - the rule map;
  - `parseVars`'s data;
  - the MD5 map.
- Revision auto-generation (build.js:42-56) is not modelled.
  - It reads the clock and the disk, and probes up to a hundred directory names.
  - It is the `generated` parameter of `Build.Revision`.
- The `childProcess.fork` call that starts gulp, and the log output, are not modelled.
- Md5Export.Process: the `file.path[0] == '.'` branch is not modelled, because a stream file's path is absolute.
- Paths: only normalised absolute paths are modelled.
  - `path.basename`/`path.dirname` on trailing slashes are not modelled.
  - Windows separators are not modelled; `normalizeSlash` is modelled on its own.
- `JSON.stringify` of the browser map is not modelled; it is the serialisation parameter of `Publish.BrowserMapFileName`.
- Build.Configure:
  - a `static_hosts` entry that is not an array is not modelled;
  - `static_hosts` being absent and its environment key being absent are both `None`.
- Build.Configure: `static_url_prefix` is taken to be a string; an absent one, which JavaScript would carry on as `undefined`, is not modelled.
- Combiner.Combine: the standalone globs are always a list; the source's fallback for a null `staGlobs` (line 68) is not needed.
- Util.FormatDateRun: field values come as numbers; the `Date` accessors are not modelled.
- Build.Revision: lower-casing folds only ASCII letters, where JavaScript's `toLowerCase` folds every Unicode letter.
- Publish.Sort: strings are ordered by code point, where JavaScript's default `sort` compares UTF-16 code units; the two orders differ only for characters beyond the Basic Multilingual Plane.

## Findings

| source | as written | input that shows it | evidently intended | confidence | as-written member | corrected member |
|---|---|---|---|---|---|---|
| build.js:72 | `list.push.call(list, embedRule.list)` pushes the earlier rule's whole list as one nested array element | rules `[{match:"a.js",list:["b.js"]}, {match:"c.js",list:["a.js"]}]`: the second rule's list becomes `["a.js", ["b.js"]]`, and `minimatch` is then called with an array pattern, which throws | spread the earlier list's items into the new list (`push.apply`) | not executed | Build.AbsorbingRuleFails | Build.FlatRulesTestable |
| lib/asset-combiner.js:119-125 | the `some` callback never returns `true`, so every glob that matches a secondary pushes it again and increments the counter again | deps `a.js`, `b.js`, `c.txt` with the rule `a.js: [b*, *.js]`: `b.js` is bundled twice, the counter reaches the dependency count, and `c.txt` is dropped | stop at the first matching glob, so each dependency is bundled once | not executed | Combiner.DoubleCountDrops | Combiner.ArrangePartition |
