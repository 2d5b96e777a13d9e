/** lib/gulp-md5-export.js: a file's MD5 digest is written into its name,
    and the old and new paths are reported to an optional `exportMap`. */
module Md5Export {
  import opened Wrappers
  import opened Strings
  import opened Util
  import opened Paths

  /** The plugin options as given; `None`, `""` and `0` all fall back. */
  datatype Options = Options(separator: Option<string>, size: Option<nat>, exportMap: bool)

  /** `options.separator || '.'`. */
  function Separator(o: Options): (r: string)
    ensures r != ""
    ensures o.separator.Some? && o.separator.value != "" ==> r == o.separator.value
    ensures o.separator.None? || o.separator.value == "" ==> r == "."
  {
    if o.separator.Some? && o.separator.value != "" then o.separator.value else "."
  }

  /** `options.size || 10`. */
  function Size(o: Options): (r: nat)
    ensures r > 0
    ensures o.size.Some? && o.size.value != 0 ==> r == o.size.value
    ensures o.size.None? || o.size.value == 0 ==> r == 10
  {
    if o.size.Some? && o.size.value != 0 then o.size.value else 10
  }

  /** A file of the stream: its base (`None` when unset), its absolute path,
      and its contents when it is a buffer. */
  datatype VFile = VFile(base: Option<Abs>, path: Abs, contents: Option<string>)

  /** `path.basename` of a normalised absolute path. */
  function Basename(p: Abs): string {
    if |p| == 0 then "" else p[|p| - 1]
  }

  /** `item + separator + hash` for the part at index `length - 2`. */
  function MarkPart(parts: seq<string>, mark: string): (r: seq<string>)
    ensures |r| == |parts|
  {
    if |parts| >= 2 then parts[|parts| - 2 := parts[|parts| - 2] + mark] else parts
  }

  /** `filename.split('.').map(...).join('.')`. */
  function Rename(filename: string, mark: string): string {
    Join('.', MarkPart(Split(filename, '.'), mark))
  }

  lemma {:induction false} SplitSnoc(a: string, b: string, c: char)
    requires c !in b
    ensures Split(a + [c] + b, c) == Split(a, c) + [b]
    decreases |a|
  {
    if |a| == 0 {
      assert a + [c] + b == [c] + b;
      assert ([c] + b)[1..] == b;
      SplitNoSep(b, c);
    } else {
      assert (a + [c] + b)[0] == a[0];
      assert (a + [c] + b)[1..] == a[1..] + [c] + b;
      SplitSnoc(a[1..], b, c);
      if a[0] != c {
        var rest := Split(a[1..], c);
        assert |rest| >= 1;
        assert (rest + [b])[0] == rest[0];
        assert (rest + [b])[1..] == rest[1..] + [b];
      }
    }
  }

  lemma {:induction false} JoinSnoc(ps: seq<string>, y: string, c: char)
    requires |ps| >= 1
    ensures Join(c, ps + [y]) == Join(c, ps) + [c] + y
    decreases |ps|
  {
    if |ps| == 1 {
      assert ps + [y] == [ps[0], y];
      assert [ps[0], y][1..] == [y];
    } else {
      assert (ps + [y])[1..] == ps[1..] + [y];
      JoinSnoc(ps[1..], y, c);
    }
  }

  lemma JoinMarkLast(ps: seq<string>, x: string, c: char)
    requires |ps| >= 1
    ensures Join(c, ps[|ps| - 1 := ps[|ps| - 1] + x]) == Join(c, ps) + x
  {
    var init := ps[..|ps| - 1];
    var last := ps[|ps| - 1];
    if |init| == 0 {
      assert ps == [last];
      assert ps[|ps| - 1 := last + x] == [last + x];
    } else {
      assert ps[|ps| - 1 := last + x] == init + [last + x];
      assert ps == init + [last];
      JoinSnoc(init, last + x, c);
      JoinSnoc(init, last, c);
    }
  }

  /** A name with no dot is left as it is. */
  lemma RenameNoDot(filename: string, mark: string)
    requires '.' !in filename
    ensures Rename(filename, mark) == filename
  {
    SplitNoSep(filename, '.');
  }

  /** The mark goes right before the last extension: `a.raw.js` becomes
      `a.raw<mark>.js`. */
  lemma RenameInsert(a: string, b: string, mark: string)
    requires '.' !in b
    ensures Rename(a + "." + b, mark) == a + mark + "." + b
  {
    var parts := Split(a, '.');
    SplitSnoc(a, b, '.');
    var all := parts + [b];
    assert MarkPart(all, mark) == parts[|parts| - 1 := parts[|parts| - 1] + mark] + [b];
    JoinSnoc(parts[|parts| - 1 := parts[|parts| - 1] + mark], b, '.');
    JoinMarkLast(parts, mark, '.');
    JoinSplit(a, '.');
  }

  /** Position of the last dot. */
  function LastDot(s: string): (i: nat)
    requires '.' in s
    ensures i < |s| && s[i] == '.' && '.' !in s[i + 1..]
  {
    if s[|s| - 1] == '.' then |s| - 1
    else
      assert s[|s| - 1] !in "." ;
      assert '.' in s[..|s| - 1] by {
        var k :| 0 <= k < |s| && s[k] == '.';
        assert s[..|s| - 1][k] == '.';
      }
      var i := LastDot(s[..|s| - 1]);
      assert s[i + 1..] == s[..|s| - 1][i + 1..] + [s[|s| - 1]];
      i
  }

  /** With the default separator and a digest without dots, the digest is
      the second-to-last `.`-part of the new name, which is where the
      browser's MD5 map reads it from. */
  lemma RenameHashSegment(filename: string, hash: string)
    requires '.' in filename && '.' !in hash
    ensures var parts := Split(Rename(filename, "." + hash), '.');
      |parts| >= 3 && parts[|parts| - 2] == hash
  {
    var a, b := AtLastDot(filename);
    RenameInsert(a, b, "." + hash);
    ConcatAssoc(a, ".", hash);
    ConcatAssoc(a, "." + hash, ".");
    SplitSnoc(a + "." + hash, b, '.');
    SplitSnoc(a, hash, '.');
    SecondToLast(Split(a, '.'), hash, b);
  }

  /** The parts before and after the last dot. */
  lemma AtLastDot(s: string) returns (a: string, b: string)
    requires '.' in s
    ensures s == a + "." + b && '.' !in b
  {
    var i := LastDot(s);
    a, b := s[..i], s[i + 1..];
    assert s == a + "." + b;
  }

  lemma SecondToLast<T>(p: seq<T>, x: T, y: T)
    requires |p| >= 1
    ensures |p + [x] + [y]| >= 3 && (p + [x] + [y])[|p + [x] + [y]| - 2] == x
  { }

  /** `getPath`: relative to the base when there is one. */
  function GetPath(f: VFile): string {
    match f.base
    case Some(b) => Relative(b, f.path)
    case None => Format(f.path)
  }

  /** What the callback hands on: the file, and the pair it reports. */
  datatype Out = Out(file: VFile, exported: Option<(string, string)>)

  /** The `through.obj` callback. */
  function Process(o: Options, digest: string -> string, f: VFile): (r: Out)
    ensures f.contents.None? ==> r.file == f && r.exported.None?
    ensures r.file.base == f.base && r.file.contents == f.contents
    ensures r.exported.Some? <==> f.contents.Some? && o.exportMap
  {
    match f.contents
    case None => Out(f, None)
    case Some(text) =>
      var hash := CalcMd5(digest, text, Size(o));
      var name := Rename(Basename(f.path), Separator(o) + hash);
      var g := f.(path := Paths.Resolve(Dirname(f.path), name));
      Out(g, if o.exportMap then Some((NormalizeSlash(GetPath(f)), NormalizeSlash(GetPath(g)))) else None)
  }

  /** Only the name changes: the file stays in its directory, and its new
      name is the old one with the separator and digest inserted. */
  lemma ProcessKeepsDirectory(o: Options, digest: string -> string, f: VFile)
    requires f.contents.Some? && |f.path| > 0
    requires IsSegment(Rename(Basename(f.path), Separator(o) + CalcMd5(digest, f.contents.value, Size(o))))
    ensures Dirname(Process(o, digest, f).file.path) == Dirname(f.path)
    ensures Basename(Process(o, digest, f).file.path)
         == Rename(Basename(f.path), Separator(o) + CalcMd5(digest, f.contents.value, Size(o)))
  {
    var name := Rename(Basename(f.path), Separator(o) + CalcMd5(digest, f.contents.value, Size(o)));
    ResolveSegment(Dirname(f.path), name);
  }

  /** A path below the base is reported relative to it, with `/` separators. */
  lemma GetPathBelow(b: Abs, dir: Abs, name: string, contents: Option<string>)
    requires '\\' !in name && forall k :: 0 <= k < |dir| ==> '\\' !in dir[k]
    ensures NormalizeSlash(GetPath(VFile(Some(b), b + dir + [name], contents))) == Join('/', dir + [name])
  {
    var rest := dir + [name];
    assert b + dir + [name] == b + rest;
    assert forall k :: 0 <= k < |rest| ==> '\\' !in rest[k] by {
      forall k | 0 <= k < |rest| ensures '\\' !in rest[k] {
        if k < |dir| {
          assert rest[k] == dir[k];
        }
      }
    }
    RelativeBelow(b, rest);
    JoinNoBackslash(rest);
  }

  /** The reported pair: the old and the new path below the base. */
  lemma ProcessExport(o: Options, digest: string -> string, b: Abs, dir: Abs, name0: string, text: string)
    requires o.exportMap && IsSegment(name0)
    requires '\\' !in name0 && forall k :: 0 <= k < |dir| ==> '\\' !in dir[k]
    requires IsSegment(Rename(name0, Separator(o) + CalcMd5(digest, text, Size(o))))
    requires '\\' !in Rename(name0, Separator(o) + CalcMd5(digest, text, Size(o)))
    ensures Process(o, digest, VFile(Some(b), b + dir + [name0], Some(text))).exported
         == Some((Join('/', dir + [name0]), Join('/', dir + [Rename(name0, Separator(o) + CalcMd5(digest, text, Size(o)))])))
  {
    var name := Rename(name0, Separator(o) + CalcMd5(digest, text, Size(o)));
    var f := VFile(Some(b), b + dir + [name0], Some(text));
    var g := f.(path := b + dir + [name]);
    LastSegment(b + dir, name0);
    ResolveSegment(b + dir, name);
    ProcessRenamed(o, digest, f, text, name, g);
    GetPathBelow(b, dir, name0, f.contents);
    GetPathBelow(b, dir, name, g.contents);
  }

  lemma LastSegment(d: Abs, name: string)
    ensures Dirname(d + [name]) == d && Basename(d + [name]) == name
  {
    assert (d + [name])[..|d|] == d;
  }

  /** What `Process` returns for a buffer, once the new name is known. */
  lemma ProcessRenamed(o: Options, digest: string -> string, f: VFile, text: string, name: string, g: VFile)
    requires f.contents == Some(text) && o.exportMap
    requires name == Rename(Basename(f.path), Separator(o) + CalcMd5(digest, text, Size(o)))
    requires g == f.(path := Paths.Resolve(Dirname(f.path), name))
    ensures Process(o, digest, f).exported == Some((NormalizeSlash(GetPath(f)), NormalizeSlash(GetPath(g))))
  {
  }

  lemma {:induction false} JoinNoBackslash(ps: seq<string>)
    requires forall k :: 0 <= k < |ps| ==> '\\' !in ps[k]
    ensures NormalizeSlash(Join('/', ps)) == Join('/', ps)
    decreases |ps|
  {
    if |ps| > 1 {
      JoinNoBackslash(ps[1..]);
      NormalizeSlashConcat(ps[0] + "/", Join('/', ps[1..]));
      NormalizeSlashPlain(ps[0] + "/");
    } else if |ps| == 1 {
      NormalizeSlashPlain(ps[0]);
    }
  }
}
