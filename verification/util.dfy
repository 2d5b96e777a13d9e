/** The pure helpers of lib/util.js: URL and data-URI detection, `{$name}`
    substitution, slash normalisation, the multi-part extension rewriting
    used for built assets, and date formatting. */
module Util {
  import opened Wrappers
  import opened Strings

  // ---------------------------------------------------------------------
  // isURL / isBase64
  // ---------------------------------------------------------------------

  /** Length of the leading run of ASCII letters. */
  function LetterRun(s: string): (n: nat)
    ensures n <= |s|
    ensures forall i :: 0 <= i < n ==> IsAsciiLetter(s[i])
    ensures n == |s| || !IsAsciiLetter(s[n])
  {
    if |s| > 0 && IsAsciiLetter(s[0]) then 1 + LetterRun(s[1..]) else 0
  }

  /** `/^([a-z]+:)?\/\//i`: a protocol-relative or scheme-qualified URL. */
  predicate IsURL(s: string) {
    StartsWith(s, "//") || (LetterRun(s) >= 1 && StartsWith(s[LetterRun(s)..], "://"))
  }

  /** Every URL holds a slash. */
  lemma NoSlashNotURL(s: string)
    requires '/' !in s
    ensures !IsURL(s)
  {
    if |s| >= 2 {
      assert s[0] in s;
    }
    var n := LetterRun(s);
    if n + 1 < |s| {
      assert s[n + 1] in s;
      assert s[n..][1] == s[n + 1];
    }
  }


  /** A letter run that stops at a non-letter is the leading letter run. */
  lemma {:induction false} LetterRunIs(s: string, k: nat)
    requires k <= |s|
    requires forall i :: 0 <= i < k ==> IsAsciiLetter(s[i])
    requires k == |s| || !IsAsciiLetter(s[k])
    ensures LetterRun(s) == k
  {
    if k > 0 {
      LetterRunIs(s[1..], k - 1);
    }
  }

  /** Independent reading of the same regular expression: some non-empty
      letter prefix followed by `://`, or `//` at the start. */
  lemma IsURLSpec(s: string)
    ensures IsURL(s) <==>
      StartsWith(s, "//") ||
      exists k :: 1 <= k <= |s| && (forall i :: 0 <= i < k ==> IsAsciiLetter(s[i])) && StartsWith(s[k..], "://")
  {
    if exists k :: 1 <= k <= |s| && (forall i :: 0 <= i < k ==> IsAsciiLetter(s[i])) && StartsWith(s[k..], "://") {
      var k :| 1 <= k <= |s| && (forall i :: 0 <= i < k ==> IsAsciiLetter(s[i])) && StartsWith(s[k..], "://");
      assert s[k] == ':';
      LetterRunIs(s, k);
    }
  }

  /** `/^data:/i`. */
  predicate IsBase64(s: string) {
    |s| >= 5 && Lower(s[..5]) == "data:"
  }

  lemma IsBase64Spec(s: string)
    ensures IsBase64(s) <==> StartsWith(Lower(s), "data:")
  {
    if |s| >= 5 {
      assert Lower(s)[..5] == Lower(s[..5]);
    }
  }

  // ---------------------------------------------------------------------
  // normalizeSlash
  // ---------------------------------------------------------------------

  /** Every backslash becomes a forward slash; nothing else changes. */
  function NormalizeSlash(s: string): (r: string)
    ensures |r| == |s|
    ensures '\\' !in r
    ensures forall i :: 0 <= i < |s| && s[i] != '\\' ==> r[i] == s[i]
    ensures forall i :: 0 <= i < |s| && s[i] == '\\' ==> r[i] == '/'
  {
    seq(|s|, i requires 0 <= i < |s| => if s[i] == '\\' then '/' else s[i])
  }

  lemma NormalizeSlashPlain(s: string)
    requires '\\' !in s
    ensures NormalizeSlash(s) == s
  {
  }

  lemma NormalizeSlashIdempotent(s: string)
    ensures NormalizeSlash(NormalizeSlash(s)) == NormalizeSlash(s)
  {
  }

  lemma NormalizeSlashConcat(a: string, b: string)
    ensures NormalizeSlash(a + b) == NormalizeSlash(a) + NormalizeSlash(b)
  {
    assert forall i :: 0 <= i < |a| ==> (a + b)[i] == a[i];
    assert forall i :: |a| <= i < |a + b| ==> (a + b)[i] == b[i - |a|];
  }

  // ---------------------------------------------------------------------
  // parseVars
  // ---------------------------------------------------------------------

  /** Length of the leading run of `\w` characters. */
  function WordRun(s: string): (n: nat)
    ensures n <= |s|
    ensures forall i :: 0 <= i < n ==> IsWordChar(s[i])
    ensures n == |s| || !IsWordChar(s[n])
  {
    if |s| > 0 && IsWordChar(s[0]) then 1 + WordRun(s[1..]) else 0
  }

  /** The variable name of a `{$name}` placeholder starting at the front of `s`. */
  function PlaceholderAt(s: string): (name: Option<string>)
    ensures name.Some? ==>
      |name.value| >= 1 && StartsWith(s, "{$" + name.value + "}") &&
      forall i :: 0 <= i < |name.value| ==> IsWordChar(name.value[i])
  {
    if StartsWith(s, "{$") then
      var w := WordRun(s[2..]);
      if w >= 1 && 2 + w < |s| && s[2 + w] == '}' then
        assert s[..|"{$" + s[2..2 + w] + "}"|] == "{$" + s[2..2 + w] + "}";
        Some(s[2..2 + w])
      else None
    else None
  }

  /** `data[name]`, or the empty string when it is null or undefined. */
  function Lookup(data: map<string, string>, name: string): string {
    if name in data then data[name] else ""
  }

  /** `str.replace(/\{\$(\w+)\}/g, ...)`. */
  function ParseVars(s: string, data: map<string, string>): string
    decreases |s|
  {
    if |s| == 0 then ""
    else match PlaceholderAt(s)
      case Some(name) => Lookup(data, name) + ParseVars(s[|name| + 3..], data)
      case None => [s[0]] + ParseVars(s[1..], data)
  }

  predicate HasPlaceholder(s: string) {
    exists i :: 0 <= i < |s| && PlaceholderAt(s[i..]).Some?
  }

  /** A string without placeholders comes back unchanged. */
  lemma {:induction false} ParseVarsNoPlaceholder(s: string, data: map<string, string>)
    requires !HasPlaceholder(s)
    ensures ParseVars(s, data) == s
  {
    if |s| > 0 {
      assert PlaceholderAt(s[0..]).None?;
      assert s[0..] == s;
      assert !HasPlaceholder(s[1..]) by {
        forall i | 0 <= i < |s[1..]|
          ensures PlaceholderAt(s[1..][i..]).None?
        {
          assert s[1..][i..] == s[i + 1..];
        }
      }
      ParseVarsNoPlaceholder(s[1..], data);
      assert s == [s[0]] + s[1..];
    }
  }

  /** A lone placeholder is replaced by its value (or nothing). */
  lemma ParseVarsPlaceholder(name: string, data: map<string, string>)
    requires |name| >= 1
    requires forall i :: 0 <= i < |name| ==> IsWordChar(name[i])
    ensures ParseVars("{$" + name + "}", data) == Lookup(data, name)
  {
    var s := "{$" + name + "}";
    assert s[2..] == name + "}";
    assert WordRun(s[2..]) == |name| by {
      WordRunOfWord(name, "}");
    }
    assert s[2..2 + |name|] == name;
    assert PlaceholderAt(s) == Some(name);
    assert s[|name| + 3..] == "";
  }

  lemma {:induction false} WordRunOfWord(w: string, rest: string)
    requires forall i :: 0 <= i < |w| ==> IsWordChar(w[i])
    requires |rest| == 0 || !IsWordChar(rest[0])
    ensures WordRun(w + rest) == |w|
  {
    if |w| > 0 {
      assert (w + rest)[1..] == w[1..] + rest;
      WordRunOfWord(w[1..], rest);
    } else {
      assert w + rest == rest;
    }
  }

  /** Text with no `{` in front of the rest passes through literally. */
  lemma {:induction false} ParseVarsLiteralPrefix(a: string, b: string, data: map<string, string>)
    requires '{' !in a
    ensures ParseVars(a + b, data) == a + ParseVars(b, data)
  {
    if |a| > 0 {
      assert (a + b)[0] == a[0];
      assert PlaceholderAt(a + b).None?;
      assert (a + b)[1..] == a[1..] + b;
      ParseVarsLiteralPrefix(a[1..], b, data);
      assert a == [a[0]] + a[1..];
    } else {
      assert a + b == b;
    }
  }

  // ---------------------------------------------------------------------
  // convertExtname / revertExtname  (reExtname = /((?:\.\w+)+)$/)
  // ---------------------------------------------------------------------

  /** Length of the trailing run of `\w` characters. */
  function TrailingWordRun(s: string): (n: nat)
    ensures n <= |s|
    ensures forall i :: |s| - n <= i < |s| ==> IsWordChar(s[i])
    ensures n == |s| || !IsWordChar(s[|s| - n - 1])
  {
    if |s| > 0 && IsWordChar(s[|s| - 1]) then 1 + TrailingWordRun(s[..|s| - 1]) else 0
  }

  /** Length of the multi-part extension, peeled one `.word` at a time from the end. */
  function ExtLen(s: string): (n: nat)
    ensures n <= |s|
    decreases |s|
  {
    var w := TrailingWordRun(s);
    if w >= 1 && w < |s| && s[|s| - w - 1] == '.' then w + 1 + ExtLen(s[..|s| - w - 1]) else 0
  }

  /** The trailing extension, `.raw.js` for `a/b.raw.js`, empty if there is none. */
  function Ext(s: string): string {
    s[|s| - ExtLen(s)..]
  }

  function Stem(s: string): string {
    s[..|s| - ExtLen(s)]
  }

  /** The shape `(\.\w+)+`: dots and word characters, starting with a dot,
      never two dots in a row, not ending with a dot. */
  predicate ExtForm(e: string) {
    && |e| >= 2 && e[0] == '.' && e[|e| - 1] != '.'
    && (forall i :: 0 <= i < |e| ==> e[i] == '.' || IsWordChar(e[i]))
    && (forall i :: 0 <= i < |e| - 1 ==> e[i] == '.' ==> e[i + 1] != '.')
  }

  /** A word run that stops at a non-word character is the trailing word run. */
  lemma {:induction false} TrailingRunIs(s: string, n: nat)
    requires n <= |s|
    requires forall i :: |s| - n <= i < |s| ==> IsWordChar(s[i])
    requires n == |s| || !IsWordChar(s[|s| - n - 1])
    ensures TrailingWordRun(s) == n
  {
    if n > 0 {
      TrailingRunIs(s[..|s| - 1], n - 1);
    }
  }

  /** In a string of extension shape the trailing word run is preceded by a dot. */
  lemma TrailingRunInForm(t: string)
    requires ExtForm(t)
    ensures 1 <= TrailingWordRun(t) < |t|
    ensures t[|t| - TrailingWordRun(t) - 1] == '.'
  {
    assert !IsWordChar(t[0]);
    assert IsWordChar(t[|t| - 1]);
  }

  lemma ExtFormDotWord(s: string, w: nat)
    requires 1 <= w < |s|
    requires forall i :: |s| - w <= i < |s| ==> IsWordChar(s[i])
    requires s[|s| - w - 1] == '.'
    ensures ExtForm(s[|s| - w - 1..])
  {
    var e := s[|s| - w - 1..];
    assert forall i :: 1 <= i < |e| ==> e[i] == s[|s| - w - 1 + i];
  }

  lemma ExtFormConcat(a: string, b: string)
    requires ExtForm(a) && ExtForm(b)
    ensures ExtForm(a + b)
  {
    var e := a + b;
    forall i | 0 <= i < |e| - 1
      ensures e[i] == '.' ==> e[i + 1] != '.'
    {
      if i < |a| - 1 {
        assert e[i] == a[i] && e[i + 1] == a[i + 1];
      } else if i == |a| - 1 {
        assert e[i] == a[i];
      } else {
        assert e[i] == b[i - |a|] && e[i + 1] == b[i + 1 - |a|];
      }
    }
  }

  lemma ExtFormPrefix(t: string, m: nat)
    requires ExtForm(t)
    requires 1 <= m < |t| && t[m] == '.'
    ensures ExtForm(t[..m])
  {
    assert t[m - 1] != '.';
  }

  /** The computed extension has the extension shape. */
  lemma {:induction false} ExtHasForm(s: string)
    ensures ExtLen(s) == 0 || ExtForm(Ext(s))
    decreases |s|
  {
    var w := TrailingWordRun(s);
    if w >= 1 && w < |s| && s[|s| - w - 1] == '.' {
      var s' := s[..|s| - w - 1];
      ExtHasForm(s');
      var tail := s[|s| - w - 1..];
      ExtFormDotWord(s, w);
      assert Ext(s) == Ext(s') + tail;
      if ExtLen(s') > 0 {
        ExtFormConcat(Ext(s'), tail);
      } else {
        assert Ext(s) == tail;
      }
    }
  }

  /** Every suffix of extension shape is no longer than the computed extension. */
  lemma {:induction false} ExtFormBounded(s: string, k: nat)
    requires 0 < k <= |s|
    ensures ExtForm(s[|s| - k..]) ==> k <= ExtLen(s)
    decreases |s|
  {
    var t := s[|s| - k..];
    if ExtForm(t) {
      var wt := FormTrailingRun(s, k);
      var s' := s[..|s| - wt - 1];
      ExtLenStep(s, wt);
      if k > wt + 1 {
        ExtFormPrefix(t, k - wt - 1);
        assert s'[|s'| - (k - wt - 1)..] == t[..k - wt - 1];
        ExtFormBounded(s', k - wt - 1);
      }
    }
  }

  /** A suffix of extension shape ends in a `.word` that is also the
      string's own trailing word run. */
  lemma FormTrailingRun(s: string, k: nat) returns (wt: nat)
    requires 0 < k <= |s| && ExtForm(s[|s| - k..])
    ensures 1 <= wt < k && TrailingWordRun(s) == wt && s[|s| - wt - 1] == '.'
  {
    var t := s[|s| - k..];
    TrailingRunInForm(t);
    wt := TrailingWordRun(t);
    assert forall i :: |s| - wt <= i < |s| ==> s[i] == t[i - (|s| - k)];
    assert s[|s| - wt - 1] == t[k - wt - 1];
    TrailingRunIs(s, wt);
  }

  lemma ExtLenStep(s: string, w: nat)
    requires 1 <= w < |s| && TrailingWordRun(s) == w && s[|s| - w - 1] == '.'
    ensures ExtLen(s) == w + 1 + ExtLen(s[..|s| - w - 1])
  {
  }

  function Suffix(s: string, k: nat): string
    requires k <= |s|
  {
    s[|s| - k..]
  }

  /** `Ext` is exactly what the regular expression matches: a suffix of the
      extension shape, and no longer suffix has that shape. */
  lemma ExtIsLongestMatch(s: string)
    ensures ExtLen(s) == 0 || ExtForm(Ext(s))
    ensures forall k :: ExtLen(s) < k <= |s| ==> !ExtForm(Suffix(s, k))
  {
    ExtHasForm(s);
    forall k | ExtLen(s) < k <= |s|
      ensures !ExtForm(Suffix(s, k))
    {
      ExtFormBounded(s, k);
    }
  }

  /** Appending `.word` adds exactly that part to the extension. */
  lemma ExtLenAppend(s: string, w: string)
    requires |w| >= 1
    requires forall i :: 0 <= i < |w| ==> IsWordChar(w[i])
    ensures ExtLen(s + "." + w) == |w| + 1 + ExtLen(s)
    ensures Stem(s + "." + w) == Stem(s)
    ensures Ext(s + "." + w) == Ext(s) + "." + w
  {
    DotWordTail(s, w);
    ExtLenStep(s + "." + w, |w|);
    ExtStemOfLonger(s, w);
  }

  lemma ExtStemOfLonger(s: string, w: string)
    requires ExtLen(s + "." + w) == |w| + 1 + ExtLen(s)
    ensures Stem(s + "." + w) == Stem(s)
    ensures Ext(s + "." + w) == Ext(s) + "." + w
  {
    var t := s + "." + w;
    PrefixOfConcat(s, "." + w);
    ConcatAssoc(s, ".", w);
    StemOfPrefix(t, s);
    ExtOfPrefix(t, s);
    DropConcatRight(s, "." + w, |s|);
    ConcatAssoc(Ext(s), ".", w);
  }

  /** A longer string whose extension starts where the prefix's does has
      the same stem. */
  lemma StemOfPrefix(t: string, s: string)
    requires s <= t && |t| - ExtLen(t) == |s| - ExtLen(s)
    ensures Stem(t) == Stem(s)
  { }

  lemma ExtOfPrefix(t: string, s: string)
    requires s <= t && |t| - ExtLen(t) == |s| - ExtLen(s)
    ensures Ext(t) == Ext(s) + t[|s|..]
  { }

  /** `s.w` ends in the word `w` after a dot. */
  lemma DotWordTail(s: string, w: string)
    requires |w| >= 1
    requires forall i :: 0 <= i < |w| ==> IsWordChar(w[i])
    ensures var t := s + "." + w;
      && 1 <= |w| < |t| && TrailingWordRun(t) == |w| && t[|t| - |w| - 1] == '.' && t[..|t| - |w| - 1] == s
  {
    var t := s + "." + w;
    assert forall i :: |t| - |w| <= i < |t| ==> t[i] == w[i - (|t| - |w|)];
    TrailingRunIs(t, |w|);
    assert t[..|t| - |w| - 1] == s;
  }

  /** Cutting `s.w` where `s` would be cut `e` from its end. */
  /** `extnameMap`: keyed by a whole extension or by an asset type name. */
  function ExtnameMap(key: string): Option<string> {
    if key == ".xtpl" then Some(".xtpl.js")
    else if key == ".css" then Some(".css.js")
    else if key == ".scss" then Some(".scss.js")
    else if key == "headjs" || key == "js" then Some(".raw.js")
    else if key == "css" then Some(".css.js")
    else if key == "modjs" then Some(".js")
    else None
  }

  /** `reversedExtnameMap`. */
  function ReversedExtnameMap(ext: string): Option<string> {
    if ext == ".xtpl.js" then Some(".xtpl")
    else if ext == ".scss.js" then Some(".scss")
    else if ext == ".css.js" then Some(".css")
    else None
  }

  /** `convertExtname(filePath, fileType)`; an absent type is the empty
      string. With no extension the mapped value is appended, and an
      unmapped one is appended as the text `undefined`, as `+` does. */
  function ConvertExtname(p: string, fileType: string): (r: string)
    ensures Stem(p) <= r
  {
    if ExtLen(p) > 0 then
      Stem(p) + ExtnameMap(if fileType == "" then Ext(p) else fileType).GetOr(Ext(p))
    else
      p + ExtnameMap(fileType).GetOr("undefined")
  }

  /** `revertExtname(filePath)`. */
  function RevertExtname(p: string): (r: string)
    ensures Stem(p) <= r
  {
    if ExtLen(p) > 0 then Stem(p) + ReversedExtnameMap(Ext(p)).GetOr(Ext(p)) else p
  }

  predicate IsSourceExt(e: string) {
    e == ".xtpl" || e == ".css" || e == ".scss"
  }

  lemma SourceExtMaps(e: string)
    requires IsSourceExt(e)
    ensures ExtnameMap(e) == Some(e + ".js")
    ensures ReversedExtnameMap(e + ".js") == Some(e)
  {
    if e == ".xtpl" {
      assert e + ".js" == ".xtpl.js";
    } else if e == ".css" {
      assert e + ".js" == ".css.js";
    } else {
      assert e + ".js" == ".scss.js";
    }
  }

  lemma StemExt(p: string)
    ensures |Ext(p)| == ExtLen(p)
    ensures Stem(p) + Ext(p) == p
  {
  }

  /** Without a type: a whole `.xtpl`/`.css`/`.scss` extension gains `.js`. */
  lemma ConvertUntypedSource(p: string)
    requires IsSourceExt(Ext(p))
    ensures ConvertExtname(p, "") == p + ".js"
  {
    var e := Ext(p);
    StemExt(p);
    SourceExtMaps(e);
    assert ConvertExtname(p, "") == Stem(p) + (e + ".js");
    ConcatAssoc(Stem(p), e, ".js");
  }

  /** Without a type: any other extension, multi-part ones included, is kept. */
  lemma ConvertUntypedOther(p: string)
    requires ExtLen(p) > 0 && !IsSourceExt(Ext(p))
    ensures ConvertExtname(p, "") == p
  {
    var e := Ext(p);
    assert p == Stem(p) + e;
    ExtHasForm(p);
    assert e[0] == '.';
    assert ExtnameMap(e).None?;
  }

  /** With a type: the whole extension is replaced by the type's, kept when
      the type is unmapped, and the type's is appended when there is none. */
  lemma ConvertTyped(p: string, t: string)
    requires t != ""
    ensures ExtLen(p) > 0 && ExtnameMap(t).Some? ==> ConvertExtname(p, t) == Stem(p) + ExtnameMap(t).value
    ensures ExtLen(p) > 0 && ExtnameMap(t).None? ==> ConvertExtname(p, t) == p
    ensures ExtLen(p) == 0 && ExtnameMap(t).Some? ==> ConvertExtname(p, t) == p + ExtnameMap(t).value
  {
    assert p == Stem(p) + Ext(p);
  }

  lemma RevertCases(p: string)
    ensures ReversedExtnameMap(Ext(p)).Some? ==> RevertExtname(p) == Stem(p) + ReversedExtnameMap(Ext(p)).value
    ensures ReversedExtnameMap(Ext(p)).None? ==> RevertExtname(p) == p
  {
    assert p == Stem(p) + Ext(p);
  }

  /** Reverting undoes the untyped conversion of template and style sources. */
  lemma RevertConvertRoundTrip(p: string)
    requires IsSourceExt(Ext(p))
    ensures RevertExtname(ConvertExtname(p, "")) == p
  {
    ConvertUntypedSource(p);
    AppendJs(p);
    RevertSourceJs(p + ".js", Ext(p));
    StemExt(p);
  }

  lemma AppendJs(p: string)
    ensures Ext(p + ".js") == Ext(p) + ".js"
    ensures Stem(p + ".js") == Stem(p)
  {
    var js := "js";
    assert IsWordChar(js[0]) && IsWordChar(js[1]);
    assert p + ".js" == p + "." + js;
    ExtLenAppend(p, js);
    ConcatAssoc(Ext(p), ".", js);
  }

  lemma RevertSourceJs(q: string, e: string)
    requires IsSourceExt(e) && Ext(q) == e + ".js"
    ensures RevertExtname(q) == Stem(q) + e
  {
    SourceExtMaps(e);
    StemExt(q);
  }

  // ---------------------------------------------------------------------
  // calcMd5
  // ---------------------------------------------------------------------

  predicate IsHexDigit(c: char) {
    '0' <= c <= '9' || 'a' <= c <= 'f'
  }

  /** Lower-case hexadecimal text, the form of an MD5 digest. */
  predicate IsHex(s: string) {
    forall i :: 0 <= i < |s| ==> IsHexDigit(s[i])
  }

  /** `calcMd5(str, length)` over the hex digest `digest(str)`: cut to its
      first `length` characters when `length` is set (0 leaves it whole). */
  function CalcMd5(digest: string -> string, s: string, length: nat): (r: string)
    ensures r <= digest(s)
    ensures length == 0 ==> r == digest(s)
    ensures length > 0 ==> |r| == if length < |digest(s)| then length else |digest(s)|
  {
    var d := digest(s);
    if length > 0 && length < |d| then d[..length] else d
  }

  /** A cut digest is still hexadecimal, so it holds no dot, slash or backslash. */
  lemma CalcMd5Hex(digest: string -> string, s: string, length: nat)
    requires IsHex(digest(s))
    ensures IsHex(CalcMd5(digest, s, length))
    ensures '.' !in CalcMd5(digest, s, length) && '/' !in CalcMd5(digest, s, length) && '\\' !in CalcMd5(digest, s, length)
  {
    var r := CalcMd5(digest, s, length);
    assert forall i :: 0 <= i < |r| ==> r[i] == digest(s)[i];
  }

  // ---------------------------------------------------------------------
  // formatDate
  // ---------------------------------------------------------------------

  /** The six values `formatDate` reads from a `Date` (month already 1-based). */
  datatype DateValues = DateValues(year: nat, month: nat, day: nat, hours: nat, minutes: nat, seconds: nat)

  predicate IsDateLetter(c: char) {
    c == 'Y' || c == 'M' || c == 'D' || c == 'h' || c == 'm' || c == 's'
  }

  function DateValue(d: DateValues, c: char): nat
    requires IsDateLetter(c)
  {
    match c
    case 'Y' => d.year
    case 'M' => d.month
    case 'D' => d.day
    case 'h' => d.hours
    case 'm' => d.minutes
    case _ => d.seconds
  }

  /** Length of the run of `s[0]` at the front of `s`. */
  function RunLen(s: string): (n: nat)
    requires |s| > 0
    ensures 1 <= n <= |s|
    ensures forall i :: 0 <= i < n ==> s[i] == s[0]
    ensures n == |s| || s[n] != s[0]
  {
    if |s| > 1 && s[1] == s[0] then 1 + RunLen(s[1..]) else 1
  }

  function Zeros(n: nat): (r: string)
    ensures |r| == n
    ensures forall i :: 0 <= i < n ==> r[i] == '0'
  {
    seq(n, i => '0')
  }

  /** One run of `n` equal letters rendering value `v`. */
  function FormatRun(v: nat, n: nat): string
    requires n >= 1
  {
    var str := NatToString(v);
    if n > 1 && |str| != n then
      var padded := Zeros(n - 1) + str;
      padded[|padded| - n..]
    else str
  }

  /** A run of length n > 1 yields exactly n characters: the value
      zero-padded on the left, or its last n digits; a single letter yields
      the plain value. */
  lemma FormatRunSpec(v: nat, n: nat)
    requires n >= 1
    ensures n == 1 ==> FormatRun(v, n) == NatToString(v)
    ensures n > 1 ==> |FormatRun(v, n)| == n
    ensures n > 1 && |NatToString(v)| <= n ==> FormatRun(v, n) == Zeros(n - |NatToString(v)|) + NatToString(v)
    ensures n > 1 && |NatToString(v)| >= n ==> FormatRun(v, n) == NatToString(v)[|NatToString(v)| - n..]
  {
    var str := NatToString(v);
    if n > 1 {
      if |str| < n {
        FormatRunPadded(v, n);
      } else if |str| > n {
        FormatRunCut(v, n);
      } else {
        FormatRunExact(v, n);
      }
    }
  }

  lemma FormatRunPadded(v: nat, n: nat)
    requires 1 < n && |NatToString(v)| < n
    ensures FormatRun(v, n) == Zeros(n - |NatToString(v)|) + NatToString(v)
  {
    var str := NatToString(v);
    FormatRunIs(v, n);
    DropConcatLeft(Zeros(n - 1), str, |str| - 1);
    ZerosDrop(n - 1, |str| - 1);
  }

  /** The padded value, cut to its last `n` characters. */
  lemma FormatRunIs(v: nat, n: nat)
    requires 1 < n && |NatToString(v)| != n
    ensures FormatRun(v, n) == (Zeros(n - 1) + NatToString(v))[|NatToString(v)| - 1..]
  {
    var padded := Zeros(n - 1) + NatToString(v);
    assert |padded| - n == |NatToString(v)| - 1;
  }

  lemma FormatRunCut(v: nat, n: nat)
    requires 1 < n < |NatToString(v)|
    ensures FormatRun(v, n) == NatToString(v)[|NatToString(v)| - n..]
  {
    var str := NatToString(v);
    FormatRunIs(v, n);
    DropConcatRight(Zeros(n - 1), str, |str| - 1);
  }

  lemma FormatRunExact(v: nat, n: nat)
    requires 1 < n && |NatToString(v)| == n
    ensures FormatRun(v, n) == NatToString(v) == Zeros(0) + NatToString(v)
    ensures FormatRun(v, n) == NatToString(v)[0..]
  {
    var str := NatToString(v);
    EmptyConcat(Zeros(0), str);
    assert str[0..] == str;
  }

  lemma ZerosDrop(n: nat, k: nat)
    requires k <= n
    ensures Zeros(n)[k..] == Zeros(n - k)
  {
  }

  /** `formation.replace(/Y+|M+|D+|h+|m+|s+/g, ...)`. */
  function FormatDate(d: DateValues, fmt: string): string
    decreases |fmt|
  {
    if |fmt| == 0 then ""
    else if IsDateLetter(fmt[0]) then
      var n := RunLen(fmt);
      FormatRun(DateValue(d, fmt[0]), n) + FormatDate(d, fmt[n..])
    else [fmt[0]] + FormatDate(d, fmt[1..])
  }

  /** Characters other than the six letters pass through. */
  lemma {:induction false} FormatDateLiteral(d: DateValues, fmt: string)
    requires forall i :: 0 <= i < |fmt| ==> !IsDateLetter(fmt[i])
    ensures FormatDate(d, fmt) == fmt
  {
    if |fmt| > 0 {
      FormatDateLiteral(d, fmt[1..]);
      assert fmt == [fmt[0]] + fmt[1..];
    }
  }

  /** A maximal run of one letter is rendered as one field, then the rest. */
  lemma FormatDateRun(d: DateValues, c: char, n: nat, rest: string)
    requires IsDateLetter(c) && n >= 1
    requires |rest| == 0 || rest[0] != c
    ensures FormatDate(d, seq(n, _ => c) + rest) == FormatRun(DateValue(d, c), n) + FormatDate(d, rest)
  {
    var fmt := seq(n, _ => c) + rest;
    assert fmt[0] == c;
    RunLenOf(c, n, rest);
    assert fmt[n..] == rest;
  }

  lemma {:induction false} RunLenOf(c: char, n: nat, rest: string)
    requires n >= 1
    requires |rest| == 0 || rest[0] != c
    ensures RunLen(seq(n, _ => c) + rest) == n
  {
    var fmt := seq(n, _ => c) + rest;
    if n > 1 {
      assert fmt[1..] == seq(n - 1, _ => c) + rest;
      RunLenOf(c, n - 1, rest);
    }
  }
}
