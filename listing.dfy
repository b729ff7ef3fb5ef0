/** The pure helpers of the file explorer: turning the contents API's entries
    into `FileInfo` rows, the extension regex, the directories-first listing,
    the renderer choice, the paths and URLs it builds, and the README rule. */
module Listing {
  import opened JsValues

  /** One element of the JSON array the contents API returns. */
  datatype RawEntry = RawEntry(name: string, size: int, kind: string, downloadUrl: JsStr)

  /** A listing row. `size` keeps the API's byte count; the formatted size
      text is not part of this model. */
  datatype FileInfo = FileInfo(name: string, size: int, kind: string, url: JsStr, ext: JsStr)

  /** The selected-file slot: `filename`, `ext` and `content`. */
  datatype FileProps = FileProps(filename: JsStr, ext: JsStr, content: JsStr)

  // ---------------------------------------------------------------------------
  // The extension regex /(?:\.([^.]+))?$/ and `exec(name)[1]`

  /** The regex search started at index `i`: at each start index the optional
      group `\.([^.]+)` is tried first and must reach the end of the name;
      otherwise the empty alternative matches only at the end. The result is
      the captured group, `undefined` when it did not participate. */
  function ExecFrom(name: string, i: nat): (r: JsStr)
    requires i <= |name|
    ensures !r.Null?
    ensures r.Str? ==> r.s != "" && '.' !in r.s && |r.s| < |name| && name[|name| - |r.s| - 1..] == "." + r.s
    ensures r.Undefined? ==> '.' !in name[i..] || name[|name| - 1] == '.'
    decreases |name| - i
  {
    if i == |name| then Undefined
    else if name[i] == '.' && i + 1 < |name| && '.' !in name[i + 1..] then
      assert name[i..] == "." + name[i + 1..];
      Str(name[i + 1..])
    else
      assert name[i..] == [name[i]] + name[i + 1..];
      ExecFrom(name, i + 1)
  }

  /** `/(?:\.([^.]+))?$/.exec(name)[1]`: the regex always matches (at the
      latest at the end of the name), so the group is read safely. */
  function Ext(name: string): (r: JsStr)
    ensures !r.Null?
    ensures r.Str? ==> r.s != "" && '.' !in r.s && |r.s| < |name| && name[|name| - |r.s| - 1..] == "." + r.s
    ensures r.Undefined? ==> '.' !in name || name[|name| - 1] == '.'
  {
    assert name[0..] == name;
    ExecFrom(name, 0)
  }

  /** Once the search reaches the last dot, followed by a non-empty text,
      that text is captured. */
  lemma {:induction false} ExecFromFinds(name: string, i: nat, e: string)
    requires e != "" && '.' !in e && |e| < |name| && name[|name| - |e| - 1..] == "." + e
    requires i <= |name| - |e| - 1
    ensures ExecFrom(name, i) == Str(e)
    decreases |name| - i
  {
    var d := |name| - |e| - 1;
    assert name[d] == '.' && name[d + 1..] == e;
    if i < d {
      assert name[i + 1..][d - i - 1] == '.';
      ExecFromFinds(name, i + 1, e);
    }
  }

  /** The extension is exactly the non-empty, dot-free text after the last dot. */
  lemma ExtIsTextAfterLastDot(name: string, e: string)
    ensures Ext(name) == Str(e) <==>
      e != "" && '.' !in e && |e| < |name| && name[|name| - |e| - 1..] == "." + e
  {
    if e != "" && '.' !in e && |e| < |name| && name[|name| - |e| - 1..] == "." + e {
      ExecFromFinds(name, 0, e);
    }
  }

  /** The extension is `undefined` exactly when the name has no dot or ends in one. */
  lemma ExtUndefinedIff(name: string)
    ensures Ext(name) == Undefined <==> '.' !in name || name[|name| - 1] == '.'
  {
    assert name[0..] == name;
    var r := Ext(name);
    if r.Str? {
      var n := |name|;
      assert name[n - |r.s| - 1] == '.';
      assert name[n - 1] == r.s[|r.s| - 1];
      assert r.s[|r.s| - 1] in r.s;
    }
  }

  // ---------------------------------------------------------------------------
  // The `fc` mapping and the directories-first `fileInfo`

  /** One row per raw entry: name, type and download URL copied, the size kept
      as the byte count, and the extension taken from the name. */
  function ToFileInfo(raw: RawEntry): (r: FileInfo)
    ensures r.name == raw.name && r.kind == raw.kind && r.url == raw.downloadUrl && r.size == raw.size
    ensures r.ext.Str? ==> r.ext.s != "" && '.' !in r.ext.s && |r.ext.s| < |raw.name|
  {
    FileInfo(raw.name, raw.size, raw.kind, raw.downloadUrl, Ext(raw.name))
  }

  /** `Object.values(contents).map(...)`. */
  function MapEntries(contents: seq<RawEntry>): (r: seq<FileInfo>)
    ensures |r| == |contents|
    ensures forall i :: 0 <= i < |r| ==>
      r[i].name == contents[i].name && r[i].kind == contents[i].kind &&
      r[i].url == contents[i].downloadUrl && r[i].size == contents[i].size &&
      r[i].ext == Ext(contents[i].name)
  {
    seq(|contents|, i requires 0 <= i < |contents| => ToFileInfo(contents[i]))
  }

  /** `fc.filter(content => content.type === kind)`. */
  function FilterKind(fs: seq<FileInfo>, kind: string): (r: seq<FileInfo>)
    ensures |r| <= |fs|
    ensures forall x :: x in r ==> x in fs && x.kind == kind
  {
    if fs == [] then []
    else if fs[0].kind == kind then [fs[0]] + FilterKind(fs[1..], kind)
    else FilterKind(fs[1..], kind)
  }

  /** Filtering keeps every entry of the kind. */
  lemma {:induction false} FilterKindKeeps(fs: seq<FileInfo>, kind: string, x: FileInfo)
    requires x in fs && x.kind == kind
    ensures x in FilterKind(fs, kind)
  {
    if fs[0] != x {
      FilterKindKeeps(fs[1..], kind, x);
    }
  }

  /** Filtering is stable: it distributes over concatenation, so each kept
      entry stays in the order the API returned it. */
  lemma {:induction false} FilterKindAppend(a: seq<FileInfo>, b: seq<FileInfo>, kind: string)
    ensures FilterKind(a + b, kind) == FilterKind(a, kind) + FilterKind(b, kind)
  {
    if a != [] {
      assert (a + b)[0] == a[0];
      assert (a + b)[1..] == a[1..] + b;
      FilterKindAppend(a[1..], b, kind);
    } else {
      assert a + b == b;
    }
  }

  /** `fileInfo`: all directory rows, then all file rows. */
  function Arrange(fc: seq<FileInfo>): (r: seq<FileInfo>)
    ensures forall x :: x in r ==> x in fc && (x.kind == "dir" || x.kind == "file")
  {
    FilterKind(fc, "dir") + FilterKind(fc, "file")
  }

  /** A row is listed exactly when it is a directory or a file; any other
      type is dropped. */
  lemma ArrangeMembers(fc: seq<FileInfo>, x: FileInfo)
    ensures x in Arrange(fc) <==> x in fc && (x.kind == "dir" || x.kind == "file")
  {
    if x in fc && (x.kind == "dir" || x.kind == "file") {
      FilterKindKeeps(fc, x.kind, x);
    }
  }

  /** Directories come first: once a file row appears, every later row is a file. */
  lemma ArrangeDirsFirst(fc: seq<FileInfo>)
    ensures forall i, j :: 0 <= i < j < |Arrange(fc)| && Arrange(fc)[i].kind == "file" ==>
      Arrange(fc)[j].kind == "file"
    ensures forall i :: 0 <= i < |Arrange(fc)| ==>
      Arrange(fc)[i].kind == "dir" || Arrange(fc)[i].kind == "file"
  {
  }

  /** The listing never grows, and it has every entry exactly when no entry
      has another type. */
  lemma {:induction false} ArrangeLength(fc: seq<FileInfo>)
    ensures |Arrange(fc)| <= |fc|
    ensures |Arrange(fc)| == |fc| <==> forall x :: x in fc ==> x.kind == "dir" || x.kind == "file"
  {
    if fc != [] {
      ArrangeLength(fc[1..]);
      assert forall x :: x in fc[1..] ==> x in fc;
      assert fc == [fc[0]] + fc[1..];
    }
  }

  // ---------------------------------------------------------------------------
  // Rendering dispatch

  /** What the file pane renders. */
  datatype Rendering = Markdown(source: JsStr) | CodeBlock(code: JsStr, language: JsStr)

  /** `FileDisplay`: `switch (language)` with the single case `'md'`. */
  function FileDisplay(code: JsStr, language: JsStr): (r: Rendering)
    ensures r.Markdown? <==> language == Str("md")
    ensures r.Markdown? ==> r.source == code
    ensures r.CodeBlock? ==> r.code == code && r.language == language
  {
    if language == Str("md") then Markdown(code) else CodeBlock(code, language)
  }

  /** A file is rendered as markdown exactly when its name ends in `.md`,
      in lower case. */
  lemma MarkdownExactlyForDotMd(name: string, code: JsStr)
    ensures FileDisplay(code, Ext(name)).Markdown? <==> |name| >= 3 && name[|name| - 3..] == ".md"
  {
    var md := "md";
    assert |md| == 2 && '.' !in md && "." + md == ".md";
    ExtIsTextAfterLastDot(name, md);
  }

  /** The preview pane: the file title and body, shown only when `content`
      is truthy. */
  datatype Preview = Preview(title: JsStr, body: Rendering)

  /** `file.content ? ... : null`, with the title `file.filename || ''`. */
  function ShowPreview(file: FileProps): (r: Option<Preview>)
    ensures r.Some? <==> file.content.Str? && file.content.s != ""
    ensures r.Some? ==> r.value.body == FileDisplay(file.content, file.ext)
    ensures r.Some? ==> r.value.title == (if Truthy(file.filename) then file.filename else Str(""))
  {
    if Truthy(file.content) then Some(Preview(Or(file.filename, Str("")), FileDisplay(file.content, file.ext)))
    else None
  }

  // ---------------------------------------------------------------------------
  // Paths and URLs

  /** The argument `onClick` gives `fetchAPI` for a directory row. */
  function ChildPath(path: string, name: string): (r: string)
    ensures path == "" ==> r == name
    ensures path != "" ==> |r| == |path| + 1 + |name| && r[..|path|] == path && r[|path|] == '/' && r[|path| + 1..] == name
  {
    if path == "" then name else path + "/" + name
  }

  /** Entering a directory adds exactly one breadcrumb, the directory's name. */
  lemma ChildPathAddsOneCrumb(path: string, name: string)
    requires path != "" && '/' !in name
    ensures Split(ChildPath(path, name), '/') == Split(path, '/') + [name]
  {
    assert ChildPath(path, name) == path + ['/'] + name;
    SplitAppendSegment(path, '/', name);
  }

  /** `path.slice(0, path.indexOf(ele) + ele.length)`. */
  function BreadcrumbTarget(path: string, ele: string): (r: string)
    ensures |r| <= |path| && r == path[..|r|]
    ensures IndexOf(path, ele) != -1 ==> |r| == IndexOf(path, ele) + |ele|
  {
    SliceTo(path, IndexOf(path, ele) + |ele|)
  }

  /** When `ele` occurs at `k`, the target is a prefix of the path that ends
      with `ele`, cut at the first occurrence of that text, so never past `k`. */
  lemma BreadcrumbCutsAtFirstOccurrence(path: string, ele: string, k: int)
    requires OccursAt(path, ele, k)
    ensures var t := BreadcrumbTarget(path, ele);
      |ele| <= |t| <= k + |ele| && t == path[..|t|] && t[|t| - |ele|..] == ele &&
      forall j :: 0 <= j < |t| - |ele| ==> !OccursAt(path, ele, j)
  {
  }

  /** Every breadcrumb the header renders targets a prefix of the path that
      ends with that segment's text. */
  lemma BreadcrumbOfSegment(path: string, i: nat)
    requires i < |Split(path, '/')|
    ensures var ele := Split(path, '/')[i];
      var t := BreadcrumbTarget(path, ele);
      |ele| <= |t| <= |path| && t == path[..|t|] && t[|t| - |ele|..] == ele
  {
    var k := SegmentOccurs(path, '/', i);
    BreadcrumbCutsAtFirstOccurrence(path, Split(path, '/')[i], k);
  }

  /** When the segment text appears earlier in the path, the target stops
      there: in `root/src/rc`, the crumb `rc` leads to `root/src`. */
  lemma BreadcrumbStopsAtEarlierText()
    ensures BreadcrumbTarget("root/src/rc", "rc") == "root/src"
  {
    var p := "root/src/rc";
    assert p[6..8] == "rc";
    assert OccursAt(p, "rc", 6);
    forall j | 0 <= j < 6 ensures !OccursAt(p, "rc", j) {
      assert p[j] != 'r' || p[j + 1] != 'c';
    }
  }

  /** The listing URL: `${baseURL}/${path ? path.replace('root', '') : ''}`. */
  function ListingUrl(baseUrl: string, arg: JsStr): (r: string)
    ensures |r| > |baseUrl| && r[..|baseUrl| + 1] == baseUrl + "/"
    ensures !Truthy(arg) ==> r == baseUrl + "/"
  {
    baseUrl + "/" + (if Truthy(arg) then ReplaceFirst(arg.s, "root", "") else "")
  }

  /** A path that starts with `root` loses exactly that prefix; any later
      `root` in it is kept. */
  lemma ListingUrlOfRootPath(baseUrl: string, rest: string)
    ensures ListingUrl(baseUrl, Str("root" + rest)) == baseUrl + "/" + rest
  {
  }

  /** A path without the text `root` is requested as it is. */
  lemma ListingUrlWithoutRoot(baseUrl: string, path: string)
    requires path != "" && forall j :: !OccursAt(path, "root", j)
    ensures ListingUrl(baseUrl, Str(path)) == baseUrl + "/" + path
  {
  }

  // ---------------------------------------------------------------------------
  // The README rule of `fetchReadme`

  /** `('README.md' || 'Readme.md' || 'readme.md')`. */
  function ReadmeName(): (r: JsStr)
    ensures r == Str("README.md")
  {
    Or(Or(Str("README.md"), Str("Readme.md")), Str("readme.md"))
  }

  /** The filter condition of `fetchReadme`. */
  predicate IsReadme(f: FileInfo)
    ensures IsReadme(f) <==> f.kind == "file" && f.name == "README.md"
  {
    f.kind == "file" && Str(f.name) == ReadmeName()
  }

  /** `.filter(...).pop()` as an index: the last matching row, or -1. */
  function LastReadme(fs: seq<FileInfo>): (r: int)
    ensures -1 <= r < |fs|
    ensures r >= 0 ==> IsReadme(fs[r]) && forall j :: r < j < |fs| ==> !IsReadme(fs[j])
    ensures r == -1 ==> forall j :: 0 <= j < |fs| ==> !IsReadme(fs[j])
  {
    if fs == [] then -1
    else if IsReadme(fs[|fs| - 1]) then |fs| - 1
    else LastReadme(fs[..|fs| - 1])
  }

  /** The README `fetchReadme` picks: the last `file` row named exactly
      `README.md`; `Readme.md` and `readme.md` never match. */
  function ReadmePick(fs: seq<FileInfo>): (r: Option<FileInfo>)
    ensures r.Some? ==> r.value in fs && r.value.kind == "file" && r.value.name == "README.md"
    ensures r.None? <==> forall f :: f in fs ==> !(f.kind == "file" && f.name == "README.md")
  {
    var k := LastReadme(fs);
    if k == -1 then None else Some(fs[k])
  }

  /** `README.md` has the extension `md`. */
  lemma ReadmeExt()
    ensures Ext("README.md") == Str("md")
  {
    var n := "README.md";
    assert n[6..] == ".md";
    assert '.' !in "md";
    ExtIsTextAfterLastDot(n, "md");
  }

  /** Every listed row carries the extension of its own name. */
  lemma RowsCarryTheirExtension(contents: seq<RawEntry>, f: FileInfo)
    requires f in Arrange(MapEntries(contents))
    ensures f.ext == Ext(f.name)
  {
    var fc := MapEntries(contents);
    ArrangeMembers(fc, f);
    var i :| 0 <= i < |fc| && fc[i] == f;
  }

  /** The README that `fetchReadme` picks from a listing has the extension `md`. */
  lemma PickedReadmeIsMarkdown(contents: seq<RawEntry>)
    requires ReadmePick(Arrange(MapEntries(contents))).Some?
    ensures ReadmePick(Arrange(MapEntries(contents))).value.ext == Str("md")
  {
    var f := ReadmePick(Arrange(MapEntries(contents))).value;
    RowsCarryTheirExtension(contents, f);
    ReadmeExt();
  }
}
