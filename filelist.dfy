/** The rules of the plain file list: the README it selects on its own when
    it is first shown, and which row clicks it forwards to its caller. */
module FileList {
  import opened JsValues
  import opened Listing

  /** The filter condition of the mount effect: exact, case-sensitive name
      `Readme.md` and type `file`. */
  predicate IsAutoReadme(f: FileInfo)
    ensures IsAutoReadme(f) ==> f.name != "README.md" && f.name != "readme.md" && f.kind != "dir"
  {
    f.name == "Readme.md" && f.kind == "file"
  }

  /** `fileInfo.filter(...)[0]` as an index: the first matching row, or -1. */
  function FirstAutoReadme(fs: seq<FileInfo>): (r: int)
    ensures -1 <= r < |fs|
    ensures r >= 0 ==> IsAutoReadme(fs[r]) && forall j :: 0 <= j < r ==> !IsAutoReadme(fs[j])
    ensures r == -1 ==> forall j :: 0 <= j < |fs| ==> !IsAutoReadme(fs[j])
  {
    if fs == [] then -1
    else if IsAutoReadme(fs[0]) then 0
    else
      var r := FirstAutoReadme(fs[1..]);
      if r == -1 then -1 else r + 1
  }

  /** The row the mount effect hands to `onFileSelect`, if any:
      `if (isReadme.length) onFileSelect && onFileSelect(isReadme[0])`. */
  function AutoSelect(fs: seq<FileInfo>, hasCallback: bool): (r: Option<FileInfo>)
    ensures r.None? <==> !hasCallback || forall f :: f in fs ==> !IsAutoReadme(f)
    ensures r.Some? ==> r.value.name == "Readme.md" && r.value.kind == "file"
    ensures r.Some? ==>
      exists k :: 0 <= k < |fs| && fs[k] == r.value && forall j :: 0 <= j < k ==> !IsAutoReadme(fs[j])
  {
    var k := FirstAutoReadme(fs);
    if k == -1 || !hasCallback then None else Some(fs[k])
  }

  /** The mount effect has an empty dependency list, so React runs it on the
      component's first render only; `firstRender` says which render this is. */
  function AutoSelectOnRender(firstRender: bool, fs: seq<FileInfo>, hasCallback: bool): (r: Option<FileInfo>)
    ensures !firstRender ==> r.None?
    ensures firstRender ==> r == AutoSelect(fs, hasCallback)
    ensures r.Some? ==> r.value in fs && IsAutoReadme(r.value)
  {
    if firstRender then AutoSelect(fs, hasCallback) else None
  }

  /** A row click: `item.type === 'file' && onFileSelect && onFileSelect(item)`.
      The result is the row forwarded to the callback, if any. */
  function RowClick(item: FileInfo, hasCallback: bool): (r: Option<FileInfo>)
    ensures r.Some? <==> item.kind == "file" && hasCallback
    ensures r.Some? ==> r.value == item
  {
    if item.kind == "file" && hasCallback then Some(item) else None
  }

  /** Other spellings, and a directory named `Readme.md`, are passed over
      for a later exact match. */
  lemma AutoSelectSkipsOtherSpellings(a: FileInfo, b: FileInfo, c: FileInfo, d: FileInfo)
    requires a.name == "README.md" && b.name == "readme.md"
    requires c.name == "Readme.md" && c.kind == "dir"
    requires d.name == "Readme.md" && d.kind == "file"
    ensures AutoSelect([a, b, c, d], true) == Some(d)
  {
    assert "README.md"[1] != "Readme.md"[1] && "readme.md"[0] != "Readme.md"[0];
    assert !IsAutoReadme(a) && !IsAutoReadme(b) && !IsAutoReadme(c) && IsAutoReadme(d);
    var fs := [a, b, c, d];
    assert FirstAutoReadme(fs[3..]) == 0;
    assert fs[2..][1..] == fs[3..];
    assert FirstAutoReadme(fs[2..]) == 1;
    assert fs[1..][1..] == fs[2..];
    assert FirstAutoReadme(fs[1..]) == 2;
    assert FirstAutoReadme(fs) == 3;
  }
}
