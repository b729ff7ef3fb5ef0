/** The navigation state of the file explorer component: the current path,
    the raw listing, the loading flag, the selected file and the last error,
    changed step by step by the component's handlers. Each network response
    is a parameter of the handler that awaits it and is applied at once. */
module Explorer {
  import opened JsValues
  import opened Listing

  /** What `(await fetch(url)).json()` gives for a listing request: an array
      of entries, a JSON value that cannot be spread (an object such as the
      API's `{ message: "Not Found" }`, a number, a boolean or `null`), or a
      rejected promise (network or parse failure). A top-level JSON string,
      which would spread into its characters, is not a case of this model. */
  datatype ListResponse = JsonArray(entries: seq<RawEntry>) | JsonNonArray | Rejected

  /** What `(await fetch(url)).text()` gives: the body, or a rejection. */
  datatype TextResponse = Body(text: string) | TextRejected

  /** The error `fetchAPI` catches: spreading a non-iterable value throws a
      TypeError, and a failed fetch or parse rejects. */
  datatype FetchError = NotIterable | NetworkError

  /** A network request the component issues. */
  datatype Request = ListingRequest(url: string) | ContentRequest(fileUrl: JsStr)

  /** The listing `fetchAPI` stores for a response; `None` when the spread
      throws or the fetch rejects. */
  function Outcome(response: ListResponse): (r: Option<seq<RawEntry>>)
    ensures r.Some? <==> response.JsonArray?
    ensures r.Some? ==> r.value == response.entries
  {
    match response
    case JsonArray(entries) => Some(entries)
    case _ => None
  }

  class FileExplorer {
    /** `https://api.github.com/repos/${username}/${repo}/contents` */
    const baseUrl: string
    var path: string
    var contents: seq<RawEntry>
    var loading: bool
    var file: FileProps
    /** The value last passed to `setError`; it is never read back. */
    var error: Option<FetchError>
    /** The dependency `[fileInfo.length]` of the README effect's last run;
        `None` before the first run. */
    var readmeDeps: Option<nat>
    /** Every network request issued so far, in order. */
    var requests: seq<Request>

    /** `path` is only ever set to a truthy string, starting from `'root'`. */
    ghost predicate Valid()
      reads this
    {
      path != ""
    }

    /** The rows the table shows: `fileInfo`. */
    function FileInfos(): (r: seq<FileInfo>)
      reads this`contents
      ensures |r| <= |contents|
    {
      ArrangeLength(MapEntries(contents));
      Arrange(MapEntries(contents))
    }

    /** The component's initial state. */
    constructor (username: string, repo: string)
      ensures Valid()
      ensures baseUrl == "https://api.github.com/repos/" + username + "/" + repo + "/contents"
      ensures path == "root" && contents == [] && !loading
      ensures file == FileProps(Str(""), Str(""), Null)
      ensures error == None && readmeDeps == None && requests == []
    {
      baseUrl := "https://api.github.com/repos/" + username + "/" + repo + "/contents";
      path := "root";
      contents := [];
      loading := false;
      file := FileProps(Str(""), Str(""), Null);
      error := None;
      readmeDeps := None;
      requests := [];
    }

    /** The first half of `fetchAPI(arg)`, up to its `await`: loading is
        switched on and the listing request goes out. */
    method StartListing(arg: JsStr)
      modifies this`loading, this`requests
      ensures loading
      ensures requests == old(requests) + [ListingRequest(ListingUrl(baseUrl, arg))]
    {
      loading := true;
      requests := requests + [ListingRequest(ListingUrl(baseUrl, arg))];
    }

    /** The second half of `fetchAPI(arg)`, once the response is in: on an
        array, the listing is replaced and the path set when `arg` is truthy;
        otherwise the listing is cleared, the error recorded and the path kept.
        Loading ends either way. */
    method FinishListing(arg: JsStr, response: ListResponse)
      requires Valid()
      modifies this`contents, this`loading, this`path, this`error
      ensures Valid() && !loading
      ensures response.JsonArray? ==>
        contents == response.entries && error == old(error) &&
        path == (if Truthy(arg) then arg.s else old(path))
      ensures !response.JsonArray? ==>
        contents == [] && path == old(path) &&
        error == Some(if response.JsonNonArray? then NotIterable else NetworkError)
    {
      match Outcome(response) {
        case Some(entries) =>
          contents := entries;
          loading := false;
          if Truthy(arg) {
            path := arg.s;
          }
        case None =>
          contents := [];
          loading := false;
          error := Some(if response.JsonNonArray? then NotIterable else NetworkError);
      }
    }

    /** `fetchAPI(arg)` with its response applied at once. */
    method FetchAPI(arg: JsStr, response: ListResponse)
      requires Valid()
      modifies this`contents, this`loading, this`path, this`error, this`requests
      ensures Valid() && !loading
      ensures requests == old(requests) + [ListingRequest(ListingUrl(baseUrl, arg))]
      ensures response.JsonArray? ==>
        contents == response.entries && error == old(error) &&
        path == (if Truthy(arg) then arg.s else old(path))
      ensures !response.JsonArray? ==>
        contents == [] && path == old(path) &&
        error == Some(if response.JsonNonArray? then NotIterable else NetworkError)
    {
      StartListing(arg);
      FinishListing(arg, response);
    }

    /** The mount effect `fetchAPI()`: the root listing is requested with an
        empty path and `path` stays as it was. */
    method Mount(response: ListResponse)
      requires Valid()
      modifies this`contents, this`loading, this`path, this`error, this`requests
      ensures Valid() && !loading && path == old(path)
      ensures requests == old(requests) + [ListingRequest(baseUrl + "/")]
      ensures contents == (if response.JsonArray? then response.entries else [])
      ensures error == (if response.JsonArray? then old(error)
                        else Some(if response.JsonNonArray? then NotIterable else NetworkError))
    {
      assert ListingUrl(baseUrl, Null) == baseUrl + "/";
      FetchAPI(Null, response);
    }

    /** `onClick(item)`: a file row fetches its body and selects it, leaving
        path, listing and loading alone (a rejected fetch changes nothing
        more); any other row clears the selection and fetches the child path. */
    method OnClick(item: FileInfo, body: TextResponse, listing: ListResponse)
      requires Valid()
      modifies this
      ensures Valid() && readmeDeps == old(readmeDeps)
      ensures item.kind == "file" ==>
        requests == old(requests) + [ContentRequest(item.url)] &&
        path == old(path) && contents == old(contents) && loading == old(loading) && error == old(error) &&
        file == (if body.Body? then FileProps(Str(item.name), item.ext, Str(body.text)) else old(file))
      ensures item.kind == "file" && body.Body? ==>
        (ShowPreview(file).Some? <==> body.text != "")
      ensures item.kind != "file" ==>
        file == FileProps(Null, Null, Null) && ShowPreview(file).None? && !loading &&
        requests == old(requests) + [ListingRequest(ListingUrl(baseUrl, Str(old(path) + "/" + item.name)))]
      ensures item.kind != "file" && listing.JsonArray? ==>
        contents == listing.entries && path == old(path) + "/" + item.name && error == old(error)
      ensures item.kind != "file" && !listing.JsonArray? ==>
        contents == [] && path == old(path) && error.Some?
    {
      if item.kind == "file" {
        requests := requests + [ContentRequest(item.url)];
        if body.Body? {
          file := FileProps(Str(item.name), item.ext, Str(body.text));
        }
      } else {
        // clear the previously selected file
        file := FileProps(Null, Null, Null);
        FetchAPI(Str(ChildPath(path, item.name)), listing);
      }
    }

    /** `onBreadcumClick(path, ele)`: fetch the breadcrumb's target. */
    method OnBreadcrumbClick(ele: string, response: ListResponse)
      requires Valid()
      modifies this`contents, this`loading, this`path, this`error, this`requests
      ensures Valid() && !loading
      ensures requests == old(requests) + [ListingRequest(ListingUrl(baseUrl, Str(BreadcrumbTarget(old(path), ele))))]
      ensures response.JsonArray? ==>
        contents == response.entries && error == old(error) &&
        path == (if BreadcrumbTarget(old(path), ele) != "" then BreadcrumbTarget(old(path), ele) else old(path))
      ensures !response.JsonArray? ==>
        contents == [] && path == old(path) &&
        error == Some(if response.JsonNonArray? then NotIterable else NetworkError)
    {
      FetchAPI(Str(BreadcrumbTarget(path, ele)), response);
    }

    /** `fetchReadme()`: when the listing has a `file` row named exactly
        `README.md`, its body is fetched and it becomes the selected file. */
    method FetchReadme(body: TextResponse)
      modifies this`file, this`requests
      ensures ReadmePick(FileInfos()).None? ==> file == old(file) && requests == old(requests)
      ensures ReadmePick(FileInfos()).Some? ==>
        var f := ReadmePick(FileInfos()).value;
        requests == old(requests) + [ContentRequest(f.url)] &&
        file == (if body.Body? then FileProps(Str("README.md"), Str("md"), Str(body.text)) else old(file))
    {
      var rows := FileInfos();
      var pick := ReadmePick(rows);
      if pick.Some? {
        var f := pick.value;
        requests := requests + [ContentRequest(f.url)];
        if body.Body? {
          PickedReadmeIsMarkdown(contents);
          assert f.name == "README.md" && f.ext == Str("md");
          file := FileProps(Str(f.name), f.ext, Str(body.text));
        }
      }
      assert FileInfos() == rows;
    }

    /** The effect `useEffect(fetchReadme, [fileInfo.length])`: it runs when
        the number of rows differs from its last run, so a new listing with
        as many rows as the previous one does not look for a README. */
    method ReadmeEffect(body: TextResponse)
      modifies this`file, this`requests, this`readmeDeps
      ensures readmeDeps == Some(|FileInfos()|)
      ensures old(readmeDeps) == Some(|FileInfos()|) ==> file == old(file) && requests == old(requests)
      ensures old(readmeDeps) != Some(|FileInfos()|) && ReadmePick(FileInfos()).None? ==>
        file == old(file) && requests == old(requests)
      ensures old(readmeDeps) != Some(|FileInfos()|) && ReadmePick(FileInfos()).Some? ==>
        var f := ReadmePick(FileInfos()).value;
        requests == old(requests) + [ContentRequest(f.url)] &&
        file == (if body.Body? then FileProps(Str("README.md"), Str("md"), Str(body.text)) else old(file))
    {
      var n := |FileInfos()|;
      if readmeDeps != Some(n) {
        readmeDeps := Some(n);
        FetchReadme(body);
      }
    }
  }

  /** A session: mount, enter a directory, then click the crumb of the root.
      The crumb lands back on `root`. */
  method EnterAndReturn(sub: RawEntry, inner: seq<RawEntry>, top: seq<RawEntry>)
    returns (visited: seq<string>, finalContents: seq<RawEntry>)
    requires sub.kind == "dir" && sub.name != ""
    ensures visited == ["root", "root/" + sub.name, "root"]
    ensures finalContents == top
  {
    var x := new FileExplorer("octo", "demo");
    x.Mount(JsonArray([sub]));
    assert x.path == "root";
    visited := [x.path];
    x.OnClick(ToFileInfo(sub), TextRejected, JsonArray(inner));
    assert x.path == "root/" + sub.name;
    visited := visited + [x.path];
    x.OnBreadcrumbClick("root", JsonArray(top));
    assert OccursAt("root/" + sub.name, "root", 0);
    assert x.path == "root";
    visited := visited + [x.path];
    finalContents := x.contents;
  }
}
