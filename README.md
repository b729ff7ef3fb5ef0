# GitHub repository explorer: navigation and listing model

This project models the core of a React component that browses a GitHub
repository through the contents API. The component shows a directory listing
with directories first, a breadcrumb header for the current path, and a preview
pane for the selected file. The preview renders markdown for `md` files and
highlighted code for everything else. It also selects a README on its own.

The model follows the code as written, quirks included:

- The extension regex `/(?:\.([^.]+))?$/` is modelled as the regex engine
  runs it: each start index is tried in turn.
- The listing is built by a map into `FileInfo` rows, then two stable filters.
- The breadcrumb target is cut at the first occurrence of the segment's text.
- The listing URL is built with `replace('root', '')`, which replaces only
  the first occurrence.
- The README name expression `('README.md' || 'Readme.md' || 'readme.md')`
  evaluates to `'README.md'` alone.
- The README effect is keyed on the number of listing rows.

The state machine is the class `Explorer.FileExplorer`. Its fields are `path`,
`contents`, `loading`, `file`, `error`, the README effect's last dependency
value, and a log of the requests issued. Each network response is a parameter
of the handler that awaits it and is applied at once. The handlers are
`fetchAPI` (split into its part before and after the `await`), `onClick`,
`onBreadcumClick`, `fetchReadme` and the two effects. The plain file list's
rules (README auto-selection and row clicks) are functions in module
`FileList`.

Modules:

- `JsValues` (`jsvalues.dfy`): string, `undefined` and `null` values, their
  truthiness and `||`, and the string built-ins the code calls (`indexOf`,
  `slice`, `replace`, `split`).
- `Listing` (`listing.dfy`): the pure helpers of the file explorer.
- `Explorer` (`explorer.dfy`): the explorer's state and handlers.
- `FileList` (`filelist.dfy`): the plain file list.

## Model

| member | source | states |
|---|---|---|
| `JsValues.Truthy` | components/FileExplorer.tsx:134 | Only a non-empty string is truthy. `undefined`, `null` and `''` are falsy. |
| `JsValues.Or` | components/FileExplorer.tsx:250 | `a || b` is one of its operands. It is truthy exactly when either operand is truthy. |
| `Listing.ExecFrom` | components/FileExplorer.tsx:161 | A captured extension is non-empty and has no dot, and the name ends with `.` followed by it. The group is never `null`. It is `undefined` only when no dot remains from the start index or the name ends in a dot. |
| `Listing.Ext` | components/FileExplorer.tsx:161 | The extension is never `null`. A captured extension is non-empty, has no dot and is shorter than the name, and the name ends with `.` followed by it. An `undefined` extension means the name has no dot or ends in a dot. |
| `Listing.ExtIsTextAfterLastDot` | components/FileExplorer.tsx:161 | The extension is `e` exactly when `e` is non-empty, has no dot, and the name ends with `.` + `e`. That is the text after the last dot, with its case kept. |
| `Listing.ExtUndefinedIff` | components/FileExplorer.tsx:161 | The extension is `undefined` exactly when the name has no dot or ends in a dot. |
| `Listing.ToFileInfo` | components/FileExplorer.tsx:156-162 | A row copies the entry's name, type, download URL and size. Its extension, when captured, is a non-empty dot-free text shorter than the name. |
| `Listing.MapEntries` | components/FileExplorer.tsx:156-162 | There is one row per API entry, in API order. Each row copies the entry's name, type, download URL and size, and takes its extension from the regex. |
| `Listing.FilterKind` | components/FileExplorer.tsx:165-166 | The filter never grows the list. It keeps only entries of the given type, all taken from the input. |
| `Listing.FilterKindKeeps` | components/FileExplorer.tsx:165-166 | The filter keeps every entry of the given type. |
| `Listing.FilterKindAppend` | components/FileExplorer.tsx:165-166 | The filter is stable: filtering `a + b` gives the filtered `a` followed by the filtered `b`. |
| `Listing.Arrange` | components/FileExplorer.tsx:164-167 | Every row of `fileInfo` comes from the mapped listing and is a directory or a file. |
| `Explorer.FileExplorer.FileInfos` | components/FileExplorer.tsx:164-167 | The table never shows more rows than the raw listing has entries. |
| `Listing.ArrangeMembers` | components/FileExplorer.tsx:164-167 | A row is in `fileInfo` exactly when it is an entry of type `dir` or `file`. Every other type is dropped. |
| `Listing.ArrangeDirsFirst` | components/FileExplorer.tsx:164-167 | Every row is a directory or a file. Once a file row appears, all later rows are files. |
| `Listing.ArrangeLength` | components/FileExplorer.tsx:164-167 | `fileInfo` is never longer than the raw listing. It is as long exactly when every entry is a `dir` or a `file`. |
| `Listing.FileDisplay` | components/FileExplorer.tsx:98-103 | The renderer is markdown exactly when the language is the string `md`. Every other value, including `MD`, the empty string, `undefined` and `null`, goes to the code block with the value as its language. |
| `Listing.MarkdownExactlyForDotMd` | components/FileExplorer.tsx:98-103 | A file renders as markdown exactly when its name ends in lower-case `.md`. |
| `Listing.ShowPreview` | components/FileExplorer.tsx:246-257 | The preview is shown exactly when `content` is a non-empty string, so an empty file shows nothing. It renders `FileDisplay(content, ext)` under the title `filename`, or `''` when the filename is falsy. |
| `Listing.ChildPath` | components/FileExplorer.tsx:184 | From the empty path the child path is the name alone. Otherwise it is the path, a `/`, then the name. |
| `Listing.ChildPathAddsOneCrumb` | components/FileExplorer.tsx:184 | From a non-empty path, entering a directory whose name has no `/` adds exactly one breadcrumb segment, the directory's name. |
| `JsValues.IndexOf` | components/FileExplorer.tsx:189 | `indexOf` gives -1 exactly when the text does not occur. Otherwise it gives an index where the text occurs, with no occurrence before it. |
| `JsValues.SliceTo` | components/FileExplorer.tsx:189 | `slice(0, end)` is a prefix of the string. It has length `end` when `end` is within the string, and is the whole string when `end` is past it. A negative `end` counts from the back, and the result is empty when it reaches before the start. |
| `JsValues.IndexFrom` | components/FileExplorer.tsx:189 | The search from index `k` gives -1 or an occurrence at or after `k`, with no occurrence between `k` and it. |
| `Listing.BreadcrumbTarget` | components/FileExplorer.tsx:189 | The target is a prefix of the path. When the segment text occurs, the target ends just after its first occurrence. |

| `Listing.BreadcrumbCutsAtFirstOccurrence` | components/FileExplorer.tsx:188-190 | The target is a prefix of the path that ends with the segment text. It is cut at that text's first occurrence in the path, so it never extends past the clicked occurrence. |
| `Listing.BreadcrumbOfSegment` | components/FileExplorer.tsx:200-203 | Every breadcrumb rendered from `path.split('/')` targets a prefix of the path that ends with that segment's text. |
| `JsValues.Split` | components/FileExplorer.tsx:200 | `split` gives at least one segment, and no segment contains the separator. |
| `JsValues.SegmentOccurs` | components/FileExplorer.tsx:200 | Every segment of `split` occurs in the split string. |
| `Listing.BreadcrumbStopsAtEarlierText` | components/FileExplorer.tsx:188-190 | For path `root/src/rc`, the crumb `rc` targets `root/src`, not the whole path. |
| `Listing.ListingUrl` | components/FileExplorer.tsx:130 | The request URL starts with `baseURL/`. A falsy argument requests exactly `baseURL/`. |
| `JsValues.ReplaceFirst` | components/FileExplorer.tsx:130 | Without an occurrence the string is unchanged. Otherwise the first occurrence alone is replaced: the text before it and after it is kept. |
| `Listing.ListingUrlOfRootPath` | components/FileExplorer.tsx:130 | For a path `root` + `rest`, the request is `baseURL/` + `rest`, so `root/src` requests `baseURL//src`. Any later `root` is kept. |
| `Listing.ListingUrlWithoutRoot` | components/FileExplorer.tsx:130 | A truthy path that does not contain `root` is requested unchanged after `baseURL/`. |
| `Listing.ReadmeName` | components/FileExplorer.tsx:147 | The name expression evaluates to `README.md`. |
| `Listing.IsReadme` | components/FileExplorer.tsx:146-147 | A row matches exactly when it is a `file` named `README.md`. |
| `Listing.LastReadme` | components/FileExplorer.tsx:143-149 | The index is that of the last `file` row named `README.md`, or -1 when no row matches. |
| `Listing.ReadmePick` | components/FileExplorer.tsx:143-150 | The pick is a `file` row of the listing named exactly `README.md`. There is no pick exactly when no such row exists, so `Readme.md` and `readme.md` are never picked. |
| `Listing.ReadmeExt` | components/FileExplorer.tsx:161 | The name `README.md` has the extension `md`. |
| `Listing.RowsCarryTheirExtension` | components/FileExplorer.tsx:156-167 | Every row of `fileInfo` carries the regex extension of its own name. |
| `Listing.PickedReadmeIsMarkdown` | components/FileExplorer.tsx:142-154 | The README picked from any listing has the extension `md`, so it is shown as markdown. |
| `Explorer.Outcome` | components/FileExplorer.tsx:128-136 | Spreading the JSON body succeeds for an array and yields its entries. It fails for a non-iterable value (an object, a number, a boolean or `null`) and for a rejected fetch or parse. |
| `Explorer.FileExplorer.constructor` | components/FileExplorer.tsx:114-123 | The initial state is path `root`, an empty listing, not loading, and the file `{ '', '', null }`. There is no error and no request yet. |
| `Explorer.FileExplorer.StartListing` | components/FileExplorer.tsx:125-131 | Loading goes on, and one listing request is appended for the URL built from the argument. |
| `Explorer.FileExplorer.FinishListing` | components/FileExplorer.tsx:127-139 | Loading goes off on both outcomes. For an array, the listing is replaced, and the path is set only when the argument is truthy. For a non-iterable body or a rejection, the listing becomes `[]`, the error is recorded and the path is unchanged. |
| `Explorer.FileExplorer.FetchAPI` | components/FileExplorer.tsx:125-140 | This is the two halves in sequence. Exactly one listing request is issued, loading ends off, and the path stays non-empty. |
| `Explorer.FileExplorer.Mount` | components/FileExplorer.tsx:169-171 | The mount fetch requests `baseURL/` and leaves `path` unchanged, so it stays `root`. On an array the listing is replaced. Otherwise the listing becomes `[]` and the error is recorded. |
| `Explorer.FileExplorer.OnClick` | components/FileExplorer.tsx:177-186 | A file row requests its URL. On a body, it becomes the selected file, previewed only when the body is non-empty. Path, listing, loading and error are unchanged. Any other row clears the file to `{ null, null, null }`, so no preview shows. It then requests `path/name`, and on success the path becomes `path/name`. |
| `Explorer.FileExplorer.OnBreadcrumbClick` | components/FileExplorer.tsx:188-190 | The handler requests the breadcrumb target. On success it moves to that target, or keeps the path when the target is empty. On failure it keeps the path, clears the listing and records the error. |
| `Explorer.FileExplorer.FetchReadme` | components/FileExplorer.tsx:142-154 | With no `README.md` file row, nothing changes. Otherwise the last such row's URL is requested, and on a body the file becomes `{ 'README.md', 'md', body }`. |
| `Explorer.FileExplorer.ReadmeEffect` | components/FileExplorer.tsx:173-175 | The effect runs only when the row count differs from its last run. When the count is unchanged, the file and the requests stay as they were. When it differs, the effect does what `fetchReadme` does: nothing without a `README.md` file row, otherwise a request for the last such row and, on a body, that file selected. |
| `FileList.IsAutoReadme` | components/FileList.tsx:14 | The condition matches only the exact spelling `Readme.md`, so `README.md` and `readme.md` rows never match, and neither does a directory. |
| `FileList.FirstAutoReadme` | components/FileList.tsx:13-16 | The index is that of the first row named exactly `Readme.md` with type `file`, or -1 when no row matches. |
| `FileList.AutoSelect` | components/FileList.tsx:13-16 | Nothing is selected exactly when there is no callback or no `file` row named exactly `Readme.md`. Otherwise the first such row is selected. |
| `FileList.AutoSelectOnRender` | components/FileList.tsx:12-17 | Only the first render can select a row. On the first render the selection is `AutoSelect`'s, and the selected row is an exact `Readme.md` file from the listing. |
| `FileList.AutoSelectSkipsOtherSpellings` | components/FileList.tsx:14 | `README.md`, `readme.md` and a directory named `Readme.md` are passed over for a later `Readme.md` file. |
| `FileList.RowClick` | components/FileList.tsx:32-34 | A row is forwarded exactly when it is a `file` and a callback exists, and then it is forwarded unchanged. A directory row does nothing. |
| `Explorer.EnterAndReturn` | components/FileExplorer.tsx:169-190 | A session that mounts, enters a directory and clicks the `root` crumb visits `root`, then `root/` + the name, then `root` again, and ends showing the listing of the last response. |

## Left out

- `sizeFn` (human-readable sizes) is left out: it uses floating-point `Math.log`, `Math.pow` and `toFixed`, and it is presentation only. `FileInfo.size` keeps the API's byte count.
- Network I/O (`fetch`, `.json()`, `.text()`) is left out. Each response is a parameter of the handler that awaits it: a listing response is an array, a non-iterable JSON value or a rejection, and a text response is a body or a rejection.
- `Explorer.Outcome` does not model a top-level JSON string body. Spreading a string yields its characters, so the source takes the success branch and stores one listing entry per character. The model has no case for it.
- Overlapping fetches are not modelled. Each handler applies its response at once. The code has no staleness guard, and the model claims none.
- React's rendering and effect scheduling are not modelled. The two `FileExplorer` effects are methods the caller runs after a render. `FileList`'s mount effect is a function of whether the render is the first one.
- The third-party renderers (the markdown renderer with HTML escaping off, the syntax highlighter with its line numbers, the loading skeleton, styled components and icons) are left out. The model stops at the choice of renderer and its inputs.
- `Explorer.FileExplorer.constructor` fixes `baseUrl` once. The source recomputes `baseURL` from the `username` and `repo` props on every render (components/FileExplorer.tsx:123), so a change of props changes later request URLs. The model does not capture that.
- The repository-contents hook is left out as I/O plumbing. It has logic of its own that the model does not capture: it returns early without a username, it switches loading off before storing the contents, and it runs again when the username changes.
- The page's service-worker glue, the layout and the file-preview markup are not part of this model. They are markup or glue.
- `Listing.ChildPathAddsOneCrumb` is stated for a non-empty path. The explorer's path is never empty: `Valid()` holds after every handler. So `onClick`'s `path === ''` branch is unreachable from the explorer's own states.
