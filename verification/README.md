# node-utility core in Dafny

This project models three pieces of self-contained logic of the TypeScript
`node-utility` library and proves properties of them.

- **Path strings of `File`** (module `FilePaths`, on top of the string helpers
  in `Text`). Covers `ToUnixPath` with its private `DelRepeatedPath`,
  `ToLocalPath`, `ToRelativePath`, `GetNoSuffixName`, `CreateFromArray`,
  `ToNoProtocolUri` and `ToUri`. The host separator `Path.sep` is the
  parameter `Sep`.
- **List filters of `File`** (module `FileFilter`). Covers `_match`, `_filter`,
  `Filter` and `NotMatchFilter`. A regular expression is a `string -> bool`
  predicate. What `lstat` reports is a `kind` field on a `File` record.
- **The request reducer of `NetRequest.Request`** (module `NetRequest`).
  - What is sent: the method, and a body for POST only.
  - What the `http` layer reports, as a sequence of events:
    - data chunks;
    - response close (status, `location` header, status message);
    - response error;
    - request error.
  - How the handlers settle the returned promise. A `resolved` flag guards
    it, so it settles at most once.
  - JavaScript truthiness, `JSON.stringify` and `JSON.parse` are parameters.
    `JSON.parse` is a partial function `string -> Option<T>`.
- **The lock table of `FileLock`** (module `FileLock`). `lockedFiles` is an
  insertion-ordered sequence of `(fd, path)` entries with distinct
  descriptors. The results of `openSync` and `closeSync` are parameters.

Where the code and its comments differ, the model follows the code:

- After collapsing backslashes, `ToUnixPath` deletes every `"./"` except one
  leading `"./"`. That includes the `"./"` inside `"../"`.
  - `"../a"` becomes `".a"` (`ToUnixPathParentDir`).
  - `"x..//y"` becomes `"x./y"`, and a second pass gives `"xy"`. So the
    function is not idempotent (`ToUnixPathNotIdempotent`).
- A leading `'#'` in the input comes out as `"./"`, because `'#'` is the
  placeholder `DelRepeatedPath` uses for a leading `"./"`
  (`ToUnixPathLeadingHash`).
- The example in the comment on `ToRelativePath` has base `d:\app\abc\.` and
  path `d:\app\abc\.\def\a.c`, with claimed result `./def/a.c`. The code
  gives `undefined` for it:
  - the path normalises to `d:/app/abc/def/a.c`;
  - that does not start with the root `d:/app/abc/.`.

  `ToRelativePathCommentExample` proves it for the comment's literal
  strings. `ToRelativePathDotRoot` proves it for every base `dir\.` and path
  `dir\.\rest` of that shape, where:
  - `dir` has no `.` or `#` and does not end in a backslash;
  - `rest` starts with neither `\` nor `.`, and contains no `./` once its
    backslashes are collapsed.
- The success threshold of a response is `status < 400` (NetRequest.ts:67).
  A 3xx status other than 301 and 302 (for example 304) therefore goes
  through the JSON parse.
- The code has no redirect following with a hop limit, no text or binary
  fetch, and no abort or timeout handling, so the model has none either.

## Model

| member | source | states |
|---|---|---|
| FilePaths.CollapseBackslashes | File.ts:30 | The first replace of ToUnixPath leaves no backslash in the string. |
| FilePaths.CollapseRun | File.ts:30 | A maximal run of one or more backslashes becomes exactly one '/'. The text on either side of the run is collapsed independently. |
| FilePaths.CollapseKeeps | File.ts:30 | Collapsing backslashes brings in no character other than '/'. |
| FilePaths.DropDotSlashSplice | File.ts:47 | The global `(?:\.\/){1,}` replace deletes a "./" wherever it stands. The text before and after it is processed independently. |
| FilePaths.MarkLeadingDotSlash | File.ts:46 | No ensures of its own. DelRepeatedPathShape states its effect: a leading "./" becomes the '#' placeholder. |
| FilePaths.DropDotSlash | File.ts:47 | No ensures of its own. DropDotSlashSplice states that every "./" is deleted wherever it stands. DropDotSlashFree states that a string without "./" is unchanged. DropDotSlashChars states that no character is added. |
| FilePaths.RestoreMark | File.ts:48 | No ensures of its own. DelRepeatedPathShape states its effect: a leading '#' becomes "./". |
| FilePaths.DelRepeatedPath | File.ts:44-49 | No ensures of its own. DelRepeatedPathShape states it: a leading "./" survives once, a leading '#' becomes "./", and every other "./" is deleted. |
| FilePaths.DelRepeatedPathShape | File.ts:44-49 | A leading "./" survives once. A leading '#' becomes "./". Otherwise every "./" is deleted. |
| FilePaths.DelRepeatedPathExample | File.ts:44 | The comment's example "./././aaaa/././././bbbb" gives "./aaaa/bbbb". More generally, a path made of "./", then k more "./", a segment, m >= 1 "./" and a second segment gives "./" followed by the two segments, provided neither segment contains "./". |
| FilePaths.ToUnixPath | File.ts:29-31 | The Unix form never contains a backslash. |
| FilePaths.ToUnixPathNotIdempotent | File.ts:29-31 | "x..//y" gives "x./y", and "x./y" gives "xy". Applying the function twice differs from applying it once. |
| FilePaths.ToUnixPathLeadingHash | File.ts:46-48 | Every input starting with '#' comes out as "./" followed by its collapsed tail with every "./" deleted. So it always starts with "./", and a Unix-form tail without "./" is kept as it is. |
| FilePaths.ToUnixPathParentDir | File.ts:44-49 | For a tail `a` with no '\' and no "./", "../" + a comes out as "." + a. |
| FilePaths.ToLocalPath | File.ts:33-42 | On a '\' host the result has no '/', and turning its '\' back into '/' gives the Unix form. On a '/' host the result is the Unix form. |
| FilePaths.StripTrailingSlash | File.ts:157 | `replace(/\/\s*$/, '')` cuts the string at the '/' that only JavaScript white space follows. With no such '/', the string is unchanged. |
| FilePaths.RelativeRoot | File.ts:157 | The root is a prefix of the Unix form of the base. DotRootUnix and SlashRootUnix give it for bases ending in '\.' and '\'. |
| FilePaths.ToRelativePath | File.ts:155-169 | The result is defined exactly when the root is strictly shorter than the Unix path and is a prefix of it. When defined, it is '.' followed by what follows the root, so root + rest == Unix path. |
| FilePaths.ToRelativePathDotRoot | File.ts:152-169 | For base 'dir\.' and path 'dir\.\rest' the result is undefined. `dir` may contain backslashes but no '.' or '#', and must not end in a backslash. `rest` must start with neither '\' nor '.', and must contain no "./" after collapsing. |
| FilePaths.ToRelativePathCommentExample | File.ts:152-154 | The comment's example, base 'd:\app\abc\.' and path 'd:\app\abc\.\def\a.c', gives undefined, not './def/a.c'. |
| FilePaths.ToRelativePathBelowDir | File.ts:155-169 | For base 'dir\' and path 'dir\rest', the result is "./rest". This holds when `dir` has no '\', '.' or '#', and `rest` has no '\' and no "./". |
| FilePaths.NoSuffixName | File.ts:112-120 | No ensures of its own. NoSuffixNameSpec states it. |
| FilePaths.NoSuffixNameSpec | File.ts:112-120 | A name without '.' is returned unchanged. Otherwise the result is the name up to its last '.'. |
| FilePaths.CreateFromArray | File.ts:25-27 | No ensures of its own. CreateFromArrayRoundTrip states it: splitting the joined path at the separator gives back the parts. |
| FilePaths.CreateFromArrayRoundTrip | File.ts:25-27 | Splitting the joined path at the separator gives back parts that contain no separator. Joining the parts of any path gives back the path. |
| FilePaths.MergeSlashPairs | File.ts:323 | The result is no longer than the input. MergeSlashPairsRun and MergeSlashPairsFree state the rest: slash runs halve, rounding up, and everything else is kept. |
| FilePaths.MergeSlashPairsRun | File.ts:323 | On a '/' host, a maximal run of k slashes becomes ceil(k/2) slashes. |
| FilePaths.MergeSlashPairsFree | File.ts:323 | On a '/' host a string without "//" is unchanged, so every character outside a slash run survives. |
| FilePaths.ToNoProtocolUri | File.ts:322-324 | The URI path starts with '/'. On a '\' host every backslash becomes '/' and every other character is kept. On a '/' host the result is no longer than the path plus one, and a path without "//" is kept as it is. |
| FilePaths.ToUri | File.ts:318-320 | Every URI starts with "file:///", followed by the no-protocol form after "file://". |
| FileFilter.Match | File.ts:51-67 | Without inversion the result is true iff some expression accepts the string. With inversion it is true iff none accepts it. |
| FileFilter.Passes | File.ts:73-99 | A predicate: an entry of the pass's kind that either has no filter or whose name the filter matches. Match proves that the `_match` call computes the filter part. |
| FileFilter.Pass | File.ts:73-85 | Every entry a pass keeps is an input entry of the pass's kind that passes its filter. |
| FileFilter.PassCount | File.ts:73-99 | A pass keeps every copy of a passing entry and no copy of any other entry. |
| FileFilter.PassMembers | File.ts:73-99 | An entry is in a pass's output iff it is in the input and passes. |
| FileFilter.PassAppend | File.ts:74-78 | A pass over a concatenation is the concatenation of the passes. Kept entries therefore stay in input order. |
| FileFilter.FilterList | File.ts:69-102 | Every output entry is an input file or directory. No directory comes before a file. |
| FileFilter.FilterListCount | File.ts:69-102 | The output holds every copy of each file that passes the file filter and of each directory that passes the directory filter, and nothing else. |
| FileFilter.RunPass | File.ts:74-78 | The forEach/push loop appends exactly the passing entries, in order. |
| FileFilter.FilterEntries | File.ts:69-102 | `_filter` gives the file pass followed by the directory pass. |
| FileFilter.Filter | File.ts:104-106 | Filter is `_filter` without inversion. |
| FileFilter.NotMatchFilter | File.ts:108-110 | NotMatchFilter is `_filter` with inversion. |
| FileFilter.PassIgnoresInverter | File.ts:79-85 | An absent filter keeps every entry of its kind, whether or not the filter is inverted. |
| FileFilter.PassPartition | File.ts:104-110 | Given the same filter, Filter and NotMatchFilter split the entries of a kind between them: each entry goes to exactly one of the two. |
| FileFilter.FilterPartition | File.ts:104-110 | The same partition holds for whole `_filter` results with both filters present. |
| FileFilter.PassEmptyFilter | File.ts:51-67 | An empty filter list keeps nothing in Filter and keeps every entry of its kind in NotMatchFilter. |
| NetRequest.Prepare | NetRequest.ts:39-47 | The method is POST iff the content is truthy. Only a POST carries a body, and that body is the JSON text of the content. Host, port, path and timeout are passed through unchanged. |
| NetRequest.Classify | NetRequest.ts:67-103 | The status and message are always kept. Success holds iff the status is truthy, below 400, not 301/302, and the body parses; content is present iff success, and it is the parsed body. A location appears only for 301/302, and it is the header's value. |
| NetRequest.Step | NetRequest.ts:50-119 | The promise is settled iff it already was, or the event is a close or a request error. Once settled, the resolutions never change; an unsettled terminal event adds exactly one. Only a data event grows the buffer, by its chunk. |
| NetRequest.Run | NetRequest.ts:50-120 | The promise resolves at most once, and the flag says whether it has. The buffer is the concatenation of all chunks. The side channel gets every error in arrival order. |
| NetRequest.RunPending | NetRequest.ts:53-59 | Data chunks and response errors alone never resolve the promise. |
| NetRequest.RunDecided | NetRequest.ts:61-120 | The first close or request error resolves the promise with its classification of the chunks that came before it. Nothing else is ever resolved. |
| NetRequest.RunResolved | NetRequest.ts:61-120 | The promise settles iff some close or request error arrives. |
| NetRequest.RunSettled | NetRequest.ts:63-65 | Once resolved, later events leave the resolved value unchanged. |
| NetRequest.OutcomeCases | NetRequest.ts:108-117 | If a request error comes first, the result is bare `{success: false}`. If a close comes first, the result is the classification of the body received so far. |
| NetRequest.Request | NetRequest.ts:34-131 | The handler loop, with its shared flag and buffer, sends the prepared request and settles with the event model's outcome. It emits every error. |
| FileLock.FirstHit | FileLock.ts:31-52 | The first entry in insertion order that matches the path or descriptor, or none. |
| FileLock.MapSet | FileLock.ts:16 | `Map.set` updates a present key in place and appends a new one. Other entries keep their values and places. |
| FileLock.Lock | FileLock.ts:6-23 | A successful open records the entry and returns the descriptor. A fresh descriptor is appended. A failed open returns undefined and leaves the table as it was. |
| FileLock.LockAsWritten | FileLock.ts:10 | The `lock` shipped never records an entry and always returns undefined. |
| FileLock.Delete | FileLock.ts:55 | `Map.delete` removes the entry with the key and nothing else. |
| FileLock.Unlock | FileLock.ts:25-64 | Returns true iff an entry matches, `closeSync` returns, and the first match's descriptor is non-zero. It then removes exactly that first match and keeps the order of the rest; otherwise the table is unchanged. A descriptor is closed iff there is a match and `closeSync` returns, and it is the first match's descriptor. |
| FileLock.RunUnlock | FileLock.ts:25-64 | The for...of/break loop followed by the truthiness test behaves as Unlock. |
| FileLock.LockUnlockRoundTrip | FileLock.ts:14-63 | Lock a fresh non-zero descriptor, then unlock it by descriptor or by a path no other entry has. When `closeSync` returns, unlock returns true and the table is restored. When `closeSync` throws, unlock returns false and the locked entry stays. |
| FileLock.UnlockFdZero | FileLock.ts:54-57 | A matched descriptor 0 is closed, but unlock returns false and the entry stays. |
| FileLock.LockAsWrittenNeverLocks | FileLock.ts:10 | Whatever the open would return, the shipped lock records nothing. The intended lock returns the descriptor. |

## Left out

- Filesystem effects of `File` are not modelled: `CreateDir`, `GetList`, `GetAll`, `Copy*`, `Read`/`Write`, `IsExist`, `getSize`, `getHash`. What `IsFile`/`IsDir` report is the `kind` field.
- The `File` constructor's `Path.basename`/`extname`/`dirname` are foreign calls. `name` is taken as given.
- `GetNoSuffixName` splits `this.name`, not its parameter. Its only caller passes `this.name`, so the model has one `name` argument.
- Regular-expression semantics are left out, including the `lastIndex` state that `test` keeps on a `g`-flagged expression. An expression is a pure predicate.
- JavaScript strings are UTF-16 code units. Dafny `char`s are Unicode scalar values, so lone surrogates are not modelled.
- NetRequest does not model the `http` transport: sockets, `setEncoding`, the `timeout` option's effect, and the real `JSON.parse`/`JSON.stringify`.
- NetRequest.Request, NetRequest.Prepare: assume that neither `http.request` nor `JSON.stringify` throws. The whole body runs inside the `new Promise` executor (NetRequest.ts:36-130), so a throw there rejects the promise instead of resolving it. `http.request` can throw while validating its options, for example on a negative timeout or a path with an unescaped space. `JSON.stringify` throws on cyclic or BigInt content, and returns `undefined` for a function, in which case the POST goes out with no body. The model has no rejected state and treats `stringify` as a total function to text, because both behaviours belong to Node and are not part of this code.
- The event emitter's listener registration (`on`) is not modelled. Emitted errors are recorded as a sequence.
- NetRequest.Run, NetRequest.Request: assume that an `'error'` listener is registered on the emitter. Without one, Node's `emit('error', err)` (NetRequest.ts:58 and :119) throws. A response error would then end the response handler, so a later close would never settle the promise. The model does not cover that case, because what follows an uncaught exception in an `http` callback is up to the host process.
- The result of `openSync` in `lock` folds in the existence check and `unlinkSync` that precede it.
- The `Executable` process launcher and the `FileWatcher` wrapper are plumbing over `child_process` and `fs.watch`. Neither is part of this model.

## Findings

| source | as written | input that shows it | evidently intended | confidence | as-written member | corrected member |
|---|---|---|---|---|---|---|
| FileLock.ts:10 | `File.IsExist(fpath)` is called on the class, but `File` defines `IsExist` only on instances (File.ts:290). The call throws inside the `try`, so `lock` returns `undefined` and records nothing. | any path, e.g. `lock('/tmp/a.lock')` with `openSync` able to succeed | Check that the file exists, remove it, open it exclusively, record the descriptor and return it. | high; not executed | FileLock.LockAsWritten | FileLock.Lock |
