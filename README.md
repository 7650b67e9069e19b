# Christmas photo admin, modelled in Dafny

The system is a small photo gallery. A single client page shows the images of a
blob store in a grid, lets the user select images (by a long press or by
clicking in select mode), preview them, delete them, and upload new ones
after compressing large files in the browser. Three stateless server
handlers sit between the page and the store:

- `POST /api/upload` stores every image-typed file of a form under a
  generated name `photo_<timestamp>_<token>.<ext>`.
- `GET /api/list` returns the blobs one `list()` call yields, newest first,
  projected to four fields.
- `DELETE /api/delete` removes a list of URLs with one batched call.

The project models the three handlers and the page's state machine:

- `wrappers.dfy` holds `Option`.
- `jstext.dfy` models the JavaScript string built-ins the handlers rely on:
  `startsWith`, `substring` with its clamping, `split(".").pop()`, and
  decimal rendering of a timestamp.
- `api.dfy` holds the types shared by the handlers and the page: the reply
  with a status and a success or error payload, the image item, the file
  entry, the reply bodies, and `map` over sequences.
- `upload_route.dfy` is the upload handler. It is an imperative method with
  the source's loop and early `continue`.
- `list_route.dfy` is the list handler. It is a pure function over a stable
  newest-first sort.
- `delete_route.dfy` is the delete handler. It is a pure function, with the
  store taken as a set of URLs.
- `progress.dfy` holds the upload progress arithmetic.
- `gallery.dfy` holds the page. It has pure transitions over a state
  record, a step function whose runs keep select mode in line with the
  selection, and a class `GalleryPage` whose fields are the page's state
  hooks and whose methods are its handlers. Each method is proved to
  produce exactly the transition's new state.

External effects are parameters:

- The store's `put` is a function from the request to its result.
- What `list()` and `del` do are inputs.
- `Date.now()` and `Math.random().toString(36)` come from a `draw` function
  indexed by the number of earlier `put` calls.
- The compression library's outcome for the k-th image is an input.
- For the page, the user's confirmation is a boolean. Each `fetch` and
  `res.json()` exchange is a datatype: the handler's reply, or an exception.

Nothing in the page stops a second upload while one is running. The upload
button is disabled while `uploading` holds (src/app/page.tsx:302), but the
drop handler (src/app/page.tsx:167-170) calls `handleUpload` with no check of
the flag. The model follows this, so `HandleUpload` has no precondition on
`uploading`.

`handleUpload` sets its progress with `Math.round((processed / total) * 50)`.
The integer model is `(100 * processed + total) / (2 * total)`, which
`Progress.LoopProgressIsRounded` proves equal to half-up rounding of the
exact quotient. The page computes the product in double precision instead,
and that can read one lower at an exact `.5` tie: for 57 of 100 files the
double is 28.499999999999996, so the page shows 28 where the model gives 29
(likewise 29 of 100, and their multiples). The range, monotonicity and 99%
facts below hold for both. The bar reads 50 after the loop exactly when
`100 * processed >= 99 * total`. Since `total` counts every file, including
skipped ones, that means "every file was an image" only for fewer than 100
files. From 100 files on, one skipped file can still round to 50.

## Model

| member | source | states |
|---|---|---|
| JsText.Substring | src/app/api/upload/route.ts:27 | `substring(start, end)` yields exactly the characters from `start` up to the smaller of `end` and the text's length: a prefix of the text from `start` of that length, and nothing when `start` lies at or past the end |
| JsText.StartsWith | src/app/api/upload/route.ts:21 | `startsWith`: the prefix is no longer than the text and equals its first characters; `Api.IsImage` and `JsText.Substring` carry its use |
| JsText.Split | src/app/api/upload/route.ts:28 | `split` yields at least one part and no part holds the separator |
| JsText.Last | src/app/api/upload/route.ts:28 | `.pop()` of the non-empty split, the last part; its contract is given by `JsText.SplitLastIsTextAfterLast`, `JsText.SplitLastAfterSeparator` and `JsText.JoinLast` |
| JsText.JoinLast | src/app/api/upload/route.ts:28 | a split of at least two parts joins as all but the last part, the separator, then the last part |
| JsText.JoinSplit | src/app/api/upload/route.ts:28 | joining the parts of a split with the separator gives back the text |
| JsText.SplitLastIsTextAfterLast | src/app/api/upload/route.ts:28 | the last part of `split` is the text after the last separator, or the whole text when it has none |
| JsText.TextAfterLastUnique | src/app/api/upload/route.ts:28 | a text has only one text-after-its-last-separator |
| JsText.SplitLastAfterSeparator | src/app/api/upload/route.ts:28-29 | splitting `p + "." + e`, where `e` has no dot, ends in `e` |
| JsText.Decimal | src/app/api/upload/route.ts:29 | the rendering of a timestamp is a non-empty run of digits |
| JsText.ParseDecimalOfDecimal | src/app/api/upload/route.ts:29 | the decimal rendering of a number reads back as that number |
| JsText.CutAtFirstOfJoined | src/app/api/upload/route.ts:29 | `a + c + b` with no `c` in `a` cuts at its first `c` into `a` and `b` |
| Api.IsImage | src/app/api/upload/route.ts:21 | a file is image-typed when its MIME type starts with `image/` (also page.tsx:81); `UploadRoute.AcceptedKeepsImages` and `Gallery.FormFollowsAccepted` carry its use |
| Api.MapSeq | src/app/api/list/route.ts:25 | `.map` keeps the length and maps each element in place |
| Api.MapPermutation | src/app/api/list/route.ts:19-30 | projecting two permutations of each other gives two permutations of each other |
| UploadRoute.RandomToken | src/app/api/upload/route.ts:27 | the random token is the characters from index 2 up to index 8 of the rendering, just after the leading `0.`: exactly six of them when the rendering has at least eight characters, fewer for a shorter one, never more than six |
| UploadRoute.TokenHasNoSeparators | src/app/api/upload/route.ts:27 | a token cut from a base-36 rendering holds neither `_` nor `.` |
| UploadRoute.ExtensionIsTextAfterLastDot | src/app/api/upload/route.ts:28 | the extension is the text after the last `.` (all of the name when it has none), and `jpg` exactly when that text is empty; it is never empty and holds no dot |
| UploadRoute.ParseFilenameOfFilename | src/app/api/upload/route.ts:26-29 | a generated filename reads back into its timestamp, token and extension |
| UploadRoute.FilenameInjective | src/app/api/upload/route.ts:26-29 | two generated names are equal only when timestamp, token and extension all are |
| UploadRoute.FilenameKeepsExtension | src/app/api/upload/route.ts:28-29 | the stored name has the original name's extension |
| UploadRoute.AcceptedKeepsImages | src/app/api/upload/route.ts:20-23 | the files the loop does not skip are exactly the image-typed ones, each as often as in the form; all files when all are images, none when none are |
| UploadRoute.AcceptedCounts | src/app/api/upload/route.ts:20-23 | each image-typed file is kept as often as it occurs and every other file occurs zero times |
| UploadRoute.AcceptedWhenAllOrNone | src/app/api/upload/route.ts:20-23 | a form of images only is kept whole, a form without images is kept empty |
| UploadRoute.AcceptedConcat | src/app/api/upload/route.ts:20-23 | the filter keeps the files' relative order: filtering a concatenation concatenates the filtered parts |
| UploadRoute.PlannedFollowsAccepted | src/app/api/upload/route.ts:20-34 | one `put` per accepted file in order, the k-th named from the k-th draw, each with `access: "public"` and `addRandomSuffix: false` |
| UploadRoute.Extension | src/app/api/upload/route.ts:28 | the last part of `split(".")`, or `"jpg"` when that part is empty; its contract is given by `UploadRoute.ExtensionIsTextAfterLastDot` and `UploadRoute.FilenameKeepsExtension` |
| UploadRoute.Filename | src/app/api/upload/route.ts:29 | the template `photo_${timestamp}_${randomStr}.${ext}`; its contract is given by `UploadRoute.ParseFilenameOfFilename` and `UploadRoute.FilenameInjective` |
| UploadRoute.Accepted | src/app/api/upload/route.ts:20-23 | the files the loop does not skip; its contract is given by `UploadRoute.AcceptedKeepsImages`, `UploadRoute.AcceptedCounts`, `UploadRoute.AcceptedWhenAllOrNone` and `UploadRoute.AcceptedConcat` |
| UploadRoute.RequestFor | src/app/api/upload/route.ts:26-34 | the `put` call for one accepted file and its draw; its contract is given by `UploadRoute.PlannedFollowsAccepted` |
| UploadRoute.Planned | src/app/api/upload/route.ts:20-34 | the `put` calls of a run in which none throws; its contract is given by `UploadRoute.PlannedFollowsAccepted` and `UploadRoute.PlannedPrefix`, and `UploadRoute.Post` is proved against it |
| UploadRoute.PlannedPrefix | src/app/api/upload/route.ts:20-40 | the calls made for a prefix of the files begin the calls made for all of them |
| UploadRoute.Entry | src/app/api/upload/route.ts:36-39 | the entry pushed for a stored blob, its `url` and `pathname`; `UploadRoute.Post` states that on success the k-th uploaded entry is built from what the k-th `put` call stored |
| UploadRoute.Post | src/app/api/upload/route.ts:6-54 | an unreadable form answers 500 and an empty one 400 "没有选择文件", both without a `put`; otherwise the calls made begin the planned calls and the reply is a success iff every planned call stores; on success `count` equals the number of entries, the number of calls and the number of image-typed files, and the k-th entry is the k-th stored blob's `url` and `pathname`; on failure the last call threw and the reply is 500 "上传失败" |
| ListRoute.Insert | src/app/api/list/route.ts:19-21 | inserting one blob lengthens the list by one and puts either the blob or the old head first |
| ListRoute.InsertAddsOne | src/app/api/list/route.ts:19-21 | inserting adds exactly that blob |
| ListRoute.InsertKeepsOrder | src/app/api/list/route.ts:19-21 | inserting into a newest-first list keeps it newest first |
| ListRoute.SortNewestFirst | src/app/api/list/route.ts:19-21 | the sort yields a permutation of the blobs in which no blob is older than the next |
| ListRoute.SortIsStable | src/app/api/list/route.ts:19-21 | blobs with the same upload time keep their relative order, as `Array.prototype.sort` does |
| ListRoute.InsertIsStable | src/app/api/list/route.ts:19-21 | an inserted blob goes before the blobs with its own upload time |
| ListRoute.ToImage | src/app/api/list/route.ts:25-30 | the four-field projection; its contract is given by `ListRoute.ListedImagesComeFromBlobs` and `ListRoute.Get` |
| ListRoute.Get | src/app/api/list/route.ts:6-40 | the reply is a success iff the token is set and `list()` returns; the images are newest first, a permutation of the blobs' four-field projections, with the same multiset of URLs as the blobs; every failure is status 500 |
| ListRoute.TokenConfigured | src/app/api/list/route.ts:9 | the token is set and not empty (an empty string is falsy); its contract is given by `ListRoute.Get` and `ListRoute.GetWithoutToken` |
| ListRoute.ListErrorMessage | src/app/api/list/route.ts:34-36 | the prefixed failure text; its contract is given by `ListRoute.GetReportsListFailure` |
| ListRoute.GetWithoutToken | src/app/api/list/route.ts:9-14 | without a non-empty token the reply is 500 with the configuration message, whatever the store would have done |
| ListRoute.GetReportsListFailure | src/app/api/list/route.ts:32-38 | a throwing `list()` answers 500 with "获取图片列表失败: " and the error's message, or "未知错误" for a thrown non-`Error` |
| ListRoute.ListedImagesComeFromBlobs | src/app/api/list/route.ts:25-30 | every listed image is a blob of the store with `url`, `pathname`, `size` and `uploadedAt` copied unchanged |
| DeleteRoute.Delete | src/app/api/delete/route.ts:6-31 | `del` is called iff `urls` is a non-empty array, and then once with exactly `urls`; the reply is a success iff `del` was called and did not throw, with `deleted` the number of URLs; a missing, non-array or empty `urls` answers 400 "没有指定要删除的图片"; an unreadable body or a throwing `del` answers 500 "删除失败" |
| DeleteRoute.StoreAfter | src/app/api/delete/route.ts:18 | after the call the store holds exactly its old URLs that were not named |
| DeleteRoute.DeleteIsIdempotent | src/app/api/delete/route.ts:18-23 | a second identical delete leaves the store unchanged; the reply is a success with `deleted` the number of URLs named, whether or not the store still held them |
| DeleteRoute.DeletedUrlsAreNotListed | src/app/api/delete/route.ts:18-23 | after a successful delete, a listing of the store shows none of the deleted URLs |
| Progress.LoopProgress | src/app/page.tsx:86 | the progress after `processed` of `total` files; its contract is given by `Progress.LoopProgressIsRounded`, `Progress.LoopProgressInRange`, `Progress.LoopProgressMonotone` and `Progress.LoopProgressFull` |
| Progress.LoopTrace | src/app/page.tsx:80-87 | one progress value per processed image; its contract is given by `Progress.LoopTraceShape` |
| Progress.LoopProgressIsRounded | src/app/page.tsx:86 | the integer progress is half-up rounding of the exact `processed / total * 50`: within half a unit of it, ties rounding up (the page's double arithmetic can read one lower at exact ties; see Left out) |
| Progress.LoopProgressInRange | src/app/page.tsx:86 | during the loop the progress stays between 0 and 50 |
| Progress.LoopProgressMonotone | src/app/page.tsx:85-86 | one more processed file never lowers the progress |
| Progress.LoopProgressFull | src/app/page.tsx:77-86 | the progress reads 50 iff at least 99% of the files were processed; with fewer than 100 files, iff all were |
| Progress.LoopTraceShape | src/app/page.tsx:80-87 | the values the loop sets stay within 0 to 50, never fall, and end at 50 iff at least 99% of the files are images |
| Gallery.Toggled | src/app/page.tsx:147-158 | toggling flips the membership of that URL only, and select mode becomes "the selection is not empty"; nothing else changes |
| Gallery.LongPressed | src/app/page.tsx:161-164 | a long press selects exactly that URL and turns select mode on, whatever the state was |
| Gallery.Cancelled | src/app/page.tsx:200-203 | cancel empties the selection and leaves select mode |
| Gallery.Clicked | src/app/page.tsx:374-380 | in select mode a click toggles the image, otherwise it previews it |
| Gallery.PreviewOpened | src/app/page.tsx:455-458 | the context menu's view entry previews the image |
| Gallery.PreviewClicked | src/app/page.tsx:313-331 | the backdrop and the close button close the preview; a click on the image itself changes nothing |
| Gallery.Fetched | src/app/page.tsx:26-39 | the images are replaced only by a successful listing; loading and refreshing end false in every case |
| Gallery.Refreshed | src/app/page.tsx:46-49 | a refresh is a fetch from the state with the refreshing flag raised |
| Gallery.ConfirmMessage | src/app/page.tsx:119-121 | the confirmation text; its contract is given by `Gallery.ConfirmMessageNamesCount` |
| Gallery.ErrorOr | src/app/page.tsx:101 | the reply's error text, or the fallback text when it is empty; used by `Gallery.DeleteNotice` and `Gallery.UploadNotice` |
| Gallery.AfterDelete | src/app/page.tsx:116-144 | the state after `handleDelete`; its contract is given by `Gallery.AfterDeleteEffect`, and `Gallery.GalleryPage.HandleDelete` is proved against it |
| Gallery.DeleteNotice | src/app/page.tsx:137-143 | the alert of `handleDelete`: none on success, the reply's error or "删除失败" on a failure reply, "删除失败，请重试" on an exception; `Gallery.GalleryPage.HandleDelete` is proved against it |
| Gallery.ConfirmMessageNamesCount | src/app/page.tsx:119-121 | the confirmation is the singular text iff one image is deleted; otherwise it carries the count in decimal between the fixed head and tail |
| Gallery.AfterDeleteEffect | src/app/page.tsx:116-144 | no URLs or a declined confirmation change nothing, nor does a failed or throwing request; a success empties the selection, leaves select mode and fetches the list again |
| Gallery.Compress | src/app/page.tsx:52-66 | `compressImage`; its contract is given by `Gallery.CompressThreshold` |
| Gallery.CompressThreshold | src/app/page.tsx:52-66 | files of at most 1,048,576 bytes are kept as they are whatever the library would do; a larger file becomes the library's result, or stays as it is when the library throws |
| Gallery.Form | src/app/page.tsx:80-84 | the files appended to the form; its contract is given by `Gallery.FormFollowsAccepted`, and `Gallery.GalleryPage.CompressFiles` is proved against it |
| Gallery.FormFollowsAccepted | src/app/page.tsx:80-84 | the form holds one compressed entry per image-typed file, in order, and nothing for the others |
| Gallery.ResponseTrace | src/app/page.tsx:94-98 | the progress values set after the request: 90 once `fetch` returns, even when reading the body then throws, and 100 on a successful reply; its contract is given by `Gallery.ResponseTraceReaches100` |
| Gallery.ResponseTraceReaches100 | src/app/page.tsx:94-98 | 100 is set exactly for a successful reply |
| Gallery.UploadTrace | src/app/page.tsx:72-108 | the progress values `handleUpload` sets; its contract is given by `Gallery.UploadTraceShape`, and `Gallery.GalleryPage.HandleUpload` is proved against it |
| Gallery.TraceAround | src/app/page.tsx:72-108 | the positions of the loop values and the response values within the whole progress sequence |
| Gallery.UploadTraceShape | src/app/page.tsx:72-108 | the progress starts at 0, rises within 0 to 50 during the loop, then shows 90 as soon as `fetch` returns a response (even when reading its body then throws) and 100 on success, and ends at 0; 100 is shown iff the upload succeeded |
| Gallery.AfterUpload | src/app/page.tsx:69-113 | the state after `handleUpload`; its contract is given by `Gallery.AfterUploadEffect`, and `Gallery.GalleryPage.HandleUpload` is proved against it |
| Gallery.UploadNotice | src/app/page.tsx:97-105 | the alert of `handleUpload`: none on success, the reply's error or "上传失败" on a failure reply, "上传失败，请重试" on an exception; `Gallery.GalleryPage.HandleUpload` is proved against it |
| Gallery.AfterUploadEffect | src/app/page.tsx:94-112 | after an upload the flag is down and the progress is 0, the selection and preview are untouched, and the images change only when both the upload and the refetch succeed |
| Gallery.UnitFor | src/app/page.tsx:177-181 | the unit choice of `formatSize`; its contract is given by `Gallery.UnitForMonotone` |
| Gallery.UnitForMonotone | src/app/page.tsx:177-181 | a larger size never reads in a smaller unit; sizes below the compression threshold read in B or KB and the threshold itself in MB |
| Gallery.Step | src/app/page.tsx:26-164 | one event, dispatched to its transition; its contract is given by `Gallery.StepKeepsSelectMode` |
| Gallery.Run | src/app/page.tsx:13-164 | a sequence of events from a state; its contract is given by `Gallery.RunKeepsSelectMode` |
| Gallery.StepKeepsSelectMode | src/app/page.tsx:134-135 | every event keeps select mode on exactly when the selection is not empty |
| Gallery.RunKeepsSelectMode | src/app/page.tsx:18-19 | from a state where select mode matches the selection, every sequence of events keeps it so |
| Gallery.InitialSelectMode | src/app/page.tsx:14-21 | the initial state has no selection and select mode off |
| Gallery.GalleryPage.constructor | src/app/page.tsx:14-21 | the fields start as the page's initial state hooks |
| Gallery.GalleryPage.ToggleSelect | src/app/page.tsx:147-158 | the fields afterwards are the toggled state, which keeps the invariant |
| Gallery.GalleryPage.HandleLongPress | src/app/page.tsx:161-164 | the fields afterwards are the long-pressed state |
| Gallery.GalleryPage.CancelSelection | src/app/page.tsx:200-203 | the fields afterwards are the cancelled state |
| Gallery.GalleryPage.HandleClick | src/app/page.tsx:374-380 | the fields afterwards are the clicked state |
| Gallery.GalleryPage.OpenPreview | src/app/page.tsx:281 | the fields afterwards preview the image |
| Gallery.GalleryPage.ClickPreview | src/app/page.tsx:313-331 | the fields afterwards are the state after that click in the preview |
| Gallery.GalleryPage.FetchImages | src/app/page.tsx:26-39 | the fields afterwards are the fetched state |
| Gallery.GalleryPage.HandleRefresh | src/app/page.tsx:46-49 | the fields afterwards are the refreshed state |
| Gallery.GalleryPage.HandleDelete | src/app/page.tsx:116-144 | the confirmation text is shown iff there are URLs, and the request is sent, with exactly those URLs, iff they were also confirmed; the fields afterwards and the alert are as the delete transition says |
| Gallery.GalleryPage.CompressFiles | src/app/page.tsx:77-87 | the loop appends the compressed image-typed files in order and sets the progress values of the loop trace; the progress field ends at the last of them (unchanged when no file was an image), and no other field changes |
| Gallery.GalleryPage.HandleUpload | src/app/page.tsx:69-113 | the form, the values the `uploadProgress` field takes in order (each read from the field right after it is set), the alert and the fields afterwards are those of the upload transition |

## Left out

- Rendering is left out: all JSX and CSS, the skeleton and image-loaded flags, the context-menu `showMenu` flag, and `src/app/layout.tsx`. They are presentational only.
- The `@vercel/blob` calls `put`, `list` and `del` are not modelled inside. Their implementation is not visible, so their results are inputs. `UploadRoute.Post` takes `put` as a function of the request, so two identical requests in one run get the same outcome. A store that accepts the first `put` to a pathname and rejects a second one to the same pathname cannot be expressed. Such a store is plausible because the call passes `addRandomSuffix: false` (src/app/api/upload/route.ts:33), but two names collide only when two draws coincide.
- HTTP plumbing is not modelled. `fetch`, `Request`, `FormData`, JSON parsing and `NextResponse` become datatypes: a reply with a status and a payload, or an exception.
- A reply body that parses but lacks the expected fields is not modelled. The page reads `data.success` and `data.images` without checking them.
- The compression library and its options (1 MB target, 1920 px) are not modelled. Its result for each file is an input.
- `formatSize` rounding is left out; only its unit choice is modelled. The number it shows is floating-point `toFixed(1)`.
- `Gallery.UploadTraceShape`: the progress values are stated for the handler's own sequence of `setUploadProgress` calls. How React batches them into renders is left out.
- The 500 ms long-press timer is not modelled. The long press is one discrete event.
- `confirm` and `alert` are not modelled as dialogs. The confirmation is a boolean input, and the alert is a returned text.
- `console` logging is left out. Nothing depends on it.
- Overlapping uploads or deletes are not modelled; every handler runs as one atomic step. The drop handler can start an upload while another is in flight, and that asynchronous concurrency is outside the model.
- The reset of the file input's value (src/app/page.tsx:109-111) is left out. It touches the DOM only.
- The order of `Array.from(selectedImages)` is not modelled. The selection is a set, and the delete handler takes the URL list as given.
- The type of `uploadedAt` is simplified to an integer timestamp. On the page and in the list reply it is a date string, and the sort compares parsed milliseconds.
- `Math.random().toString(36)` and `Date.now()` are not computed. They enter as a rendered string and a natural number.
- A partial failure inside a batched `del` is not modelled. The call either succeeds or throws.
- `DeleteRoute.StoreAfter`: it takes a `del` that throws to have removed every named URL, like one that returns. The handler promises nothing about the store after a throwing `del` (src/app/api/delete/route.ts:18-29), and no proved property depends on that case.
- `DeleteRoute.Delete`: the handler checks only that `urls` is a non-empty array (src/app/api/delete/route.ts:10). A non-empty array of values that are not strings passes, is forwarded to `del`, and is counted in `deleted`. `UrlList` holds strings only, so the model cannot express such an array.
- `Progress.LoopProgress`, `Progress.LoopProgressIsRounded`: the model rounds the exact quotient `50 * processed / total`, while the page rounds the double-precision product `(processedFiles / totalFiles) * 50` (src/app/page.tsx:86). That product falls just below some exact `.5` ties and then reads one lower, first at 29 or 57 of 100 files (the model gives 15 and 29, the page 14 and 28). Floating point is not modelled, so the values of `Progress.LoopTrace`, `Gallery.UploadTrace` and `Gallery.GalleryPage.CompressFiles` carry the same difference. `Progress.LoopProgressInRange`, `Progress.LoopProgressMonotone` and `Progress.LoopProgressFull` hold for the double arithmetic as well.
- `ListRoute.Get`: the handler makes a single `list()` call (src/app/api/list/route.ts:16). That call returns one page of the store's listing, by default at most 1000 blobs, and the handler ignores `cursor` and `hasMore`. The model takes the blobs of that one call as the whole listing, so it does not capture a store with more blobs than one page holds.
- `UploadRoute.Post`: an entry of the `files` field can be a string rather than a `File`. Then `file.type.startsWith` throws (src/app/api/upload/route.ts:21), and the handler answers 500 after any `put` calls it made earlier in the loop. `FileEntry` always has a type, so the model cannot express such an entry.
