/** The gallery page: its state record, the transitions its handlers make, and
    the page object whose methods make them. */
module Gallery {
  import opened Wrappers
  import opened JsText
  import opened Api
  import opened Progress
  import UploadRoute

  const OneImageConfirm := "确定要删除这张图片吗？"
  const DeleteFailedNotice := "删除失败"
  const DeleteRetryNotice := "删除失败，请重试"
  const UploadFailedNotice := "上传失败"
  const UploadRetryNotice := "上传失败，请重试"

  /** Files of at most 1 MiB are uploaded as they are. */
  const CompressionThreshold := 1024 * 1024

  /** Everything the page keeps with `useState`, apart from presentation flags. */
  datatype GalleryState = GalleryState(
    images: seq<ImageItem>,
    loading: bool,
    uploading: bool,
    progress: nat,
    selected: set<string>,
    selectMode: bool,
    preview: Option<string>,
    refreshing: bool)

  /** The state on mount. */
  const Initial := GalleryState([], true, false, 0, {}, false, None, false)

  /** The page's invariant: select mode is on exactly when something is selected. */
  predicate SelectModeMatchesSelection(s: GalleryState) {
    s.selectMode <==> s.selected != {}
  }

  /** A request to one of the handlers as `fetch` and `res.json()` see it: the
      handler's reply, or an exception from either call. */
  datatype Exchange<T> = Answered(reply: Reply<T>) | Threw

  /** The upload request: `fetch` throws, or `res.json()` throws after the
      response arrived, or the handler's reply is read. */
  datatype UploadExchange = PostThrew | BodyThrew | PostAnswered(reply: Reply<UploadBody>)

  /** What `imageCompression` does with a file: a smaller file, or an exception. */
  datatype CompressionOutcome = Compressed(file: FileEntry) | CompressionFailed

  /** Where in the preview overlay a click lands. */
  datatype PreviewTarget = Backdrop | CloseButton | PreviewedImage

  /** `data.error || fallback` */
  function ErrorOr(error: string, fallback: string): string {
    if error == "" then fallback else error
  }

  // ---- Selection -----------------------------------------------------------

  /** `toggleSelect(url)` */
  function Toggled(s: GalleryState, url: string): (r: GalleryState)
    ensures url in r.selected <==> url !in s.selected
    ensures forall v :: v != url ==> (v in r.selected <==> v in s.selected)
    ensures r.selectMode <==> r.selected != {}
    ensures r == s.(selected := r.selected, selectMode := r.selectMode)
  {
    var selected := if url in s.selected then s.selected - {url} else s.selected + {url};
    s.(selected := selected, selectMode := |selected| > 0)
  }

  /** `handleLongPress(url)`: whatever was selected before, only `url` is now. */
  function LongPressed(s: GalleryState, url: string): (r: GalleryState)
    ensures r.selected == {url} && r.selectMode
    ensures r == s.(selected := {url}, selectMode := true)
  {
    s.(selectMode := true, selected := {url})
  }

  /** The cancel button of the header. */
  function Cancelled(s: GalleryState): (r: GalleryState)
    ensures r.selected == {} && !r.selectMode
    ensures r == s.(selected := {}, selectMode := false)
  {
    s.(selectMode := false, selected := {})
  }

  // ---- Preview -------------------------------------------------------------

  /** `ImageCard.handleClick`: in select mode a click toggles the image, otherwise
      it opens the preview. */
  function Clicked(s: GalleryState, url: string): (r: GalleryState)
    ensures s.selectMode ==> r == Toggled(s, url)
    ensures !s.selectMode ==> r == s.(preview := Some(url))
  {
    if s.selectMode then Toggled(s, url) else s.(preview := Some(url))
  }

  /** `onPreview`, as the context menu's view entry calls it. */
  function PreviewOpened(s: GalleryState, url: string): (r: GalleryState)
    ensures r == s.(preview := Some(url))
  {
    s.(preview := Some(url))
  }

  /** A click in the preview overlay: the backdrop and the close button close it;
      the image stops the click from reaching the backdrop. */
  function PreviewClicked(s: GalleryState, target: PreviewTarget): (r: GalleryState)
    ensures target == PreviewedImage ==> r == s
    ensures target != PreviewedImage ==> r == s.(preview := None)
  {
    if target == PreviewedImage then s else s.(preview := None)
  }

  // ---- Fetching ------------------------------------------------------------

  /** `fetchImages()`: the images are replaced only by a successful reply; both
      loading flags are cleared in every case. */
  function Fetched(s: GalleryState, exchange: Exchange<seq<ImageItem>>): (r: GalleryState)
    ensures r.images == if exchange.Answered? && exchange.reply.Success? then exchange.reply.body else s.images
    ensures !r.loading && !r.refreshing
    ensures r == s.(images := r.images, loading := false, refreshing := false)
  {
    match exchange
    case Answered(Success(images)) => s.(images := images, loading := false, refreshing := false)
    case _ => s.(loading := false, refreshing := false)
  }

  /** `handleRefresh()`: raise the refreshing flag, then fetch. */
  function Refreshed(s: GalleryState, exchange: Exchange<seq<ImageItem>>): (r: GalleryState)
    ensures r == Fetched(s, exchange)
  {
    Fetched(s.(refreshing := true), exchange)
  }

  // ---- Deleting ------------------------------------------------------------

  /** The confirmation text for deleting `count` images. */
  function ConfirmMessage(count: nat): string {
    if count == 1 then OneImageConfirm else "确定要删除这 " + Decimal(count) + " 张图片吗？"
  }

  /** One image gets the singular text and any other count a different one,
      which carries the count in decimal between a fixed head and tail. */
  lemma ConfirmMessageNamesCount(count: nat)
    ensures ConfirmMessage(count) == OneImageConfirm <==> count == 1
    ensures count != 1 ==>
      var m := ConfirmMessage(count);
      && |m| >= 14
      && m[..7] == "确定要删除这 " && m[|m| - 6..] == " 张图片吗？"
      && AllDigits(m[7..|m| - 6]) && ParseDecimal(m[7..|m| - 6]) == count
  {
    if count != 1 {
      var m := ConfirmMessage(count);
      var digits := Decimal(count);
      assert m == "确定要删除这 " + digits + " 张图片吗？";
      assert m[6] == ' ' && OneImageConfirm[6] == '张';
      assert m[7..|m| - 6] == digits;
      ParseDecimalOfDecimal(count);
    }
  }

  /** `handleDelete(urls)` once it is done: nothing happens for an empty list or a
      declined confirmation; a successful reply clears the selection and leaves
      select mode, then the list is fetched again; a failed one changes nothing. */
  function AfterDelete(s: GalleryState, urls: seq<string>, confirmed: bool,
                       exchange: Exchange<DeleteBody>, refetch: Exchange<seq<ImageItem>>): GalleryState
  {
    if urls == [] || !confirmed then s
    else if exchange.Answered? && exchange.reply.Success? then Fetched(Cancelled(s), refetch)
    else s
  }

  /** The alert `handleDelete` shows, if any. */
  function DeleteNotice(urls: seq<string>, confirmed: bool, exchange: Exchange<DeleteBody>): Option<string> {
    if urls == [] || !confirmed then None
    else match exchange
      case Threw => Some(DeleteRetryNotice)
      case Answered(Success(_)) => None
      case Answered(Failure(_, error)) => Some(ErrorOr(error, DeleteFailedNotice))
  }

  /** What deleting does to the page. */
  lemma AfterDeleteEffect(s: GalleryState, urls: seq<string>, confirmed: bool,
                          exchange: Exchange<DeleteBody>, refetch: Exchange<seq<ImageItem>>)
    ensures urls == [] || !confirmed ==> AfterDelete(s, urls, confirmed, exchange, refetch) == s
    ensures urls != [] && confirmed && !(exchange.Answered? && exchange.reply.Success?) ==>
      AfterDelete(s, urls, confirmed, exchange, refetch) == s
    ensures urls != [] && confirmed && exchange.Answered? && exchange.reply.Success? ==>
      var r := AfterDelete(s, urls, confirmed, exchange, refetch);
      && r.selected == {} && !r.selectMode && !r.loading && !r.refreshing
      && r.images == (if refetch.Answered? && refetch.reply.Success? then refetch.reply.body else s.images)
      && r.preview == s.preview && r.uploading == s.uploading && r.progress == s.progress
  {
  }

  // ---- Uploading -----------------------------------------------------------

  /** `compressImage(file)`: small files as they are, large ones as the library
      returns them, or as they are when the library throws. */
  function Compress(f: FileEntry, outcome: CompressionOutcome): FileEntry {
    if f.size <= CompressionThreshold then f
    else match outcome
      case Compressed(smaller) => smaller
      case CompressionFailed => f
  }

  /** A file of at most 1 MiB is never handed to the library: what the library
      would do makes no difference. A larger one comes back unchanged only when
      the library throws (or returns it unchanged). */
  lemma CompressThreshold(f: FileEntry, o1: CompressionOutcome, o2: CompressionOutcome)
    ensures f.size <= CompressionThreshold ==> Compress(f, o1) == Compress(f, o2) == f
    ensures f.size > CompressionThreshold ==> Compress(f, CompressionFailed) == f
    ensures f.size > CompressionThreshold && o1.Compressed? ==> Compress(f, o1) == o1.file
  {
  }

  /** The files appended to the form: the image-typed files in order, the k-th
      compressed with the k-th library outcome. */
  function Form(files: seq<FileEntry>, compress: nat -> CompressionOutcome): seq<FileEntry> {
    if files == [] then []
    else
      var before := Form(files[..|files| - 1], compress);
      before + (if IsImage(Last(files)) then [Compress(Last(files), compress(|before|))] else [])
  }

  /** The form holds one entry per image-typed file, in order, and nothing for
      the other files. */
  lemma {:induction false} FormFollowsAccepted(files: seq<FileEntry>, compress: nat -> CompressionOutcome)
    ensures |Form(files, compress)| == |UploadRoute.Accepted(files)|
    ensures forall k :: 0 <= k < |Form(files, compress)| ==>
      Form(files, compress)[k] == Compress(UploadRoute.Accepted(files)[k], compress(k))
  {
    if files != [] {
      var init := files[..|files| - 1];
      FormFollowsAccepted(init, compress);
      var before, kept := Form(init, compress), UploadRoute.Accepted(init);
      if IsImage(Last(files)) {
        assert Form(files, compress) == before + [Compress(Last(files), compress(|before|))];
        assert UploadRoute.Accepted(files) == kept + [Last(files)];
      } else {
        assert Form(files, compress) == before;
        assert UploadRoute.Accepted(files) == kept;
      }
    }
  }

  /** One more file extends the form, and the accepted files, by that file
      when it is image-typed and by nothing otherwise. */
  lemma FormStep(files: seq<FileEntry>, i: nat, compress: nat -> CompressionOutcome)
    requires i < |files|
    ensures
      var before := Form(files[..i], compress);
      && Form(files[..i + 1], compress)
         == before + (if IsImage(files[i]) then [Compress(files[i], compress(|before|))] else [])
      && UploadRoute.Accepted(files[..i + 1])
         == UploadRoute.Accepted(files[..i]) + (if IsImage(files[i]) then [files[i]] else [])
  {
    var prefix := files[..i + 1];
    assert prefix[..|prefix| - 1] == files[..i];
    assert Last(prefix) == files[i];
  }

  /** The progress values set once the request is made: 90 as soon as `fetch`
      returns a response, even when reading its body then throws, then 100 when
      the reply is a success. */
  function ResponseTrace(exchange: UploadExchange): seq<nat> {
    match exchange
    case PostThrew => []
    case BodyThrew => [90]
    case PostAnswered(Success(_)) => [90, 100]
    case PostAnswered(Failure(_, _)) => [90]
  }

  /** The progress values `handleUpload` sets, in order. */
  function UploadTrace(files: seq<FileEntry>, exchange: UploadExchange): seq<nat> {
    if files == [] then []
    else [0] + LoopTrace(|UploadRoute.Accepted(files)|, |files|) + ResponseTrace(exchange) + [0]
  }

  /** The progress starts at 0, rises during compression within 0 to 50 without
      falling back, then shows the response's values and is reset to 0 at the
      end; it reaches 100 only for a successful reply. */
  lemma UploadTraceShape(files: seq<FileEntry>, exchange: UploadExchange)
    requires files != []
    ensures
      var trace := UploadTrace(files, exchange);
      var n := |UploadRoute.Accepted(files)|;
      && trace[0] == 0 && Last(trace) == 0
      && |trace| == n + |ResponseTrace(exchange)| + 2
      && trace[n + 1..|trace| - 1] == ResponseTrace(exchange)
      && (forall i :: 1 <= i <= n ==> trace[i] <= 50)
      && (forall i :: 1 <= i < n ==> trace[i] <= trace[i + 1])
      && (n > 0 ==> (trace[n] == 50 <==> 100 * n >= 99 * |files|))
      && (100 in trace <==> exchange.PostAnswered? && exchange.reply.Success?)
  {
    var n := |UploadRoute.Accepted(files)|;
    AcceptedAtMostAll(files);
    var loop, tail := LoopTrace(n, |files|), ResponseTrace(exchange);
    LoopTraceShape(n, |files|);
    TraceAround(loop, tail);
    ResponseTraceReaches100(exchange);
    var trace := UploadTrace(files, exchange);
    assert trace == [0] + loop + tail + [0];
    assert Last(trace) == trace[|trace| - 1];
    if n > 0 {
      assert trace[n] == loop[n - 1];
    }
  }

  lemma ResponseTraceReaches100(exchange: UploadExchange)
    ensures 100 in ResponseTrace(exchange) <==> exchange.PostAnswered? && exchange.reply.Success?
  {
  }

  /** The positions of `[0] + loop + tail + [0]`, for a loop part that stays
      within 0 to 50 and never falls back. */
  lemma TraceAround(loop: seq<nat>, tail: seq<nat>)
    requires forall i :: 0 <= i < |loop| ==> loop[i] <= 50
    requires forall i :: 0 <= i < |loop| - 1 ==> loop[i] <= loop[i + 1]
    ensures
      var trace := [0] + loop + tail + [0];
      && trace[0] == 0 && trace[|trace| - 1] == 0
      && |trace| == |loop| + |tail| + 2
      && trace[|loop| + 1..|trace| - 1] == tail
      && (forall i :: 1 <= i <= |loop| ==> trace[i] == loop[i - 1])
      && (forall i :: 1 <= i <= |loop| ==> trace[i] <= 50)
      && (forall i :: 1 <= i < |loop| ==> trace[i] <= trace[i + 1])
      && (100 in trace <==> 100 in tail)
  {
    var trace := [0] + loop + tail + [0];
    forall i | 1 <= i <= |loop| ensures trace[i] == loop[i - 1] {
    }
    assert trace[|loop| + 1..|trace| - 1] == tail;
    if 100 in trace {
      var k :| 0 <= k < |trace| && trace[k] == 100;
      assert |loop| < k < |trace| - 1;
      assert tail[k - |loop| - 1] == 100;
    }
    if 100 in tail {
      var k :| 0 <= k < |tail| && tail[k] == 100;
      assert trace[k + |loop| + 1] == 100;
    }
  }

  /** There are never more accepted files than files. */
  lemma {:induction false} AcceptedAtMostAll(files: seq<FileEntry>)
    ensures |UploadRoute.Accepted(files)| <= |files|
  {
    if files != [] {
      AcceptedAtMostAll(files[..|files| - 1]);
    }
  }

  /** The alert `handleUpload` shows, if any. */
  function UploadNotice(files: seq<FileEntry>, exchange: UploadExchange): Option<string> {
    if files == [] then None
    else match exchange
      case PostThrew => Some(UploadRetryNotice)
      case BodyThrew => Some(UploadRetryNotice)
      case PostAnswered(Success(_)) => None
      case PostAnswered(Failure(_, error)) => Some(ErrorOr(error, UploadFailedNotice))
  }

  /** `handleUpload(files)` once it is done: nothing happens for no files;
      otherwise a successful reply fetches the list again, and in every case the
      upload flag is down and the progress back at 0. */
  function AfterUpload(s: GalleryState, files: seq<FileEntry>, exchange: UploadExchange,
                       refetch: Exchange<seq<ImageItem>>): (r: GalleryState)
  {
    if files == [] then s
    else
      var answered := if exchange.PostAnswered? && exchange.reply.Success? then Fetched(s, refetch) else s;
      answered.(uploading := false, progress := 0)
  }

  /** What uploading does to the page. */
  lemma AfterUploadEffect(s: GalleryState, files: seq<FileEntry>, exchange: UploadExchange,
                          refetch: Exchange<seq<ImageItem>>)
    requires files != []
    ensures
      var r := AfterUpload(s, files, exchange, refetch);
      && !r.uploading && r.progress == 0
      && r.selected == s.selected && r.selectMode == s.selectMode && r.preview == s.preview
      && r.images == (if exchange.PostAnswered? && exchange.reply.Success?
                         && refetch.Answered? && refetch.reply.Success?
                      then refetch.reply.body else s.images)
  {
  }

  // ---- Sizes ---------------------------------------------------------------

  /** The unit `formatSize` shows a size in. */
  datatype SizeUnit = Bytes | Kilobytes | Megabytes

  function UnitRank(u: SizeUnit): nat {
    match u
    case Bytes => 0
    case Kilobytes => 1
    case Megabytes => 2
  }

  /** The unit choice of `formatSize`: bytes below 1 KiB, kilobytes below 1 MiB,
      megabytes from there on. */
  function UnitFor(bytes: nat): SizeUnit {
    if bytes < 1024 then Bytes else if bytes < 1024 * 1024 then Kilobytes else Megabytes
  }

  /** A larger size is never shown in a smaller unit; sizes below the
      compression threshold read in bytes or kilobytes, and the threshold
      itself already reads in megabytes. */
  lemma UnitForMonotone(a: nat, b: nat)
    requires a <= b
    ensures UnitRank(UnitFor(a)) <= UnitRank(UnitFor(b))
    ensures a < CompressionThreshold ==> UnitFor(a) != Megabytes
    ensures UnitFor(CompressionThreshold) == Megabytes
  {
  }

  // ---- The page as a state machine -----------------------------------------

  /** The user's and the network's events, in the order the page handles them. */
  datatype Action =
    | SelectToggle(url: string)
    | LongPress(url: string)
    | Cancel
    | CardClick(url: string)
    | MenuPreview(url: string)
    | PreviewClick(target: PreviewTarget)
    | Refresh(listing: Exchange<seq<ImageItem>>)
    | DeleteImages(urls: seq<string>, confirmed: bool, deletion: Exchange<DeleteBody>, refetch: Exchange<seq<ImageItem>>)
    | UploadFiles(files: seq<FileEntry>, upload: UploadExchange, refetch: Exchange<seq<ImageItem>>)
    | Mounted(listing: Exchange<seq<ImageItem>>)

  function Step(s: GalleryState, a: Action): GalleryState {
    match a
    case SelectToggle(url) => Toggled(s, url)
    case LongPress(url) => LongPressed(s, url)
    case Cancel => Cancelled(s)
    case CardClick(url) => Clicked(s, url)
    case MenuPreview(url) => PreviewOpened(s, url)
    case PreviewClick(target) => PreviewClicked(s, target)
    case Refresh(listing) => Refreshed(s, listing)
    case DeleteImages(urls, confirmed, deletion, refetch) => AfterDelete(s, urls, confirmed, deletion, refetch)
    case UploadFiles(files, upload, refetch) => AfterUpload(s, files, upload, refetch)
    case Mounted(listing) => Fetched(s, listing)
  }

  function Run(s: GalleryState, actions: seq<Action>): GalleryState
    decreases |actions|
  {
    if actions == [] then s else Run(Step(s, actions[0]), actions[1..])
  }

  /** Every event keeps select mode in step with the selection. */
  lemma StepKeepsSelectMode(s: GalleryState, a: Action)
    requires SelectModeMatchesSelection(s)
    ensures SelectModeMatchesSelection(Step(s, a))
  {
  }

  /** From the initial state, select mode is on exactly when something is
      selected, after any sequence of events. */
  lemma {:induction false} RunKeepsSelectMode(s: GalleryState, actions: seq<Action>)
    requires SelectModeMatchesSelection(s)
    ensures SelectModeMatchesSelection(Run(s, actions))
    decreases |actions|
  {
    if actions != [] {
      StepKeepsSelectMode(s, actions[0]);
      RunKeepsSelectMode(Step(s, actions[0]), actions[1..]);
    }
  }

  lemma InitialSelectMode()
    ensures SelectModeMatchesSelection(Initial)
  {
  }

  /** The page object: its fields are the page's state hooks, its methods the
      handlers that update them. */
  class GalleryPage {
    var images: seq<ImageItem>
    var loading: bool
    var uploading: bool
    var uploadProgress: nat
    var selectedImages: set<string>
    var selectMode: bool
    var previewImage: Option<string>
    var refreshing: bool

    function State(): GalleryState
      reads this
    {
      GalleryState(images, loading, uploading, uploadProgress, selectedImages, selectMode, previewImage, refreshing)
    }

    ghost predicate Valid()
      reads this
    {
      SelectModeMatchesSelection(State())
    }

    constructor ()
      ensures State() == Initial && Valid()
    {
      images, loading, uploading, uploadProgress := [], true, false, 0;
      selectedImages, selectMode, previewImage, refreshing := {}, false, None, false;
    }

    method ToggleSelect(url: string)
      modifies this
      ensures State() == Toggled(old(State()), url) && Valid()
    {
      var newSelected := selectedImages;
      if url in newSelected {
        newSelected := newSelected - {url};
      } else {
        newSelected := newSelected + {url};
      }
      selectedImages := newSelected;
      selectMode := |newSelected| > 0;
    }

    method HandleLongPress(url: string)
      modifies this
      ensures State() == LongPressed(old(State()), url) && Valid()
    {
      selectMode := true;
      selectedImages := {url};
    }

    method CancelSelection()
      modifies this
      ensures State() == Cancelled(old(State())) && Valid()
    {
      selectMode := false;
      selectedImages := {};
    }

    method HandleClick(url: string)
      requires Valid()
      modifies this
      ensures State() == Clicked(old(State()), url) && Valid()
    {
      if selectMode {
        ToggleSelect(url);
      } else {
        previewImage := Some(url);
      }
    }

    method OpenPreview(url: string)
      requires Valid()
      modifies this
      ensures State() == PreviewOpened(old(State()), url) && Valid()
    {
      previewImage := Some(url);
    }

    method ClickPreview(target: PreviewTarget)
      requires Valid()
      modifies this
      ensures State() == PreviewClicked(old(State()), target) && Valid()
    {
      if target != PreviewedImage {
        previewImage := None;
      }
    }

    method FetchImages(exchange: Exchange<seq<ImageItem>>)
      requires Valid()
      modifies this
      ensures State() == Fetched(old(State()), exchange) && Valid()
    {
      if exchange.Answered? && exchange.reply.Success? {
        images := exchange.reply.body;
      }
      loading := false;
      refreshing := false;
    }

    method HandleRefresh(exchange: Exchange<seq<ImageItem>>)
      requires Valid()
      modifies this
      ensures State() == Refreshed(old(State()), exchange) && Valid()
    {
      refreshing := true;
      FetchImages(exchange);
    }

    /** Returns the confirmation text shown, the URLs sent to the delete handler
        and the alert shown, each `None` when that step does not happen. */
    method HandleDelete(urls: seq<string>, confirmed: bool, exchange: Exchange<DeleteBody>,
                        refetch: Exchange<seq<ImageItem>>)
      returns (confirmation: Option<string>, sent: Option<seq<string>>, notice: Option<string>)
      requires Valid()
      modifies this
      ensures State() == AfterDelete(old(State()), urls, confirmed, exchange, refetch) && Valid()
      ensures confirmation == if urls == [] then None else Some(ConfirmMessage(|urls|))
      ensures sent == if urls != [] && confirmed then Some(urls) else None
      ensures notice == DeleteNotice(urls, confirmed, exchange)
    {
      confirmation, sent, notice := None, None, None;
      if |urls| == 0 {
        return;
      }
      confirmation := Some(ConfirmMessage(|urls|));
      if !confirmed {
        return;
      }
      sent := Some(urls);
      match exchange {
        case Threw =>
          notice := Some(DeleteRetryNotice);
        case Answered(reply) =>
          if reply.Success? {
            selectedImages := {};
            selectMode := false;
            FetchImages(refetch);
          } else {
            notice := Some(ErrorOr(reply.error, DeleteFailedNotice));
          }
      }
    }

    /** The loop of `handleUpload`: compresses each image-typed file in order,
        skips the others, and sets the progress after each compressed file.
        Returns the compressed files and the progress values set. */
    method CompressFiles(files: seq<FileEntry>, compress: nat -> CompressionOutcome)
      returns (form: seq<FileEntry>, values: seq<nat>)
      requires files != []
      modifies this
      ensures form == Form(files, compress)
      ensures values == LoopTrace(|UploadRoute.Accepted(files)|, |files|)
      ensures uploadProgress == if values == [] then old(uploadProgress) else Last(values)
      ensures State() == old(State()).(progress := uploadProgress)
    {
      form, values := [], [];
      var totalFiles := |files|;
      var processedFiles := 0;
      var i := 0;
      while i < |files|
        invariant 0 <= i <= |files|
        invariant processedFiles == |UploadRoute.Accepted(files[..i])|
        invariant form == Form(files[..i], compress)
        invariant values == LoopTrace(processedFiles, totalFiles)
        invariant uploadProgress == if values == [] then old(uploadProgress) else Last(values)
        invariant images == old(images) && loading == old(loading) && uploading == old(uploading)
        invariant selectedImages == old(selectedImages) && selectMode == old(selectMode)
        invariant previewImage == old(previewImage) && refreshing == old(refreshing)
      {
        var file := files[i];
        FormStep(files, i, compress);
        FormFollowsAccepted(files[..i], compress);
        if !IsImage(file) {
          i := i + 1;
          continue;
        }
        var compressedFile := Compress(file, compress(processedFiles));
        form := form + [compressedFile];
        processedFiles := processedFiles + 1;
        uploadProgress := LoopProgress(processedFiles, totalFiles);
        values := values + [uploadProgress];
        i := i + 1;
      }
      assert files[..i] == files;
    }

    /** Returns the files appended to the form, the values `uploadProgress` takes,
        in order, each logged from the field right after it is set, and the alert
        shown, if any. `compress` gives the library's outcome for
        the k-th image-typed file. */
    method HandleUpload(files: seq<FileEntry>, compress: nat -> CompressionOutcome,
                        exchange: UploadExchange, refetch: Exchange<seq<ImageItem>>)
      returns (form: seq<FileEntry>, trace: seq<nat>, notice: Option<string>)
      requires Valid()
      modifies this
      ensures State() == AfterUpload(old(State()), files, exchange, refetch) && Valid()
      ensures form == Form(files, compress)
      ensures trace == UploadTrace(files, exchange)
      ensures notice == UploadNotice(files, exchange)
    {
      form, trace, notice := [], [], None;
      if |files| == 0 {
        return;
      }
      uploading := true;
      uploadProgress := 0;
      trace := [uploadProgress];
      var values;
      form, values := CompressFiles(files, compress);
      trace := trace + values;
      match exchange {
        case PostThrew =>
          notice := Some(UploadRetryNotice);
        case BodyThrew =>
          uploadProgress := 90;
          trace := trace + [uploadProgress];
          notice := Some(UploadRetryNotice);
        case PostAnswered(reply) =>
          uploadProgress := 90;
          trace := trace + [uploadProgress];
          if reply.Success? {
            uploadProgress := 100;
            trace := trace + [uploadProgress];
            FetchImages(refetch);
          } else {
            notice := Some(ErrorOr(reply.error, UploadFailedNotice));
          }
      }
      assert trace == [0] + values + ResponseTrace(exchange);
      uploading := false;
      uploadProgress := 0;
      trace := trace + [uploadProgress];
    }
  }
}
