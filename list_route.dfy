/** `GET /api/list`: the blobs one `list()` call returns, newest first,
    projected to the four fields the page uses. */
module ListRoute {
  import opened Wrappers
  import opened Api

  const MissingTokenMessage := "BLOB_READ_WRITE_TOKEN 环境变量未配置"
  const ListFailedPrefix := "获取图片列表失败: "
  const UnknownErrorMessage := "未知错误"

  /** A blob as `list()` returns it; `uploadedAt` is its `getTime()`. */
  datatype Blob = Blob(url: string, downloadUrl: string, pathname: string, size: nat, uploadedAt: int)

  /** A thrown value: an `Error` with its message, or anything else. */
  datatype Thrown = ErrorInstance(message: string) | NonError

  /** What the call `list()` does: it yields the blobs, or it throws. */
  datatype ListOutcome = Listed(blobs: seq<Blob>) | ListThrew(thrown: Thrown)

  function BlobUrl(b: Blob): string {
    b.url
  }

  /** The projection in `blobs.map(...)`: `url`, `pathname`, `size`, `uploadedAt`. */
  function ToImage(b: Blob): ImageItem {
    ImageItem(b.url, b.pathname, b.size, b.uploadedAt)
  }

  function BlobTime(b: Blob): int {
    b.uploadedAt
  }

  /** Puts `b` into a newest-first list before the first blob that is not newer
      than it. Ties keep `b` first, so the sort built on it is stable. */
  function Insert(b: Blob, sorted: seq<Blob>): (r: seq<Blob>)
    ensures |r| == |sorted| + 1
    ensures r[0] == b || (sorted != [] && r[0] == sorted[0])
  {
    if sorted == [] || b.uploadedAt >= sorted[0].uploadedAt then [b] + sorted
    else [sorted[0]] + Insert(b, sorted[1..])
  }

  /** Inserting adds exactly `b`. */
  lemma {:induction false} InsertAddsOne(b: Blob, sorted: seq<Blob>)
    ensures multiset(Insert(b, sorted)) == multiset(sorted) + multiset{b}
  {
    if sorted != [] && b.uploadedAt < sorted[0].uploadedAt {
      InsertAddsOne(b, sorted[1..]);
      assert sorted == [sorted[0]] + sorted[1..];
    }
  }

  /** Inserting into a newest-first list keeps it newest first. */
  lemma {:induction false} InsertKeepsOrder(b: Blob, sorted: seq<Blob>)
    requires NewestFirst(sorted, BlobTime)
    ensures NewestFirst(Insert(b, sorted), BlobTime)
  {
    if sorted != [] && b.uploadedAt < sorted[0].uploadedAt {
      var tail := sorted[1..];
      assert NewestFirst(tail, BlobTime) by {
        forall i | 0 <= i < |tail| - 1 ensures BlobTime(tail[i]) >= BlobTime(tail[i + 1]) {
          assert tail[i] == sorted[i + 1] && tail[i + 1] == sorted[i + 2];
        }
      }
      InsertKeepsOrder(b, tail);
      var rest := Insert(b, tail);
      var r := Insert(b, sorted);
      assert r == [sorted[0]] + rest;
      forall i | 0 <= i < |r| - 1 ensures BlobTime(r[i]) >= BlobTime(r[i + 1]) {
        if i > 0 {
          assert r[i] == rest[i - 1] && r[i + 1] == rest[i];
        } else {
          assert r[1] == rest[0];
        }
      }
    }
  }

  /** `blobs.sort((a, b) => b.uploadedAt - a.uploadedAt)`: a newest-first
      permutation of the blobs. */
  function SortNewestFirst(blobs: seq<Blob>): (r: seq<Blob>)
    ensures NewestFirst(r, BlobTime)
    ensures multiset(r) == multiset(blobs)
  {
    if blobs == [] then []
    else
      var rest := SortNewestFirst(blobs[1..]);
      InsertAddsOne(blobs[0], rest);
      InsertKeepsOrder(blobs[0], rest);
      assert blobs == [blobs[0]] + blobs[1..];
      Insert(blobs[0], rest)
  }

  /** The blobs uploaded at time `t`, in their order. */
  function UploadedAt(blobs: seq<Blob>, t: int): seq<Blob> {
    if blobs == [] then []
    else (if blobs[0].uploadedAt == t then [blobs[0]] else []) + UploadedAt(blobs[1..], t)
  }

  /** Inserting `b` puts it before every blob with its own upload time. */
  lemma {:induction false} InsertIsStable(b: Blob, sorted: seq<Blob>, t: int)
    ensures UploadedAt(Insert(b, sorted), t) == (if b.uploadedAt == t then [b] else []) + UploadedAt(sorted, t)
  {
    var r := Insert(b, sorted);
    if sorted != [] && b.uploadedAt < sorted[0].uploadedAt {
      var rest := Insert(b, sorted[1..]);
      InsertIsStable(b, sorted[1..], t);
      assert r == [sorted[0]] + rest;
      assert r[0] == sorted[0] && r[1..] == rest;
      if sorted[0].uploadedAt == t {
        assert b.uploadedAt != t;
        assert UploadedAt(r, t) == [sorted[0]] + UploadedAt(rest, t);
        assert UploadedAt(sorted, t) == [sorted[0]] + UploadedAt(sorted[1..], t);
      } else {
        assert UploadedAt(r, t) == UploadedAt(rest, t);
        assert UploadedAt(sorted, t) == UploadedAt(sorted[1..], t);
      }
    } else {
      assert r == [b] + sorted;
      assert r[0] == b && r[1..] == sorted;
    }
  }

  /** The sort is stable, as `Array.prototype.sort` is: blobs with the same
      upload time keep their relative order. */
  lemma {:induction false} SortIsStable(blobs: seq<Blob>, t: int)
    ensures UploadedAt(SortNewestFirst(blobs), t) == UploadedAt(blobs, t)
  {
    if blobs != [] {
      SortIsStable(blobs[1..], t);
      InsertIsStable(blobs[0], SortNewestFirst(blobs[1..]), t);
    }
  }

  /** `process.env.BLOB_READ_WRITE_TOKEN` is set and not empty. */
  predicate TokenConfigured(token: Option<string>) {
    token.Some? && token.value != ""
  }

  /** The message of the catch block. */
  function ListErrorMessage(thrown: Thrown): string {
    ListFailedPrefix + match thrown
      case ErrorInstance(message) => message
      case NonError => UnknownErrorMessage
  }

  /** Projecting a newest-first list of blobs keeps it newest first. */
  lemma ProjectKeepsOrder(sorted: seq<Blob>)
    requires NewestFirst(sorted, BlobTime)
    ensures NewestFirst(MapSeq(sorted, ToImage), ImageTime)
  {
    var images := MapSeq(sorted, ToImage);
    forall i | 0 <= i < |images| - 1 ensures ImageTime(images[i]) >= ImageTime(images[i + 1]) {
      assert BlobTime(sorted[i]) >= BlobTime(sorted[i + 1]);
    }
  }

  /** The handler. `token` is the environment variable and `listing` what the call
      `list()` does, which the handler makes only when the token is set. */
  function Get(token: Option<string>, listing: ListOutcome): (r: Reply<seq<ImageItem>>)
    ensures r.Success? <==> TokenConfigured(token) && listing.Listed?
    ensures r.Success? ==>
      && NewestFirst(r.body, ImageTime)
      && multiset(r.body) == multiset(MapSeq(listing.blobs, ToImage))
      && multiset(MapSeq(r.body, ImageUrl)) == multiset(MapSeq(listing.blobs, BlobUrl))
    ensures r.Failure? ==> r.status == 500
  {
    if !TokenConfigured(token) then Failure(500, MissingTokenMessage)
    else match listing
      case ListThrew(thrown) => Failure(500, ListErrorMessage(thrown))
      case Listed(blobs) =>
        var sorted := SortNewestFirst(blobs);
        var images := MapSeq(sorted, ToImage);
        ProjectKeepsOrder(sorted);
        MapPermutation(sorted, blobs, ToImage);
        MapPermutation(sorted, blobs, BlobUrl);
        assert MapSeq(images, ImageUrl) == MapSeq(sorted, BlobUrl);
        Success(images)
  }

  /** Without the token the handler answers with the configuration message,
      whatever `list()` would have done: the store is not consulted. */
  lemma GetWithoutToken(token: Option<string>, l1: ListOutcome, l2: ListOutcome)
    requires !TokenConfigured(token)
    ensures Get(token, l1) == Get(token, l2) == Failure(500, MissingTokenMessage)
  {
  }

  /** A failing `list()` yields the prefixed message: the error's own message, or
      the unknown-error text for a thrown non-`Error`. */
  lemma GetReportsListFailure(token: Option<string>, thrown: Thrown)
    requires TokenConfigured(token)
    ensures Get(token, ListThrew(thrown)).Failure? && Get(token, ListThrew(thrown)).status == 500
    ensures thrown.ErrorInstance? ==> Get(token, ListThrew(thrown)).error == ListFailedPrefix + thrown.message
    ensures thrown.NonError? ==> Get(token, ListThrew(thrown)).error == ListFailedPrefix + UnknownErrorMessage
  {
  }

  /** Every listed image is one of the store's blobs, its four fields copied. */
  lemma {:induction false} ListedImagesComeFromBlobs(token: Option<string>, blobs: seq<Blob>, image: ImageItem)
    requires Get(token, Listed(blobs)).Success? && image in Get(token, Listed(blobs)).body
    ensures exists b :: b in blobs && image == ImageItem(b.url, b.pathname, b.size, b.uploadedAt)
  {
    var images := Get(token, Listed(blobs)).body;
    assert image in multiset(images);
    assert image in multiset(MapSeq(blobs, ToImage));
    var i :| 0 <= i < |blobs| && MapSeq(blobs, ToImage)[i] == image;
    assert blobs[i] in blobs;
  }
}
