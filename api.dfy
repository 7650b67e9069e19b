/** The JSON shapes exchanged between the three route handlers and the page. */
module Api {
  import opened JsText

  /** The envelope every handler answers with: `{success: true, ...}` with HTTP
      status 200, or `{success: false, error}` with the given status. */
  datatype Reply<T> = Success(body: T) | Failure(status: nat, error: string)

  /** One image of the gallery, as the list handler projects it from a blob and
      the page keeps it; `uploadedAt` is the time in milliseconds. */
  datatype ImageItem = ImageItem(url: string, pathname: string, size: nat, uploadedAt: int)

  /** A browser `File`: its name, its declared MIME type and its size in bytes. */
  datatype FileEntry = FileEntry(name: string, mimeType: string, size: nat)

  /** `file.type.startsWith("image/")`, the test the page and the upload handler share. */
  predicate IsImage(f: FileEntry) {
    StartsWith(f.mimeType, "image/")
  }

  /** One entry of the upload handler's `uploaded` list. */
  datatype UploadedFile = UploadedFile(url: string, pathname: string)

  /** The upload handler's success body: `{uploaded, count}`. */
  datatype UploadBody = UploadBody(uploaded: seq<UploadedFile>, count: nat)

  /** The delete handler's success body: `{deleted}`. */
  datatype DeleteBody = DeleteBody(deleted: nat)

  /** The list is newest first by the upload time `at` reads off each element:
      no element is older than the one after it. */
  predicate NewestFirst<T>(xs: seq<T>, at: T -> int) {
    forall i :: 0 <= i < |xs| - 1 ==> at(xs[i]) >= at(xs[i + 1])
  }

  function ImageTime(image: ImageItem): int {
    image.uploadedAt
  }

  function ImageUrl(image: ImageItem): string {
    image.url
  }

  /** `xs.map(f)`. */
  function MapSeq<A, B>(xs: seq<A>, f: A -> B): (ys: seq<B>)
    ensures |ys| == |xs|
    ensures forall i :: 0 <= i < |xs| ==> ys[i] == f(xs[i])
  {
    if xs == [] then [] else [f(xs[0])] + MapSeq(xs[1..], f)
  }

  /** Mapping two permutations of each other gives two permutations of each other. */
  lemma {:induction false} MapPermutation<A, B>(xs: seq<A>, ys: seq<A>, f: A -> B)
    requires multiset(xs) == multiset(ys)
    ensures multiset(MapSeq(xs, f)) == multiset(MapSeq(ys, f))
    decreases |xs|
  {
    if xs == [] {
      assert |ys| == |multiset(ys)| == 0;
    } else {
      var i := MatchFirst(xs, ys);
      MapPermutation(xs[1..], ys[..i] + ys[i + 1..], f);
      MapRemovePoint(ys, i, f);
      MapRemovePoint(xs, 0, f);
      assert xs[..0] + xs[0 + 1..] == xs[1..];
    }
  }

  /** The first element of `xs` sits at some index `i` of its permutation `ys`,
      and the rest of `xs` is a permutation of `ys` without that index. */
  lemma MatchFirst<A>(xs: seq<A>, ys: seq<A>) returns (i: nat)
    requires xs != [] && multiset(xs) == multiset(ys)
    ensures i < |ys| && ys[i] == xs[0]
    ensures multiset(xs[1..]) == multiset(ys[..i] + ys[i + 1..])
  {
    var x := xs[0];
    assert x in multiset(ys);
    i :| 0 <= i < |ys| && ys[i] == x;
    RemoveAt(ys, i);
    RemoveAt(xs, 0);
    assert xs[..0] + xs[1..] == xs[1..];
    Cancel(multiset(xs[1..]), multiset(ys[..i] + ys[i + 1..]), x);
  }

  /** Removing the `i`-th element before mapping removes its image after. */
  lemma MapRemovePoint<A, B>(ys: seq<A>, i: nat, f: A -> B)
    requires i < |ys|
    ensures multiset(MapSeq(ys, f)) == multiset(MapSeq(ys[..i] + ys[i + 1..], f)) + multiset{f(ys[i])}
  {
    var mapped := MapSeq(ys, f);
    RemoveAt(mapped, i);
    MapRemoveAt(ys, i, f);
  }

  lemma MapRemoveAt<A, B>(ys: seq<A>, i: nat, f: A -> B)
    requires i < |ys|
    ensures MapSeq(ys[..i] + ys[i + 1..], f) == MapSeq(ys, f)[..i] + MapSeq(ys, f)[i + 1..]
  {
    var zs := ys[..i] + ys[i + 1..];
    var mapped := MapSeq(ys, f);
    var left := MapSeq(zs, f);
    var right := mapped[..i] + mapped[i + 1..];
    assert |left| == |zs| == |right|;
    forall k | 0 <= k < |zs| ensures left[k] == right[k] {
      if k < i {
        assert zs[k] == ys[k] && right[k] == mapped[k];
      } else {
        assert zs[k] == ys[k + 1] && right[k] == mapped[k + 1];
      }
    }
  }

  lemma RemoveAt<A>(ys: seq<A>, i: nat)
    requires i < |ys|
    ensures multiset(ys) == multiset(ys[..i] + ys[i + 1..]) + multiset{ys[i]}
  {
    assert ys == ys[..i] + [ys[i]] + ys[i + 1..];
  }

  lemma Cancel<A>(m1: multiset<A>, m2: multiset<A>, x: A)
    requires m1 + multiset{x} == m2 + multiset{x}
    ensures m1 == m2
  {
    assert m1 == (m1 + multiset{x}) - multiset{x};
    assert m2 == (m2 + multiset{x}) - multiset{x};
  }
}
