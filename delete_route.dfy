/** `DELETE /api/delete`: removes the named blobs with one batched call and
    reports how many URLs it was given. */
module DeleteRoute {
  import opened Wrappers
  import opened Api
  import ListRoute

  const NothingToDeleteMessage := "没有指定要删除的图片"
  const DeleteFailedMessage := "删除失败"

  /** The `urls` member of the JSON body: absent (or any other falsy value), some
      value that is not an array, or an array of URLs. */
  datatype UrlsField = Missing | NotAnArray | UrlList(items: seq<string>)

  /** The request body: unreadable (the JSON does not parse, or it is `null`, so
      destructuring it throws) or an object with its `urls` member. */
  datatype DeleteRequest = Unreadable | Parsed(urls: UrlsField)

  /** What the handler does: its reply, and the one `del` call it makes, if any. */
  datatype DeleteOutcome = DeleteOutcome(reply: Reply<DeleteBody>, delCall: Option<seq<string>>)

  /** The handler. `delThrows` says whether the store's `del` throws. */
  function Delete(request: DeleteRequest, delThrows: bool): (r: DeleteOutcome)
    ensures r.delCall.Some? <==> request.Parsed? && request.urls.UrlList? && request.urls.items != []
    ensures r.delCall.Some? ==> r.delCall.value == request.urls.items
    ensures r.reply.Success? <==> r.delCall.Some? && !delThrows
    ensures r.reply.Success? ==> r.reply.body.deleted == |r.delCall.value|
    ensures request.Parsed? && r.delCall.None? ==> r.reply == Failure(400, NothingToDeleteMessage)
    ensures (request.Unreadable? || (r.delCall.Some? && delThrows)) ==> r.reply == Failure(500, DeleteFailedMessage)
  {
    match request
    case Unreadable => DeleteOutcome(Failure(500, DeleteFailedMessage), None)
    case Parsed(urls) =>
      if !urls.UrlList? || |urls.items| == 0 then
        DeleteOutcome(Failure(400, NothingToDeleteMessage), None)
      else if delThrows then
        DeleteOutcome(Failure(500, DeleteFailedMessage), Some(urls.items))
      else
        DeleteOutcome(Success(DeleteBody(|urls.items|)), Some(urls.items))
  }

  /** The store, as the set of URLs it holds, after the handler's `del` call:
      every named URL is gone, whether or not it was there. The model assumes
      the same of a `del` that throws: it takes such a call to have removed all
      the named URLs, which the handler itself does not promise. */
  function StoreAfter(store: set<string>, delCall: Option<seq<string>>): (s: set<string>)
    ensures s <= store
    ensures delCall.Some? ==> forall u :: u in s <==> u in store && u !in delCall.value
    ensures delCall.None? ==> s == store
  {
    match delCall
    case None => store
    case Some(urls) => store - set u | u in urls
  }

  /** Deleting the same URLs a second time changes nothing in the store. The
      reply is a success with `deleted` the number of URLs named, however many
      of them the store still held: `Delete` does not read the store, so what the
      first call removed cannot change the second call's reply. */
  lemma DeleteIsIdempotent(store: set<string>, urls: seq<string>)
    requires urls != []
    ensures
      var call := Delete(Parsed(UrlList(urls)), false);
      && call.reply == Success(DeleteBody(|urls|))
      && StoreAfter(StoreAfter(store, call.delCall), call.delCall) == StoreAfter(store, call.delCall)
  {
  }

  /** After a successful delete, a listing of the store shows none of the
      deleted URLs. */
  lemma {:induction false} DeletedUrlsAreNotListed(
    store: set<string>, urls: seq<string>, token: Option<string>, blobs: seq<ListRoute.Blob>)
    requires Delete(Parsed(UrlList(urls)), false).reply.Success?
    requires forall b :: b in blobs ==> b.url in StoreAfter(store, Delete(Parsed(UrlList(urls)), false).delCall)
    requires ListRoute.Get(token, ListRoute.Listed(blobs)).Success?
    ensures forall image :: image in ListRoute.Get(token, ListRoute.Listed(blobs)).body ==> image.url !in urls
  {
    forall image | image in ListRoute.Get(token, ListRoute.Listed(blobs)).body
      ensures image.url !in urls
    {
      ListRoute.ListedImagesComeFromBlobs(token, blobs, image);
    }
  }
}
