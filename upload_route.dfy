/** `POST /api/upload`: stores every image-typed file of the form under a generated
    name and answers with the stored files, in the order they came. */
module UploadRoute {
  import opened Wrappers
  import opened JsText
  import opened Api

  const NoFilesMessage := "没有选择文件"
  const UploadFailedMessage := "上传失败"

  /** What the handler reads from its environment for the k-th stored file:
      `Date.now()` and the rendering `Math.random().toString(36)`. */
  datatype Draw = Draw(timestamp: nat, random36: string)

  /** One call `put(pathname, file, {access, addRandomSuffix})` to the blob store. */
  datatype PutRequest = PutRequest(pathname: string, file: FileEntry, access: string, addRandomSuffix: bool)

  /** What a `put` call does: it stores the blob and returns its `url` and
      `pathname`, or it throws. */
  datatype PutResult = Stored(url: string, pathname: string) | PutThrew

  /** `Math.random().toString(36).substring(2, 8)`: at most six characters, taken
      from just after the leading `0.`. */
  function RandomToken(random36: string): (token: string)
    ensures |token| <= 6
    ensures |random36| >= 2 ==> |token| == (if |random36| < 8 then |random36| else 8) - 2
    ensures |random36| >= 8 ==> |token| == 6 && token == random36[2..8]
    ensures |random36| >= 2 ==> StartsWith(random36[2..], token)
  {
    Substring(random36, 2, 8)
  }

  /** What `Math.random().toString(36)` renders: `0`, or `0.` and base-36 digits. */
  ghost predicate IsBase36Fraction(s: string) {
    && |s| >= 1 && s[0] == '0'
    && (|s| > 1 ==> s[1] == '.')
    && forall i :: 2 <= i < |s| ==> IsDigit(s[i]) || 'a' <= s[i] <= 'z'
  }

  /** A token cut from such a rendering holds neither `_` nor `.`. */
  lemma TokenHasNoSeparators(random36: string)
    requires IsBase36Fraction(random36)
    ensures '_' !in RandomToken(random36) && '.' !in RandomToken(random36)
  {
    var t := RandomToken(random36);
    if |random36| >= 2 {
      forall i | 0 <= i < |t| ensures t[i] != '_' && t[i] != '.' {
        assert t[i] == random36[2 + i];
      }
    }
  }

  /** `file.name.split(".").pop() || "jpg"`. */
  function Extension(name: string): string {
    var last := Last(Split(name, '.'));
    if last == "" then "jpg" else last
  }

  /** The extension is the text after the last `.` of the name (all of the name
      when it has none), and `jpg` exactly when that text is empty. */
  lemma ExtensionIsTextAfterLastDot(name: string, text: string)
    requires IsTextAfterLast(name, '.', text)
    ensures Extension(name) == (if text == "" then "jpg" else text)
    ensures '.' !in Extension(name) && Extension(name) != ""
  {
    SplitLastIsTextAfterLast(name, '.');
    TextAfterLastUnique(name, '.', text, Last(Split(name, '.')));
  }

  /** `photo_${timestamp}_${randomStr}.${ext}` */
  function Filename(timestamp: nat, token: string, ext: string): string {
    "photo_" + Decimal(timestamp) + "_" + token + "." + ext
  }

  /** The parts a generated filename is made of. */
  datatype FilenameParts = FilenameParts(timestamp: nat, token: string, ext: string)

  /** Reads a generated filename back into its parts. */
  function ParseFilename(name: string): Option<FilenameParts> {
    if !StartsWith(name, "photo_") then None
    else match CutAtFirst(name[6..], '_')
      case None => None
      case Some(first) =>
        if !AllDigits(first.0) then None
        else match CutAtFirst(first.1, '.')
          case None => None
          case Some(second) => Some(FilenameParts(ParseDecimal(first.0), second.0, second.1))
  }

  /** A generated filename determines the timestamp, the token and the extension
      it was built from, as long as the token has no `_` and no `.`. */
  lemma ParseFilenameOfFilename(timestamp: nat, token: string, ext: string)
    requires '_' !in token && '.' !in token
    ensures ParseFilename(Filename(timestamp, token, ext)) == Some(FilenameParts(timestamp, token, ext))
  {
    var digits := Decimal(timestamp);
    var name := Filename(timestamp, token, ext);
    assert name == "photo_" + (digits + "_" + token + "." + ext);
    assert name[6..] == digits + ['_'] + (token + "." + ext);
    assert '_' !in digits by {
      forall i | 0 <= i < |digits| ensures digits[i] != '_' { assert IsDigit(digits[i]); }
    }
    CutAtFirstOfJoined(digits, '_', token + "." + ext);
    assert token + "." + ext == token + ['.'] + ext;
    CutAtFirstOfJoined(token, '.', ext);
    ParseDecimalOfDecimal(timestamp);
  }

  /** Two files stored in one request get different names whenever their draws
      differ in timestamp or token, or their extensions differ. */
  lemma FilenameInjective(t1: nat, k1: string, e1: string, t2: nat, k2: string, e2: string)
    requires '_' !in k1 && '.' !in k1 && '_' !in k2 && '.' !in k2
    requires Filename(t1, k1, e1) == Filename(t2, k2, e2)
    ensures t1 == t2 && k1 == k2 && e1 == e2
  {
    ParseFilenameOfFilename(t1, k1, e1);
    ParseFilenameOfFilename(t2, k2, e2);
  }

  /** The stored name keeps the extension of the original name. */
  lemma FilenameKeepsExtension(timestamp: nat, token: string, name: string)
    ensures Extension(Filename(timestamp, token, Extension(name))) == Extension(name)
  {
    var text := Last(Split(name, '.'));
    SplitLastIsTextAfterLast(name, '.');
    ExtensionIsTextAfterLastDot(name, text);
    var ext := Extension(name);
    var stored := Filename(timestamp, token, ext);
    assert stored == ("photo_" + Decimal(timestamp) + "_" + token) + ['.'] + ext;
    SplitLastAfterSeparator("photo_" + Decimal(timestamp) + "_" + token, '.', ext);
  }

  /** The `put` call the handler makes for an accepted file with the given draw. */
  function RequestFor(f: FileEntry, d: Draw): PutRequest {
    PutRequest(Filename(d.timestamp, RandomToken(d.random36), Extension(f.name)), f, "public", false)
  }

  /** The image-typed files, in their order: the files the loop does not skip. */
  function Accepted(files: seq<FileEntry>): seq<FileEntry> {
    if files == [] then []
    else Accepted(files[..|files| - 1]) + (if IsImage(Last(files)) then [Last(files)] else [])
  }

  /** The `put` calls of a run in which no call throws: one per accepted file, in
      order, the k-th with the k-th draw. */
  function Planned(files: seq<FileEntry>, draw: nat -> Draw): seq<PutRequest> {
    if files == [] then []
    else
      var before := Planned(files[..|files| - 1], draw);
      before + (if IsImage(Last(files)) then [RequestFor(Last(files), draw(|before|))] else [])
  }

  /** `Accepted` keeps exactly the image-typed files: every file of the result is
      one, it keeps each with its multiplicity, and it is all or nothing of the
      input when all or none of the input are images. */
  lemma {:induction false} AcceptedKeepsImages(files: seq<FileEntry>)
    ensures forall f :: f in Accepted(files) ==> IsImage(f)
    ensures forall f :: multiset(Accepted(files))[f] == if IsImage(f) then multiset(files)[f] else 0
    ensures (forall f :: f in files ==> IsImage(f)) ==> Accepted(files) == files
    ensures (forall f :: f in files ==> !IsImage(f)) ==> Accepted(files) == []
  {
    AcceptedCounts(files);
    forall f | f in Accepted(files) ensures IsImage(f) {
      assert multiset(Accepted(files))[f] > 0;
    }
    AcceptedWhenAllOrNone(files);
  }

  lemma {:induction false} AcceptedCounts(files: seq<FileEntry>)
    ensures forall f :: multiset(Accepted(files))[f] == if IsImage(f) then multiset(files)[f] else 0
  {
    if files != [] {
      var init := files[..|files| - 1];
      AcceptedCounts(init);
      assert files == init + [Last(files)];
    }
  }

  lemma {:induction false} AcceptedWhenAllOrNone(files: seq<FileEntry>)
    ensures (forall f :: f in files ==> IsImage(f)) ==> Accepted(files) == files
    ensures (forall f :: f in files ==> !IsImage(f)) ==> Accepted(files) == []
  {
    if files != [] {
      var init := files[..|files| - 1];
      AcceptedWhenAllOrNone(init);
      assert files == init + [Last(files)];
      assert forall f :: f in init ==> f in files;
    }
  }

  /** Filtering a concatenation filters each part: the accepted files keep their
      relative order. */
  lemma {:induction false} AcceptedConcat(a: seq<FileEntry>, b: seq<FileEntry>)
    ensures Accepted(a + b) == Accepted(a) + Accepted(b)
    decreases |b|
  {
    if b == [] {
      assert a + b == a;
    } else {
      var b' := b[..|b| - 1];
      AcceptedConcat(a, b');
      assert (a + b)[..|a + b| - 1] == a + b';
      assert Last(a + b) == Last(b);
    }
  }

  /** The planned calls are the accepted files, one call each in order, each
      with the public, unsuffixed options, the k-th named from the k-th draw. */
  lemma {:induction false} PlannedFollowsAccepted(files: seq<FileEntry>, draw: nat -> Draw)
    ensures |Planned(files, draw)| == |Accepted(files)|
    ensures forall k :: 0 <= k < |Accepted(files)| ==> Planned(files, draw)[k] == RequestFor(Accepted(files)[k], draw(k))
    ensures forall k :: 0 <= k < |Accepted(files)| ==>
      Planned(files, draw)[k].access == "public" && !Planned(files, draw)[k].addRandomSuffix
  {
    if files != [] {
      var init := files[..|files| - 1];
      PlannedFollowsAccepted(init, draw);
      var before, kept := Planned(init, draw), Accepted(init);
      if IsImage(Last(files)) {
        var planned, accepted := Planned(files, draw), Accepted(files);
        assert planned == before + [RequestFor(Last(files), draw(|before|))];
        assert accepted == kept + [Last(files)];
        forall k | 0 <= k < |accepted| ensures planned[k] == RequestFor(accepted[k], draw(k)) {
          if k < |kept| {
            assert planned[k] == before[k] && accepted[k] == kept[k];
          }
        }
      } else {
        assert Planned(files, draw) == before;
        assert Accepted(files) == kept;
      }
    }
  }

  /** The calls planned for a prefix of the files begin the calls planned for all. */
  lemma {:induction false} PlannedPrefix(files: seq<FileEntry>, i: nat, draw: nat -> Draw)
    requires i <= |files|
    ensures |Planned(files[..i], draw)| <= |Planned(files, draw)|
    ensures Planned(files[..i], draw) == Planned(files, draw)[..|Planned(files[..i], draw)|]
    decreases |files| - i
  {
    if i < |files| {
      PlannedPrefix(files, i + 1, draw);
      assert files[..i + 1][..i] == files[..i];
    } else {
      assert files[..i] == files;
    }
  }

  /** The uploaded entry for a stored blob. */
  function Entry(r: PutResult): UploadedFile
    requires r.Stored?
  {
    UploadedFile(r.url, r.pathname)
  }

  /** The handler. `form` is the parsed `files` field, `None` when reading the form
      throws; `draw` supplies the clock and the random rendering; `put` is the blob
      store. Returns the reply and the `put` calls made, in order. */
  method Post(form: Option<seq<FileEntry>>, draw: nat -> Draw, put: PutRequest -> PutResult)
    returns (reply: Reply<UploadBody>, calls: seq<PutRequest>)
    ensures form.None? ==> reply == Failure(500, UploadFailedMessage) && calls == []
    ensures form == Some([]) ==> reply == Failure(400, NoFilesMessage) && calls == []
    ensures form.Some? && form.value != [] ==>
      var planned := Planned(form.value, draw);
      && |calls| <= |planned| && calls == planned[..|calls|]
      && (forall k :: 0 <= k < |calls| - 1 ==> put(calls[k]).Stored?)
      && (reply.Success? <==> forall k :: 0 <= k < |planned| ==> put(planned[k]).Stored?)
      && (reply.Success? ==>
            && calls == planned
            && reply.body.count == |reply.body.uploaded| == |calls| == |Accepted(form.value)|
            && forall k :: 0 <= k < |calls| ==> reply.body.uploaded[k] == Entry(put(calls[k])))
      && (reply.Failure? ==>
            reply == Failure(500, UploadFailedMessage) && calls != [] && put(calls[|calls| - 1]).PutThrew?)
  {
    if form.None? {
      return Failure(500, UploadFailedMessage), [];
    }
    var files := form.value;
    if |files| == 0 {
      return Failure(400, NoFilesMessage), [];
    }
    var uploaded: seq<UploadedFile> := [];
    calls := [];
    var i := 0;
    while i < |files|
      invariant 0 <= i <= |files|
      invariant calls == Planned(files[..i], draw)
      invariant |uploaded| == |calls|
      invariant forall k :: 0 <= k < |calls| ==> put(calls[k]).Stored? && uploaded[k] == Entry(put(calls[k]))
    {
      var file := files[i];
      assert files[..i + 1][..i] == files[..i];
      if !IsImage(file) {
        i := i + 1;
        continue;
      }
      var request := RequestFor(file, draw(|calls|));
      calls := calls + [request];
      var result := put(request);
      if result.PutThrew? {
        PlannedPrefix(files, i + 1, draw);
        assert Planned(files, draw)[|calls| - 1] == request;
        return Failure(500, UploadFailedMessage), calls;
      }
      uploaded := uploaded + [UploadedFile(result.url, result.pathname)];
      i := i + 1;
    }
    assert files[..i] == files;
    PlannedFollowsAccepted(files, draw);
    reply := Success(UploadBody(uploaded, |uploaded|));
  }
}
