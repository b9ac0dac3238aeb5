/**
 * The /merge request as a function of its inputs: the reference definition
 * that the imperative handler is proved to compute. An Outcome holds the
 * response, the requests issued to the store in order, and the objects the
 * store holds afterwards.
 */
module MergePipeline {
  import opened Wrappers
  import opened Storage
  import opened Pdf
  import opened Sequential

  /** Process-wide configuration: the shared secret, None when it is not set. */
  datatype Config = Config(apiSecret: Option<string>)

  /** The `storagePaths` field of the body: absent (or any falsy value), present but not an array, or an array of paths. */
  datatype PathList = Absent | NotAList | List(paths: seq<string>)

  /** A /merge request: the `x-api-secret` header and the body fields the handler reads. */
  datatype Request = Request(
    secretHeader: Option<string>,
    storagePaths: PathList,
    orderId: Option<string>,
    format: Option<string>)

  datatype Response = Ok(storagePath: string, size: nat, pages: nat) | Err(status: nat, message: string)

  datatype Outcome = Outcome(response: Response, calls: seq<Call>, objects: Objects)

  const UnauthorizedMessage: string := "Unauthorized"
  const InvalidPathsMessage: string := "storagePaths is required and must be a non-empty array"
  const PdfContentType: string := "application/pdf"

  /** The header is present, non-empty (a JavaScript truthy string) and identical to the configured secret. */
  predicate Authorized(header: Option<string>, secret: Option<string>)
    ensures secret.None? ==> !Authorized(header, secret)
    ensures secret == Some("") ==> !Authorized(header, secret)
    ensures Authorized(header, secret) ==> header.Some? && secret == header
  {
    header.Some? && header.value != "" && secret == header
  }

  /** The text a JavaScript template literal produces for a value that may be `undefined`. */
  function TemplateText(v: Option<string>): (text: string)
    ensures v.Some? ==> text == v.value
    ensures text == "undefined" <==> v == None || v == Some("undefined")
  {
    match v
    case None => "undefined"
    case Some(s) => s
  }

  /** The message the catch block reports, `err.message || String(err)`: an empty message prints as "Error". */
  function ErrorText(message: string): (text: string)
    ensures text != ""
    ensures message != "" ==> text == message
  {
    if message == "" then "Error" else message
  }

  /** Where the merged document of order `orderId` in format `format` is stored. */
  function OutputPath(orderId: string, format: string): (path: string)
    ensures |path| == |orderId| + |format| + 17
    ensures path[..5] == "temp/" && path[5..5 + |orderId|] == orderId
    ensures path[|path| - 4..] == ".pdf"
  {
    "temp/" + orderId + "/merged_" + format + ".pdf"
  }

  /** The message thrown for a failed download: it names the path, then the store's message. */
  function DownloadFailure(path: string, reply: Reply): (message: string)
    ensures "Failed to download " + path + ": " <= message
  {
    "Failed to download " + path + ": " + TemplateText(reply.error)
  }

  /** The message thrown for a rejected upload: a fixed prefix, then the store's message. */
  function UploadFailure(message: string): (thrown: string)
    ensures "Failed to upload merged PDF: " <= thrown && |thrown| == 29 + |message| && thrown[29..] == message
  {
    "Failed to upload merged PDF: " + message
  }

  /** One step of the download loop: the data at `path`, or the error the handler throws. */
  function Fetch(objects: Objects, path: string): (r: Result<Bytes, string>)
    ensures r.Success? <==> Readable(objects, path)
    ensures r.Success? ==> Some(r.value) == objects[path]
    ensures r.Failure? ==> r.error == DownloadFailure(path, Answer(objects, path))
  {
    var reply := Answer(objects, path);
    if reply.error.Some? || reply.data.None? then Failure(DownloadFailure(path, reply))
    else Success(reply.data.value)
  }

  function FetchStep(objects: Objects): string -> Result<Bytes, string>
  {
    path => Fetch(objects, path)
  }

  /** One step of the merge loop: the pages of `buffer`, or the error loading it throws. */
  function Decode<P>(codec: Codec<P>, buffer: Bytes): (r: Result<seq<P>, string>)
    ensures r.Success? <==> codec.load(buffer).Parsed?
    ensures r.Success? ==> r.value == codec.load(buffer).pages
    ensures r.Failure? ==> r.error == codec.load(buffer).message
  {
    match codec.load(buffer)
    case Parsed(pages) => Success(pages)
    case Malformed(message) => Failure(message)
  }

  function DecodeStep<P>(codec: Codec<P>): Bytes -> Result<seq<P>, string>
  {
    buffer => Decode(codec, buffer)
  }

  /** The downloads of `paths`, one per path, in order. */
  function Gets(paths: seq<string>): (calls: seq<Call>)
    ensures |calls| == |paths|
    ensures forall i :: 0 <= i < |paths| ==> calls[i] == Get(paths[i])
  {
    seq(|paths|, i requires 0 <= i < |paths| => Get(paths[i]))
  }

  /** An upload request is among `calls`. */
  predicate Uploads(calls: seq<Call>)
  {
    exists i :: 0 <= i < |calls| && calls[i].Put?
  }

  function Pipeline<P>(config: Config, req: Request, codec: Codec<P>, objects: Objects, writeError: Option<string>): (o: Outcome)
    ensures o.response.Err? ==> o.objects == objects
    ensures o.response.Ok? ==> o.objects.Keys == objects.Keys + {o.response.storagePath}
    ensures o.response.Ok? ==> forall p :: p in objects && p != o.response.storagePath ==> o.objects[p] == objects[p]
    ensures o.response.Ok? ==> o.response.pages > 0
  {
    if !Authorized(req.secretHeader, config.apiSecret) then
      Outcome(Err(401, UnauthorizedMessage), [], objects)
    else if !req.storagePaths.List? || |req.storagePaths.paths| == 0 then
      Outcome(Err(400, InvalidPathsMessage), [], objects)
    else
      var paths := req.storagePaths.paths;
      match FailFast(paths, FetchStep(objects))
      case Stopped(k, e) =>
        Outcome(Err(500, ErrorText(e)), Gets(paths[..k + 1]), objects)
      case Done(buffers) =>
        match FailFast(buffers, DecodeStep(codec))
        case Stopped(_, e) =>
          Outcome(Err(500, ErrorText(e)), Gets(paths), objects)
        case Done(docs) =>
          var pages := SavedPages(Concat(docs), codec.blank);
          var bytes := codec.save(pages);
          var out := OutputPath(TemplateText(req.orderId), TemplateText(req.format));
          var calls := Gets(paths) + [Put(out, bytes, PdfContentType)];
          match writeError
          case Some(e) => Outcome(Err(500, ErrorText(UploadFailure(e))), calls, objects)
          case None => Outcome(Ok(out, |bytes|, |pages|), calls, objects[out := Some(bytes)])
  }

  lemma NoUploadInGets(paths: seq<string>)
    ensures !Uploads(Gets(paths))
  {
  }

  // ---- Authentication and validation -------------------------------------

  /** 401 exactly when the header is missing, empty or differs from the secret; nothing reaches the store. */
  lemma RejectsUnauthorized<P>(config: Config, req: Request, codec: Codec<P>, objects: Objects, writeError: Option<string>)
    ensures var o := Pipeline(config, req, codec, objects, writeError);
      (o.response.Err? && o.response.status == 401) <==>
        (req.secretHeader.None? || req.secretHeader.value == "" || config.apiSecret != req.secretHeader)
    ensures !Authorized(req.secretHeader, config.apiSecret) ==>
      Pipeline(config, req, codec, objects, writeError) == Outcome(Err(401, "Unauthorized"), [], objects)
  {
  }

  /** After authentication, 400 exactly when the path list is missing, not an array or empty; nothing reaches the store. */
  lemma RejectsInvalidPaths<P>(config: Config, req: Request, codec: Codec<P>, objects: Objects, writeError: Option<string>)
    requires Authorized(req.secretHeader, config.apiSecret)
    ensures var o := Pipeline(config, req, codec, objects, writeError);
      (o.response.Err? && o.response.status == 400) <==> (req.storagePaths in {Absent, NotAList, List([])})
    ensures req.storagePaths in {Absent, NotAList, List([])} ==>
      Pipeline(config, req, codec, objects, writeError) ==
        Outcome(Err(400, "storagePaths is required and must be a non-empty array"), [], objects)
  {
    var o := Pipeline(config, req, codec, objects, writeError);
    if req.storagePaths.List? && |req.storagePaths.paths| > 0 {
      assert req.storagePaths !in {Absent, NotAList, List([])};
    }
  }

  // ---- Downloads ----------------------------------------------------------

  /**
   * The first path that cannot be downloaded fails the request with 500 and a
   * message naming it; that path is the last one requested, nothing is
   * uploaded, and the store is unchanged.
   */
  lemma {:induction false} DownloadFailureAborts<P>(
    config: Config, req: Request, codec: Codec<P>, objects: Objects, writeError: Option<string>, k: nat)
    requires Authorized(req.secretHeader, config.apiSecret) && req.storagePaths.List?
    requires k < |req.storagePaths.paths|
    requires forall j :: 0 <= j < k ==> Readable(objects, req.storagePaths.paths[j])
    requires !Readable(objects, req.storagePaths.paths[k])
    ensures var paths := req.storagePaths.paths;
      var o := Pipeline(config, req, codec, objects, writeError);
      o.response == Err(500, "Failed to download " + paths[k] + ": " + TemplateText(Answer(objects, paths[k]).error)) &&
      o.calls == Gets(paths[..k + 1]) && !Uploads(o.calls) && o.objects == objects
  {
    var paths := req.storagePaths.paths;
    FirstFailureStops(paths, FetchStep(objects), k);
    NoUploadInGets(paths[..k + 1]);
  }

  // ---- Merging ------------------------------------------------------------

  /**
   * When every download succeeds but buffer k is the first that does not
   * load, the request fails with 500 and the loader's message; every path
   * was downloaded, nothing is uploaded and the store is unchanged.
   */
  lemma {:induction false} DecodeFailureAborts<P>(
    config: Config, req: Request, codec: Codec<P>, objects: Objects, writeError: Option<string>, k: nat, message: string)
    requires Authorized(req.secretHeader, config.apiSecret) && req.storagePaths.List?
    requires k < |req.storagePaths.paths|
    requires forall i :: 0 <= i < |req.storagePaths.paths| ==> Readable(objects, req.storagePaths.paths[i])
    requires forall j :: 0 <= j < k ==>
      Readable(objects, req.storagePaths.paths[j]) && codec.load(objects[req.storagePaths.paths[j]].value).Parsed?
    requires Readable(objects, req.storagePaths.paths[k]) &&
      codec.load(objects[req.storagePaths.paths[k]].value) == Malformed(message)
    ensures var o := Pipeline(config, req, codec, objects, writeError);
      o.response == Err(500, if message == "" then "Error" else message) &&
      o.calls == Gets(req.storagePaths.paths) && !Uploads(o.calls) && o.objects == objects
  {
    var paths := req.storagePaths.paths;
    DoneIff(paths, FetchStep(objects));
    var buffers := FailFast(paths, FetchStep(objects)).values;
    FirstFailureStops(buffers, DecodeStep(codec), k);
    NoUploadInGets(paths);
  }

  /**
   * When everything succeeds, the merged document holds the sources' pages in
   * path order (one blank page when they have none), the response reports the
   * output path, the size of the saved bytes and the total page count (at
   * least one), the downloads were issued in path order
   * followed by one upload, and the store holds the bytes at the output path
   * whatever it held there before.
   */
  lemma {:induction false} MergeSucceeds<P>(
    config: Config, req: Request, codec: Codec<P>, objects: Objects, docs: seq<seq<P>>)
    requires Authorized(req.secretHeader, config.apiSecret) && req.storagePaths.List?
    requires |req.storagePaths.paths| > 0 && |docs| == |req.storagePaths.paths|
    requires forall i :: 0 <= i < |docs| ==>
      Readable(objects, req.storagePaths.paths[i]) &&
      codec.load(objects[req.storagePaths.paths[i]].value) == Parsed(docs[i])
    ensures var out := "temp/" + TemplateText(req.orderId) + "/merged_" + TemplateText(req.format) + ".pdf";
      var bytes := codec.save(if TotalPages(docs) == 0 then [codec.blank] else Concat(docs));
      var o := Pipeline(config, req, codec, objects, None);
      o.response == Ok(out, |bytes|, if TotalPages(docs) == 0 then 1 else TotalPages(docs)) &&
      o.calls == Gets(req.storagePaths.paths) + [Put(out, bytes, "application/pdf")] &&
      o.objects == objects[out := Some(bytes)]
  {
    var paths := req.storagePaths.paths;
    DoneIff(paths, FetchStep(objects));
    var buffers := FailFast(paths, FetchStep(objects)).values;
    DoneIff(buffers, DecodeStep(codec));
    var decoded := FailFast(buffers, DecodeStep(codec)).values;
    assert decoded == docs;
    ConcatLength(docs);
  }

  /** When the upload is rejected, the request fails with 500 and the store's message, and the store is unchanged. */
  lemma {:induction false} UploadFailureReported<P>(
    config: Config, req: Request, codec: Codec<P>, objects: Objects, docs: seq<seq<P>>, error: string)
    requires Authorized(req.secretHeader, config.apiSecret) && req.storagePaths.List?
    requires |req.storagePaths.paths| > 0 && |docs| == |req.storagePaths.paths|
    requires forall i :: 0 <= i < |docs| ==>
      Readable(objects, req.storagePaths.paths[i]) &&
      codec.load(objects[req.storagePaths.paths[i]].value) == Parsed(docs[i])
    ensures var out := "temp/" + TemplateText(req.orderId) + "/merged_" + TemplateText(req.format) + ".pdf";
      var bytes := codec.save(if TotalPages(docs) == 0 then [codec.blank] else Concat(docs));
      var o := Pipeline(config, req, codec, objects, Some(error));
      o.response == Err(500, "Failed to upload merged PDF: " + error) &&
      o.calls == Gets(req.storagePaths.paths) + [Put(out, bytes, "application/pdf")] &&
      Uploads(o.calls) && o.objects == objects
  {
    var paths := req.storagePaths.paths;
    DoneIff(paths, FetchStep(objects));
    var buffers := FailFast(paths, FetchStep(objects)).values;
    DoneIff(buffers, DecodeStep(codec));
    var decoded := FailFast(buffers, DecodeStep(codec)).values;
    assert decoded == docs;
    ConcatLength(docs);
    var o := Pipeline(config, req, codec, objects, Some(error));
    assert o.calls[|paths|].Put?;
  }

  // ---- Whole-request properties -------------------------------------------

  /** After authentication and validation, an upload is requested exactly when both loops complete. */
  lemma UploadsIffBothLoopsDone<P>(
    config: Config, req: Request, codec: Codec<P>, objects: Objects, writeError: Option<string>)
    requires Authorized(req.secretHeader, config.apiSecret) && req.storagePaths.List? && |req.storagePaths.paths| > 0
    ensures var fetched := FailFast(req.storagePaths.paths, FetchStep(objects));
      Uploads(Pipeline(config, req, codec, objects, writeError).calls) <==>
        fetched.Done? && FailFast(fetched.values, DecodeStep(codec)).Done?
  {
    var paths := req.storagePaths.paths;
    var o := Pipeline(config, req, codec, objects, writeError);
    match FailFast(paths, FetchStep(objects))
    case Stopped(k, _) =>
      NoUploadInGets(paths[..k + 1]);
    case Done(buffers) =>
      if FailFast(buffers, DecodeStep(codec)).Stopped? {
        NoUploadInGets(paths);
      } else {
        assert o.calls[|paths|].Put?;
      }
  }

  /**
   * An upload is requested exactly when the request is authorised, the path
   * list is non-empty, every path downloads and every buffer loads.
   */
  lemma {:induction false} UploadOnlyAfterSuccess<P>(
    config: Config, req: Request, codec: Codec<P>, objects: Objects, writeError: Option<string>)
    ensures Uploads(Pipeline(config, req, codec, objects, writeError).calls) <==>
      Authorized(req.secretHeader, config.apiSecret) && req.storagePaths.List? && |req.storagePaths.paths| > 0 &&
      (forall i :: 0 <= i < |req.storagePaths.paths| ==> Readable(objects, req.storagePaths.paths[i])) &&
      (forall i :: 0 <= i < |req.storagePaths.paths| ==>
        codec.load(objects[req.storagePaths.paths[i]].value).Parsed?)
  {
    if Authorized(req.secretHeader, config.apiSecret) && req.storagePaths.List? && |req.storagePaths.paths| > 0 {
      var paths := req.storagePaths.paths;
      UploadsIffBothLoopsDone(config, req, codec, objects, writeError);
      DoneIff(paths, FetchStep(objects));
      var fetched := FailFast(paths, FetchStep(objects));
      if fetched.Done? {
        DoneIff(fetched.values, DecodeStep(codec));
        assert forall i :: 0 <= i < |paths| ==> fetched.values[i] == objects[paths[i]].value;
      }
    }
  }

  /**
   * A failed request leaves the store as it was; a successful one changes it
   * only by storing, at the reported path, the bytes of its last request,
   * an upload whose size is the reported size.
   */
  lemma ResponseAndStore<P>(config: Config, req: Request, codec: Codec<P>, objects: Objects, writeError: Option<string>)
    ensures var o := Pipeline(config, req, codec, objects, writeError);
      (o.response.Err? ==> o.objects == objects && o.response.status in {400, 401, 500}) &&
      (o.response.Ok? ==>
        |o.calls| > 0 && o.calls[|o.calls| - 1].Put? &&
        o.calls[|o.calls| - 1].path == o.response.storagePath &&
        |o.calls[|o.calls| - 1].bytes| == o.response.size &&
        o.objects == objects[o.response.storagePath := Some(o.calls[|o.calls| - 1].bytes)])
  {
  }

  /**
   * Re-running a successful request against the store it left behind, when
   * the output path is not one of its inputs, gives the same response, the
   * same requests and the same store: publishing is idempotent.
   */
  lemma {:induction false} RepublishIsIdempotent<P>(
    config: Config, req: Request, codec: Codec<P>, objects: Objects, writeError: Option<string>)
    requires Pipeline(config, req, codec, objects, writeError).response.Ok?
    requires Pipeline(config, req, codec, objects, writeError).response.storagePath !in req.storagePaths.paths
    ensures var first := Pipeline(config, req, codec, objects, writeError);
      Pipeline(config, req, codec, first.objects, writeError) == first
  {
    var first := Pipeline(config, req, codec, objects, writeError);
    var paths := req.storagePaths.paths;
    var out := first.response.storagePath;
    var after := first.objects;
    assert after == objects[out := after[out]];
    forall i | 0 <= i < |paths|
      ensures FetchStep(after)(paths[i]) == FetchStep(objects)(paths[i])
    {
      assert paths[i] != out;
    }
    FailFastCongruent(paths, FetchStep(after), FetchStep(objects));
  }

  /**
   * Re-running a successful request against the store it left behind, when
   * the output path is not one of its inputs, succeeds again whatever bytes
   * the library's save produces this time: the same output path and page
   * count, the same downloads, and the store differs at most in the bytes
   * at the output path, which the new upload replaces.
   */
  lemma {:induction false} RepublishReplacesOutput<P>(
    config: Config, req: Request, codec: Codec<P>, codec': Codec<P>, objects: Objects, writeError: Option<string>)
    requires codec'.load == codec.load && codec'.blank == codec.blank
    requires Pipeline(config, req, codec, objects, writeError).response.Ok?
    requires Pipeline(config, req, codec, objects, writeError).response.storagePath !in req.storagePaths.paths
    ensures var first := Pipeline(config, req, codec, objects, writeError);
      var second := Pipeline(config, req, codec', first.objects, writeError);
      var out := first.response.storagePath;
      second.response.Ok? && second.response.storagePath == out &&
      second.response.pages == first.response.pages &&
      second.calls[..|second.calls| - 1] == first.calls[..|first.calls| - 1] &&
      second.objects.Keys == first.objects.Keys &&
      (forall p :: p in first.objects && p != out ==> second.objects[p] == first.objects[p]) &&
      second.objects[out] == Some(second.calls[|second.calls| - 1].bytes)
  {
    var first := Pipeline(config, req, codec, objects, writeError);
    var paths := req.storagePaths.paths;
    var out := first.response.storagePath;
    var after := first.objects;
    assert after == objects[out := after[out]];
    forall i | 0 <= i < |paths|
      ensures FetchStep(after)(paths[i]) == FetchStep(objects)(paths[i])
    {
      assert paths[i] != out;
    }
    FailFastCongruent(paths, FetchStep(after), FetchStep(objects));
    var buffers := FailFast(paths, FetchStep(objects)).values;
    forall i | 0 <= i < |buffers|
      ensures DecodeStep(codec')(buffers[i]) == DecodeStep(codec)(buffers[i])
    {
    }
    FailFastCongruent(buffers, DecodeStep(codec'), DecodeStep(codec));
  }

  // ---- Output path ----------------------------------------------------------

  /** In the output path of an order whose identifier holds no '/', the first '/' after "temp/" ends the identifier. */
  lemma OutputPathSlash(orderId: string, format: string)
    requires '/' !in orderId
    ensures OutputPath(orderId, format)[5 + |orderId|] == '/'
    ensures forall i :: 5 <= i < 5 + |orderId| ==> OutputPath(orderId, format)[i] != '/'
  {
  }

  /** Orders whose identifiers hold no '/' never share an output path: an upsert replaces only the same order's output in the same format. */
  lemma OutputPathInjective(orderId1: string, format1: string, orderId2: string, format2: string)
    requires '/' !in orderId1 && '/' !in orderId2
    requires OutputPath(orderId1, format1) == OutputPath(orderId2, format2)
    ensures orderId1 == orderId2 && format1 == format2
  {
    var s := OutputPath(orderId1, format1);
    OutputPathSlash(orderId1, format1);
    OutputPathSlash(orderId2, format2);
    assert |orderId1| == |orderId2|;
    assert s == "temp/" + orderId1 + "/merged_" + format1 + ".pdf";
    assert s == "temp/" + orderId2 + "/merged_" + format2 + ".pdf";
    assert orderId1 == s[5..5 + |orderId1|] == orderId2;
    assert format1 == s[13 + |orderId1|..|s| - 4] == format2;
  }

  /** With a '/' in the order identifier, two different orders can write to the same path. */
  lemma OutputPathCollision()
    ensures OutputPath("a", "b/merged_c") == OutputPath("a/merged_b", "c")
  {
  }
}
