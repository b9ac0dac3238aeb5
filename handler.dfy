/**
 * The body of the POST /merge route, step by step: authenticate, validate,
 * download every batch in order, load and append every batch's pages,
 * save, upload with upsert, respond. It is proved to compute the reference
 * Pipeline: the same response, the same requests to the store in the same
 * order, and the same store afterwards.
 */
module MergeHandler {
  import opened Wrappers
  import opened Storage
  import opened Pdf
  import opened Sequential
  import opened MergePipeline

  /**
   * The download loop: one download per path, in order, stopping at the
   * first path that yields an error or no data.
   */
  method DownloadBatches(bucket: Bucket, paths: seq<string>) returns (run: Run<Bytes>)
    modifies bucket`log
    ensures run == FailFast(paths, FetchStep(bucket.objects))
    ensures bucket.log == old(bucket.log) + if run.Done? then Gets(paths) else Gets(paths[..run.index + 1])
  {
    var batchBuffers: seq<Bytes> := [];
    for i := 0 to |paths|
      invariant bucket.log == old(bucket.log) + Gets(paths[..i])
      invariant FailFast(paths[..i], FetchStep(bucket.objects)) == Done(batchBuffers)
    {
      var reply := bucket.Download(paths[i]);
      assert Gets(paths[..i]) + [Get(paths[i])] == Gets(paths[..i + 1]);
      if reply.error.Some? || reply.data.None? {
        DoneIff(paths[..i], FetchStep(bucket.objects));
        assert forall j :: 0 <= j < i ==> paths[..i][j] == paths[j];
        FirstFailureStops(paths, FetchStep(bucket.objects), i);
        return Stopped(i, DownloadFailure(paths[i], reply));
      }
      FailFastExtend(paths, i, FetchStep(bucket.objects));
      batchBuffers := batchBuffers + [reply.data.value];
    }
    assert paths[..|paths|] == paths;
    return Done(batchBuffers);
  }

  /** The inner merge loop: every copied page is added to the document, in order. */
  method AddPages<P>(mergedPdf: Document<P>, pages: seq<P>)
    modifies mergedPdf`pages
    ensures mergedPdf.pages == old(mergedPdf.pages) + pages
  {
    for k := 0 to |pages|
      invariant mergedPdf.pages == old(mergedPdf.pages) + pages[..k]
    {
      mergedPdf.AddPage(pages[k]);
      assert pages[..k + 1] == pages[..k] + [pages[k]];
    }
    assert pages[..|pages|] == pages;
  }

  /**
   * The merge loop: the first buffer seeds the document and the pages of
   * every later buffer are appended, in their own order; the first buffer
   * that does not load stops the merge with the loader's message.
   */
  method MergeBatches<P>(codec: Codec<P>, batchBuffers: seq<Bytes>) returns (merged: Result<Document<P>, string>)
    requires |batchBuffers| > 0
    ensures var run := FailFast(batchBuffers, DecodeStep(codec));
      match run
      case Done(docs) => merged.Success? && fresh(merged.value) && merged.value.pages == Concat(docs)
      case Stopped(_, e) => merged == Failure(e)
  {
    var first := codec.load(batchBuffers[0]);
    if first.Malformed? {
      FirstFailureStops(batchBuffers, DecodeStep(codec), 0);
      return Failure(first.message);
    }
    var mergedPdf := new Document.FromPages(first.pages);
    ghost var docs := [first.pages];
    assert FailFast(batchBuffers[..1], DecodeStep(codec)) == Done(docs) by {
      assert batchBuffers[..1][..0] == [];
    }
    ConcatSingle(first.pages);

    for i := 1 to |batchBuffers|
      invariant FailFast(batchBuffers[..i], DecodeStep(codec)) == Done(docs)
      invariant mergedPdf.pages == Concat(docs)
    {
      var loaded := codec.load(batchBuffers[i]);
      if loaded.Malformed? {
        DoneIff(batchBuffers[..i], DecodeStep(codec));
        assert forall j :: 0 <= j < i ==> batchBuffers[..i][j] == batchBuffers[j];
        FirstFailureStops(batchBuffers, DecodeStep(codec), i);
        return Failure(loaded.message);
      }
      var srcPdf := new Document.FromPages(loaded.pages);
      var pages := mergedPdf.CopyPages(srcPdf, srcPdf.PageIndices());
      assert pages == loaded.pages;
      AddPages(mergedPdf, pages);
      FailFastExtend(batchBuffers, i, DecodeStep(codec));
      ConcatAppend(docs, pages);
      docs := docs + [pages];
    }
    assert batchBuffers[..|batchBuffers|] == batchBuffers;
    return Success(mergedPdf);
  }

  /** The /merge handler. */
  method HandleMerge<P>(config: Config, req: Request, codec: Codec<P>, bucket: Bucket) returns (resp: Response)
    modifies bucket
    ensures bucket.writeError == old(bucket.writeError)
    ensures var o := Pipeline(config, req, codec, old(bucket.objects), old(bucket.writeError));
      resp == o.response && bucket.objects == o.objects && bucket.log == old(bucket.log) + o.calls
  {
    // Auth check
    var secret := req.secretHeader;
    if secret.None? || secret.value == "" || Some(secret.value) != config.apiSecret {
      return Err(401, UnauthorizedMessage);
    }

    var storagePaths := req.storagePaths;
    if !storagePaths.List? || |storagePaths.paths| == 0 {
      return Err(400, InvalidPathsMessage);
    }

    ghost var objects := bucket.objects;
    var downloaded := DownloadBatches(bucket, storagePaths.paths);
    assert downloaded == FailFast(storagePaths.paths, FetchStep(objects));
    if downloaded.Stopped? {
      return Err(500, ErrorText(downloaded.error));
    }
    var batchBuffers := downloaded.values;

    var merged := MergeBatches(codec, batchBuffers);
    ghost var decoded := FailFast(batchBuffers, DecodeStep(codec));
    if merged.Failure? {
      assert decoded.Stopped? && merged.error == decoded.error;
      return Err(500, ErrorText(merged.error));
    }
    assert decoded.Done? && merged.value.pages == Concat(decoded.values);
    var mergedPdf := merged.value;
    var mergedBytes := mergedPdf.Save(codec);
    var pageCount := mergedPdf.PageCount();

    // Upload the merged document, replacing any earlier one
    var outputPath := OutputPath(TemplateText(req.orderId), TemplateText(req.format));
    var uploadError := bucket.Upload(outputPath, mergedBytes, PdfContentType);
    if uploadError.Some? {
      return Err(500, ErrorText(UploadFailure(uploadError.value)));
    }
    return Ok(outputPath, |mergedBytes|, pageCount);
  }
}
