# PDF merge service: the /merge request pipeline

A Dafny model of the `POST /merge` handler of the PDF merge service
(`index.js`). A request names an ordered list of PDF batch files in the
"print-queue" storage bucket. The handler checks a shared secret, validates
the list, downloads every batch in order, appends all their pages into one
document, saves it, uploads it to `temp/<orderId>/merged_<format>.pdf` with
upsert, and answers with the stored path, the byte size and the page count.
Every failure after validation is reported as 500 with the thrown message.

The model has two layers:

- `MergePipeline.Pipeline` is a reference definition of one request. It is a
  pure function of the configuration, the request, the PDF codec, the
  bucket's objects and the bucket's answer to a write. It yields the response,
  the requests issued to the store in order, and the store's objects afterwards.
- `MergeHandler.HandleMerge` is the handler written step by step, as the source
  is. It has the download loop, the seed-and-append merge loop (with the inner
  page loop), the upload and the response. It is proved to produce exactly
  what `Pipeline` says: the response, the store's request log and the final
  objects.

The collaborators the repository cannot see are parameters:

- The object store is a `Storage.Bucket` object. Its `objects` map takes a path
  to the bytes stored there; a path mapped to `None` is an object whose download
  yields no data. Its `writeError` is the store's answer to a write. A ghost
  `log` records every download and upload request.
- The PDF library is a `Pdf.Codec`. It has a `load` function from bytes to
  either a page sequence or a loader error, a `save` function from pages to
  bytes, and the blank page that saving adds to a document without pages (the
  library's default save behaviour). Pages are values of a type parameter `P`. A `Pdf.Document` object holds
  the pages that `addPage` appends to.

Messages are modelled as JavaScript produces them:

- `undefined` in a template literal prints as `"undefined"`. This covers a
  missing `orderId` or `format`, and a download that returns no data and no
  error.
- `err.message || String(err)` turns an empty message into `"Error"`.

The text the store reports for a missing object is fixed as `"Object not found"`.
That text comes from the storage service, not from this repository.

## Model

| member | source | states |
|---|---|---|
| `Storage.Answer` | index.js:40-46 | a download answers with data and no error exactly when the path holds an object with data, and then with those bytes; a path holding nothing answers with an error |
| `Storage.Bucket.Download` | index.js:40-42 | the reply is the store's answer for that path, the store's objects are untouched, and one download request is appended to the log |
| `Storage.Bucket.Upload` | index.js:72-77 | the upload returns the store's write error; on success the object at the path is replaced by the bytes (upsert), on failure the objects are unchanged; one upload request with the content type is logged |
| `Pdf.Document.FromPages` | index.js:55 | a loaded document holds exactly the decoded pages |
| `Pdf.Document.PageIndices` | index.js:60 | the indices of all pages of the document, 0 to n-1 in order (the definition of the library call in this model) |
| `Pdf.Document.CopyPages` | index.js:60 | one copy per requested index, in the order of the indices, each the source's page at that index (the definition of the library call in this model) |
| `Pdf.Document.AddPage` | index.js:61-63 | the page is appended after the document's existing pages |
| `Pdf.SavedPages` | index.js:66-67 | the pages a save writes: the document's own pages when it has any, otherwise exactly one blank page, so the count is never 0 |
| `Pdf.Document.Save` | index.js:66 | saving first adds a blank page to a document without pages, then the bytes are the serialisation of the document's pages |
| `Pdf.Document.PageCount` | index.js:67 | the page count of the document, zero exactly when it has no pages (after a save it is never zero, by `Document.Save`) |
| `Pdf.ConcatLength` | index.js:67 | the merged page count is the sum of the sources' page counts |
| `Pdf.ConcatAt` | index.js:55-64 | page p of source i lands at position (pages of sources 0..i-1) + p of the merged document |
| `Pdf.ConcatAppend` | index.js:57-64 | appending one more source's pages extends the merged pages by exactly those pages, in their order |
| `Pdf.ConcatSingle` | index.js:55 | with a single source, the merged pages are that source's pages |
| `Sequential.FailFast` | index.js:38-51 | a completed run has one value per element; a stopped run stops at an index inside the sequence |
| `Sequential.DoneIff` | index.js:38-51 | a run completes exactly when every step succeeds, and then value i is the result of step i, in input order |
| `Sequential.StoppedAtFirstFailure` | index.js:44-46 | a stopped run stops at a failing step, reports that step's error, and every earlier step succeeded |
| `Sequential.FirstFailureStops` | index.js:44-46 | the first failing step stops the run at its index, with its error |
| `Sequential.FailFastCongruent` | index.js:38-51 | a run depends only on what its step does on the sequence's elements |
| `Sequential.FailFastExtend` | index.js:48-49 | one more successful step appends its value to a completed run |
| `MergePipeline.Authorized` | index.js:20-21 | a request with the secret unset, or set to the empty string, is never authorised; an authorised request carries a header equal to the secret |
| `MergePipeline.TemplateText` | index.js:45-71 | a present string interpolates as itself (in the download message and the output path); the text is "undefined" exactly for a missing value or the string "undefined" |
| `MergePipeline.OutputPath` | index.js:71 | the path has length 17 + the lengths of order id and format, starts with "temp/" followed by the order id, and ends with ".pdf"; its full shape is used by `OutputPathSlash` and `OutputPathInjective` |
| `MergePipeline.Decode` | index.js:55-59 | a load step succeeds exactly when the buffer parses, with its pages; otherwise it fails with the loader's message |
| `MergePipeline.Pipeline` | index.js:18-96 | the reference for the whole request: a failed request leaves the store unchanged; a successful one adds or replaces only the reported path and reports at least one page; the other properties are carried by the lemmas below |
| `MergePipeline.DownloadFailure` | index.js:45 | the thrown message begins "Failed to download <path>: "; `DownloadFailureAborts` states the whole literal message |
| `MergePipeline.UploadFailure` | index.js:80 | the thrown message is "Failed to upload merged PDF: " followed by the store's message; `UploadFailureReported` states it as the response |
| `MergePipeline.ErrorText` | index.js:93 | the reported message is never empty, and it is the thrown message whenever that is non-empty |
| `MergePipeline.Fetch` | index.js:40-49 | one download step succeeds exactly when the path is readable, with the stored bytes; otherwise it fails with "Failed to download <path>: <error message or undefined>" |
| `MergePipeline.Gets` | index.js:38-42 | one download request per path, the i-th for the i-th path (the definition of the expected download log) |
| `MergePipeline.RejectsUnauthorized` | index.js:20-23 | the response is 401 exactly when the header is missing, empty or differs from the configured secret; then it is "Unauthorized", no request reaches the store and the store is unchanged |
| `MergePipeline.RejectsInvalidPaths` | index.js:27-29 | after authentication the response is 400 exactly when storagePaths is missing, not an array or empty; then it has the fixed message, no request reaches the store and the store is unchanged |
| `MergePipeline.DownloadFailureAborts` | index.js:44-46 | if path k is the first that cannot be downloaded, the response is 500 "Failed to download <path k>: ..."; the downloads issued are exactly paths 0..k, no upload happens and the store is unchanged |
| `MergePipeline.DecodeFailureAborts` | index.js:55-59 | if every download succeeds and buffer k is the first that does not load, the response is 500 with the loader's message; every path was downloaded, no upload happens and the store is unchanged |
| `MergePipeline.MergeSucceeds` | index.js:55-89 | with every download and load succeeding and the write accepted, the response is (temp/<orderId>/merged_<format>.pdf, size of the saved bytes, sum of page counts, or 1 when the sources have no pages); the saved pages are the sources' pages in path order (one blank page when there are none); the requests are the downloads in path order and then one upload; the store now maps the output path to the bytes |
| `MergePipeline.UploadFailureReported` | index.js:79-81 | when the write is rejected, the response is 500 "Failed to upload merged PDF: <message>"; the requests were every download in path order and then the one upload of the saved bytes to the output path; the store is unchanged |
| `MergePipeline.UploadsIffBothLoopsDone` | index.js:38-81 | after authentication and validation, an upload is requested exactly when the download loop and the merge loop both complete |
| `MergePipeline.UploadOnlyAfterSuccess` | index.js:33-81 | an upload is requested if and only if the request is authorised, the path list is non-empty, every path downloads and every buffer loads |
| `MergePipeline.ResponseAndStore` | index.js:79-94 | a failed request has status 400, 401 or 500 and leaves the store unchanged; a successful one ends with an upload to the reported path whose byte length is the reported size, and the store changes only at that path |
| `MergePipeline.RepublishIsIdempotent` | index.js:71-77 | re-running a successful request on the store it left behind, when its output path is not one of its inputs, gives the same response, requests and store |
| `MergePipeline.RepublishReplacesOutput` | index.js:71-77 | re-running a successful request on the store it left, when its output path is not one of its inputs, succeeds again whatever bytes save produces: same output path and page count, the same downloads, the same keys in the store, every other path unchanged, and the output path holding the newly uploaded bytes |
| `MergePipeline.OutputPathSlash` | index.js:71 | in the output path of an order id without '/', the first '/' after "temp/" directly follows the order id |
| `MergePipeline.OutputPathInjective` | index.js:71 | for order ids without '/', equal output paths mean equal order ids and equal formats, so an upsert only replaces the same order's output in the same format |
| `MergePipeline.OutputPathCollision` | index.js:71 | order id "a" with format "b/merged_c" and order id "a/merged_b" with format "c" get the same output path |
| `MergeHandler.DownloadBatches` | index.js:37-51 | the download loop returns the fail-fast run of the download steps over the paths; it logs one download per path in order, up to and including the first failing path |
| `MergeHandler.AddPages` | index.js:61-63 | the inner merge loop appends all copied pages to the merged document, in their order |
| `MergeHandler.MergeBatches` | index.js:55-64 | the merge loop fails with the first loader error; otherwise the merged document holds the loaded pages of all buffers, buffer after buffer, each in its own order |
| `MergeHandler.HandleMerge` | index.js:18-96 | the handler's response, its requests to the store (in order) and the store's final objects are exactly those of `Pipeline` |

## Left out

- Express setup, the JSON body size limit, the health-check route and `app.listen` are transport plumbing.
- Reading environment variables and constructing the storage client are configuration. The secret is the `Config` value, and the bucket is the `Bucket` handed to the handler.
- Logging (`console.log`, `console.error`) has no effect on behaviour.
- PDF parsing, `copyPages` internals and serialisation belong to the PDF library. `load` and `save` are abstract functions, and a copied page is modelled as the page itself.
- `save` and `copyPages` are modelled as never throwing.
- Reading the downloaded blob (`arrayBuffer`) is modelled as never failing.
- `Storage.Bucket.Upload` has the upsert semantics the handler always requests. An upload without upsert is never issued, so it is not modelled.
- The store answers every write with the same `writeError`, and its message is a plain string.
- `async`/`await` scheduling and concurrency between requests are not modelled. Each request runs as a sequence of steps.
- `orderNumber` is read from the body but never used.
- Body fields are taken in their string form. `storagePaths` entries that are not strings, and `orderId`/`format` values that are not strings, are not modelled. A missing one prints as "undefined", so a missing `orderId` and the string "undefined" yield the same output path.
- Permuting the paths need not change the page order: two documents without pages give the same empty order either way. This is not stated as a lemma.
- A decode failure is reported with the loader's own message, with no prefix naming the path or the kind of failure.
- `Storage.Answer`: a download fails only for a path that holds no object ("Object not found") or an object without data ("undefined"). A read error the store reports for an existing object, which the handler would report as "Failed to download <path>: <store message>", is not modelled.
- `MergePipeline.RepublishIsIdempotent`: the equal bytes on a re-run come from the model's `save`, which depends on the pages alone. The PDF library also writes metadata, such as a modification date stamped at load time, so a real re-run may upload different bytes of a different size. `RepublishReplacesOutput` states what holds whatever `save` returns.
