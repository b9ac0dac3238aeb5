/**
 * The "print-queue" bucket of the object store, as the merge handler sees it:
 * `download(path)` answers with `{ data, error }`, and `upload(path, bytes,
 * { contentType, upsert: true })` either fails or replaces the object at `path`.
 */
module Storage {
  import opened Wrappers

  newtype byte = b: int | 0 <= b < 256

  type Bytes = seq<byte>

  /** Stored objects. A path mapped to None is an object whose download yields no data. */
  type Objects = map<string, Option<Bytes>>

  /** The text the store reports for a path that holds no object. */
  const NotFoundMessage: string := "Object not found"

  /** The `{ data, error }` pair a download answers with; `error` is the error's message. */
  datatype Reply = Reply(error: Option<string>, data: Option<Bytes>)

  /** One request issued to the store, in the order the handler issues them. */
  datatype Call = Get(path: string) | Put(path: string, bytes: Bytes, contentType: string)

  /** A download of `path` succeeds with data. */
  predicate Readable(objects: Objects, path: string)
  {
    path in objects && objects[path].Some?
  }

  /** What the store answers to a download of `path`. */
  function Answer(objects: Objects, path: string): (r: Reply)
    ensures r.error.None? && r.data.Some? <==> Readable(objects, path)
    ensures Readable(objects, path) ==> r.data == objects[path]
    ensures path !in objects ==> r.error == Some(NotFoundMessage)
  {
    if path !in objects then Reply(Some(NotFoundMessage), None)
    else Reply(None, objects[path])
  }

  class Bucket {
    var objects: Objects
    /** What the store answers to a write: None accepts it, Some(m) rejects it with message m. */
    var writeError: Option<string>
    /** Every request issued to the store, oldest first. */
    ghost var log: seq<Call>

    constructor (objects: Objects, writeError: Option<string>)
      ensures this.objects == objects && this.writeError == writeError && log == []
    {
      this.objects := objects;
      this.writeError := writeError;
      log := [];
    }

    method Download(path: string) returns (reply: Reply)
      modifies this`log
      ensures reply == Answer(objects, path)
      ensures log == old(log) + [Get(path)]
    {
      reply := Answer(objects, path);
      log := log + [Get(path)];
    }

    /** An upload with `upsert: true`: on success the object at `path` is replaced whatever it held. */
    method Upload(path: string, bytes: Bytes, contentType: string) returns (error: Option<string>)
      modifies this`objects, this`log
      ensures error == writeError
      ensures objects == if error.None? then old(objects)[path := Some(bytes)] else old(objects)
      ensures log == old(log) + [Put(path, bytes, contentType)]
    {
      error := writeError;
      if error.None? {
        objects := objects[path := Some(bytes)];
      }
      log := log + [Put(path, bytes, contentType)];
    }
  }
}
