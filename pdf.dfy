/**
 * The PDF library as the merge handler uses it. Parsing and serialisation are
 * abstract: a Codec decodes bytes into a sequence of opaque pages (or fails)
 * and serialises pages into bytes. A Document is the in-memory document that
 * pages are appended to. Saving a document without pages first adds one
 * blank page, as the library's default save options do.
 */
module Pdf {
  import opened Storage

  datatype Decoded<P> = Parsed(pages: seq<P>) | Malformed(message: string)

  /** The library: `load` parses bytes, `save` serialises pages, `blank` is the page a save adds to an empty document. */
  datatype Codec<!P> = Codec(load: Bytes -> Decoded<P>, save: seq<P> -> Bytes, blank: P)

  /** The pages a save writes: the document's pages, or one blank page when it has none. */
  function SavedPages<P>(pages: seq<P>, blank: P): (saved: seq<P>)
    ensures |saved| == if |pages| == 0 then 1 else |pages|
    ensures pages != [] ==> saved == pages
    ensures pages == [] ==> saved == [blank]
  {
    if pages == [] then [blank] else pages
  }

  class Document<P> {
    var pages: seq<P>

    /** The document a successful load yields. */
    constructor FromPages(pages: seq<P>)
      ensures this.pages == pages
    {
      this.pages := pages;
    }

    /** The number of pages; zero exactly for a document without pages. */
    function PageCount(): (n: nat)
      reads this
      ensures n == 0 <==> pages == []
    {
      |pages|
    }

    /** The indices of all pages, in order. */
    function PageIndices(): (indices: seq<nat>)
      reads this
      ensures |indices| == |pages|
      ensures forall i :: 0 <= i < |indices| ==> indices[i] == i
    {
      var n := |pages|;
      seq(n, i requires 0 <= i < n => i)
    }

    /** Copies of the pages of `src` at `indices`, in the order of `indices`; nothing is added to this document. */
    method CopyPages(src: Document<P>, indices: seq<nat>) returns (copies: seq<P>)
      requires forall k :: 0 <= k < |indices| ==> indices[k] < |src.pages|
      ensures |copies| == |indices|
      ensures forall k :: 0 <= k < |indices| ==> copies[k] == src.pages[indices[k]]
    {
      var srcPages := src.pages;
      copies := seq(|indices|, k requires 0 <= k < |indices| => srcPages[indices[k]]);
    }

    /** Serialises the document, first adding a blank page to a document that has none. */
    method Save(codec: Codec<P>) returns (bytes: Bytes)
      modifies this`pages
      ensures pages == SavedPages(old(pages), codec.blank)
      ensures bytes == codec.save(pages)
    {
      if pages == [] {
        pages := [codec.blank];
      }
      bytes := codec.save(pages);
    }

    method AddPage(page: P)
      modifies this`pages
      ensures pages == old(pages) + [page]
    {
      pages := pages + [page];
    }
  }

  /** The pages of all documents, document after document. */
  function Concat<P>(docs: seq<seq<P>>): seq<P>
  {
    if docs == [] then [] else Concat(docs[..|docs| - 1]) + docs[|docs| - 1]
  }

  /** The sum of the page counts of all documents. */
  function TotalPages<P>(docs: seq<seq<P>>): nat
  {
    if docs == [] then 0 else TotalPages(docs[..|docs| - 1]) + |docs[|docs| - 1]|
  }

  lemma {:induction false} ConcatLength<P>(docs: seq<seq<P>>)
    ensures |Concat(docs)| == TotalPages(docs)
  {
    if docs != [] {
      ConcatLength(docs[..|docs| - 1]);
    }
  }

  /** Page p of document i sits right after the pages of documents 0..i-1. */
  lemma {:induction false} ConcatAt<P>(docs: seq<seq<P>>, i: nat, p: nat)
    requires i < |docs| && p < |docs[i]|
    ensures TotalPages(docs[..i]) + p < |Concat(docs)|
    ensures Concat(docs)[TotalPages(docs[..i]) + p] == docs[i][p]
  {
    var init := docs[..|docs| - 1];
    ConcatLength(init);
    if i == |docs| - 1 {
      assert docs[..i] == init;
    } else {
      assert init[..i] == docs[..i];
      assert init[i] == docs[i];
      ConcatAt(init, i, p);
    }
  }

  lemma ConcatAppend<P>(docs: seq<seq<P>>, doc: seq<P>)
    ensures Concat(docs + [doc]) == Concat(docs) + doc
  {
  }

  lemma ConcatSingle<P>(doc: seq<P>)
    ensures Concat([doc]) == doc
  {
  }
}
