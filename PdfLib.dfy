/**
  The parts of the PDF-lib library the merger calls, as an abstract value.
  The library itself is not modelled: what the merger relies on is that
  loading a buffer either fails or yields a document with some number of
  pages, that copying pages out of a loaded document fails for an index it
  does not have, and that saving the assembled document either fails or
  yields bytes.
 */
module PdfLib {
  import opened Wrappers

  newtype byte = x: int | 0 <= x < 256

  /** The contents of an `ArrayBuffer`. */
  type Bytes = seq<byte>

  /** A page of the output document: page `index` (zero-based) of the entry at queue position `entry`. */
  datatype Page = Page(entry: nat, index: nat)

  /**
    `PDFDocument.load(buffer).getPageCount()` as `load`, which yields `None`
    where the library throws; `outDoc.copyPages(srcDoc, indices)` for the
    document loaded from the given bytes as `copies`, which says whether the
    call completes when every index is a page of that document (it always
    throws on one that is not); and `PDFDocument.save()` on a document made
    of the given pages as `save`.
   */
  datatype Library = Library(
    load: Bytes -> Option<nat>,
    copies: (Bytes, seq<nat>) -> bool,
    save: seq<Page> -> Option<Bytes>)

  /**
    `outDoc.copyPages(srcDoc, indices)`, where `srcDoc` was loaded from `src`
    with `pageCount` pages and sits at queue position `entry`: one copied
    page per index, in the order given, or a failure when an index is not a
    page of that document or the library throws for another reason.
   */
  function CopyPages(lib: Library, src: Bytes, entry: nat, pageCount: nat, indices: seq<nat>): Option<seq<Page>>
  {
    if (forall k :: 0 <= k < |indices| ==> indices[k] < pageCount) && lib.copies(src, indices)
    then Some(seq(|indices|, k requires 0 <= k < |indices| => Page(entry, indices[k])))
    else None
  }
}
