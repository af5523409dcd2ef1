/**
  `mergePdfs`: walk the queue in order, load each entry's bytes again,
  resolve its range text to page indices, copy those pages into the output
  document and, once every entry is in, save the document and name the
  download. Any failure of the library ends the merge with nothing saved;
  an empty queue does nothing at all.
 */
module Merge {
  import opened Wrappers
  import opened Text
  import opened PdfLib
  import opened RangeParser
  import opened FileQueue

  /** What pressing Merge leads to: nothing (empty queue), a failure, or a saved document and its file name. */
  datatype Outcome = NoOp | Failed | Done(pages: seq<Page>, bytes: Bytes, fileName: string)

  // ---------------------------------------------------------------------
  // The download's file name
  // ---------------------------------------------------------------------

  /** `field || 'merged.pdf'`: the field's text, or the default name when it is empty. */
  function FieldOrDefault(field: string): string
  {
    if field == [] then "merged.pdf" else field
  }

  /** The suffix rule: `name` if it already ends in `.pdf` (in any case), otherwise `name + ".pdf"`. */
  function WithPdf(name: string): string
  {
    if EndsWithIgnoringCase(name, ".pdf") then name else name + ".pdf"
  }

  /** `a.download` for the text of the name field: trim the field (or the default), then apply the suffix rule. */
  function OutputName(field: string): string
  {
    WithPdf(Trim(FieldOrDefault(field)))
  }

  /**
    The suffix rule always gives a name ending in `.pdf`; applied to a name
    without whitespace at its ends, it gives a non-empty name without
    whitespace at its ends.
   */
  lemma WithPdfShape(name: string)
    ensures EndsWithIgnoringCase(WithPdf(name), ".pdf")
    ensures name == [] || (!IsSpace(name[0]) && !IsSpace(name[|name| - 1])) ==>
            var out := WithPdf(name);
            out != [] && !IsSpace(out[0]) && !IsSpace(out[|out| - 1])
  {
    if EndsWithIgnoringCase(name, ".pdf") {
      assert |".pdf"| == 4 && |name| >= 4;
    } else {
      var out := name + ".pdf";
      EndsWithAppended(name, ".pdf");
      assert out[|out| - 1] == 'f';
      assert out[0] == if name == [] then '.' else name[0];
    }
  }

  /** The download name always ends in `.pdf`, compared without regard to case. */
  lemma OutputNameEndsInPdf(field: string)
    ensures EndsWithIgnoringCase(OutputName(field), ".pdf")
  {
    WithPdfShape(Trim(FieldOrDefault(field)));
  }

  /** A name that ends in `.pdf` and has no whitespace at its ends is its own download name. */
  lemma OutputNameFixed(name: string)
    requires name != [] && !IsSpace(name[0]) && !IsSpace(name[|name| - 1])
    requires EndsWithIgnoringCase(name, ".pdf")
    ensures OutputName(name) == name
  {
    assert FieldOrDefault(name) == name;
    TrimUnchanged(name);
  }

  /** An empty field gives `merged.pdf`. */
  lemma OutputNameDefault()
    ensures OutputName("") == "merged.pdf"
  {
    assert FieldOrDefault("") == "merged.pdf";
    DefaultTrimmed();
    DefaultEndsInPdf();
  }

  lemma DefaultTrimmed()
    ensures Trim("merged.pdf") == "merged.pdf"
  {
    var d := "merged.pdf";
    assert !IsSpace(d[0]) && !IsSpace(d[|d| - 1]);
    TrimUnchanged(d);
  }

  lemma DefaultEndsInPdf()
    ensures WithPdf("merged.pdf") == "merged.pdf"
  {
    EndsWithAppended("merged", ".pdf");
    assert "merged" + ".pdf" == "merged.pdf";
  }

  /** A field that, trimmed, already ends in `.pdf` (in any case) is used as trimmed. */
  lemma OutputNameKeepsPdf(field: string)
    requires field != [] && EndsWithIgnoringCase(Trim(field), ".pdf")
    ensures OutputName(field) == Trim(field)
  {
  }

  /** Any other non-empty field is trimmed and gets `.pdf` appended. */
  lemma OutputNameAddsPdf(field: string)
    requires field != [] && !EndsWithIgnoringCase(Trim(field), ".pdf")
    ensures OutputName(field) == Trim(field) + ".pdf"
  {
  }

  /** A field of whitespace only is not empty, so it escapes the default, trims to nothing and becomes `.pdf`. */
  lemma OutputNameBlank(field: string)
    requires field != [] && IsBlank(field)
    ensures OutputName(field) == ".pdf"
  {
    assert Trim(field) == [];
    assert [] + ".pdf" == ".pdf";
  }

  /** Feeding a download name back into the field gives the same name: the rule is idempotent. */
  lemma OutputNameIdempotent(field: string)
    ensures OutputName(OutputName(field)) == OutputName(field)
  {
    WithPdfShape(Trim(FieldOrDefault(field)));
    OutputNameFixed(OutputName(field));
  }

  // ---------------------------------------------------------------------
  // The merged pages
  // ---------------------------------------------------------------------

  /** `parsePageRange(entry.rangeStr, entry.pageCount)` */
  function EntryIndices(e: Entry): seq<nat>
  {
    PageRange(e.rangeStr, e.pageCount)
  }

  /** The pages the entry at queue position `pos` contributes, in the order of its indices. */
  function EntryPages(pos: nat, e: Entry): seq<Page>
  {
    var idx := EntryIndices(e);
    seq(|idx|, k requires 0 <= k < |idx| => Page(pos, idx[k]))
  }

  /** For each entry in queue order, the pages it contributes. */
  function MergedPages(es: seq<Entry>): seq<Page>
  {
    if es == [] then [] else MergedPages(es[..|es| - 1]) + EntryPages(|es| - 1, es[|es| - 1])
  }

  /** One pass of the loop: reload the entry's bytes and copy the pages its range selects. */
  function Step(lib: Library, pos: nat, e: Entry): Option<seq<Page>>
  {
    match lib.load(e.data)
    case None => None
    case Some(count) => CopyPages(lib, e.data, pos, count, EntryIndices(e))
  }

  /** The loop over the whole queue: the pages in the output document, or `None` once a pass fails. */
  function Assemble(lib: Library, es: seq<Entry>): Option<seq<Page>>
  {
    if es == [] then Some([])
    else
      match Assemble(lib, es[..|es| - 1])
      case None => None
      case Some(pages) =>
        match Step(lib, |es| - 1, es[|es| - 1])
        case None => None
        case Some(copied) => Some(pages + copied)
  }

  /** The outcome of `mergePdfs` for the queue `es` and the text of the name field. */
  function MergeResult(lib: Library, es: seq<Entry>, field: string): Outcome
  {
    if es == [] then NoOp
    else
      match Assemble(lib, es)
      case None => Failed
      case Some(pages) =>
        match lib.save(pages)
        case None => Failed
        case Some(bytes) => Done(pages, bytes, OutputName(field))
  }

  // ---------------------------------------------------------------------
  // What the merge does
  // ---------------------------------------------------------------------

  /**
    A pass succeeds exactly when the bytes load into a document that has
    every selected page and the library completes the copy, and then yields
    the entry's pages.
   */
  lemma StepMeaning(lib: Library, pos: nat, e: Entry)
    ensures Step(lib, pos, e).Some? <==>
            && lib.load(e.data).Some?
            && (forall k :: 0 <= k < |EntryIndices(e)| ==> EntryIndices(e)[k] < lib.load(e.data).value)
            && lib.copies(e.data, EntryIndices(e))
    ensures Step(lib, pos, e).Some? ==> Step(lib, pos, e).value == EntryPages(pos, e)
  {
  }

  /** The loop gets through the queue exactly when every pass succeeds, and it then holds the merged pages. */
  lemma {:induction false} AssembleMeaning(lib: Library, es: seq<Entry>)
    ensures Assemble(lib, es).Some? <==> forall p :: 0 <= p < |es| ==> Step(lib, p, es[p]).Some?
    ensures Assemble(lib, es).Some? ==> Assemble(lib, es).value == MergedPages(es)
  {
    if es != [] {
      var init := es[..|es| - 1];
      AssembleMeaning(lib, init);
      assert forall p :: 0 <= p < |init| ==> init[p] == es[p];
      StepMeaning(lib, |es| - 1, es[|es| - 1]);
    }
  }

  /** The loop over the first `i + 1` entries is the loop over the first `i` followed by one more pass. */
  lemma AssembleSnoc(lib: Library, es: seq<Entry>, i: nat)
    requires i < |es|
    ensures Assemble(lib, es[..i + 1]) ==
            match Assemble(lib, es[..i])
            case None => None
            case Some(pages) =>
              match Step(lib, i, es[i])
              case None => None
              case Some(copied) => Some(pages + copied)
  {
    assert es[..i + 1][..i] == es[..i];
  }

  /** Once the loop has failed on a prefix of the queue, the merge as a whole fails. */
  lemma AssembleFailsOnPrefix(lib: Library, es: seq<Entry>, i: nat)
    requires i <= |es| && Assemble(lib, es[..i]) == None
    ensures Assemble(lib, es) == None
  {
    AssembleMeaning(lib, es[..i]);
    AssembleMeaning(lib, es);
    var p :| 0 <= p < i && Step(lib, p, es[..i][p]).None?;
    assert es[..i][p] == es[p];
  }

  /** An empty queue is the one case in which pressing Merge does nothing. */
  lemma MergeNoOpExactly(lib: Library, es: seq<Entry>, field: string)
    ensures MergeResult(lib, es, field) == NoOp <==> es == []
  {
  }

  /**
    On success the output holds, for each entry in queue order, the pages
    its range selects in the order the range gives them, and the download is
    named by the output-name rule; the merge fails exactly when some pass
    fails or saving fails.
   */
  lemma MergeMeaning(lib: Library, es: seq<Entry>, field: string)
    requires es != []
    ensures MergeResult(lib, es, field).Done? <==>
            (forall p :: 0 <= p < |es| ==> Step(lib, p, es[p]).Some?) && lib.save(MergedPages(es)).Some?
    ensures MergeResult(lib, es, field).Done? ==>
            && MergeResult(lib, es, field).pages == MergedPages(es)
            && MergeResult(lib, es, field).bytes == lib.save(MergedPages(es)).value
            && MergeResult(lib, es, field).fileName == OutputName(field)
  {
    AssembleMeaning(lib, es);
  }

  /**
    If the library loads every entry again with the page count it had when
    the entry was added, every selected index is a page, so a pass fails
    only where the library throws while copying for some other reason;
    when it does not, only saving can make the merge fail.
   */
  lemma MergeOfReloadable(lib: Library, es: seq<Entry>, field: string)
    requires es != []
    requires forall p :: 0 <= p < |es| ==> lib.load(es[p].data) == Some(es[p].pageCount)
    requires forall p :: 0 <= p < |es| ==> lib.copies(es[p].data, EntryIndices(es[p]))
    ensures MergeResult(lib, es, field) ==
            match lib.save(MergedPages(es))
            case None => Failed
            case Some(bytes) => Done(MergedPages(es), bytes, OutputName(field))
  {
    forall p | 0 <= p < |es| ensures Step(lib, p, es[p]).Some? {
      PageRangeValid(es[p].rangeStr, es[p].pageCount);
      StepMeaning(lib, p, es[p]);
    }
    AssembleMeaning(lib, es);
  }

  /** The pages of the first `n` entries begin the output. */
  lemma {:induction false} MergedPagesPrefix(es: seq<Entry>, n: nat)
    requires n <= |es|
    ensures MergedPages(es[..n]) <= MergedPages(es)
  {
    if n < |es| {
      var init := es[..|es| - 1];
      MergedPagesPrefix(init, n);
      assert init[..n] == es[..n];
    } else {
      assert es[..n] == es;
    }
  }

  /** Entry `p`'s pages follow those of the entries before it, in the order of its indices, and precede the rest. */
  lemma MergedPagesAt(es: seq<Entry>, p: nat)
    requires p < |es|
    ensures MergedPages(es[..p + 1]) == MergedPages(es[..p]) + EntryPages(p, es[p])
    ensures MergedPages(es[..p]) + EntryPages(p, es[p]) <= MergedPages(es)
  {
    assert es[..p + 1][..p] == es[..p];
    MergedPagesPrefix(es, p + 1);
  }

  /** A page is in the output exactly when its entry is queued and that entry's range selects it. */
  lemma {:induction false} MergedPagesMembers(es: seq<Entry>, pg: Page)
    ensures pg in MergedPages(es) <==> pg.entry < |es| && pg.index in EntryIndices(es[pg.entry])
  {
    if es != [] {
      var init := es[..|es| - 1];
      MergedPagesMembers(init, pg);
      var last := EntryPages(|es| - 1, es[|es| - 1]);
      assert pg in last <==> pg.entry == |es| - 1 && pg.index in EntryIndices(es[|es| - 1]) by {
        if pg in last {
          var k :| 0 <= k < |last| && last[k] == pg;
        }
        if pg.entry == |es| - 1 && pg.index in EntryIndices(es[|es| - 1]) {
          var idx := EntryIndices(es[|es| - 1]);
          var k :| 0 <= k < |idx| && idx[k] == pg.index;
          assert last[k] == pg;
        }
      }
      if pg.entry < |init| {
        assert init[pg.entry] == es[pg.entry];
      }
    }
  }

  /** The output follows the queue: no page of a later entry comes before a page of an earlier one. */
  lemma {:induction false} MergedPagesInQueueOrder(es: seq<Entry>)
    ensures forall a, b :: 0 <= a < b < |MergedPages(es)| ==> MergedPages(es)[a].entry <= MergedPages(es)[b].entry
    ensures forall a :: 0 <= a < |MergedPages(es)| ==> MergedPages(es)[a].entry < |es|
  {
    if es != [] {
      var init := es[..|es| - 1];
      MergedPagesInQueueOrder(init);
      var m, prev, last := MergedPages(es), MergedPages(init), EntryPages(|es| - 1, es[|es| - 1]);
      assert m == prev + last;
      assert forall a :: |prev| <= a < |m| ==> m[a] == last[a - |prev|];
    }
  }

  // ---------------------------------------------------------------------
  // The merge as the source runs it
  // ---------------------------------------------------------------------

  /** `for (const page of copied) outDoc.addPage(page)`: the copied pages go to the end of the output, in order. */
  method AddPages(pages: seq<Page>, copied: seq<Page>) returns (pages': seq<Page>)
    ensures pages' == pages + copied
  {
    pages' := pages;
    for k := 0 to |copied|
      invariant pages' == pages + copied[..k]
    {
      assert copied[..k + 1] == copied[..k] + [copied[k]];
      pages' := pages' + [copied[k]];
    }
    assert copied[..|copied|] == copied;
  }

  /**
    The body of the merge loop for the entry at position `pos`: reload it,
    resolve its range, copy the pages and add them; `ok` is false where the
    library throws.
   */
  method AddEntry(lib: Library, pages: seq<Page>, pos: nat, entry: Entry) returns (ok: bool, pages': seq<Page>)
    ensures ok == Step(lib, pos, entry).Some?
    ensures ok ==> pages' == pages + Step(lib, pos, entry).value
  {
    var srcDoc := lib.load(entry.data);
    if srcDoc.None? {
      return false, pages;
    }
    var pageIndices := ParsePageRange(entry.rangeStr, entry.pageCount);
    var copied := CopyPages(lib, entry.data, pos, srcDoc.value, pageIndices);
    if copied.None? {
      return false, pages;
    }
    pages' := AddPages(pages, copied.value);
    ok := true;
  }

  /**
    `mergePdfs`: reads the queue and never changes it. The loop handles each
    entry in queue order; then the document is saved and named.
   */
  method MergePdfs(q: Queue, lib: Library, outputField: string) returns (r: Outcome)
    ensures r == MergeResult(lib, q.entries, outputField)
  {
    var es := q.entries;
    if |es| == 0 {
      return NoOp;
    }
    var pages: seq<Page> := [];
    for i := 0 to |es|
      invariant Assemble(lib, es[..i]) == Some(pages)
    {
      AssembleSnoc(lib, es, i);
      var ok;
      ok, pages := AddEntry(lib, pages, i, es[i]);
      if !ok {
        AssembleFailsOnPrefix(lib, es, i + 1);
        return Failed;
      }
    }
    assert es[..|es|] == es;
    var bytes := lib.save(pages);
    if bytes.None? {
      return Failed;
    }
    var name := OutputName(outputField);
    return Done(pages, bytes.value, name);
  }
}
