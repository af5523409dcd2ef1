/**
  The merger's queue, `filesData`: the PDF documents the user has added, in
  the order they will be merged, each with its own page-range text. The
  queue is changed in place by adding files, editing a range, removing an
  entry, dragging one entry onto another and clearing; ids come from a
  counter that only ever grows.

  Each operation is specified by a function on the sequence of entries, and
  the class `Queue` performs it on its fields; the lemmas say what each
  function does to the queue.
 */
module FileQueue {
  import opened Wrappers
  import opened Text
  import opened PdfLib

  /** One queued document: its id, file name, bytes, page count (taken when it was added) and range text. */
  datatype Entry = Entry(id: nat, name: string, data: Bytes, pageCount: nat, rangeStr: string)

  /** A `File` as the browser hands it over: MIME type, name and contents. */
  datatype PickedFile = PickedFile(mimeType: string, name: string, data: Bytes)

  // ---------------------------------------------------------------------
  // Choosing the files to add
  // ---------------------------------------------------------------------

  /** `f.type === 'application/pdf' || f.name.toLowerCase().endsWith('.pdf')` */
  predicate IsPdf(f: PickedFile)
  {
    f.mimeType == "application/pdf" || EndsWithIgnoringCase(f.name, ".pdf")
  }

  /** `Array.from(list).filter(f => f && isPdf(f))`: the present files that are PDFs, in order (`None` is a missing item). */
  function PickPdfs(files: seq<Option<PickedFile>>): seq<PickedFile>
  {
    if files == [] then []
    else
      var rest := PickPdfs(files[..|files| - 1]);
      var f := files[|files| - 1];
      if f.Some? && IsPdf(f.value) then rest + [f.value] else rest
  }

  /** A file is picked exactly when it is present in the list and is a PDF. */
  lemma {:induction false} PickPdfsMembers(files: seq<Option<PickedFile>>, f: PickedFile)
    ensures f in PickPdfs(files) <==> Some(f) in files && IsPdf(f)
  {
    if files != [] {
      var init := files[..|files| - 1];
      PickPdfsMembers(init, f);
      assert files == init + [files[|files| - 1]];
    }
  }

  /** Picking keeps the files in the order they were given. */
  lemma {:induction false} PickPdfsAppend(a: seq<Option<PickedFile>>, b: seq<Option<PickedFile>>)
    ensures PickPdfs(a + b) == PickPdfs(a) + PickPdfs(b)
  {
    if b == [] {
      assert a + b == a;
    } else {
      assert (a + b)[..|a + b| - 1] == a + b[..|b| - 1];
      PickPdfsAppend(a, b[..|b| - 1]);
    }
  }

  /** A file whose MIME type says PDF is accepted whatever its name. */
  lemma PdfByType(name: string, data: Bytes)
    ensures IsPdf(PickedFile("application/pdf", name, data))
  {
  }

  /** A file whose name ends in `.pdf` in any mix of cases is accepted whatever its type. */
  lemma PdfByName(mimeType: string, name: string, suffix: string, data: Bytes)
    requires |suffix| == 4 && forall i :: 0 <= i < 4 ==> ToLowerAscii(suffix[i]) == ".pdf"[i]
    ensures IsPdf(PickedFile(mimeType, name + suffix, data))
  {
    var n := name + suffix;
    assert forall i :: 0 <= i < 4 ==> n[|n| - 4 + i] == suffix[i];
  }

  /**
    A file of any other type is refused when its name is shorter than `.pdf`
    or its last character is not `f` or `F`.
   */
  lemma NotPdf(mimeType: string, name: string, data: Bytes)
    requires mimeType != "application/pdf"
    requires |name| < 4 || ToLowerAscii(name[|name| - 1]) != 'f'
    ensures !IsPdf(PickedFile(mimeType, name, data))
  {
    if |name| >= 4 {
      assert ToLowerAscii(name[|name| - 4 + 3]) != ".pdf"[3];
    }
  }

  // ---------------------------------------------------------------------
  // Queue invariants
  // ---------------------------------------------------------------------

  /** No two entries share an id. */
  predicate UniqueIds(s: seq<Entry>)
  {
    forall a, b :: 0 <= a < b < |s| ==> s[a].id != s[b].id
  }

  /** Every id was handed out by a counter now at `counter`. */
  predicate IdsBelow(s: seq<Entry>, counter: nat)
  {
    forall k :: 0 <= k < |s| ==> s[k].id < counter
  }

  /** `filesData.findIndex(f => f.id === id)`: the first position holding `id`, or -1. */
  function FindIndex(s: seq<Entry>, id: nat): (r: int)
    ensures -1 <= r < |s|
    ensures r >= 0 ==> s[r].id == id && forall k :: 0 <= k < r ==> s[k].id != id
    ensures r == -1 <==> forall k :: 0 <= k < |s| ==> s[k].id != id
  {
    if s == [] then -1
    else if s[0].id == id then 0
    else
      var r := FindIndex(s[1..], id);
      assert forall k :: 0 < k < |s| ==> s[k] == s[1..][k - 1];
      if r < 0 then -1 else r + 1
  }

  /** Under unique ids, the position holding `id` is the one and only. */
  lemma FindIndexUnique(s: seq<Entry>, id: nat, k: nat)
    requires UniqueIds(s) && k < |s| && s[k].id == id
    ensures FindIndex(s, id) == k
  {
  }

  // ---------------------------------------------------------------------
  // Adding files (addFile, handleFiles)
  // ---------------------------------------------------------------------

  /** The queue as a value: its entries and the id counter. */
  datatype State = State(entries: seq<Entry>, counter: nat)

  /**
    `addFile(file)`: if the library loads the file, an entry with the next id,
    its page count and an empty range is pushed and the counter advances;
    if loading fails nothing changes.
   */
  function AddOne(st: State, lib: Library, f: PickedFile): State
  {
    match lib.load(f.data)
    case None => st
    case Some(pageCount) =>
      State(st.entries + [Entry(st.counter, f.name, f.data, pageCount, "")], st.counter + 1)
  }

  /** `for (const file of picked) await addFile(file)` */
  function AddAll(st: State, lib: Library, files: seq<PickedFile>): State
  {
    if files == [] then st
    else AddOne(AddAll(st, lib, files[..|files| - 1]), lib, files[|files| - 1])
  }

  /** The ids are unique and below the counter: the invariant every queue operation keeps. */
  predicate ValidState(st: State)
  {
    UniqueIds(st.entries) && IdsBelow(st.entries, st.counter)
  }

  /** The files among `files` that the library loads, in order. */
  function Loaded(lib: Library, files: seq<PickedFile>): seq<PickedFile>
  {
    if files == [] then []
    else
      var rest := Loaded(lib, files[..|files| - 1]);
      var f := files[|files| - 1];
      if lib.load(f.data).Some? then rest + [f] else rest
  }

  /**
    A successful `addFile` appends exactly one entry at the end, with a fresh
    id, the loaded page count and an empty range, and keeps the ids unique;
    a failed one changes nothing.
   */
  lemma AddOneMeaning(st: State, lib: Library, f: PickedFile)
    requires ValidState(st)
    ensures var st' := AddOne(st, lib, f);
            ValidState(st') &&
            match lib.load(f.data)
            case None => st' == st
            case Some(n) =>
              && |st'.entries| == |st.entries| + 1
              && st'.entries[..|st.entries|] == st.entries
              && st'.entries[|st.entries|] == Entry(st.counter, f.name, f.data, n, "")
              && (forall k :: 0 <= k < |st.entries| ==> st'.entries[|st.entries|].id != st.entries[k].id)
              && st'.counter == st.counter + 1
  {
    var st' := AddOne(st, lib, f);
    if lib.load(f.data).Some? {
      assert st'.entries[..|st.entries|] == st.entries;
    }
  }

  /**
    Adding a batch of files keeps the queue valid, leaves the old entries in
    front untouched, and appends one entry per file the library loads, in
    the order given: the `k`-th loaded file becomes an entry with id
    `counter + k`, that file's name and bytes, the page count the library
    reports and an empty range. The counter advances by the number of
    files loaded.
   */
  lemma {:induction false} AddAllMeaning(st: State, lib: Library, files: seq<PickedFile>)
    requires ValidState(st)
    ensures var st', loaded := AddAll(st, lib, files), Loaded(lib, files);
            && ValidState(st')
            && |st'.entries| == |st.entries| + |loaded|
            && st'.entries[..|st.entries|] == st.entries
            && st'.counter == st.counter + |loaded|
            && forall k :: 0 <= k < |loaded| ==>
                 && lib.load(loaded[k].data).Some?
                 && st'.entries[|st.entries| + k] ==
                    Entry(st.counter + k, loaded[k].name, loaded[k].data, lib.load(loaded[k].data).value, "")
  {
    if files != [] {
      var init, f := files[..|files| - 1], files[|files| - 1];
      AddAllMeaning(st, lib, init);
      var mid := AddAll(st, lib, init);
      AddOneMeaning(mid, lib, f);
      var st' := AddOne(mid, lib, f);
      assert st'.entries[..|mid.entries|][..|st.entries|] == st'.entries[..|st.entries|];
      var before, loaded := Loaded(lib, init), Loaded(lib, files);
      if lib.load(f.data).Some? {
        assert loaded == before + [f];
        assert forall k :: 0 <= k < |before| ==> loaded[k] == before[k];
      }
    }
  }

  // ---------------------------------------------------------------------
  // Editing a range (the range input's handler)
  // ---------------------------------------------------------------------

  /** `entry.rangeStr = value` for the entry with id `id`. */
  function WithRange(s: seq<Entry>, id: nat, value: string): seq<Entry>
  {
    seq(|s|, k requires 0 <= k < |s| => if s[k].id == id then s[k].(rangeStr := value) else s[k])
  }

  /** Editing a range changes that entry's range text and nothing else: no other entry, and no other field. */
  lemma WithRangeMeaning(s: seq<Entry>, id: nat, value: string)
    ensures |WithRange(s, id, value)| == |s|
    ensures forall k :: 0 <= k < |s| ==>
              var e := WithRange(s, id, value)[k];
              e.id == s[k].id && e.name == s[k].name && e.data == s[k].data && e.pageCount == s[k].pageCount &&
              e.rangeStr == (if s[k].id == id then value else s[k].rangeStr)
    ensures UniqueIds(s) ==> UniqueIds(WithRange(s, id, value))
    ensures forall c: nat :: IdsBelow(s, c) ==> IdsBelow(WithRange(s, id, value), c)
  {
  }

  // ---------------------------------------------------------------------
  // Removing an entry (the Remove button)
  // ---------------------------------------------------------------------

  /** `filesData.filter(f => f.id !== id)` */
  function Without(s: seq<Entry>, id: nat): seq<Entry>
  {
    if s == [] then []
    else
      var rest := Without(s[..|s| - 1], id);
      if s[|s| - 1].id == id then rest else rest + [s[|s| - 1]]
  }

  /** An entry survives removal exactly when it was queued and has another id. */
  lemma {:induction false} WithoutMembers(s: seq<Entry>, id: nat, e: Entry)
    ensures e in Without(s, id) <==> e in s && e.id != id
  {
    if s != [] {
      WithoutMembers(s[..|s| - 1], id, e);
      assert s == s[..|s| - 1] + [s[|s| - 1]];
    }
  }

  /** Removing an id nobody has leaves the queue as it was. */
  lemma {:induction false} WithoutAbsent(s: seq<Entry>, id: nat)
    requires forall k :: 0 <= k < |s| ==> s[k].id != id
    ensures Without(s, id) == s
  {
    if s != [] {
      WithoutAbsent(s[..|s| - 1], id);
      assert s == s[..|s| - 1] + [s[|s| - 1]];
    }
  }

  lemma {:induction false} WithoutAppend(a: seq<Entry>, b: seq<Entry>, id: nat)
    ensures Without(a + b, id) == Without(a, id) + Without(b, id)
  {
    if b == [] {
      assert a + b == a;
    } else {
      assert (a + b)[..|a + b| - 1] == a + b[..|b| - 1];
      WithoutAppend(a, b[..|b| - 1], id);
    }
  }

  /**
    With unique ids, removing the id at position `k` takes out exactly that
    entry; the others keep their order.
   */
  lemma WithoutPresent(s: seq<Entry>, id: nat, k: nat)
    requires UniqueIds(s) && k < |s| && s[k].id == id
    ensures Without(s, id) == s[..k] + s[k + 1..]
  {
    var a, b := s[..k], s[k + 1..];
    assert forall j :: 0 <= j < |a| ==> a[j].id != id by {
      forall j | 0 <= j < |a| ensures a[j].id != id {
        assert a[j] == s[j];
      }
    }
    assert forall j :: 0 <= j < |b| ==> b[j].id != id by {
      forall j | 0 <= j < |b| ensures b[j].id != id {
        assert b[j] == s[k + 1 + j];
      }
    }
    assert s == a + [s[k]] + b;
    WithoutSplice(a, s[k], b, id);
  }

  /** Removing the id of the one entry between `a` and `b` that has it leaves `a + b`. */
  lemma WithoutSplice(a: seq<Entry>, x: Entry, b: seq<Entry>, id: nat)
    requires x.id == id
    requires forall j :: 0 <= j < |a| ==> a[j].id != id
    requires forall j :: 0 <= j < |b| ==> b[j].id != id
    ensures Without(a + [x] + b, id) == a + b
  {
    var ax := a + [x];
    assert Without(ax, id) == a by {
      assert ax[..|ax| - 1] == a;
      WithoutAbsent(a, id);
    }
    assert Without(ax + b, id) == Without(ax, id) + b by {
      WithoutAppend(ax, b, id);
      WithoutAbsent(b, id);
    }
  }

  /** Removal keeps the queue valid. */
  lemma {:induction false} WithoutValid(s: seq<Entry>, id: nat, counter: nat)
    requires UniqueIds(s) && IdsBelow(s, counter)
    ensures UniqueIds(Without(s, id)) && IdsBelow(Without(s, id), counter)
    ensures forall k :: 0 <= k < |Without(s, id)| ==> Without(s, id)[k].id != id
  {
    if s != [] {
      var init := s[..|s| - 1];
      WithoutValid(init, id, counter);
      WithoutMembers(init, id, s[|s| - 1]);
      var r := Without(init, id);
      forall k | 0 <= k < |r| ensures r[k].id != s[|s| - 1].id {
        WithoutMembers(init, id, r[k]);
      }
    }
  }

  // ---------------------------------------------------------------------
  // Drag and drop (the drop handler)
  // ---------------------------------------------------------------------

  /** `s.splice(i, 1)`: `s` without position `i`. */
  function RemoveAt(s: seq<Entry>, i: nat): seq<Entry>
    requires i < |s|
  {
    s[..i] + s[i + 1..]
  }

  /**
    `const [moved] = s.splice(i, 1); s.splice(j, 0, moved)`: the entry at `i`
    is taken out, then put back at index `j` of what is left.
   */
  function Moved(s: seq<Entry>, i: nat, j: nat): seq<Entry>
    requires i < |s| && j < |s|
  {
    var rest := RemoveAt(s, i);
    rest[..j] + [s[i]] + rest[j..]
  }

  /** The position in `s` that ends up at position `k` of `Moved(s, i, j)`. */
  function MovedFrom(i: nat, j: nat, k: nat): nat
  {
    if k == j then i
    else
      var r := if k < j then k else k - 1;
      if r < i then r else r + 1
  }

  lemma MovedAt(s: seq<Entry>, i: nat, j: nat, k: nat)
    requires i < |s| && j < |s| && k < |s|
    ensures |Moved(s, i, j)| == |s|
    ensures MovedFrom(i, j, k) < |s| && Moved(s, i, j)[k] == s[MovedFrom(i, j, k)]
  {
  }

  /** The move only rearranges: the queue holds the same entries as before. */
  lemma MovedPermutation(s: seq<Entry>, i: nat, j: nat)
    requires i < |s| && j < |s|
    ensures multiset(Moved(s, i, j)) == multiset(s)
  {
    var rest := RemoveAt(s, i);
    calc {
      multiset(Moved(s, i, j));
      multiset(rest[..j]) + multiset([s[i]]) + multiset(rest[j..]);
      { assert rest == rest[..j] + rest[j..]; }
      multiset(rest) + multiset([s[i]]);
      multiset(s[..i]) + multiset(s[i + 1..]) + multiset([s[i]]);
      { assert s == s[..i] + [s[i]] + s[i + 1..]; }
      multiset(s);
    }
  }

  /** The moved entry lands at the target's original index. */
  lemma MovedLands(s: seq<Entry>, i: nat, j: nat)
    requires i < |s| && j < |s|
    ensures Moved(s, i, j)[j] == s[i]
  {
  }

  /** Apart from the moved entry, every entry keeps its relative order. */
  lemma MovedKeepsOthers(s: seq<Entry>, i: nat, j: nat)
    requires i < |s| && j < |s|
    ensures RemoveAt(Moved(s, i, j), j) == RemoveAt(s, i)
  {
    var rest := RemoveAt(s, i);
    var m := Moved(s, i, j);
    assert m[..j] == rest[..j];
    assert m[j + 1..] == rest[j..];
  }

  /** Dragged backwards, the entry lands just before the target; dragged forwards, just after it. */
  lemma MovedNextToTarget(s: seq<Entry>, i: nat, j: nat)
    requires i < |s| && j < |s|
    ensures j < i ==> Moved(s, i, j)[j + 1] == s[j]
    ensures i < j ==> Moved(s, i, j)[j - 1] == s[j]
  {
    if j < i {
      MovedAt(s, i, j, j + 1);
    }
    if i < j {
      MovedAt(s, i, j, j - 1);
    }
  }

  /** The move keeps the queue valid: ids remain unique, and no new id appears. */
  lemma MovedValid(s: seq<Entry>, i: nat, j: nat, counter: nat)
    requires i < |s| && j < |s|
    requires UniqueIds(s) && IdsBelow(s, counter)
    ensures UniqueIds(Moved(s, i, j)) && IdsBelow(Moved(s, i, j), counter)
  {
    var m := Moved(s, i, j);
    forall a, b | 0 <= a < b < |m| ensures m[a].id != m[b].id {
      MovedAt(s, i, j, a);
      MovedAt(s, i, j, b);
    }
    forall k | 0 <= k < |m| ensures m[k].id < counter {
      MovedAt(s, i, j, k);
    }
  }

  /**
    The drop handler on `filesData`: nothing happens when there is no source
    id, when it is the target's, or when either id is not queued; otherwise
    the source entry is moved to the target's index.
   */
  function Reordered(s: seq<Entry>, srcId: Option<nat>, targetId: nat): seq<Entry>
  {
    if srcId.None? || srcId.value == targetId then s
    else
      var i, j := FindIndex(s, srcId.value), FindIndex(s, targetId);
      if i < 0 || j < 0 then s else Moved(s, i, j)
  }

  /** The three early returns of the drop handler leave the queue as it was. */
  lemma ReorderedNoOp(s: seq<Entry>, srcId: Option<nat>, targetId: nat)
    requires || srcId.None?
             || srcId.value == targetId
             || (forall k :: 0 <= k < |s| ==> s[k].id != srcId.value)
             || (forall k :: 0 <= k < |s| ==> s[k].id != targetId)
    ensures Reordered(s, srcId, targetId) == s
  {
  }

  /**
    A real move between two queued entries at positions `i` and `j`
    rearranges the queue: the source entry ends at index `j`, everything
    else keeps its relative order, and the queue stays valid.
   */
  lemma ReorderedMeaning(s: seq<Entry>, counter: nat, i: nat, j: nat)
    requires UniqueIds(s) && IdsBelow(s, counter)
    requires i < |s| && j < |s| && i != j
    ensures var r := Reordered(s, Some(s[i].id), s[j].id);
            && multiset(r) == multiset(s)
            && r[j] == s[i]
            && RemoveAt(r, j) == RemoveAt(s, i)
            && UniqueIds(r) && IdsBelow(r, counter)
  {
    FindIndexUnique(s, s[i].id, i);
    FindIndexUnique(s, s[j].id, j);
    assert Reordered(s, Some(s[i].id), s[j].id) == Moved(s, i, j);
    MovedPermutation(s, i, j);
    MovedLands(s, i, j);
    MovedKeepsOthers(s, i, j);
    MovedValid(s, i, j, counter);
  }

  /** Any drop, moved or not, keeps the queue valid. */
  lemma ReorderedValid(s: seq<Entry>, srcId: Option<nat>, targetId: nat, counter: nat)
    requires UniqueIds(s) && IdsBelow(s, counter)
    ensures UniqueIds(Reordered(s, srcId, targetId)) && IdsBelow(Reordered(s, srcId, targetId), counter)
  {
    if srcId.Some? && srcId.value != targetId {
      var i, j := FindIndex(s, srcId.value), FindIndex(s, targetId);
      if i >= 0 && j >= 0 {
        MovedValid(s, i, j, counter);
      }
    }
  }

  // ---------------------------------------------------------------------
  // The queue as the source keeps it
  // ---------------------------------------------------------------------

  /** `filesData` and `idCounter`. */
  class Queue {
    var entries: seq<Entry>
    var idCounter: nat

    predicate Valid()
      reads this
    {
      ValidState(State(entries, idCounter))
    }

    /** The initial state: no files, counter at zero. */
    constructor ()
      ensures Valid() && entries == [] && idCounter == 0
    {
      entries := [];
      idCounter := 0;
    }

    /** `generateId`: the current counter value, after which the counter advances (`idCounter++`). */
    method GenerateId() returns (id: nat)
      requires Valid()
      modifies this
      ensures Valid()
      ensures id == old(idCounter) && idCounter == old(idCounter) + 1 && entries == old(entries)
      ensures forall k :: 0 <= k < |entries| ==> entries[k].id != id
    {
      id := idCounter;
      idCounter := idCounter + 1;
    }

    /** `addFile`: load the file; on success push a new entry, on failure leave the queue alone. */
    method AddFile(lib: Library, file: PickedFile) returns (ok: bool)
      requires Valid()
      modifies this
      ensures Valid()
      ensures ok == lib.load(file.data).Some?
      ensures State(entries, idCounter) == AddOne(State(old(entries), old(idCounter)), lib, file)
    {
      var loaded := lib.load(file.data);
      if loaded.None? {
        return false;
      }
      var id := GenerateId();
      entries := entries + [Entry(id, file.name, file.data, loaded.value, "")];
      ok := true;
    }

    /** `handleFiles`: keep the PDFs among the given files, then add them one by one, in order. */
    method HandleFiles(lib: Library, files: seq<Option<PickedFile>>)
      requires Valid()
      modifies this
      ensures Valid()
      ensures State(entries, idCounter) == AddAll(State(old(entries), old(idCounter)), lib, PickPdfs(files))
    {
      var picked := PickPdfs(files);
      if |picked| == 0 {
        return;
      }
      for i := 0 to |picked|
        invariant Valid()
        invariant State(entries, idCounter) == AddAll(State(old(entries), old(idCounter)), lib, picked[..i])
      {
        assert picked[..i + 1][..i] == picked[..i];
        var _ := AddFile(lib, picked[i]);
      }
      assert picked[..|picked|] == picked;
    }

    /** The range input's handler: the entry's range text becomes `value`. */
    method SetRange(id: nat, value: string)
      requires Valid()
      modifies this
      ensures Valid()
      ensures entries == WithRange(old(entries), id, value) && idCounter == old(idCounter)
    {
      WithRangeMeaning(entries, id, value);
      entries := WithRange(entries, id, value);
    }

    /** The Remove button: every entry with that id is dropped. */
    method Remove(id: nat)
      requires Valid()
      modifies this
      ensures Valid()
      ensures entries == Without(old(entries), id) && idCounter == old(idCounter)
    {
      WithoutValid(entries, id, idCounter);
      entries := Without(entries, id);
    }

    /** The drop handler: the two `findIndex` lookups, the guards, and the two `splice` calls. */
    method Reorder(srcId: Option<nat>, targetId: nat)
      requires Valid()
      modifies this
      ensures Valid()
      ensures entries == Reordered(old(entries), srcId, targetId) && idCounter == old(idCounter)
    {
      if srcId.None? || srcId.value == targetId {
        return;
      }
      var srcIdx := FindIndex(entries, srcId.value);
      var tgtIdx := FindIndex(entries, targetId);
      if srcIdx < 0 || tgtIdx < 0 {
        return;
      }
      MovedValid(entries, srcIdx, tgtIdx, idCounter);
      ghost var before := entries;
      var moved := entries[srcIdx];
      entries := RemoveAt(entries, srcIdx);
      entries := entries[..tgtIdx] + [moved] + entries[tgtIdx..];
      assert entries == Moved(before, srcIdx, tgtIdx);
    }

    /** The Clear button: the queue is emptied; the counter is kept, so no id is ever handed out twice. */
    method Clear()
      requires Valid()
      modifies this
      ensures Valid()
      ensures entries == [] && idCounter == old(idCounter)
    {
      entries := [];
    }
  }
}
