/** The extraction loop (src/main.rs:89-105): for every entry of the
    "resources" map, in the map's order, the payload is sliced out of the
    resource section and written under the sanitised path. The first entry
    that fails stops the loop; files already written stay written. */
module Extract {

  import opened Bytes
  import opened Errors
  import opened Float64
  import opened Footer
  import opened Metadata
  import opened Paths

  /** A file the loop writes: its (sanitised) path relative to the output
      directory, and its contents. */
  datatype File = File(path: string, data: seq<byte>)

  /** The files written, in order, and the error that stopped the loop, if any. */
  datatype Run = Run(written: seq<File>, error: Option<Error>)

  /** Line 100: `&resource[start_offset..start_offset + end_offset]`;
      `end_offset` is the payload's length, not an index. */
  function Payload(resource: seq<byte>, o: Offsets): (r: Result<seq<byte>>)
    ensures r.Success? <==> o.startOffset + o.endOffset <= |resource|
    ensures r.Failure? ==> r.error == PayloadOutOfRange
    ensures r.Success? ==>
      |r.value| == o.endOffset &&
      forall i :: 0 <= i < o.endOffset ==> r.value[i] == resource[o.startOffset + i]
  {
    if o.startOffset + o.endOffset <= |resource| then
      Success(resource[o.startOffset..o.startOffset + o.endOffset])
    else
      Failure(PayloadOutOfRange)
  }

  /** Without overflow checks, `start_offset + end_offset` on line 100 wraps
      modulo 2^64. The wrapped range is still a valid slice of a resource
      section exactly when the unbounded sum fits in it, so `Payload` is exact
      for every value the JSON reader can produce. */
  lemma WrappedRangeAgrees(resourceSize: nat, o: Offsets)
    requires resourceSize <= USIZE_MAX
    requires o.startOffset <= USIZE_MAX && o.endOffset <= USIZE_MAX
    ensures var end := (o.startOffset + o.endOffset) % (USIZE_MAX + 1);
      (o.startOffset <= end <= resourceSize) <==> o.startOffset + o.endOffset <= resourceSize
  {
    var sum := o.startOffset + o.endOffset;
    if sum > USIZE_MAX {
      assert sum % (USIZE_MAX + 1) == sum - (USIZE_MAX + 1);
    }
  }

  /** One pass of the loop body (lines 91-104): the payload is sliced before
      the parent directory of the sanitised path is asked for. */
  function ExtractEntry(resource: seq<byte>, entry: (string, Offsets)): (r: Result<File>)
    ensures r.Success? ==>
      r.value.path == Sanitize(entry.0) && HasParent(r.value.path) && |r.value.data| == entry.1.endOffset
    ensures r.Failure? ==> r.error in {PayloadOutOfRange, InvalidFilename}
  {
    var path := Sanitize(entry.0);
    var data :- Payload(resource, entry.1);
    if HasParent(path) then Success(File(path, data)) else Failure(InvalidFilename)
  }

  /** The whole loop over `entries`, defined on prefixes: the run over all
      entries but the last, then the last entry only if nothing failed yet. */
  function Extraction(resource: seq<byte>, entries: Resources): (r: Run)
    ensures |r.written| <= |entries|
    ensures r.error.Some? ==> r.error.value in {PayloadOutOfRange, InvalidFilename}
  {
    if entries == [] then Run([], None)
    else
      var before := Extraction(resource, entries[..|entries| - 1]);
      if before.error.Some? then before
      else match ExtractEntry(resource, entries[|entries| - 1])
        case Failure(e) => Run(before.written, Some(e))
        case Success(f) => Run(before.written + [f], None)
  }

  /** What the loop does, entry by entry: the first `k` entries are written
      in map order, each exactly as `ExtractEntry` makes it; the loop finishes
      without error exactly when every entry was written; otherwise entry `k`
      is the one that failed, with the error reported, and nothing after it
      is attempted. With no entries nothing is written and nothing fails. */
  lemma {:induction false} ExtractionSpec(resource: seq<byte>, entries: Resources)
    ensures var run := Extraction(resource, entries);
      |run.written| <= |entries| &&
      (forall i :: 0 <= i < |run.written| ==> ExtractEntry(resource, entries[i]) == Success(run.written[i])) &&
      (run.error == None <==> |run.written| == |entries|) &&
      (run.error.Some? ==> ExtractEntry(resource, entries[|run.written|]) == Failure(run.error.value))
  {
    if entries != [] {
      var front := entries[..|entries| - 1];
      ExtractionSpec(resource, front);
      assert forall i :: 0 <= i < |front| ==> front[i] == entries[i];
    }
  }

  /** Once an entry has failed, later entries change nothing. */
  lemma {:induction false} ExtractionStops(resource: seq<byte>, entries: Resources, k: nat)
    requires k <= |entries|
    requires Extraction(resource, entries[..k]).error.Some?
    ensures Extraction(resource, entries) == Extraction(resource, entries[..k])
    decreases |entries| - k
  {
    if k < |entries| {
      var next := entries[..k + 1];
      assert next[..k] == entries[..k];
      assert Extraction(resource, next) == Extraction(resource, entries[..k]);
      ExtractionStops(resource, entries, k + 1);
    } else {
      assert entries[..k] == entries;
    }
  }

  /** Every written file carries the sanitised path of its entry, that path
      has a parent directory, and its contents are the entry's byte range of
      the resource section, which lies inside the section. Entries may share
      or overlap ranges; each still gets exactly its own range. */
  lemma ExtractedFile(resource: seq<byte>, entries: Resources, i: nat)
    requires i < |Extraction(resource, entries).written|
    ensures i < |entries|
    ensures var f := Extraction(resource, entries).written[i];
      var o := entries[i].1;
      f.path == Sanitize(entries[i].0) && HasParent(f.path) &&
      o.startOffset + o.endOffset <= |resource| &&
      f.data == resource[o.startOffset..o.startOffset + o.endOffset]
  {
    ExtractionSpec(resource, entries);
  }

  /** When every entry's range lies in the section and every sanitised path
      has a parent, the loop writes one file per entry, in order, and ends
      without error. */
  lemma ExtractionWritesAll(resource: seq<byte>, entries: Resources)
    requires forall i :: 0 <= i < |entries| ==>
      entries[i].1.startOffset + entries[i].1.endOffset <= |resource| &&
      HasParent(Sanitize(entries[i].0))
    ensures var run := Extraction(resource, entries);
      run.error == None && |run.written| == |entries| &&
      forall i :: 0 <= i < |entries| ==>
        var o := entries[i].1;
        run.written[i] == File(Sanitize(entries[i].0), resource[o.startOffset..o.startOffset + o.endOffset])
  {
    var run := Extraction(resource, entries);
    ExtractionSpec(resource, entries);
    assert forall k :: 0 <= k < |entries| ==> ExtractEntry(resource, entries[k]).Success?;
    forall i | 0 <= i < |entries|
      ensures var o := entries[i].1;
        run.written[i] == File(Sanitize(entries[i].0), resource[o.startOffset..o.startOffset + o.endOffset])
    {
      ExtractedFile(resource, entries, i);
    }
  }

  /** The only errors the loop itself reports. */
  lemma ExtractionErrors(resource: seq<byte>, entries: Resources)
    ensures Extraction(resource, entries).error.Some? ==>
      Extraction(resource, entries).error.value in {PayloadOutOfRange, InvalidFilename}
  {
    ExtractionSpec(resource, entries);
  }

  /** Lines 89-105. The resource section is sliced out of the binary on every
      pass, as the source does. */
  method ExtractAll(binary: seq<byte>, l: Layout, entries: Resources) returns (run: Run)
    requires Fits(binary, l)
    ensures run == Extraction(ResourceSection(binary, l), entries)
  {
    var written: seq<File> := [];
    var i := 0;
    while i < |entries|
      invariant 0 <= i <= |entries|
      invariant Extraction(ResourceSection(binary, l), entries[..i]) == Run(written, None)
    {
      var (name, offsets) := entries[i];
      var path := Sanitize(name);
      var resource := binary[l.resourceStart..l.resourceStart + l.resourceSize];
      assert entries[..i + 1][..i] == entries[..i];
      if offsets.startOffset + offsets.endOffset > |resource| {
        run := Run(written, Some(PayloadOutOfRange));
        ExtractionStops(resource, entries, i + 1);
        return;
      }
      var data := resource[offsets.startOffset..offsets.startOffset + offsets.endOffset];
      if !HasParent(path) {
        run := Run(written, Some(InvalidFilename));
        ExtractionStops(resource, entries, i + 1);
        return;
      }
      written := written + [File(path, data)];
      i := i + 1;
    }
    assert entries[..i] == entries;
    run := Run(written, None);
  }
}
