/** The unpacker from the read binary to the files it writes
    (src/main.rs:55-105): locate the footer, carve out the two sections,
    find and decode the resource dictionary in the content section, then run
    the extraction loop over the resource section. Every step before the
    loop either succeeds or stops the program before anything is written. */
module Unpacker {

  import opened Bytes
  import opened Errors
  import opened Search
  import opened Float64
  import opened Footer
  import opened Metadata
  import opened Extract
  import Paths

  /** What the steps before the loop establish. */
  datatype Prepared = Prepared(footer: Footer, layout: Layout, metadataStart: nat, entries: Resources)

  /** Lines 55-87. `parse` stands for serde_json applied to the bytes after
      the marker. */
  function Prepare(binary: seq<byte>, parse: seq<byte> -> Json): (r: Result<Prepared>)
    ensures r.Success? ==> Fits(binary, r.value.layout)
    ensures r.Success? ==>
      LocateFooter(binary) == Success(r.value.footer) &&
      ComputeLayout(r.value.footer) == Success(r.value.layout)
    ensures r.Failure? ==>
      r.error in {InvalidExecutable, TruncatedMetadata, SectionUnderflow, InvalidContentSection,
                  UnparsableMetadata, MalformedMetadata, MissingResources}
  {
    var footer :- LocateFooter(binary);
    var layout :- ComputeLayout(footer);
    SectionsTile(binary, footer, layout);
    var content := ContentSection(binary, layout);
    var start :- MetadataStart(content);
    var dictionary :- ReadDictionary(parse(content[start..]));
    ResourcesOfSpec(dictionary);
    var entries :- ResourcesOf(dictionary);
    Success(Prepared(footer, layout, start, entries))
  }

  /** Lines 55-105: the files written and the error the program ends with. */
  function Outcome(binary: seq<byte>, parse: seq<byte> -> Json): (r: Run)
    ensures r.error == None ==> Prepare(binary, parse).Success?
    ensures r.error.Some? && r.error.value !in {PayloadOutOfRange, InvalidFilename} ==> r.written == []
  {
    match Prepare(binary, parse)
    case Failure(e) => Run([], Some(e))
    case Success(p) => Extraction(ResourceSection(binary, p.layout), p.entries)
  }

  /** Lines 55-105, step by step, with the two byte searches as loops. */
  method Unpack(binary: seq<byte>, parse: seq<byte> -> Json) returns (run: Run)
    ensures run == Outcome(binary, parse)
  {
    var found := RFind(binary, SENTINEL);
    if found.None? {
      return Run([], Some(InvalidExecutable));
    }
    var position := found.value;
    var contentSize := ReadLength(binary, position + |SENTINEL|);
    if contentSize.Failure? {
      return Run([], Some(contentSize.error));
    }
    var resourceSize := ReadLength(binary, position + |SENTINEL| + 8);
    if resourceSize.Failure? {
      return Run([], Some(resourceSize.error));
    }
    var footer := Footer(position, contentSize.value, resourceSize.value);
    assert LocateFooter(binary) == Success(footer);
    var layout := ComputeLayout(footer);
    if layout.Failure? {
      return Run([], Some(layout.error));
    }
    SectionsTile(binary, footer, layout.value);
    var content := ContentSection(binary, layout.value);
    var marker := Find(content, MARKER);
    FirstOccurrenceSpec(content, MARKER);
    if marker.None? {
      return Run([], Some(InvalidContentSection));
    }
    var start := marker.value + |MARKER|;
    var dictionary := ReadDictionary(parse(content[start..]));
    if dictionary.Failure? {
      return Run([], Some(dictionary.error));
    }
    var entries := ResourcesOf(dictionary.value);
    if entries.Failure? {
      return Run([], Some(entries.error));
    }
    assert MetadataStart(content) == Success(start);
    PrepareSteps(binary, parse, footer, layout.value, start, dictionary.value, entries.value);
    run := ExtractAll(binary, layout.value, entries.value);
  }

  /** An error raised before the loop leaves nothing written; an error raised
      by the loop comes after every entry before it was written. */
  lemma {:induction false} FailuresBeforeLoopWriteNothing(binary: seq<byte>, parse: seq<byte> -> Json)
    ensures var run := Outcome(binary, parse);
      run.error.Some? && run.error.value !in {PayloadOutOfRange, InvalidFilename} ==> run.written == []
    ensures Prepare(binary, parse).Failure? <==>
      Outcome(binary, parse).error.Some? &&
      Outcome(binary, parse).error.value !in {PayloadOutOfRange, InvalidFilename}
  {
    match Prepare(binary, parse)
    case Failure(e) =>
    case Success(p) => ExtractionErrors(ResourceSection(binary, p.layout), p.entries);
  }

  /** "Invalid nexe executable" is reported exactly when the binary holds no
      sentinel, and "Truncated nexe metadata" exactly when the last sentinel
      is followed by fewer than 16 bytes. */
  lemma FooterErrors(binary: seq<byte>, parse: seq<byte> -> Json)
    ensures Outcome(binary, parse) == Run([], Some(InvalidExecutable)) <==>
      forall q: nat :: !OccursAt(binary, SENTINEL, q)
    ensures Outcome(binary, parse) == Run([], Some(TruncatedMetadata)) <==>
      exists p: nat :: OccursAt(binary, SENTINEL, p) && |binary| < p + FOOTER_SIZE
  {
    FailuresBeforeLoopWriteNothing(binary, parse);
    PrepareFailsAtFooter(binary, parse);
    LocateFooterSpec(binary);
  }

  /** The first two errors can come only from the footer. */
  lemma PrepareFailsAtFooter(binary: seq<byte>, parse: seq<byte> -> Json)
    ensures LocateFooter(binary).Failure? ==> Prepare(binary, parse) == Failure(LocateFooter(binary).error)
    ensures LocateFooter(binary).Success? && Prepare(binary, parse).Failure? ==>
      Prepare(binary, parse).error !in {InvalidExecutable, TruncatedMetadata}
  {
    if LocateFooter(binary).Success? && Prepare(binary, parse).Failure? {
      var footer := LocateFooter(binary).value;
      match ComputeLayout(footer)
      case Failure(_) =>
      case Success(layout) =>
        SectionsTile(binary, footer, layout);
        var content := ContentSection(binary, layout);
        match MetadataStart(content)
        case Failure(_) =>
        case Success(start) =>
          match ReadDictionary(parse(content[start..]))
          case Failure(_) =>
          case Success(dictionary) => ResourcesOfSpec(dictionary);
    }
  }

  /** Once the footer is found, "the sizes do not fit" is reported exactly
      when the two sizes exceed what precedes the sentinel; nothing is
      written then. */
  lemma OversizedSectionsRejected(binary: seq<byte>, parse: seq<byte> -> Json, f: Footer)
    requires LocateFooter(binary) == Success(f)
    ensures Outcome(binary, parse) == Run([], Some(SectionUnderflow)) <==>
      f.contentSize + f.resourceSize > f.position
  {
    FailuresBeforeLoopWriteNothing(binary, parse);
    if f.contentSize + f.resourceSize <= f.position {
      LayoutOfFooter(f);
      PrepareAfterLayout(binary, parse);
    }
  }

  /** The footer was found and its sizes fit before the sentinel. */
  predicate SectionsFound(binary: seq<byte>)
  {
    LocateFooter(binary).Success? && ComputeLayout(LocateFooter(binary).value).Success?
  }

  /** Line 78: `ContentSection` at the layout computed from the located
      footer; it serves to state `MetadataErrors`. */
  function Content(binary: seq<byte>): (c: seq<byte>)
    requires SectionsFound(binary)
    ensures |c| == LocateFooter(binary).value.contentSize
  {
    var f := LocateFooter(binary).value;
    var l := ComputeLayout(f).value;
    SectionsTile(binary, f, l);
    ContentSection(binary, l)
  }

  /** Line 83: the bytes handed to the JSON reader, right after the marker. */
  function JsonText(binary: seq<byte>): (t: seq<byte>)
    requires SectionsFound(binary) && MetadataStart(Content(binary)).Success?
    ensures |t| == |Content(binary)| - MetadataStart(Content(binary)).value
  {
    Content(binary)[MetadataStart(Content(binary)).value..]
  }

  /** The four errors of lines 80-87, over the whole program: each one is
      reported, with nothing written, exactly when every earlier step
      succeeded and its own step fails. */
  lemma MetadataErrors(binary: seq<byte>, parse: seq<byte> -> Json)
    ensures Outcome(binary, parse) == Run([], Some(InvalidContentSection)) <==>
      SectionsFound(binary) && MetadataStart(Content(binary)).Failure?
    ensures Outcome(binary, parse) == Run([], Some(UnparsableMetadata)) <==>
      SectionsFound(binary) && MetadataStart(Content(binary)).Success? &&
      parse(JsonText(binary)) == NoValue
    ensures Outcome(binary, parse) == Run([], Some(MalformedMetadata)) <==>
      SectionsFound(binary) && MetadataStart(Content(binary)).Success? &&
      parse(JsonText(binary)) == Malformed
    ensures Outcome(binary, parse) == Run([], Some(MissingResources)) <==>
      SectionsFound(binary) && MetadataStart(Content(binary)).Success? &&
      parse(JsonText(binary)).Parsed? &&
      forall i :: 0 <= i < |parse(JsonText(binary)).dictionary| ==>
        parse(JsonText(binary)).dictionary[i].0 != RESOURCES_KEY
  {
    FailuresBeforeLoopWriteNothing(binary, parse);
    if SectionsFound(binary) {
      PrepareAfterLayout(binary, parse);
    } else {
      PrepareFailsAtFooter(binary, parse);
    }
  }

  /** `Prepare` past the layout step: the error it stops with, if any, is
      the one of the first of lines 80-87 that fails. */
  lemma PrepareAfterLayout(binary: seq<byte>, parse: seq<byte> -> Json)
    requires SectionsFound(binary)
    ensures MetadataStart(Content(binary)).Failure? ==> Prepare(binary, parse) == Failure(InvalidContentSection)
    ensures MetadataStart(Content(binary)).Success? ==>
      match parse(JsonText(binary))
      case NoValue => Prepare(binary, parse) == Failure(UnparsableMetadata)
      case Malformed => Prepare(binary, parse) == Failure(MalformedMetadata)
      case Parsed(d) =>
        (Prepare(binary, parse) == Failure(MissingResources) <==>
          forall i :: 0 <= i < |d| ==> d[i].0 != RESOURCES_KEY) &&
        (Prepare(binary, parse).Failure? ==> Prepare(binary, parse).error == MissingResources)
  {
    var f := LocateFooter(binary).value;
    var l := ComputeLayout(f).value;
    SectionsTile(binary, f, l);
    var content := ContentSection(binary, l);
    assert Content(binary) == content;
    match MetadataStart(content)
    case Failure(_) =>
    case Success(s) =>
      assert JsonText(binary) == content[s..];
      match parse(content[s..])
      case NoValue =>
      case Malformed =>
      case Parsed(d) => ResourcesOfSpec(d);
  }

  /** When the steps before the loop succeed, every written file is a slice
      of the binary that starts at or after the resource section's start and
      ends at or before the sentinel: no payload reaches into the footer or
      the content section. Its path is the sanitised name of its entry. */
  lemma WrittenFilesComeFromResourceSection(binary: seq<byte>, parse: seq<byte> -> Json, p: Prepared, i: nat)
    requires Prepare(binary, parse) == Success(p)
    requires i < |Outcome(binary, parse).written|
    ensures i < |p.entries|
    ensures var rs := p.layout.resourceStart;
      var o := p.entries[i].1;
      rs + o.startOffset + o.endOffset <= p.footer.position &&
      Outcome(binary, parse).written[i] ==
        File(Paths.Sanitize(p.entries[i].0), binary[rs + o.startOffset..rs + o.startOffset + o.endOffset])
  {
    PreparedOutcome(binary, parse, p);
    WrittenFileInBinary(binary, p.layout, p.entries, i);
  }

  /** Once the steps before the loop succeed, the outcome is the loop's run
      over the resource section, which ends where the sentinel starts. */
  lemma PreparedOutcome(binary: seq<byte>, parse: seq<byte> -> Json, p: Prepared)
    requires Prepare(binary, parse) == Success(p)
    ensures Fits(binary, p.layout)
    ensures p.layout.resourceStart + p.layout.resourceSize == p.footer.position
    ensures Outcome(binary, parse) == Extraction(ResourceSection(binary, p.layout), p.entries)
  {
  }

  /** `WrittenFilesComeFromResourceSection` for a given layout and entries. */
  lemma WrittenFileInBinary(binary: seq<byte>, l: Layout, entries: Resources, i: nat)
    requires Fits(binary, l)
    requires i < |Extraction(ResourceSection(binary, l), entries).written|
    ensures i < |entries|
    ensures var rs := l.resourceStart;
      var o := entries[i].1;
      o.startOffset + o.endOffset <= l.resourceSize &&
      Extraction(ResourceSection(binary, l), entries).written[i] ==
        File(Paths.Sanitize(entries[i].0), binary[rs + o.startOffset..rs + o.startOffset + o.endOffset])
  {
    var resource := ResourceSection(binary, l);
    ExtractedFile(resource, entries, i);
    FileFromSection(binary, l, Extraction(resource, entries).written[i], entries[i].0, entries[i].1);
  }

  /** A file cut from the resource section is the same range of the binary. */
  lemma FileFromSection(binary: seq<byte>, l: Layout, f: File, name: string, o: Offsets)
    requires Fits(binary, l) && o.startOffset + o.endOffset <= l.resourceSize
    requires f.path == Paths.Sanitize(name)
    requires f.data == ResourceSection(binary, l)[o.startOffset..o.startOffset + o.endOffset]
    ensures f == File(Paths.Sanitize(name),
                      binary[l.resourceStart + o.startOffset..l.resourceStart + o.startOffset + o.endOffset])
  {
    SliceOfSlice(binary, l.resourceStart, l.resourceStart + l.resourceSize,
                 o.startOffset, o.startOffset + o.endOffset);
  }

  lemma SliceOfSlice<T>(s: seq<T>, lo: nat, hi: nat, a: nat, b: nat)
    requires lo <= hi <= |s| && a <= b <= hi - lo
    ensures s[lo..hi][a..b] == s[lo + a..lo + b]
  {
    var t := s[lo..hi];
    assert forall k :: 0 <= k < b - a ==> t[a..b][k] == t[a + k] == s[lo + a + k];
  }

  /** The packaging round trip. A binary made of a body that ends with a
      content section (holding the marker and the dictionary) followed by a
      resource section, then the sentinel and the two encoded sizes, is
      unpacked into exactly one file per entry, in order, holding that
      entry's range of the resource section, when every range lies in the
      section and every sanitised path has a parent. Whatever precedes the
      content section in the body (the node runtime, decoy sentinels) plays
      no part. */
  lemma RoundTrip(body: seq<byte>, content: seq<byte>, resource: seq<byte>,
                  parse: seq<byte> -> Json, dictionary: Dictionary, entries: Resources)
    requires |content| < TWO_53 && |resource| < TWO_53
    requires EndsWithSections(body, content, resource)
    requires MetadataStart(content).Success?
    requires parse(content[MetadataStart(content).value..]) == Parsed(dictionary)
    requires ResourcesOf(dictionary) == Success(entries)
    requires forall i :: 0 <= i < |entries| ==>
      entries[i].1.startOffset + entries[i].1.endOffset <= |resource| &&
      Paths.HasParent(Paths.Sanitize(entries[i].0))
    ensures
      var run := Outcome(WithFooter(body, |content|, |resource|), parse);
      run.error == None && |run.written| == |entries| &&
      forall i :: 0 <= i < |entries| ==>
        var o := entries[i].1;
        run.written[i] == File(Paths.Sanitize(entries[i].0), resource[o.startOffset..o.startOffset + o.endOffset])
  {
    var binary := WithFooter(body, |content|, |resource|);
    var footer := Footer(|body|, |content|, |resource|);
    var layout := Layout(|body| - |resource| - |content|, |content|, |body| - |resource|, |resource|);
    LocatePackedFooter(body, |content|, |resource|);
    PackedLayout(body, content, resource);
    PackedSections(body, content, resource);
    PrepareSteps(binary, parse, footer, layout, MetadataStart(content).value, dictionary, entries);
    ExtractionWritesAll(resource, entries);
  }

  /** `Prepare` succeeds when each of its steps does. */
  lemma PrepareSteps(binary: seq<byte>, parse: seq<byte> -> Json, footer: Footer, layout: Layout,
                     start: nat, dictionary: Dictionary, entries: Resources)
    requires LocateFooter(binary) == Success(footer)
    requires ComputeLayout(footer) == Success(layout)
    requires Fits(binary, layout)
    requires MetadataStart(ContentSection(binary, layout)) == Success(start)
    requires parse(ContentSection(binary, layout)[start..]) == Parsed(dictionary)
    requires ResourcesOf(dictionary) == Success(entries)
    ensures Prepare(binary, parse) == Success(Prepared(footer, layout, start, entries))
    ensures Outcome(binary, parse) == Extraction(ResourceSection(binary, layout), entries)
  {
  }

  /** `body` ends with `content` immediately followed by `resource`. */
  predicate EndsWithSections<T(==)>(body: seq<T>, content: seq<T>, resource: seq<T>)
  {
    |content| + |resource| <= |body| &&
    body[|body| - |resource|..] == resource &&
    body[|body| - |resource| - |content|..|body| - |resource|] == content
  }

  /** The sizes in a packed footer give back the sections that were packed. */
  lemma PackedLayout(body: seq<byte>, content: seq<byte>, resource: seq<byte>)
    requires EndsWithSections(body, content, resource)
    ensures ComputeLayout(Footer(|body|, |content|, |resource|))
         == Success(Layout(|body| - |resource| - |content|, |content|, |body| - |resource|, |resource|))
  {
    LayoutOfFooter(Footer(|body|, |content|, |resource|));
  }

  /** The sections the unpacker carves out of a packed binary are the ones
      that were packed. */
  lemma PackedSections(body: seq<byte>, content: seq<byte>, resource: seq<byte>)
    requires |content| < TWO_53 && |resource| < TWO_53
    requires EndsWithSections(body, content, resource)
    ensures
      var binary := WithFooter(body, |content|, |resource|);
      var layout := Layout(|body| - |resource| - |content|, |content|, |body| - |resource|, |resource|);
      Fits(binary, layout) &&
      ContentSection(binary, layout) == content &&
      ResourceSection(binary, layout) == resource
  {
    WithFooterPrefix(body, |content|, |resource|);
    SectionsOfPrefix(WithFooter(body, |content|, |resource|), body, content, resource);
  }

  /** A binary that starts with such a body holds its sections where the body does. */
  lemma SectionsOfPrefix(binary: seq<byte>, body: seq<byte>, content: seq<byte>, resource: seq<byte>)
    requires EndsWithSections(body, content, resource)
    requires |body| <= |binary| && binary[..|body|] == body
    ensures
      var layout := Layout(|body| - |resource| - |content|, |content|, |body| - |resource|, |resource|);
      Fits(binary, layout) &&
      ContentSection(binary, layout) == content &&
      ResourceSection(binary, layout) == resource
  {
    SliceOfPrefix(binary, body, |body| - |resource| - |content|, |body| - |resource|);
    SliceOfPrefix(binary, body, |body| - |resource|, |body|);
  }

  lemma SliceOfPrefix<T>(s: seq<T>, prefix: seq<T>, a: nat, b: nat)
    requires |prefix| <= |s| && s[..|prefix|] == prefix && a <= b <= |prefix|
    ensures s[a..b] == prefix[a..b]
  {
    assert forall k :: 0 <= k < b - a ==> s[a..b][k] == s[..|prefix|][a + k];
  }

}
