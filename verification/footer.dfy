/** The footer of a nexe executable and the two sections it describes:

      ... [content section] [resource section] <nexe~~sentinel> [content_size] [resource_size]

    The footer is found by the LAST occurrence of the 16-byte sentinel; the two
    8-byte length fields follow it, and the sections are carved out backwards
    from the sentinel's position (src/main.rs:56-78). */
module Footer {

  import opened Bytes
  import opened Errors
  import opened Search
  import opened Float64

  /** b"<nexe~~sentinel>" */
  const SENTINEL: seq<byte> :=
    [0x3C, 0x6E, 0x65, 0x78, 0x65, 0x7E, 0x7E, 0x73, 0x65, 0x6E, 0x74, 0x69, 0x6E, 0x65, 0x6C, 0x3E]

  /** Bytes from the sentinel's first byte to the end of the second length field. */
  const FOOTER_SIZE: nat := 32

  /** `get_float_from_buf(buf, index)`: the length field stored at `index`. */
  function ReadLength(buf: seq<byte>, index: nat): (r: Result<nat>)
    ensures r.Success? <==> index + 8 <= |buf|
    ensures r.Failure? ==> r.error == TruncatedMetadata
    ensures r.Success? ==> r.value <= USIZE_MAX
  {
    if index + 8 <= |buf| then
      ToUsizeInRange(buf[index..index + 8]);
      Success(ToUsize(buf[index..index + 8]))
    else
      Failure(TruncatedMetadata)
  }

  /** A length field depends on its own 8 bytes and on nothing else in the binary. */
  lemma ReadLengthIsLocal(a: seq<byte>, b: seq<byte>, index: nat)
    requires index + 8 <= |a| && index + 8 <= |b|
    requires a[index..index + 8] == b[index..index + 8]
    ensures ReadLength(a, index) == ReadLength(b, index)
  {
  }

  /** A length written by the packager is read back unchanged, whatever
      surrounds it. */
  lemma ReadLengthOfEncoded(front: seq<byte>, n: nat, back: seq<byte>)
    requires n < TWO_53
    ensures ReadLength(front + FromUsize(n) + back, |front|) == Success(n)
  {
    var buf := front + FromUsize(n) + back;
    assert buf[|front|..|front| + 8] == FromUsize(n);
    FromUsizeRoundTrip(n);
  }

  datatype Footer = Footer(position: nat, contentSize: nat, resourceSize: nat)

  /** Lines 56-63: the sentinel's last position and the two sizes after it. */
  function LocateFooter(binary: seq<byte>): (r: Result<Footer>)
    ensures r.Success? ==> r.value.position + FOOTER_SIZE <= |binary|
    ensures r.Failure? ==> r.error in {InvalidExecutable, TruncatedMetadata}
  {
    match LastOccurrence(binary, SENTINEL)
    case None => Failure(InvalidExecutable)
    case Some(p) =>
      var contentSize :- ReadLength(binary, p + 16);
      var resourceSize :- ReadLength(binary, p + 24);
      Success(Footer(p, contentSize, resourceSize))
  }

  /** The footer is found at the last sentinel, and its sizes are the two
      doubles that follow it. "Invalid nexe executable" is reported exactly
      when there is no sentinel at all, "Truncated nexe metadata" exactly
      when the last one is followed by fewer than 16 bytes. */
  lemma LocateFooterSpec(binary: seq<byte>)
    ensures var r := LocateFooter(binary);
      (r.Success? ==>
        var p := r.value.position;
        OccursAt(binary, SENTINEL, p) &&
        (forall q: nat :: p < q ==> !OccursAt(binary, SENTINEL, q)) &&
        p + FOOTER_SIZE <= |binary| &&
        r.value.contentSize == ToUsize(binary[p + 16..p + 24]) &&
        r.value.resourceSize == ToUsize(binary[p + 24..p + 32])) &&
      (r == Failure(InvalidExecutable) <==> forall q: nat :: !OccursAt(binary, SENTINEL, q)) &&
      (r == Failure(TruncatedMetadata) <==>
        exists p: nat :: OccursAt(binary, SENTINEL, p) && |binary| < p + FOOTER_SIZE) &&
      (r.Failure? ==> r.error in {InvalidExecutable, TruncatedMetadata})
  {
    LastOccurrenceSpec(binary, SENTINEL);
    match LastOccurrence(binary, SENTINEL)
    case None =>
    case Some(p) =>
      assert forall q: nat :: OccursAt(binary, SENTINEL, q) ==> q <= p;
  }

  datatype Layout = Layout(contentStart: nat, contentSize: nat, resourceStart: nat, resourceSize: nat)

  /** Lines 66-69. Both subtractions of line 66 are checked: a size that
      exceeds what lies before the sentinel is an error, never a wrap-around. */
  function ComputeLayout(f: Footer): (r: Result<Layout>)
    ensures r.Success? <==> f.resourceSize + f.contentSize <= f.position
    ensures r.Failure? ==> r.error == SectionUnderflow
    ensures r.Success? ==>
      var l := r.value;
      l.contentSize == f.contentSize && l.resourceSize == f.resourceSize &&
      l.contentStart + l.contentSize + l.resourceSize == f.position &&
      l.resourceStart + l.resourceSize == f.position &&
      l.contentStart + l.contentSize == l.resourceStart
  {
    if f.resourceSize > f.position || f.contentSize > f.position - f.resourceSize then
      Failure(SectionUnderflow)
    else
      var contentStart := f.position - f.resourceSize - f.contentSize;
      var resourceStart := contentStart + f.contentSize;
      Success(Layout(contentStart, f.contentSize, resourceStart, f.resourceSize))
  }

  /** Sizes that fit before the sentinel give the sections that end there:
      the resource section right before the sentinel, the content section
      right before it. */
  lemma LayoutOfFooter(f: Footer)
    requires f.contentSize + f.resourceSize <= f.position
    ensures ComputeLayout(f) == Success(Layout(f.position - f.resourceSize - f.contentSize, f.contentSize,
                                               f.position - f.resourceSize, f.resourceSize))
  {
  }

  /** The layout describes two adjacent sections inside `binary`. */
  predicate Fits(binary: seq<byte>, l: Layout)
  {
    l.contentStart + l.contentSize == l.resourceStart &&
    l.resourceStart + l.resourceSize <= |binary|
  }

  /** Line 78. */
  function ContentSection(binary: seq<byte>, l: Layout): (c: seq<byte>)
    requires Fits(binary, l)
    ensures |c| == l.contentSize
  {
    binary[l.contentStart..l.contentStart + l.contentSize]
  }

  /** Line 99. */
  function ResourceSection(binary: seq<byte>, l: Layout): (c: seq<byte>)
    requires Fits(binary, l)
    ensures |c| == l.resourceSize
  {
    binary[l.resourceStart..l.resourceStart + l.resourceSize]
  }

  /** The content section, the resource section and the sentinel follow each
      other with no gap and no overlap: the resource section ends exactly
      where the sentinel begins, so it never holds footer bytes. */
  lemma SectionsTile(binary: seq<byte>, f: Footer, l: Layout)
    requires LocateFooter(binary) == Success(f) && ComputeLayout(f) == Success(l)
    ensures Fits(binary, l)
    ensures |ContentSection(binary, l)| == f.contentSize
    ensures |ResourceSection(binary, l)| == f.resourceSize
    ensures l.resourceStart + l.resourceSize == f.position
    ensures ContentSection(binary, l) + ResourceSection(binary, l) + SENTINEL
         == binary[l.contentStart..f.position + |SENTINEL|]
  {
    LocateFooterSpec(binary);
    TileBeforeSentinel(binary, f, l);
  }

  lemma TileBeforeSentinel(binary: seq<byte>, f: Footer, l: Layout)
    requires OccursAt(binary, SENTINEL, f.position) && f.position + FOOTER_SIZE <= |binary|
    requires ComputeLayout(f) == Success(l)
    ensures Fits(binary, l)
    ensures |ContentSection(binary, l)| == f.contentSize
    ensures |ResourceSection(binary, l)| == f.resourceSize
    ensures l.resourceStart + l.resourceSize == f.position
    ensures ContentSection(binary, l) + ResourceSection(binary, l) + SENTINEL
         == binary[l.contentStart..f.position + |SENTINEL|]
  {
    SplitSlice(binary, l.contentStart, l.resourceStart, f.position, f.position + |SENTINEL|);
  }

  lemma SplitSlice<T>(s: seq<T>, a: nat, b: nat, c: nat, d: nat)
    requires a <= b <= c <= d <= |s|
    ensures s[a..d] == s[a..b] + s[b..c] + s[c..d]
  {
  }

  /** Only the first sentinel byte is '<', and the last byte of an encoded
      length (at most 0x43) is never the sentinel's eighth byte 's' (0x73);
      so a sentinel that is followed by two encoded lengths is the last one. */
  lemma SentinelFacts()
    ensures |SENTINEL| == 16
    ensures forall k :: 1 <= k < 16 ==> SENTINEL[k] != SENTINEL[0]
    ensures SENTINEL[7] == 0x73
  {
  }

  /** What the packager appends to `front`: the sentinel and the two sizes,
      each written as a little-endian double. */
  function WithFooter(front: seq<byte>, contentSize: nat, resourceSize: nat): (b: seq<byte>)
    requires contentSize < TWO_53 && resourceSize < TWO_53
  {
    front + SENTINEL + FromUsize(contentSize) + FromUsize(resourceSize)
  }

  /** Appending the footer keeps the body as it is and adds 32 bytes. */
  lemma WithFooterPrefix(front: seq<byte>, contentSize: nat, resourceSize: nat)
    requires contentSize < TWO_53 && resourceSize < TWO_53
    ensures |WithFooter(front, contentSize, resourceSize)| == |front| + FOOTER_SIZE
    ensures WithFooter(front, contentSize, resourceSize)[..|front|] == front
  {
  }

  /** The footer the packager appends is the one the locator finds, with the
      sizes that were written into it, whatever bytes come before it (decoy
      sentinels included). */
  lemma LocatePackedFooter(front: seq<byte>, contentSize: nat, resourceSize: nat)
    requires contentSize < TWO_53 && resourceSize < TWO_53
    ensures LocateFooter(WithFooter(front, contentSize, resourceSize)) == Success(Footer(|front|, contentSize, resourceSize))
  {
    var lengths := FromUsize(contentSize) + FromUsize(resourceSize);
    var binary := front + SENTINEL + lengths;
    assert binary == front + SENTINEL + FromUsize(contentSize) + FromUsize(resourceSize);
    var p := |front|;
    SentinelFacts();
    assert binary[p..p + 16] == SENTINEL;
    forall q: nat | p < q
      ensures !OccursAt(binary, SENTINEL, q)
    {
      if q + 16 <= |binary| {
        var window := binary[q..q + 16];
        if q < p + 16 {
          assert window[0] == SENTINEL[q - p] != SENTINEL[0];
        } else {
          FromUsizeHighByte(contentSize);
          assert window[7] == FromUsize(contentSize)[7] != SENTINEL[7];
        }
      }
    }
    LastOccurrenceIs(binary, SENTINEL, p);
    ReadLengthOfEncoded(front + SENTINEL, contentSize, FromUsize(resourceSize));
    ReadLengthOfEncoded(front + SENTINEL + FromUsize(contentSize), resourceSize, []);
    assert front + SENTINEL + FromUsize(contentSize) + FromUsize(resourceSize) + [] == binary;
  }
}
