# nexe-unpacker, modelled in Dafny

nexe-unpacker takes apart an executable built by nexe. It recovers the files
that were bundled into the executable. Such an executable ends with

    ... [content section] [resource section] <nexe~~sentinel> [content size] [resource size]

Each of the two sizes is a little-endian IEEE-754 double that is cast to `usize`.

The unpacker works in these steps:

1. It finds the last occurrence of the sentinel.
2. It reads the two sizes that follow it.
3. It carves the two sections out backwards from the sentinel.
4. It finds the first occurrence of the bootstrap marker `!(function () {process.__nexe = ` in the content section.
5. It decodes the JSON dictionary that follows the marker.
6. For each entry of its `"resources"` category, in order, it rewrites the path and slices the payload out of the resource section. It then writes the payload under the output directory.

The first failure stops the program. Files already written stay written.

The model covers all of `src/main.rs` from reading the binary to the last write. Its modules are:

- `Bytes`: the byte type.
- `Errors`: the program's error messages, plus `Option` and `Result`.
- `Float64`: the `f64::from_le_bytes(..) as usize` cast, modelled exactly on integers. This includes the saturating cases: NaN and negative values give 0, values that are too large or +infinity give `usize::MAX`, and fractional values are truncated. Its inverse, the packager's encoding of a length below 2^53, is also here.
- `Search`: `memmem::find` and `memmem::rfind`, both as specification functions and as loops.
- `Footer`: `get_float_from_buf`, the footer and the section layout.
- `Metadata`: the marker, `Offsets`, `Resources`, `Dictionary` and the lookup of `"resources"`. The JSON reader is a function parameter that returns either no value, a malformed value, or a dictionary.
- `Paths`: the two `str::replace` rewrites and `Path::parent` on a Unix target.
- `Extract`: the extraction loop. `Extraction` specifies it, and the method `ExtractAll` implements it as a loop.
- `Unpacker`: the whole pipeline. `Outcome` specifies it, and the method `Unpack` implements it step by step. The module also holds the packaging round trip.

The result of a run is the sequence of files written, in order, together with the error that stopped the program, if any.

## Model

| member | source | states |
|---|---|---|
| Float64.ToUsize | src/main.rs:20 | The saturating `f64 as usize` cast of the 8 little-endian bytes. Its result never exceeds `usize::MAX`; it is specified further by `ToUsizeInRange` and `FromUsizeRoundTrip`. |
| Float64.ToUsizeInRange | src/main.rs:20 | A decoded length never exceeds `usize::MAX`. The saturating branch is taken only when the exact value would not fit in 64 bits. |
| Float64.FromUsizeRoundTrip | src/main.rs:20 | The cast gives back every whole number below 2^53 that the packager encodes as a double. |
| Float64.LittleEndianRoundTrip | src/main.rs:20 | Little-endian decoding inverts little-endian encoding of a number that fits in the given number of bytes. |
| Footer.ReadLength | src/main.rs:17-21 | A length field is read exactly when its 8 bytes lie inside the buffer; otherwise the error is "Truncated nexe metadata". The value is at most `usize::MAX`. |
| Footer.ReadLengthIsLocal | src/main.rs:17-21 | A length depends only on its own 8 bytes. |
| Footer.ReadLengthOfEncoded | src/main.rs:17-21 | An encoded length is read back unchanged, whatever bytes surround it. |
| Search.LastOccurrenceSpec | src/main.rs:57-58 | `rfind` returns an occurrence that no later occurrence follows. It returns none exactly when the needle does not occur. |
| Search.RFind | src/main.rs:57-58 | The backward scan returns the same result as `rfind`. |
| Search.FirstOccurrenceSpec | src/main.rs:80-81 | `find` returns an occurrence that no earlier occurrence precedes. It returns none exactly when the needle does not occur. |
| Search.Find | src/main.rs:80-81 | The forward scan returns the same result as `find`. |
| Footer.LocateFooter | src/main.rs:56-63 | The footer lookup. A footer found lies wholly inside the binary, and the only errors are the two footer errors. It is specified by `LocateFooterSpec`. |
| Footer.LocateFooterSpec | src/main.rs:56-63 | The footer is at the last sentinel, and its sizes are the doubles stored after it. "Invalid nexe executable" is reported if and only if there is no sentinel. "Truncated nexe metadata" is reported if and only if fewer than 16 bytes follow the last sentinel. |
| Footer.LocatePackedFooter | src/main.rs:56-63 | The footer the packager appends is the one found, with the sizes written into it, even when decoy sentinels come before it. |
| Footer.ComputeLayout | src/main.rs:66-69 | The layout succeeds if and only if the two sizes fit before the sentinel; otherwise it fails with an underflow. On success, the sections are adjacent and end at the sentinel. |
| Footer.SectionsTile | src/main.rs:66-78 | The content section, the resource section and the sentinel follow each other with no gap and no overlap, inside the binary. The sections have the sizes read from the footer. |
| Footer.ContentSection | src/main.rs:78 | The content section has exactly the content size. |
| Footer.ResourceSection | src/main.rs:99 | The resource section has exactly the resource size. |
| Unpacker.Content | src/main.rs:78 | `Footer.ContentSection` at the layout computed from the located footer; its length is the content size read from the footer. |
| Metadata.MetadataStart | src/main.rs:79-81 | On success, the JSON starts right after the first marker. "Invalid content section" is reported if and only if the marker is absent. |
| Unpacker.JsonText | src/main.rs:83 | The bytes handed to the JSON reader are the rest of the content section after the marker. |
| Metadata.ResourcesOf | src/main.rs:87 | The `d["resources"]` lookup. A success returns a value stored under `"resources"`, and its only error is the missing key. It is specified by `ResourcesOfSpec`. |
| Metadata.ResourcesOfSpec | src/main.rs:87 | The lookup succeeds if and only if a `"resources"` key exists, and it returns that key's first entry. Otherwise it fails, which models the panic of indexing with a missing key. |
| Paths.NormalizeSeparators | src/main.rs:91 | `replace("\\", "/")`, which keeps the length. It is specified by `NormalizeSeparatorsSpec`. |
| Paths.NormalizeSeparatorsSpec | src/main.rs:91 | Every backslash becomes '/' and every other character is kept, at the same position. No backslash is left. |
| Paths.StripParentRefs | src/main.rs:94 | `replace("../", "")` as a left-to-right scan that never lengthens the path. It is specified by `StripParentRefsShrinks` and `StripParentRefsChangesIff`. |
| Paths.StripParentRefsShrinks | src/main.rs:94 | Removing "../" never lengthens a path and never adds a character. |
| Paths.StripParentRefsChangesIff | src/main.rs:94 | The removal changes a path if and only if the path contains "../". When it does, the path gets strictly shorter. |
| Paths.StripParentRefsNotIdempotent | src/main.rs:92-94 | The single left-to-right pass can leave "../" behind: "....//" becomes "../". |
| Paths.Sanitize | src/main.rs:90-94 | The two rewrites in source order, which never lengthen the path. It is specified by `SanitizeSpec`, `SanitizeStripsTraversal` and `SanitizeStripsWindowsTraversal`. |
| Paths.SanitizeSpec | src/main.rs:90-94 | A rewritten path contains no backslash and is no longer than the original. |
| Paths.SanitizeStripsTraversal | src/main.rs:90-94 | For every tail, "a/../../" followed by it becomes "a/" followed by the tail's own rewrite, so both "../" tokens are gone. |
| Paths.SanitizeStripsWindowsTraversal | src/main.rs:90-94 | For every tail, "..\\..\\" followed by it becomes the tail's own rewrite: the backslashes turn into "../" tokens and both are removed. |
| Paths.NormalizeConcat | src/main.rs:91 | The backslash rewrite works character by character, so it distributes over concatenation. |
| Paths.SanitizeTraversal | src/main.rs:92-94 | "a/../../" followed by any tail without dots or backslashes becomes "a/" followed by that tail, unchanged. |
| Paths.SanitizeWindowsTraversal | src/main.rs:90-94 | "..\\..\\" followed by any tail without dots or backslashes becomes the tail itself. |
| Paths.HasParent | src/main.rs:97-102 | Whether `Path::parent` is `Some`, which it is for every relative non-empty path. It is specified by `HasParentSpec`. |
| Paths.HasParentSpec | src/main.rs:97-102 | Every relative non-empty path has a parent, and so does every path with a character other than '/' and '.'. The empty path and the roots "/", "//", "/." and "/./" have none; "/.." has one. |
| Extract.Payload | src/main.rs:99-100 | The slice succeeds if and only if `start_offset + end_offset` lies within the resource section. Its contents are those bytes, `end_offset` of them. |
| Extract.WrappedRangeAgrees | src/main.rs:100 | When the sum of offsets wraps modulo 2^64, the wrapped range is valid exactly when the unbounded one is. So the unbounded model is exact. |
| Extract.ExtractEntry | src/main.rs:91-104 | One pass of the loop. On success, the file has the rewritten path, which has a parent, and `end_offset` bytes. Its only errors are a range out of bounds and a path without a parent. |
| Extract.Extraction | src/main.rs:89-105 | The loop as a function. It writes at most one file per entry, and its only errors are the two errors of a pass. It is specified by `ExtractionSpec`. |
| Extract.ExtractionSpec | src/main.rs:89-105 | The loop writes a prefix of the entries, each exactly as its own pass makes it. It ends without error if and only if every entry was written. Otherwise, the entry right after that prefix is the one that failed, with its error. |
| Extract.ExtractionStops | src/main.rs:89-105 | After the first failure, later entries change nothing. |
| Extract.ExtractedFile | src/main.rs:97-104 | Every written file has its entry's rewritten path, which has a parent. Its contents are its entry's range, which lies inside the resource section. |
| Extract.ExtractionWritesAll | src/main.rs:89-105 | When every range fits and every rewritten path has a parent, one file is written per entry, in order, and no error occurs. |
| Extract.ExtractionErrors | src/main.rs:100-102 | The loop itself fails only on a range out of bounds or a path without a parent. |
| Extract.ExtractAll | src/main.rs:89-105 | The loop computes exactly the run that `Extraction` specifies. |
| Unpacker.Prepare | src/main.rs:55-87 | When the steps before the loop succeed, the layout fits the binary and agrees with the footer found. When they fail, the error is one of the seven errors those steps can raise. |
| Unpacker.Outcome | src/main.rs:55-105 | The whole program. It ends without error only if the steps before the loop succeed, and any error raised before the loop leaves nothing written. |
| Unpacker.Unpack | src/main.rs:55-105 | The step-by-step program produces exactly `Outcome`: the same files and the same error. |
| Unpacker.FailuresBeforeLoopWriteNothing | src/main.rs:55-105 | Any error other than the loop's two errors leaves nothing written. Such an error is reported if and only if a step before the loop failed. |
| Unpacker.FooterErrors | src/main.rs:57-63 | For the whole program: "Invalid nexe executable" with nothing written if and only if there is no sentinel, and "Truncated nexe metadata" if and only if the last sentinel is cut short. |
| Unpacker.PrepareFailsAtFooter | src/main.rs:57-87 | A footer failure is the program's error. The steps after the footer never raise the footer's two errors. |
| Unpacker.OversizedSectionsRejected | src/main.rs:66 | Once the footer is found, the underflow error is reported, with nothing written, if and only if the two sizes exceed what precedes the sentinel. |
| Unpacker.MetadataErrors | src/main.rs:78-87 | For the whole program, each of "Invalid content section", the missing JSON value, the malformed JSON and the missing `"resources"` key is reported, with nothing written, if and only if every earlier step succeeded and its own step fails. |
| Unpacker.PrepareAfterLayout | src/main.rs:78-87 | Past the layout step, `Prepare` stops with the error of the first of the marker search, the JSON reader and the `"resources"` lookup that fails. |
| Unpacker.WrittenFilesComeFromResourceSection | src/main.rs:99-100 | Every written file is a byte range of the binary that starts inside the resource section and ends at or before the sentinel. |
| Unpacker.WrittenFileInBinary | src/main.rs:99-100 | A file written from a given layout is the matching range of the binary. |
| Unpacker.PackedSections | src/main.rs:66-78 | The sections carved out of a packed binary are exactly the ones that were packed. |
| Unpacker.RoundTrip | src/main.rs:55-105 | Pack a body ending with a content section and a resource section, then append the footer. If every range fits and every path has a parent, unpacking writes one file per entry, in order, each holding its range of the packed resource section. |

## Left out

- Command-line parsing and creation of the output directory (src/main.rs:40-53) are not modelled. The output directory is implicit.
- Reading the file (line 55) is not modelled: the binary is a parameter.
- The two `println!` calls (lines 95-96) and `Display for Offsets` (lines 33-37) are not modelled, because they only produce console output.
- The file-system writes are not modelled: `create_dir_all`, `create` and `write_all` (lines 102-104) are assumed to succeed. A run records the sequence of writes, not the resulting directory tree, so a later entry that overwrites an earlier file's path shows up as two writes. The sandboxed directory's refusal of absolute paths or paths that escape it, and any I/O error, are not modelled.
- JSON decoding (serde_json, lines 83-86) is a function parameter that returns no value, a malformed value or a dictionary. Three things are taken as the parser delivers them: that offsets fit in `usize`, that keys are distinct, and the order of entries. Depending on serde_json's features, going through `serde_json::Value` may reorder the keys.
- `memmem`'s search algorithm is not modelled. Only its result is: the first or last occurrence, computed by a plain scan.
- The target is assumed to be 64-bit: `usize::MAX` is 2^64 - 1.
- Footer.ComputeLayout follows overflow-checked arithmetic on line 66, where an underflow stops the program. A build without overflow checks wraps around instead. It then also stops with nothing written, and reaches `Ok(())` only when three things hold. First, the resource size lies within `|binary| - footer_position` of 2^64; in practice that is the saturated `usize::MAX`. Second, the content section carved out that way holds the marker and a dictionary. Third, `"resources"` is empty.
- Paths.HasParent models `Path::parent` on a Unix target only. Windows path semantics are not modelled: there, drive prefixes such as "C:" or "C:/" have no parent, while `HasParent` says they do.
- Unpacker.Outcome reports a panic the way it reports an error: a missing `"resources"` key (line 87), or a payload range outside the resource section (line 100). Both stop the program.
