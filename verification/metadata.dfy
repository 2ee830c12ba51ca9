/** The resource dictionary embedded in the content section (src/main.rs:23-31,
    79-87): a JSON object written right after a fixed bootstrap-script marker,
    mapping each category to an insertion-ordered map from file path to the
    file's offsets in the resource section. Only the "resources" category is
    read. JSON decoding itself belongs to serde_json and is a parameter of the
    pipeline; this module holds what the unpacker does around it. */
module Metadata {

  import opened Bytes
  import opened Errors
  import opened Search

  /** b"!(function () {process.__nexe = " */
  const MARKER: seq<byte> :=
    [0x21, 0x28, 0x66, 0x75, 0x6E, 0x63, 0x74, 0x69, 0x6F, 0x6E, 0x20, 0x28, 0x29, 0x20, 0x7B, 0x70,
     0x72, 0x6F, 0x63, 0x65, 0x73, 0x73, 0x2E, 0x5F, 0x5F, 0x6E, 0x65, 0x78, 0x65, 0x20, 0x3D, 0x20]

  /** Lines 80-81: where the JSON text starts in the content section, right
      after the first occurrence of the marker. */
  function MetadataStart(content: seq<byte>): (r: Result<nat>)
    ensures r.Success? ==>
      |MARKER| <= r.value <= |content| &&
      OccursAt(content, MARKER, r.value - |MARKER|) &&
      forall q: nat :: q < r.value - |MARKER| ==> !OccursAt(content, MARKER, q)
    ensures r.Failure? <==> forall q: nat :: !OccursAt(content, MARKER, q)
    ensures r.Failure? ==> r.error == InvalidContentSection
  {
    FirstOccurrenceSpec(content, MARKER);
    match FirstOccurrence(content, MARKER)
    case None => Failure(InvalidContentSection)
    case Some(p) => Success(p + |MARKER|)
  }

  /** `struct Offsets`: `end_offset` is, despite its name, the payload's length. */
  datatype Offsets = Offsets(startOffset: nat, endOffset: nat)

  /** `IndexMap<String, Offsets>` and `IndexMap<String, Resources>`, in
      iteration order. The keys of each are distinct. */
  type Resources = seq<(string, Offsets)>
  type Dictionary = seq<(string, Resources)>

  /** What lines 83-86 obtain from the bytes after the marker: no JSON value
      at all, a value that is not valid JSON or not of the dictionary's shape
      (including offsets that are not `usize` integers), or the dictionary. */
  datatype Json = NoValue | Malformed | Parsed(dictionary: Dictionary)

  /** Lines 84-86: the two `?` and the one `ok_or` around the JSON reader. */
  function ReadDictionary(j: Json): Result<Dictionary>
  {
    match j
    case NoValue => Failure(UnparsableMetadata)
    case Malformed => Failure(MalformedMetadata)
    case Parsed(d) => Success(d)
  }

  const RESOURCES_KEY: string := "resources"

  /** Line 87: `d["resources"]`, which panics when the key is absent. */
  function ResourcesOf(d: Dictionary): (r: Result<Resources>)
    ensures r.Success? ==> (RESOURCES_KEY, r.value) in d
    ensures r.Failure? ==> r.error == MissingResources
  {
    if d == [] then Failure(MissingResources)
    else if d[0].0 == RESOURCES_KEY then Success(d[0].1)
    else ResourcesOf(d[1..])
  }

  /** The lookup finds the "resources" category when there is one, and fails
      with `MissingResources` exactly when there is none. */
  lemma {:induction false} ResourcesOfSpec(d: Dictionary)
    ensures ResourcesOf(d).Success? <==> exists i :: 0 <= i < |d| && d[i].0 == RESOURCES_KEY
    ensures ResourcesOf(d).Failure? ==> ResourcesOf(d).error == MissingResources
    ensures forall i :: 0 <= i < |d| && d[i].0 == RESOURCES_KEY &&
                        (forall j :: 0 <= j < i ==> d[j].0 != RESOURCES_KEY) ==>
                          ResourcesOf(d) == Success(d[i].1)
  {
    if d != [] && d[0].0 != RESOURCES_KEY {
      ResourcesOfSpec(d[1..]);
      assert forall i :: 1 <= i < |d| ==> d[i] == d[1..][i - 1];
      if exists i :: 0 <= i < |d| && d[i].0 == RESOURCES_KEY {
        var i :| 0 <= i < |d| && d[i].0 == RESOURCES_KEY;
        assert d[1..][i - 1].0 == RESOURCES_KEY;
      }
    }
  }
}
