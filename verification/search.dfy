/** Substring search over byte strings, with the semantics of
    `memchr::memmem::rfind` (the last occurrence) and `memchr::memmem::find`
    (the first occurrence). An empty needle occurs at every index from 0 to
    the haystack's length, as it does for memmem. */
module Search {

  import opened Errors

  /** `needle` occurs in `hay` starting at index `i`. */
  predicate OccursAt<T(==)>(hay: seq<T>, needle: seq<T>, i: nat)
  {
    i + |needle| <= |hay| && hay[i..i + |needle|] == needle
  }

  /** The last occurrence of `needle` starting below `bound`. */
  function LastBelow<T(==)>(hay: seq<T>, needle: seq<T>, bound: nat): Option<nat>
  {
    if bound == 0 then None
    else if OccursAt(hay, needle, bound - 1) then Some(bound - 1)
    else LastBelow(hay, needle, bound - 1)
  }

  /** The first occurrence of `needle` starting at or after `from`. */
  function FirstFrom<T(==)>(hay: seq<T>, needle: seq<T>, from: nat): Option<nat>
    decreases |hay| + 1 - from
  {
    if from > |hay| then None
    else if OccursAt(hay, needle, from) then Some(from)
    else FirstFrom(hay, needle, from + 1)
  }

  /** `memmem::rfind(hay, needle)`. */
  function LastOccurrence<T(==)>(hay: seq<T>, needle: seq<T>): Option<nat>
  {
    LastBelow(hay, needle, |hay| + 1)
  }

  /** `memmem::find(hay, needle)`. */
  function FirstOccurrence<T(==)>(hay: seq<T>, needle: seq<T>): Option<nat>
  {
    FirstFrom(hay, needle, 0)
  }

  lemma {:induction false} LastBelowSpec<T>(hay: seq<T>, needle: seq<T>, bound: nat)
    ensures var r := LastBelow(hay, needle, bound);
      match r
      case Some(p) =>
        p < bound && OccursAt(hay, needle, p) &&
        forall q: nat :: p < q < bound ==> !OccursAt(hay, needle, q)
      case None =>
        forall q: nat :: q < bound ==> !OccursAt(hay, needle, q)
  {
    if bound > 0 && !OccursAt(hay, needle, bound - 1) {
      LastBelowSpec(hay, needle, bound - 1);
    }
  }

  lemma {:induction false} FirstFromSpec<T>(hay: seq<T>, needle: seq<T>, from: nat)
    ensures var r := FirstFrom(hay, needle, from);
      match r
      case Some(p) =>
        from <= p && OccursAt(hay, needle, p) &&
        forall q: nat :: from <= q < p ==> !OccursAt(hay, needle, q)
      case None =>
        forall q: nat :: from <= q ==> !OccursAt(hay, needle, q)
    decreases |hay| + 1 - from
  {
    if from <= |hay| && !OccursAt(hay, needle, from) {
      FirstFromSpec(hay, needle, from + 1);
    }
  }

  /** The last occurrence is an occurrence, and no occurrence starts later;
      there is none at all exactly when the result is `None`. */
  lemma LastOccurrenceSpec<T>(hay: seq<T>, needle: seq<T>)
    ensures var r := LastOccurrence(hay, needle);
      match r
      case Some(p) =>
        OccursAt(hay, needle, p) && forall q: nat :: p < q ==> !OccursAt(hay, needle, q)
      case None =>
        forall q: nat :: !OccursAt(hay, needle, q)
  {
    LastBelowSpec(hay, needle, |hay| + 1);
  }

  /** The first occurrence is an occurrence, and no occurrence starts earlier;
      there is none at all exactly when the result is `None`. */
  lemma FirstOccurrenceSpec<T>(hay: seq<T>, needle: seq<T>)
    ensures var r := FirstOccurrence(hay, needle);
      match r
      case Some(p) =>
        OccursAt(hay, needle, p) && p + |needle| <= |hay| &&
        forall q: nat :: q < p ==> !OccursAt(hay, needle, q)
      case None =>
        forall q: nat :: !OccursAt(hay, needle, q)
  {
    FirstFromSpec(hay, needle, 0);
  }

  /** An occurrence with no later one is the last occurrence. */
  lemma {:induction false} LastOccurrenceIs<T>(hay: seq<T>, needle: seq<T>, p: nat)
    requires OccursAt(hay, needle, p)
    requires forall q: nat :: p < q ==> !OccursAt(hay, needle, q)
    ensures LastOccurrence(hay, needle) == Some(p)
  {
    LastOccurrenceSpec(hay, needle);
  }

  /** The search behind the footer locator: scans candidate start positions
      from the end of `hay` toward its start. */
  method RFind<T(==)>(hay: seq<T>, needle: seq<T>) returns (r: Option<nat>)
    ensures r == LastOccurrence(hay, needle)
  {
    if |needle| > |hay| {
      LastOccurrenceSpec(hay, needle);
      return None;
    }
    var i := |hay| - |needle| + 1;
    while i > 0
      invariant 0 <= i <= |hay| - |needle| + 1
      invariant forall q: nat :: i <= q ==> !OccursAt(hay, needle, q)
    {
      if hay[i - 1..i - 1 + |needle|] == needle {
        LastOccurrenceIs(hay, needle, i - 1);
        return Some(i - 1);
      }
      i := i - 1;
    }
    LastOccurrenceSpec(hay, needle);
    return None;
  }

  /** The search behind the marker lookup: scans candidate start positions
      from the start of `hay`. */
  method Find<T(==)>(hay: seq<T>, needle: seq<T>) returns (r: Option<nat>)
    ensures r == FirstOccurrence(hay, needle)
  {
    FirstOccurrenceSpec(hay, needle);
    var i := 0;
    while i + |needle| <= |hay|
      invariant forall q: nat :: q < i ==> !OccursAt(hay, needle, q)
    {
      if hay[i..i + |needle|] == needle {
        assert OccursAt(hay, needle, i);
        return Some(i);
      }
      i := i + 1;
    }
    return None;
  }
}
