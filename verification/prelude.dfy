/** Small building blocks shared by the import commands: an optional value,
    PHP's notion of an empty string field, and first-match search over a
    sequence (the order in which an entity query hands back its matches). */
module Prelude {

  datatype Option<+T> = None | Some(value: T)

  /** One CSV row: the string fields of one line, in column order. */
  type Row = seq<string>

  /** PHP `empty()` applied to a string: both "" and "0" are empty. */
  predicate Empty(s: string)
  {
    s == "" || s == "0"
  }

  /** Column `i` of a row.  A column past the end of the row reads as "":
      PHP `empty()` is true for a missing index, and the commands read these
      columns only behind such a check. */
  function Col(row: Row, i: nat): string
  {
    if i < |row| then row[i] else ""
  }

  /** The one-character string at offset `i`, or "" past the end, as PHP's
      string offset yields for an uninitialised offset. */
  function CharAt(s: string, i: nat): string
  {
    if i < |s| then [s[i]] else ""
  }

  /** Position of the first element at or after `from` that satisfies `p`. */
  function FirstFrom<T>(xs: seq<T>, p: T -> bool, from: nat): (r: Option<nat>)
    requires from <= |xs|
    ensures r.Some? ==> from <= r.value < |xs| && p(xs[r.value])
    ensures r.Some? ==> forall j | from <= j < r.value :: !p(xs[j])
    ensures r.None? <==> forall j | from <= j < |xs| :: !p(xs[j])
    decreases |xs| - from
  {
    if from == |xs| then None
    else if p(xs[from]) then Some(from)
    else FirstFrom(xs, p, from + 1)
  }

  /** Position of the first element of `xs` that satisfies `p`, if any. */
  function First<T>(xs: seq<T>, p: T -> bool): (r: Option<nat>)
    ensures r.Some? ==> r.value < |xs| && p(xs[r.value])
    ensures r.Some? ==> forall j | 0 <= j < r.value :: !p(xs[j])
    ensures r.None? <==> forall j | 0 <= j < |xs| :: !p(xs[j])
  {
    FirstFrom(xs, p, 0)
  }
}
