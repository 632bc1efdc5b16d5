/** What several parts of the model share. */
module Common {

  /** The weight of the largest block, which limits what is read at once. */
  const MAX_BYTES: nat := 4_000_000

  datatype Option<T> = None | Some(value: T)

  ghost predicate Distinct<T>(s: seq<T>) {
    forall i, j :: 0 <= i < j < |s| ==> s[i] != s[j]
  }
}
