/** The default column offered for each field of the protected-Excel import
    (`sugerir_columna`): the first sheet column whose header matches a
    pattern, or the first column when none does. The regular-expression
    search (case-insensitive, on the header's text) is the `matches`
    parameter. */
module ColumnSuggestion {

  /** Index of the first header that `matches` accepts, else 0. */
  method SuggestColumn(headers: seq<string>, matches: string -> bool) returns (idx: nat)
    ensures (exists i :: 0 <= i < |headers| && matches(headers[i])) ==>
              idx < |headers| && matches(headers[idx]) &&
              forall j :: 0 <= j < idx ==> !matches(headers[j])
    ensures (forall i :: 0 <= i < |headers| ==> !matches(headers[i])) ==> idx == 0
    ensures |headers| > 0 ==> idx < |headers|
  {
    for i := 0 to |headers|
      invariant forall j :: 0 <= j < i ==> !matches(headers[j])
    {
      if matches(headers[i]) {
        return i;
      }
    }
    return 0;
  }
}
