/**
 * `safe_dict_to_facts`: call the library's `dict_to_facts` and, when it
 * raises, fall back to the custom serialiser for a list of records and to the
 * empty list for a dict.  The library call is not part of this model: it is a
 * parameter, a function from its argument to either the facts it returns
 * (Some) or an exception (None).
 */
module SafeFacts {
  import opened IntText
  import opened Facts

  datatype Option<+T> = None | Some(value: T)

  /** What the caller passes: a list of records or a single dict. */
  datatype FactsInput =
    | ListInput(rows: seq<Record>)
    | DictInput(entries: Record)

  /** What reaches the library: a list is first wrapped as {"records": rows}. */
  datatype LibraryArg =
    | RecordsDict(records: seq<Record>)
    | PlainDict(entries: Record)

  function LibraryArgument(input: FactsInput): LibraryArg {
    match input
    case ListInput(rows) => RecordsDict(rows)
    case DictInput(entries) => PlainDict(entries)
  }

  /**
   * The wrapper catches the library's exception: it returns the library's
   * facts when the call succeeds; otherwise the custom facts of a list input,
   * or [] for a dict.  The fallback serialiser runs outside any try, so an
   * exception it raises would leave the wrapper; those are not modelled.
   */
  function SafeDictToFacts(input: FactsInput, dictToFacts: LibraryArg -> Option<seq<string>>): (facts: seq<string>)
    ensures dictToFacts(LibraryArgument(input)).Some? ==> facts == dictToFacts(LibraryArgument(input)).value
    ensures dictToFacts(LibraryArgument(input)).None? && input.ListInput? ==> facts == DataToFacts(input.rows)
    ensures dictToFacts(LibraryArgument(input)).None? && input.DictInput? ==> facts == []
  {
    match dictToFacts(LibraryArgument(input))
    case Some(libraryFacts) => libraryFacts
    case None =>
      match input
      case ListInput(rows) => DataToFacts(rows)
      case DictInput(_) => []
  }

  /**
   * When the library fails on a list of records, the result is the custom
   * serialiser's: one fact per (record, field) pair, and the fact for field j
   * of record i at position TotalFields(rows[..i]) + j.
   */
  lemma FallbackFacts(rows: seq<Record>, dictToFacts: LibraryArg -> Option<seq<string>>, i: nat, j: nat)
    requires dictToFacts(RecordsDict(rows)).None?
    requires i < |rows| && j < |rows[i]|
    ensures var facts := SafeDictToFacts(ListInput(rows), dictToFacts);
      && |facts| == TotalFields(rows)
      && TotalFields(rows[..i]) + j < |facts|
      && facts[TotalFields(rows[..i]) + j]
         == "data(" + Render(rows[i][j].1) + ", " + rows[i][j].0 + ", " + IntToString(i) + ")."
  {
    FactCount(rows);
    FactAt(rows, i, j);
  }
}
