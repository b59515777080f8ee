# draco-guide: verified model of the fact serialiser and atom grouping

The repository is a tutorial script around the draco visualisation library.
Almost all of it calls that library and prints what comes back. This model
covers the script's own logic, in `draco_intern_guide.py`:

- `create_custom_data_to_facts` (module `Facts`, file `facts.dfy`). It turns a
  list of records into ASP facts `data(<value>, <field>, <row>).`, one fact per
  field of every record. Records are taken in list order and fields in the
  dict's insertion order. A `str` value goes between double quotes with no
  escaping. A `float` is written as `int(value)`, which truncates toward zero.
  Any other value is written as the f-string formats it, which is `str(value)`. A record is a sequence of
  (field, value) pairs in insertion order. A value is a `Value`: string, real
  (the float), int, bool, `None`, or any other object given by its text.
  Integers are written by `IntText.IntToString`, and `IntText.ParseInt` reads
  them back; the two state what the text means.
- The grouping of answer-set atoms by predicate in `demonstrate_asp_processing`
  (module `AtomGrouping`, file `grouping.dfy`). The predicate of an atom is the
  text before its first `(`, or the whole atom when it has no `(`. Atoms are
  filed into an insertion-ordered dict. That dict is modelled as its key
  sequence in insertion order plus a map from key to list of atoms.
- The fallback rule of `safe_dict_to_facts` (module `SafeFacts`, file
  `safe_facts.dfy`). The library's `dict_to_facts` is a function parameter
  that either returns facts (`Some`) or raises (`None`).

The serialiser and the grouping are loops in the source, so they are methods
with loop invariants. Each method is proved equal to a specification function:
`Facts.DataToFacts` for the serialiser, and `AtomGrouping.FirstSeen` and
`AtomGrouping.Select` for the grouping. The lemmas then state what those
functions promise.

## Model

| member | source | states |
|---|---|---|
| `Facts.CreateCustomDataToFacts` | draco_intern_guide.py:536-550 | The nested loops return exactly the specified fact list `DataToFacts(data)`, with one fact per (record, field) pair. |
| `Facts.AppendRowFacts` | draco_intern_guide.py:542-549 | The inner loop appends the facts of one record's items, in key order, after the facts already built. |
| `Facts.RenderValue` | draco_intern_guide.py:543-549 | The three-way branch on the value's type produces the specified rendering `Render(value)`. |
| `Facts.RenderRules` | draco_intern_guide.py:543-549 | A string is put verbatim between double quotes. A float becomes canonical integer text that reads back as its truncation toward zero. An int reads back as itself. True, False and None are spelled as Python spells them. Any other object is its own text. |
| `Facts.Trunc` | draco_intern_guide.py:547 | `int()` of a float: for r >= 0 the result t has t <= r < t + 1; for r < 0 it has t - 1 < r <= t. That is truncation toward zero. |
| `Facts.FactCount` | draco_intern_guide.py:540-550 | The number of facts equals the total number of fields over all records. |
| `Facts.FactAt` | draco_intern_guide.py:541-549 | The fact for field j of record i is at position TotalFields(data[..i]) + j. It reads `data(` + rendered value + `, ` + field name (unquoted) + `, ` + decimal 0-based row index + `).` |
| `Facts.ItemAt` | draco_intern_guide.py:541-542 | Records are visited in list order, and each record's fields in key order. Field j of record i is visited at step TotalFields(data[..i]) + j. |
| `Facts.RowBlocksOrdered` | draco_intern_guide.py:541-549 | All facts of record i come before the first fact of any later record. |
| `Facts.FactsInRowOrder` | draco_intern_guide.py:541-549 | The fact for (i, j) comes before the fact for (i2, j2) when i < i2, or when i == i2 and j < j2. |
| `Facts.EmptyRecordsGiveNoFacts` | draco_intern_guide.py:540-550 | The fact list is empty exactly when every record has no fields. So an empty list gives no facts, and an empty record adds none. |
| `IntText.IntToString` | draco_intern_guide.py:544-549 | The row index and other integers are written as canonical decimal text. `-` appears exactly for negatives, and the text parses back to the same integer. |
| `IntText.NatToDigits` | draco_intern_guide.py:544-549 | The digits of a natural number: at least one digit, no leading zero, and they read back as the number. |
| `AtomGrouping.PredicateOf` | draco_intern_guide.py:452 | The predicate is a prefix of the atom without `(`. If the atom contains `(`, the predicate is followed by the first `(`; otherwise it is the whole atom. |
| `AtomGrouping.FirstIndexOf` | draco_intern_guide.py:452 | The position of the first occurrence of the character, or the length when it does not occur. |
| `AtomGrouping.GroupByPredicate` | draco_intern_guide.py:449-455 | The loop builds an insertion-ordered dict. Its keys are `FirstSeen(atoms)`, and each key's list is `Select(atoms, key)`: the atoms with that predicate, in input order. |
| `AtomGrouping.SelectMembers` | draco_intern_guide.py:453-455 | Every atom in a predicate's list has that predicate, and every input atom with that predicate is in the list. |
| `AtomGrouping.AtomInExactlyItsGroup` | draco_intern_guide.py:452-455 | An atom is in the list of p exactly when p is its predicate. So it is filed under its own predicate and under no other. |
| `AtomGrouping.SelectUnseen` | draco_intern_guide.py:453-454 | A predicate that no atom has gets no list entries. |
| `AtomGrouping.GroupSizesSum` | draco_intern_guide.py:449-455 | The list sizes over all keys add up to the number of atoms, so the grouping is a partition. |
| `AtomGrouping.FirstSeenKeys` | draco_intern_guide.py:453-454 | The dict keys have no repetitions, and they are exactly the predicates of the input atoms. |
| `AtomGrouping.KeysInFirstAppearanceOrder` | draco_intern_guide.py:449-457 | Iteration order of the dict: an earlier key first appears in the input before any later key first appears. |
| `AtomGrouping.FirstPos` | draco_intern_guide.py:453-454 | The first input position whose atom has the given predicate, or the length when there is none. |
| `SafeFacts.SafeDictToFacts` | draco_intern_guide.py:552-570 | The wrapper never raises unless the fallback serialiser itself raises. If the library call succeeds, its facts are returned. If it raises, a list input gives the custom serialiser's facts and a dict input gives the empty list. A list reaches the library wrapped as `{"records": data}`. |
| `SafeFacts.FallbackFacts` | draco_intern_guide.py:564-568 | When the library fails on a list, the result has one fact per (record, field) pair, and each fact is at its specified position with its specified format. |

## Left out

- All calls into the draco library (`schema_from_dataframe`, `schema_from_file`, `dict_to_facts`, `is_satisfiable`, `run_clingo`, `complete_spec`, `answer_set_to_dict`, the `Draco` class properties). Their behaviour is not in this repository. `dict_to_facts` appears only as the parameter of `SafeFacts.SafeDictToFacts`.
- The answer set itself: the atoms come in as strings. `str(atom)` of a clingo symbol and the order in which clingo yields atoms are taken as given.
- pandas, CSV and JSON I/O, temporary directories, `print` output, the banner and best-practices text, and `setup_info`. These are library calls, I/O or presentation only.
- `safe_schema_from_file`, `safe_schema_analysis` and `safe_constraint_solving`. They only wrap library results and catch exceptions.
- `test_intern_guide.py`. It is a smoke test of the library and asserts nothing about the logic modelled here.
- Floating point: a float is modelled as a `real`. `int()` of NaN or infinity raises in Python, and the model has no such values.
- `IntText.IntToString`: does not model CPython's limit on the number of digits `str()` converts (very large ints raise `ValueError`). The model renders every integer.
- Field names are modelled as strings. A non-string dict key is written with its `str()` text in the source, and the model does not cover that case.
- `SafeFacts.SafeDictToFacts`: the diagnostic printed when the library raises is not modelled. A dict input is modelled as a flat record, because its contents only pass through to the library.
- `SafeFacts.SafeDictToFacts`: the fallback serialiser at draco_intern_guide.py:568 runs inside the `except` handler with no `try` of its own, so its own exceptions (NaN or infinite floats, ints over CPython's digit limit, list elements without `.items()`) propagate out of the wrapper. The model's serialiser is total and does not capture those exceptions.
