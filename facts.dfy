/**
 * The custom data-to-facts serialiser `create_custom_data_to_facts`: a list of
 * records (each an insertion-ordered dict from field name to value) becomes
 * one ASP fact `data(<value>, <field>, <row>).` per field of every record.
 */
module Facts {
  import opened IntText

  /** A Python value held in a record, split by the branches the serialiser takes. */
  datatype Value =
    | VStr(s: string)      // str: rendered inside double quotes
    | VReal(r: real)       // float: rendered as int(value)
    | VInt(i: int)         // int: str(value)
    | VBool(b: bool)       // bool is not str or float: str(value) is "True"/"False"
    | VNone                // None: str(value) is "None"
    | VOther(text: string) // any other object: the text the f-string prints, str(value)

  type Field = string

  /** The items of one record dict, in insertion order. */
  type Record = seq<(Field, Value)>

  /** Python's int() on a float: truncation toward zero. */
  function Trunc(r: real): (t: int)
    ensures 0.0 <= r ==> 0 <= t && t as real <= r < t as real + 1.0
    ensures r < 0.0 ==> t <= 0 && t as real - 1.0 < r <= t as real
  {
    if r >= 0.0 then r.Floor else -((-r).Floor)
  }

  /** Python's str() of a value that is not a float. */
  function DefaultText(v: Value): string
    requires !v.VReal?
  {
    match v
    case VStr(s) => s
    case VInt(i) => IntToString(i)
    case VBool(b) => if b then "True" else "False"
    case VNone => "None"
    case VOther(text) => text
  }

  /** The text standing for a value in the first argument of a fact. */
  function Render(v: Value): string {
    match v
    case VStr(s) => "\"" + s + "\""
    case VReal(r) => IntToString(Trunc(r))
    case _ => DefaultText(v)
  }

  /**
   * The per-type rendering rules: a string goes verbatim (no escaping) between
   * double quotes; a float is the decimal text of its truncation toward zero;
   * an int is its decimal text; True, False and None are spelled as Python
   * spells them; any other object is its own text.
   */
  lemma RenderRules(v: Value)
    ensures var text := Render(v);
      && (v.VStr? ==> |text| == |v.s| + 2 && text[0] == '"' && text[|text| - 1] == '"'
                      && text[1..|text| - 1] == v.s)
      && (v.VReal? ==> IsCanonicalIntText(text) && ParseInt(text) == Trunc(v.r))
      && (v.VInt? ==> IsCanonicalIntText(text) && ParseInt(text) == v.i)
      && (v.VBool? ==> text == (if v.b then "True" else "False"))
      && (v.VNone? ==> text == "None")
      && (v.VOther? ==> text == v.text)
  {
    if v.VStr? {
      var text := Render(v);
      assert text[1..|text| - 1] == v.s;
    }
  }

  /** One (record, field) pair as the serialiser visits it. */
  datatype Item = Item(field: Field, value: Value, row: nat)

  /** The fact for one item: data(<rendered value>, <field>, <row>). */
  function FactOf(item: Item): string {
    "data(" + Render(item.value) + ", " + item.field + ", " + IntToString(item.row) + ")."
  }

  /** The items of the record at position row, in its key order. */
  function RowItems(rec: Record, row: nat): seq<Item> {
    if rec == [] then []
    else RowItems(rec[..|rec| - 1], row) + [Item(rec[|rec| - 1].0, rec[|rec| - 1].1, row)]
  }

  /** The items of all records: record by record, each in its key order. */
  function Items(data: seq<Record>): seq<Item> {
    if data == [] then []
    else Items(data[..|data| - 1]) + RowItems(data[|data| - 1], |data| - 1)
  }

  /** The facts of a sequence of items, in the same order. */
  function FactsOf(items: seq<Item>): seq<string> {
    if items == [] then []
    else FactsOf(items[..|items| - 1]) + [FactOf(items[|items| - 1])]
  }

  /** Specification of the serialiser: one fact per item, in visiting order. */
  function DataToFacts(data: seq<Record>): seq<string> {
    FactsOf(Items(data))
  }

  /** Number of (record, field) pairs. */
  function TotalFields(data: seq<Record>): nat {
    if data == [] then 0 else TotalFields(data[..|data| - 1]) + |data[|data| - 1]|
  }

  /**
   * `create_custom_data_to_facts`: a loop over the records (with their
   * 0-based position, as `enumerate` gives it) appending each record's facts.
   */
  method CreateCustomDataToFacts(data: seq<Record>) returns (facts: seq<string>)
    ensures facts == DataToFacts(data)
    ensures |facts| == TotalFields(data)
  {
    facts := [];
    var rowIdx := 0;
    while rowIdx < |data|
      invariant 0 <= rowIdx <= |data|
      invariant facts == DataToFacts(data[..rowIdx])
    {
      facts := AppendRowFacts(facts, data[rowIdx], rowIdx);
      assert data[..rowIdx + 1][..rowIdx] == data[..rowIdx];
      FactsOfAppend(Items(data[..rowIdx]), RowItems(data[rowIdx], rowIdx));
      rowIdx := rowIdx + 1;
    }
    assert data[..rowIdx] == data;
    FactCount(data);
  }

  /**
   * The inner loop of `create_custom_data_to_facts`: one fact appended per
   * item of the record, with the value rendered by its type.
   */
  method AppendRowFacts(facts: seq<string>, row: Record, rowIdx: nat) returns (out: seq<string>)
    ensures out == facts + FactsOf(RowItems(row, rowIdx))
  {
    out := facts;
    var rowText := IntToString(rowIdx);
    var j := 0;
    while j < |row|
      invariant 0 <= j <= |row|
      invariant out == facts + FactsOf(RowItems(row[..j], rowIdx))
    {
      var (field, value) := row[j];
      var valueText := RenderValue(value);
      var fact := "data(" + valueText + ", " + field + ", " + rowText + ").";
      RowItemsExtend(row, rowIdx, j);
      FactsOfExtend(RowItems(row[..j], rowIdx), Item(field, value, rowIdx));
      out := out + [fact];
      j := j + 1;
    }
    assert row[..j] == row;
  }

  /**
   * The branch of the inner loop on the value's type: a str goes inside
   * double quotes, a float is truncated with int(), anything else uses str().
   * What each branch's text means is proved once, about Render, in RenderRules.
   */
  method RenderValue(value: Value) returns (text: string)
    ensures text == Render(value)
  {
    if value.VStr? {
      text := "\"" + value.s + "\"";
    } else if value.VReal? {
      text := IntToString(Trunc(value.r));
    } else {
      text := DefaultText(value);
    }
  }

  lemma RowItemsExtend(rec: Record, row: nat, j: nat)
    requires j < |rec|
    ensures RowItems(rec[..j + 1], row) == RowItems(rec[..j], row) + [Item(rec[j].0, rec[j].1, row)]
  {
    assert rec[..j + 1][..j] == rec[..j];
  }

  lemma FactsOfExtend(items: seq<Item>, item: Item)
    ensures FactsOf(items + [item]) == FactsOf(items) + [FactOf(item)]
  {
    assert (items + [item])[..|items|] == items;
  }

  lemma {:induction false} FactsOfAppend(a: seq<Item>, b: seq<Item>)
    ensures FactsOf(a + b) == FactsOf(a) + FactsOf(b)
  {
    if b != [] {
      var init := b[..|b| - 1];
      assert a + b == (a + init) + [b[|b| - 1]];
      FactsOfExtend(a + init, b[|b| - 1]);
      FactsOfAppend(a, init);
    } else {
      assert a + b == a;
    }
  }

  lemma {:induction false} FactsOfAt(items: seq<Item>, k: nat)
    requires k < |items|
    ensures |FactsOf(items)| == |items|
    ensures FactsOf(items)[k] == FactOf(items[k])
  {
    FactsOfCount(items);
    if k < |items| - 1 {
      FactsOfAt(items[..|items| - 1], k);
    }
  }

  lemma {:induction false} FactsOfCount(items: seq<Item>)
    ensures |FactsOf(items)| == |items|
  {
    if items != [] {
      FactsOfCount(items[..|items| - 1]);
    }
  }

  lemma {:induction false} RowItemsAt(rec: Record, row: nat, j: nat)
    requires j < |rec|
    ensures |RowItems(rec, row)| == |rec|
    ensures RowItems(rec, row)[j] == Item(rec[j].0, rec[j].1, row)
  {
    RowItemCount(rec, row);
    if j < |rec| - 1 {
      RowItemsAt(rec[..|rec| - 1], row, j);
    }
  }

  lemma {:induction false} RowItemCount(rec: Record, row: nat)
    ensures |RowItems(rec, row)| == |rec|
  {
    if rec != [] {
      RowItemCount(rec[..|rec| - 1], row);
    }
  }

  lemma {:induction false} ItemCount(data: seq<Record>)
    ensures |Items(data)| == TotalFields(data)
  {
    if data != [] {
      ItemCount(data[..|data| - 1]);
      RowItemCount(data[|data| - 1], |data| - 1);
    }
  }

  /** One fact per (record, field) pair. */
  lemma FactCount(data: seq<Record>)
    ensures |DataToFacts(data)| == TotalFields(data)
  {
    ItemCount(data);
    FactsOfCount(Items(data));
  }

  /** Field j of record i is item number TotalFields(data[..i]) + j. */
  lemma {:induction false} ItemAt(data: seq<Record>, i: nat, j: nat)
    requires i < |data| && j < |data[i]|
    ensures TotalFields(data[..i]) + j < |Items(data)|
    ensures Items(data)[TotalFields(data[..i]) + j] == Item(data[i][j].0, data[i][j].1, i)
  {
    var n := |data| - 1;
    var init := data[..n];
    ItemCount(init);
    RowItemCount(data[n], n);
    if i == n {
      assert data[..i] == init;
      RowItemsAt(data[i], i, j);
    } else {
      assert data[..i] == init[..i] && init[i] == data[i];
      ItemAt(init, i, j);
    }
  }

  /**
   * Position and format of every fact: the fact for field j of record i sits
   * at position TotalFields(data[..i]) + j and reads
   * data(<rendered value>, <field>, <i>).
   */
  lemma FactAt(data: seq<Record>, i: nat, j: nat)
    requires i < |data| && j < |data[i]|
    ensures TotalFields(data[..i]) + j < |DataToFacts(data)|
    ensures DataToFacts(data)[TotalFields(data[..i]) + j]
            == "data(" + Render(data[i][j].1) + ", " + data[i][j].0 + ", " + IntToString(i) + ")."
  {
    ItemAt(data, i, j);
    FactsOfAt(Items(data), TotalFields(data[..i]) + j);
  }

  /** Fields counted before record i plus those of record i fit before record k > i. */
  lemma {:induction false} RowBlocksOrdered(data: seq<Record>, i: nat, k: nat)
    requires i < k <= |data|
    ensures TotalFields(data[..i]) + |data[i]| <= TotalFields(data[..k])
  {
    if k == i + 1 {
      assert data[..k][..i] == data[..i];
    } else {
      RowBlocksOrdered(data, i, k - 1);
      assert data[..k][..k - 1] == data[..k - 1];
    }
  }

  /**
   * Facts come out record by record, and within a record in key order: the
   * fact for (i, j) precedes the fact for (i2, j2) whenever i < i2, or
   * i == i2 and j < j2.
   */
  lemma FactsInRowOrder(data: seq<Record>, i: nat, j: nat, i2: nat, j2: nat)
    requires i < |data| && j < |data[i]| && i2 < |data| && j2 < |data[i2]|
    requires i < i2 || (i == i2 && j < j2)
    ensures TotalFields(data[..i]) + j < TotalFields(data[..i2]) + j2
  {
    if i < i2 {
      RowBlocksOrdered(data, i, i2);
    }
  }

  /** Records with no fields add no facts, so only empty records give no facts. */
  lemma {:induction false} EmptyRecordsGiveNoFacts(data: seq<Record>)
    ensures DataToFacts(data) == [] <==> forall i :: 0 <= i < |data| ==> data[i] == []
  {
    FactCount(data);
    if data != [] {
      var init := data[..|data| - 1];
      EmptyRecordsGiveNoFacts(init);
      FactCount(init);
      if forall i :: 0 <= i < |data| ==> data[i] == [] {
        assert forall i :: 0 <= i < |init| ==> init[i] == data[i];
      } else {
        var i :| 0 <= i < |data| && data[i] != [];
        if i < |init| {
          assert init[i] == data[i];
        }
      }
    }
  }
}
