/** The Code Index: the map from cleaned HSN code to description that the
    webhook builds once, at start-up, from the rows of its master spreadsheet
    (functions/index.js:21-37). */
module CodeIndex {
  import opened Text
  import opened Records

  /** One cell of a spreadsheet row: its column header and its text. */
  type Cell = (string, string)

  /** A row as `for (const key in row)` enumerates it: its cells in key order. */
  type Row = seq<Cell>

  type Index = map<string, string>

  const CodeHeader := "HSNCode"
  const DescriptionHeader := "Description"

  /** A cell with its header normalised. */
  function NormalizeCell(cell: Cell): Cell {
    (NormalizeHeader(cell.0), cell.1)
  }

  /** The cells of a row with their headers normalised, in the same order. */
  function NormalizedCells(row: Row): (cells: seq<Cell>)
    ensures |cells| == |row|
  {
    if row == [] then []
    else NormalizedCells(row[..|row| - 1]) + [NormalizeCell(row[|row| - 1])]
  }

  lemma NormalizedCellsSnoc(row: Row, i: nat)
    requires i < |row|
    ensures NormalizedCells(row[..i + 1]) == NormalizedCells(row[..i]) + [NormalizeCell(row[i])]
  {
    assert row[..i + 1][..i] == row[..i];
  }

  lemma {:induction false} NormalizedCellsAt(row: Row, i: nat)
    requires i < |row|
    ensures NormalizedCells(row)[i] == NormalizeCell(row[i])
  {
    if i < |row| - 1 {
      var init := row[..|row| - 1];
      NormalizedCellsAt(init, i);
      assert init[i] == row[i];
    }
  }

  /** `normalizedRow` after the `for...in` loop of functions/index.js:25-29. */
  function NormalizedFields(row: Row): map<string, string> {
    FromPairs(NormalizedCells(row))
  }

  /** `fields.name || ''` for a field holding text: the text, or `''` when
      the field is absent. */
  function Field(fields: map<string, string>, name: string): string {
    if name in fields then fields[name] else ""
  }

  /** The fixed-shape record a row reduces to: its cleaned code and its
      description. */
  datatype Entry = Entry(code: string, description: string)

  /** The entry of a normalised row: `String(fields.HSNCode || '')` with its
      non-digits removed, and `fields.Description || ''`
      (functions/index.js:31-32,35). */
  function FieldsEntry(fields: map<string, string>): (e: Entry)
    ensures AllDigits(e.code)
  {
    Entry(Digits(Field(fields, CodeHeader)), Field(fields, DescriptionHeader))
  }

  function RowEntry(row: Row): Entry {
    FieldsEntry(NormalizedFields(row))
  }

  /** The cleaned code of a row. */
  function RowCode(row: Row): string {
    RowEntry(row).code
  }

  /** The description a row stores. */
  function RowDescription(row: Row): string {
    RowEntry(row).description
  }

  /** The entries of the rows, one per row, in order. */
  function Entries(rows: seq<Row>): (es: seq<Entry>)
    ensures |es| == |rows|
  {
    if rows == [] then []
    else Entries(rows[..|rows| - 1]) + [RowEntry(rows[|rows| - 1])]
  }

  lemma EntriesSnoc(rows: seq<Row>, i: nat)
    requires i < |rows|
    ensures Entries(rows[..i + 1]) == Entries(rows[..i]) + [RowEntry(rows[i])]
  {
    assert rows[..i + 1][..i] == rows[..i];
  }

  lemma {:induction false} EntriesAt(rows: seq<Row>, i: nat)
    requires i < |rows|
    ensures Entries(rows)[i] == RowEntry(rows[i])
  {
    if i < |rows| - 1 {
      var init := rows[..|rows| - 1];
      EntriesAt(init, i);
      assert init[i] == rows[i];
    }
  }

  lemma EntriesAppend(a: seq<Row>, b: seq<Row>)
    ensures Entries(a + b) == Entries(a) + Entries(b)
  {
    var ab := a + b;
    forall i | 0 <= i < |ab| ensures Entries(ab)[i] == (Entries(a) + Entries(b))[i] {
      EntriesAt(ab, i);
      if i < |a| {
        EntriesAt(a, i);
      } else {
        EntriesAt(b, i - |a|);
      }
    }
  }

  /** One step of the `forEach`: `hsnMap.set(rawCode, description || '')`
      when `rawCode` is not empty (functions/index.js:34-36). */
  function AddEntry(index: Index, e: Entry): Index {
    if e.code == "" then index else index[e.code := e.description]
  }

  /** The index after the entries of `es` have been added in order. */
  function IndexOfEntries(es: seq<Entry>): Index {
    if es == [] then map[]
    else AddEntry(IndexOfEntries(es[..|es| - 1]), es[|es| - 1])
  }

  lemma IndexOfEntriesSnoc(es: seq<Entry>, e: Entry)
    ensures IndexOfEntries(es + [e]) == AddEntry(IndexOfEntries(es), e)
  {
    assert (es + [e])[..|es|] == es;
  }

  /** The index built from `rows`. */
  function IndexOf(rows: seq<Row>): Index {
    IndexOfEntries(Entries(rows))
  }

  /** The header normalisation loop of functions/index.js:25-29. */
  method NormalizeRow(row: Row) returns (fields: map<string, string>)
    ensures fields == NormalizedFields(row)
  {
    fields := map[];
    for i := 0 to |row|
      invariant fields == FromPairs(NormalizedCells(row[..i]))
    {
      var (key, value) := row[i];
      var cleanKey := NormalizeHeader(key);
      NormalizedCellsSnoc(row, i);
      FromPairsSnoc(NormalizedCells(row[..i]), (cleanKey, value));
      fields := fields[cleanKey := value];
    }
    assert row[..|row|] == row;
  }

  /** `rawData.forEach(...)` filling `hsnMap` (functions/index.js:21-37). */
  method BuildIndex(rows: seq<Row>) returns (index: Index)
    ensures index == IndexOf(rows)
  {
    index := map[];
    for i := 0 to |rows|
      invariant index == IndexOfEntries(Entries(rows[..i]))
    {
      var fields := NormalizeRow(rows[i]);
      var rawCode := Digits(Field(fields, CodeHeader));
      var description := Field(fields, DescriptionHeader);
      EntriesSnoc(rows, i);
      IndexOfEntriesSnoc(Entries(rows[..i]), Entry(rawCode, description));
      if rawCode != "" {
        index := index[rawCode := description];
      }
    }
    assert rows[..|rows|] == rows;
  }

  /** Every normalised header is free of CR and LF, and of white space at
      either end. */
  lemma NormalizedHeadersClean(row: Row)
    ensures forall k :: k in NormalizedFields(row) ==>
      IsTrimmed(k) && forall i :: 0 <= i < |k| ==> !IsLineBreak(k[i])
  {
    var cells := NormalizedCells(row);
    FromPairsKeys(cells);
    forall i | 0 <= i < |cells| ensures cells[i].0 == NormalizeHeader(row[i].0) {
      NormalizedCellsAt(row, i);
    }
  }

  /** When two raw headers normalise to the same name, the later cell in key
      order supplies the field's value. */
  lemma LaterHeaderWins(row: Row, j: nat)
    requires j < |row|
    requires forall i :: j < i < |row| ==> NormalizeHeader(row[i].0) != NormalizeHeader(row[j].0)
    ensures NormalizeHeader(row[j].0) in NormalizedFields(row)
    ensures NormalizedFields(row)[NormalizeHeader(row[j].0)] == row[j].1
  {
    var cells := NormalizedCells(row);
    forall i | 0 <= i < |cells| ensures cells[i] == NormalizeCell(row[i]) {
      NormalizedCellsAt(row, i);
    }
    LastWins(cells, j);
  }

  /** The keys of the index are exactly the non-empty codes of the entries. */
  lemma {:induction false} IndexOfEntriesKeys(es: seq<Entry>)
    ensures IndexOfEntries(es).Keys == set i | 0 <= i < |es| && es[i].code != "" :: es[i].code
  {
    if es != [] {
      var init := es[..|es| - 1];
      IndexOfEntriesKeys(init);
      assert forall i :: 0 <= i < |init| ==> init[i] == es[i];
    }
  }

  /** An entry whose code is not followed by another entry with the same code
      decides the value stored for it. */
  lemma {:induction false} IndexOfEntriesLastWins(es: seq<Entry>, j: nat)
    requires j < |es| && es[j].code != ""
    requires forall i :: j < i < |es| ==> es[i].code != es[j].code
    ensures es[j].code in IndexOfEntries(es)
    ensures IndexOfEntries(es)[es[j].code] == es[j].description
  {
    if j < |es| - 1 {
      var init := es[..|es| - 1];
      assert init[j] == es[j];
      IndexOfEntriesLastWins(init, j);
    }
  }

  /** An entry with an empty code changes nothing, wherever it stands. */
  lemma {:induction false} CodelessEntryIgnored(before: seq<Entry>, e: Entry, after: seq<Entry>)
    requires e.code == ""
    ensures IndexOfEntries(before + [e] + after) == IndexOfEntries(before + after)
  {
    if after == [] {
      assert before + [e] + after == before + [e];
      IndexOfEntriesSnoc(before, e);
      assert before + after == before;
    } else {
      var init, last := after[..|after| - 1], after[|after| - 1];
      CodelessEntryIgnored(before, e, init);
      assert before + [e] + after == (before + [e] + init) + [last];
      assert before + after == (before + init) + [last];
      IndexOfEntriesSnoc(before + [e] + init, last);
      IndexOfEntriesSnoc(before + init, last);
    }
  }

  /** Every key of the index is a non-empty string of ASCII digits that is
      the cleaned code of some row, and every non-empty cleaned code is a key. */
  lemma IndexKeysAreRowCodes(rows: seq<Row>)
    ensures forall k :: k in IndexOf(rows) ==>
      k != "" && AllDigits(k) && exists i :: 0 <= i < |rows| && RowCode(rows[i]) == k
    ensures forall i :: 0 <= i < |rows| && RowCode(rows[i]) != "" ==> RowCode(rows[i]) in IndexOf(rows)
  {
    var es := Entries(rows);
    IndexOfEntriesKeys(es);
    forall i | 0 <= i < |rows| ensures es[i] == RowEntry(rows[i]) {
      EntriesAt(rows, i);
    }
  }

  /** The description stored for a code is that of the last row carrying it;
      a row whose description cell is missing stores `''`. */
  lemma IndexLastRowWins(rows: seq<Row>, j: nat)
    requires j < |rows| && RowCode(rows[j]) != ""
    requires forall i :: j < i < |rows| ==> RowCode(rows[i]) != RowCode(rows[j])
    ensures RowCode(rows[j]) in IndexOf(rows)
    ensures IndexOf(rows)[RowCode(rows[j])] == RowDescription(rows[j])
  {
    var es := Entries(rows);
    forall i | 0 <= i < |rows| ensures es[i] == RowEntry(rows[i]) {
      EntriesAt(rows, i);
    }
    IndexOfEntriesLastWins(es, j);
  }

  /** A row whose cleaned code is empty (its `HSNCode` cell missing, blank or
      without digits) contributes nothing, wherever it stands in the input. */
  lemma CodelessRowIgnored(before: seq<Row>, row: Row, after: seq<Row>)
    requires RowCode(row) == ""
    ensures IndexOf(before + [row] + after) == IndexOf(before + after)
  {
    EntriesAppend(before + [row], after);
    EntriesAppend(before, [row]);
    EntriesAppend(before, after);
    assert Entries([row]) == [RowEntry(row)] by {
      assert [row][..0] == [];
    }
    CodelessEntryIgnored(Entries(before), RowEntry(row), Entries(after));
  }
}
