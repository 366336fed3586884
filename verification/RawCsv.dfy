/** The raw CSV printer, and what the CSV reader makes of its rows. */
module RawCsv {
  import opened Csv
  import opened CsvFile

  datatype RowType =
    | FreeForm | KvPair | TableRow | TableHeader | TableSection | DataSet | Record | TreeHeader | TreeBranch | TreeLeaf

  /** A field with a comma is put between quotes as it is; any other is printed bare. */
  function Cell(f: string): string {
    if SEPARATOR in f then "\"" + f + "\"" else f
  }

  function Cells(fields: seq<string>): string {
    if fields == [] then ""
    else if |fields| == 1 then Cell(fields[0])
    else Cells(fields[..|fields| - 1]) + "," + Cell(fields[|fields| - 1])
  }

  /** A field is printed as it is, between quotes if it has a comma, and commas are put between fields. */
  lemma {:induction false} RowIs(fields: seq<string>, f: string)
    ensures Cells([f]) == if ',' in f then "\"" + f + "\"" else f
    ensures fields != [] ==> Cells(fields + [f]) == Cells(fields) + "," + Cells([f])
  {
    assert fields != [] ==> (fields + [f])[..|fields|] == fields;
  }

  class View {
    var outfile: string

    constructor ()
      ensures outfile == ""
    {
      outfile := "";
    }

    /** raw_csv_process_row */
    method ProcessRow(kind: RowType, fields: seq<string>)
      modifies this
      ensures outfile == old(outfile) + if kind == Record || kind == DataSet then "" else Cells(fields) + "\n"
    {
      if kind != Record && kind != DataSet {
        ghost var row := "";
        assert outfile == old(outfile) + row;
        for i := 0 to |fields|
          invariant outfile == old(outfile) + row && row == Cells(fields[..i])
        {
          CellsSnoc(fields, i);
          hide Cells, Cell;
          ghost var next := (if i == 0 then "" else row + ",") + Cell(fields[i]);
          if i != 0 {
            outfile := outfile + ",";
          }
          PrintCell(fields[i]);
          assert outfile == old(outfile) + next;
          row := next;
        }
        assert fields[..|fields|] == fields;
        outfile := outfile + "\n";
        assert outfile == old(outfile) + (row + "\n");
      }
    }

    method PrintCell(f: string)
      modifies this
      ensures outfile == old(outfile) + Cell(f)
    {
      if SEPARATOR in f {
        outfile := outfile + ("\"" + f + "\"");
      } else {
        outfile := outfile + f;
      }
    }
  }

  lemma {:induction false} CellsSnoc(fields: seq<string>, i: nat)
    requires i < |fields|
    ensures Cells(fields[..i + 1]) == (if i == 0 then "" else Cells(fields[..i]) + ",") + Cell(fields[i])
  {
    assert fields[..i + 1][..i] == fields[..i] && fields[..i + 1][i] == fields[i];
  }

  /** The rows the reader undoes: no quotes, and no blank at either end of a field without a comma. */
  predicate Printable(f: string) {
    && (forall k :: 0 <= k < |f| ==> f[k] != '"' && f[k] != '\0' && f[k] != '\n')
    && (SEPARATOR !in f && f != [] ==> !IsSpace(f[0]) && !IsSpace(f[|f| - 1]))
  }

  function AsField(f: string): Field {
    if SEPARATOR in f then Quoted(f) else Bare(f)
  }

  function AsFields(fields: seq<string>): (fs: seq<Field>)
    ensures |fs| == |fields|
  {
    seq(|fields|, (i: nat) requires i < |fields| => AsField(fields[i]))
  }

  lemma {:induction false} DoublingNothing(f: string)
    requires forall k :: 0 <= k < |f| ==> f[k] != '"'
    ensures Doubled(f) == f
  {
    if f != [] {
      DoublingNothing(f[1..]);
      assert f == [f[0]] + f[1..];
    }
  }

  lemma {:induction false} LineSnoc(fs: seq<Field>, f: Field)
    requires fs != []
    ensures Line(fs + [f]) == Line(fs) + "," + Enc(f)
    decreases |fs|
  {
    hide Enc;
    if |fs| == 1 {
      assert (fs + [f])[1..] == [f];
    } else {
      assert (fs + [f])[1..] == fs[1..] + [f];
      LineSnoc(fs[1..], f);
      Regroup(Enc(fs[0]) + [SEPARATOR], Line(fs[1..]), "," + Enc(f));
    }
  }

  lemma Regroup(a: string, b: string, c: string)
    ensures a + (b + c) == a + b + c
  {
  }

  lemma {:induction false} FieldIsCell(f: string)
    requires Printable(f)
    ensures Enc(AsField(f)) == Cell(f)
  {
    DoublingNothing(f);
  }

  /** A printed row is an encoded line. */
  lemma {:induction false} RowIsLine(fields: seq<string>)
    requires fields != [] && forall k :: 0 <= k < |fields| ==> Printable(fields[k])
    ensures Cells(fields) == Line(AsFields(fields))
    decreases |fields|
  {
    hide Printable, AsField, Enc, Cell;
    var n := |fields| - 1;
    FieldIsCell(fields[n]);
    if n == 0 {
      assert AsFields(fields) == [AsField(fields[0])];
    } else {
      RowIsLine(fields[..n]);
      assert AsFields(fields) == AsFields(fields[..n]) + [AsField(fields[n])];
      LineSnoc(AsFields(fields[..n]), AsField(fields[n]));
    }
  }

  lemma {:induction false} RowIsClean(fields: seq<string>)
    requires forall k :: 0 <= k < |fields| ==> Printable(fields[k])
    ensures Clean(Cells(fields))
    decreases |fields|
  {
    hide Printable, Cell;
    if fields != [] {
      var n := |fields| - 1;
      CellIsClean(fields[n]);
      RowIsClean(fields[..n]);
    }
  }

  lemma CellIsClean(f: string)
    requires Printable(f)
    ensures Clean(Cell(f))
  {
  }

  lemma {:induction false} ReadableRow(fields: seq<string>)
    requires forall k :: 0 <= k < |fields| ==> Printable(fields[k])
    ensures forall k :: 0 <= k < |fields| ==> Readable(AsFields(fields)[k])
  {
  }

  /** Printing a row and reading it back gives the same fields. */
  lemma {:induction false} RowReadsBack(fields: seq<string>)
    requires fields != [] && forall k :: 0 <= k < |fields| ==> Printable(fields[k])
    ensures Clean(Cells(fields)) && Yields(Outcome(Cells(fields)), fields)
  {
    RowIsLine(fields);
    RowIsClean(fields);
    ReadsBack(AsFields(fields));
    assert Texts(AsFields(fields)) == fields;
  }

  /**
   Reading a printed row with csv_read, whatever follows it. It is refused exactly if the row is longer than a
   line may be or has more columns than are allowed; otherwise the fields are back and the row is consumed.
   */
  method ReadRow(file: CsvFile, ghost fields: seq<string>, ghost rest: string) returns (ok: bool)
    requires file.Ready() && file.input == Cells(fields) + "\n" + rest
    requires fields != [] && forall k :: 0 <= k < |fields| ==> Printable(fields[k])
    modifies file, file.buffer, file.columns
    ensures ok <==> |Cells(fields)| <= MAX_LINE_LENGTH && |fields| <= MAX_NUM_COLUMNS + 1
    ensures ok ==>
      && file.numColumns == |fields| <= file.columns.Length
      && Shows(file.buffer[..], file.columns[..file.numColumns], fields)
      && file.input == rest && !file.eof && file.Ready()
  {
    RowIsLine(fields);
    RowIsClean(fields);
    ReadableRow(fields);
    assert Texts(AsFields(fields)) == fields;
    hide Cells, Printable, AsFields, Readable, Line, Clean;
    ok := ReadFields(file, AsFields(fields), rest);
  }

  /** Printing a row and reading it from what was printed. */
  method PrintAndRead(kind: RowType, fields: seq<string>) returns (ok: bool, file: CsvFile)
    requires kind != Record && kind != DataSet
    requires fields != [] && forall k :: 0 <= k < |fields| ==> Printable(fields[k])
    ensures ok <==> |Cells(fields)| <= MAX_LINE_LENGTH && |fields| <= MAX_NUM_COLUMNS + 1
    ensures ok ==> file.numColumns == |fields| <= file.columns.Length
                   && Shows(file.buffer[..], file.columns[..file.numColumns], fields) && file.input == ""
  {
    hide Cells, Printable;
    var view := new View();
    view.ProcessRow(kind, fields);
    file := new CsvFile(view.outfile);
    assert file.input == Cells(fields) + "\n" + "";
    ok := ReadRow(file, fields, "");
  }
}
