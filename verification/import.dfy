/** The three CSV import commands: read every row of the file, then fold the
    row upsert over them in file order, counting each row as processed. */
module Import {
  import opened Prelude
  import opened Store
  import opened RowUpsert

  predicate AllFit(shape: Shape, rows: seq<Row>)
  {
    forall i | 0 <= i < |rows| :: RowFits(shape, rows[i])
  }

  /** The counting loop of importCSVcreateFFC, importCSVcreateMP and
      importCSVcreatePREV, starting from the counters `t`. */
  function ImportRows(shape: Shape, tax: Taxonomy, s: Store, t: Tally, rows: seq<Row>): (r: Step)
    requires AllFit(shape, rows)
    ensures r.tally.processed == t.processed + |rows|
    ensures t.created <= r.tally.created && t.updated <= r.tally.updated
    ensures (r.tally.created - t.created) + (r.tally.updated - t.updated) <= |rows|
    ensures |r.store| == |s| + (r.tally.created - t.created)
    ensures forall j | 0 <= j < |s| :: LiveKey(r.store[j]) == LiveKey(s[j])
    ensures (forall i | 0 <= i < |rows| :: !Empty(RowTitle(shape, rows[i]))) ==>
              (r.tally.created - t.created) + (r.tally.updated - t.updated) == |rows|
    decreases |rows|
  {
    if |rows| == 0 then Step(s, t)
    else
      var next := Upsert(shape, tax, s, t, rows[0]);
      assert forall i | 0 <= i < |rows[1..]| :: rows[1..][i] == rows[i + 1];
      ImportRows(shape, tax, next.store, next.tally.(processed := next.tally.processed + 1), rows[1..])
  }

  /** The rows after the first still fit. */
  lemma AllFitTail(shape: Shape, rows: seq<Row>)
    requires AllFit(shape, rows) && |rows| > 0
    ensures RowFits(shape, rows[0]) && AllFit(shape, rows[1..])
  {
  }

  /** An import of a non-empty list is the upsert of its first row, counted
      as processed, followed by the import of the rest. */
  lemma {:induction false} ImportCons(shape: Shape, tax: Taxonomy, s: Store, t: Tally, row: Row, rest: seq<Row>)
    requires RowFits(shape, row) && AllFit(shape, rest)
    ensures AllFit(shape, [row] + rest)
    ensures var next := Upsert(shape, tax, s, t, row);
            ImportRows(shape, tax, s, t, [row] + rest)
              == ImportRows(shape, tax, next.store, next.tally.(processed := next.tally.processed + 1), rest)
  {
    assert ([row] + rest)[0] == row && ([row] + rest)[1..] == rest;
  }

  /** A two-row import is the upsert of the first row followed by the upsert
      of the second, each counted as processed. */
  lemma {:induction false} ImportTwo(shape: Shape, tax: Taxonomy, s: Store, t: Tally, a: Row, b: Row)
    requires RowFits(shape, a) && RowFits(shape, b)
    ensures var first := Upsert(shape, tax, s, t, a);
            var t1 := first.tally.(processed := first.tally.processed + 1);
            var second := Upsert(shape, tax, first.store, t1, b);
            ImportRows(shape, tax, s, t, [a, b]) == Step(second.store, second.tally.(processed := t1.processed + 1))
  {
    var first := Upsert(shape, tax, s, t, a);
    var t1 := first.tally.(processed := first.tally.processed + 1);
    ImportCons(shape, tax, first.store, t1, b, []);
    ImportCons(shape, tax, s, t, a, [b]);
    assert [a] + [b] == [a, b] && [b] + [] == [b];
  }

  datatype FileError = FileNotFound | FileOpenFailure

  /** What the command finds at the path it is given. */
  datatype CsvSource = Missing | Unopenable | Opened(rows: seq<Row>)

  /** The command either reports its three counters or dies with a message. */
  datatype Report = Completed(tally: Tally) | Died(error: FileError)

  datatype Run = Run(store: Store, report: Report)

  /** One import command run against the store. */
  function ImportFile(shape: Shape, tax: Taxonomy, s: Store, src: CsvSource): (r: Run)
    requires src.Opened? ==> AllFit(shape, src.rows)
    ensures src.Missing? ==> r == Run(s, Died(FileNotFound))
    ensures src.Unopenable? ==> r == Run(s, Died(FileOpenFailure))
    ensures src.Opened? ==> && r.report.Completed?
                            && r.report.tally.processed == |src.rows|
                            && r.report.tally.created + r.report.tally.updated <= |src.rows|
                            && |r.store| == |s| + r.report.tally.created
    ensures src.Opened? ==> var done := ImportRows(shape, tax, s, NoCounts, src.rows);
                            r.store == done.store && r.report.tally == done.tally
    ensures src.Opened? ==> forall i | 0 <= i < |src.rows| && !Empty(RowTitle(shape, src.rows[i])) ::
                              Present(r.store, RowKey(shape, src.rows[i]))
  {
    match src
    case Missing => Run(s, Died(FileNotFound))
    case Unopenable => Run(s, Died(FileOpenFailure))
    case Opened(rows) =>
      var done := ImportRows(shape, tax, s, NoCounts, rows);
      ImportCoversTitledRows(shape, tax, s, NoCounts, rows);
      Run(done.store, Completed(done.tally))
  }

  /** A key present before an import is present after it. */
  lemma ImportKeepsPresent(shape: Shape, tax: Taxonomy, s: Store, t: Tally,
                                              rows: seq<Row>, k: NaturalKey)
    requires AllFit(shape, rows) && Present(s, k)
    ensures Present(ImportRows(shape, tax, s, t, rows).store, k)
    decreases |rows|
  {
  }

  /** After an import, the key of row `i` is present if that row had a title. */
  lemma {:induction false} ImportCoversRow(shape: Shape, tax: Taxonomy, s: Store, t: Tally,
                                           rows: seq<Row>, i: nat)
    requires AllFit(shape, rows) && i < |rows| && !Empty(RowTitle(shape, rows[i]))
    ensures Present(ImportRows(shape, tax, s, t, rows).store, RowKey(shape, rows[i]))
    decreases |rows|
  {
    var next := Upsert(shape, tax, s, t, rows[0]);
    var t' := next.tally.(processed := next.tally.processed + 1);
    var rest := rows[1..];
    AllFitTail(shape, rows);
    ImportCons(shape, tax, s, t, rows[0], rest);
    assert [rows[0]] + rest == rows;
    if i == 0 {
      UpsertPresence(shape, tax, s, t, rows[0], RowKey(shape, rows[0]));
      ImportKeepsPresent(shape, tax, next.store, t', rest, RowKey(shape, rows[0]));
    } else {
      assert rows[i] == rest[i - 1];
      ImportCoversRow(shape, tax, next.store, t', rest, i - 1);
    }
  }

  /** After an import, the key of every row that had a title is present. */
  lemma ImportCoversTitledRows(shape: Shape, tax: Taxonomy, s: Store, t: Tally, rows: seq<Row>)
    requires AllFit(shape, rows)
    ensures var r := ImportRows(shape, tax, s, t, rows);
            forall i | 0 <= i < |rows| && !Empty(RowTitle(shape, rows[i])) ::
              Present(r.store, RowKey(shape, rows[i]))
  {
    forall i | 0 <= i < |rows| && !Empty(RowTitle(shape, rows[i]))
      ensures Present(ImportRows(shape, tax, s, t, rows).store, RowKey(shape, rows[i]))
    {
      ImportCoversRow(shape, tax, s, t, rows, i);
    }
  }

  /** Rows whose keys are all present already, or that have no title,
      create nothing. */
  lemma {:induction false} CoveredRowsCreateNothing(shape: Shape, tax: Taxonomy, s: Store, t: Tally,
                                                    rows: seq<Row>)
    requires AllFit(shape, rows)
    requires forall i | 0 <= i < |rows| ::
               Empty(RowTitle(shape, rows[i])) || Present(s, RowKey(shape, rows[i]))
    ensures ImportRows(shape, tax, s, t, rows).tally.created == t.created
    decreases |rows|
  {
    if |rows| > 0 {
      var next := Upsert(shape, tax, s, t, rows[0]);
      var t' := next.tally.(processed := next.tally.processed + 1);
      var rest := rows[1..];
      AllFitTail(shape, rows);
      ImportCons(shape, tax, s, t, rows[0], rest);
      assert [rows[0]] + rest == rows;
      forall i | 0 <= i < |rest|
        ensures Empty(RowTitle(shape, rest[i])) || Present(next.store, RowKey(shape, rest[i]))
      {
        assert rest[i] == rows[i + 1];
        UpsertPresence(shape, tax, s, t, rows[0], RowKey(shape, rows[i + 1]));
      }
      CoveredRowsCreateNothing(shape, tax, next.store, t', rest);
    }
  }

  /** Running the same rows again on the store the first run left creates
      nothing: every titled row's key now exists and is updated, and an
      untitled row with an absent key is skipped again. */
  lemma ReimportCreatesNothing(shape: Shape, tax: Taxonomy, s: Store, rows: seq<Row>)
    requires AllFit(shape, rows)
    ensures var first := ImportRows(shape, tax, s, NoCounts, rows);
            var second := ImportRows(shape, tax, first.store, NoCounts, rows);
            && second.tally.created == 0
            && second.tally.processed == |rows|
            && |second.store| == |first.store|
  {
    var first := ImportRows(shape, tax, s, NoCounts, rows);
    ImportCoversTitledRows(shape, tax, s, NoCounts, rows);
    CoveredRowsCreateNothing(shape, tax, first.store, NoCounts, rows);
  }

  /** Running a command twice on the same readable file: the second run
      creates nothing and reports every row as processed. */
  lemma ImportFileTwice(shape: Shape, tax: Taxonomy, s: Store, src: CsvSource)
    requires src.Opened? ==> AllFit(shape, src.rows)
    ensures var first := ImportFile(shape, tax, s, src);
            var second := ImportFile(shape, tax, first.store, src);
            && (src.Opened? ==> && second.report.Completed?
                                && second.report.tally.processed == |src.rows|
                                && second.report.tally.created == 0)
            && |second.store| == |first.store|
  {
    if src.Opened? {
      ReimportCreatesNothing(shape, tax, s, src.rows);
    }
  }

  /** An import never leaves two published nodes with the same natural key
      if there were none before: repeated rows collapse onto one node. */
  lemma {:induction false} ImportKeepsKeysUnique(shape: Shape, tax: Taxonomy, s: Store, t: Tally,
                                                 rows: seq<Row>)
    requires AllFit(shape, rows) && KeysUnique(s)
    ensures KeysUnique(ImportRows(shape, tax, s, t, rows).store)
    decreases |rows|
  {
    if |rows| > 0 {
      var next := Upsert(shape, tax, s, t, rows[0]);
      var t' := next.tally.(processed := next.tally.processed + 1);
      var rest := rows[1..];
      AllFitTail(shape, rows);
      ImportCons(shape, tax, s, t, rows[0], rest);
      assert [rows[0]] + rest == rows;
      UpsertKeepsKeysUnique(shape, tax, s, t, rows[0]);
      ImportKeepsKeysUnique(shape, tax, next.store, t', rest);
    }
  }

  /** Two year-product rows with the same product ID but different years
      create two nodes. */
  lemma DistinctYearsStayApart(tax: Taxonomy, s: Store, a: Row, b: Row)
    requires RowFits(YearRow, a) && RowFits(YearRow, b)
    requires a[0] == b[0] && a[2] != b[2] && !Empty(a[1]) && !Empty(b[1])
    requires !Present(s, ProductKey(a[0], a[2])) && !Present(s, ProductKey(b[0], b[2]))
    ensures var r := ImportRows(YearRow, tax, s, NoCounts, [a, b]);
            && r.tally == Tally(2, 2, 0)
            && |r.store| == |s| + 2
            && Present(r.store, ProductKey(a[0], a[2]))
            && Present(r.store, ProductKey(b[0], b[2]))
  {
    var first := Upsert(YearRow, tax, s, NoCounts, a);
    UpsertPresence(YearRow, tax, s, NoCounts, a, ProductKey(a[0], a[2]));
    UpsertPresence(YearRow, tax, s, NoCounts, a, ProductKey(b[0], b[2]));
    var t1 := first.tally.(processed := 1);
    UpsertPresence(YearRow, tax, first.store, t1, b, ProductKey(a[0], a[2]));
    UpsertPresence(YearRow, tax, first.store, t1, b, ProductKey(b[0], b[2]));
    ImportTwo(YearRow, tax, s, NoCounts, a, b);
  }

  /** Two year-product rows with the same (product ID, year) collapse onto
      one node, which carries the later row's fields. */
  lemma SameYearCollapses(tax: Taxonomy, s: Store, a: Row, b: Row)
    requires RowFits(YearRow, a) && RowFits(YearRow, b)
    requires a[0] == b[0] && a[2] == b[2] && !Empty(a[1])
    requires !Present(s, ProductKey(a[0], a[2]))
    ensures var r := ImportRows(YearRow, tax, s, NoCounts, [a, b]);
            && r.tally == Tally(2, 1, 1)
            && |r.store| == |s| + 1
            && (forall j | 0 <= j < |r.store| && Live(r.store[j], ProductKey(a[0], a[2])) :: j == |s|)
            && r.store[|s|].content.title == b[1]
            && r.store[|s|].content.details == b[11..41]
  {
    var k := ProductKey(a[0], a[2]);
    var first := Upsert(YearRow, tax, s, NoCounts, a);
    var t1 := first.tally.(processed := 1);
    assert Live(first.store[|s|], k);
    forall j | 0 <= j < |s|
      ensures !Live(first.store[j], k)
    {
      assert first.store[j] == s[j];
    }
    assert FindLive(first.store, k) == Some(|s|);
    var second := Upsert(YearRow, tax, first.store, t1, b);
    ImportTwo(YearRow, tax, s, NoCounts, a, b);
    forall j | 0 <= j < |second.store| && Live(second.store[j], k)
      ensures j == |s|
    {
      assert LiveKey(second.store[j]) == LiveKey(first.store[j]);
    }
  }

  /** Importing the chain row ["McDonald's", "7"] into a store without chain
      7 creates it; importing it again updates it in place. */
  lemma ChainRowTwice(tax: Taxonomy, s: Store)
    requires !Present(s, ChainKey("7"))
    ensures var row: Row := ["McDonald's", "7"];
            var first := ImportRows(ChainRow, tax, s, NoCounts, [row]);
            var second := ImportRows(ChainRow, tax, first.store, NoCounts, [row]);
            && first.tally == Tally(1, 1, 0)
            && second.tally == Tally(1, 0, 1)
            && |second.store| == |s| + 1
  {
    var row: Row := ["McDonald's", "7"];
    assert !Empty(row[0]);
    var first := ImportRows(ChainRow, tax, s, NoCounts, [row]);
    var step := Upsert(ChainRow, tax, s, NoCounts, row);
    assert [row][1..] == [];
    assert first == ImportRows(ChainRow, tax, step.store, step.tally.(processed := 1), []);
    UpsertPresence(ChainRow, tax, s, NoCounts, row, ChainKey("7"));
    var again := Upsert(ChainRow, tax, first.store, NoCounts, row);
    assert ImportRows(ChainRow, tax, first.store, NoCounts, [row])
        == Step(again.store, again.tally.(processed := 1));
  }
}
