/** Create-or-update of one CSV row, for the three row shapes the commands
    import: a fast-food chain, a master product and a year product.  Each
    looks up the first published node carrying the row's natural key; if
    there is one it is rewritten from the row and counted as updated,
    otherwise a new published node is created and counted, unless the row's
    title is PHP-empty, in which case nothing happens. */
module RowUpsert {
  import opened Prelude
  import opened Store
  import opened Classification

  datatype Shape = ChainRow | MasterRow | YearRow

  /** The three counters a command reports. */
  datatype Tally = Tally(processed: nat, created: nat, updated: nat)

  const NoCounts := Tally(0, 0, 0)

  datatype Step = Step(store: Store, tally: Tally)

  /** Columns a row of the shape must have: the columns the PHP code reads
      without an `empty()` check.  Those are columns 0-1 for chain and master
      rows and columns 0-40 for year rows; the code columns 4, 6, 8 and 10
      are only read behind `empty()` (see `Col`). */
  function Width(shape: Shape): nat
  {
    match shape
    case ChainRow => 2
    case MasterRow => 2
    case YearRow => 41
  }

  predicate RowFits(shape: Shape, row: Row)
  {
    |row| >= Width(shape)
  }

  /** Chain rows: 0 = name, 1 = chain ID.  Product rows: 0 = product ID,
      1 = name, 2 = year, 4 = chain ID. */
  function RowKey(shape: Shape, row: Row): NaturalKey
    requires RowFits(shape, row)
  {
    match shape
    case ChainRow => ChainKey(row[1])
    case MasterRow => MasterKey(row[0])
    case YearRow => ProductKey(row[0], row[2])
  }

  function RowTitle(shape: Shape, row: Row): string
    requires RowFits(shape, row)
  {
    match shape
    case ChainRow => row[0]
    case _ => row[1]
  }

  /** The fast-food chain block: a non-empty chain ID column replaces the
      reference with whatever the chain resolver finds (possibly nothing). */
  function ChainField(s: Store, row: Row, prior: Ref): (r: Ref)
    ensures Empty(Col(row, 4)) ==> r == prior
    ensures !Empty(Col(row, 4)) ==> r == ResolveChain(s, Col(row, 4))
    ensures !Empty(Col(row, 4)) ==> (r.NoRef? <==> forall j | 0 <= j < |s| :: !IsChain(s[j], Col(row, 4)))
  {
    if Empty(Col(row, 4)) then prior else ResolveChain(s, Col(row, 4))
  }

  /** The chain block does not depend on what it overwrites once the column
      is set, so running it twice, as the year-product create branch does,
      is the same as running it once. */
  lemma ChainFieldTwice(s: Store, row: Row, prior: Ref)
    ensures ChainField(s, row, ChainField(s, row, prior)) == ChainField(s, row, prior)
    ensures !Empty(Col(row, 4)) ==> forall other: Ref :: ChainField(s, row, other) == ChainField(s, row, prior)
  {
  }

  /** The node the create branch builds from a row. */
  function Fresh(shape: Shape, tax: Taxonomy, s: Store, row: Row): (c: Content)
    requires RowFits(shape, row)
    ensures KeyOf(c) == RowKey(shape, row)
    ensures c.title == RowTitle(shape, row)
    ensures shape != ChainRow ==> c.productName == row[1] && c.chain == ChainField(s, row, NoRef)
    ensures shape != ChainRow ==> c.group == Classify(tax, NoRef, row)
    ensures shape == YearRow ==> c.details == row[11..41] && c.allInformation
  {
    match shape
    case ChainRow => FastFoodChain(row[0], row[1])
    case MasterRow =>
      MasterProduct(row[1], row[0], row[1], ChainField(s, row, NoRef), Classify(tax, NoRef, row))
    case YearRow =>
      // The create branch runs the chain block twice in a row.
      var chain := ChainField(s, row, ChainField(s, row, NoRef));
      Product(row[1], row[0], row[1], row[2], chain, Classify(tax, NoRef, row), row[11..41], true)
  }

  /** The node the update branch makes of the node it loaded.  A master
      product's chain reference is left alone; a year product's is reset
      from the row like on creation. */
  function Revise(shape: Shape, tax: Taxonomy, s: Store, prev: Content, row: Row): (c: Content)
    requires RowFits(shape, row) && KeyOf(prev) == RowKey(shape, row)
    ensures KeyOf(c) == KeyOf(prev)
    ensures c.title == RowTitle(shape, row)
    ensures shape == MasterRow ==> c.chain == prev.chain
    ensures shape == YearRow ==> c.chain == ChainField(s, row, prev.chain)
    ensures shape != ChainRow ==> c.productName == row[1]
    ensures shape != ChainRow ==> c.group == Classify(tax, prev.group, row)
    ensures shape == YearRow ==> c.details == row[11..41] && c.allInformation
  {
    match shape
    case ChainRow => FastFoodChain(row[0], row[1])
    case MasterRow =>
      MasterProduct(row[1], row[0], row[1], prev.chain, Classify(tax, prev.group, row))
    case YearRow =>
      Product(row[1], row[0], row[1], row[2], ChainField(s, row, prev.chain),
              Classify(tax, prev.group, row), row[11..41], true)
  }

  /** createOrUpdateChain, createOrUpdateMasterProduct and
      createOrUpdatePreviousYearProduct, with the counters passed by value. */
  function Upsert(shape: Shape, tax: Taxonomy, s: Store, t: Tally, row: Row): (r: Step)
    requires RowFits(shape, row)
    ensures Present(s, RowKey(shape, row)) ==>
              && r.tally == t.(updated := t.updated + 1)
              && |r.store| == |s|
              && var i := FindLive(s, RowKey(shape, row)).value;
                 r.store[i] == Node(s[i].published, Revise(shape, tax, s, s[i].content, row))
    ensures !Present(s, RowKey(shape, row)) && !Empty(RowTitle(shape, row)) ==>
              && r.tally == t.(created := t.created + 1)
              && r.store == s + [Node(true, Fresh(shape, tax, s, row))]
    ensures !Present(s, RowKey(shape, row)) && Empty(RowTitle(shape, row)) ==> r == Step(s, t)
    ensures |s| <= |r.store|
    ensures forall j | 0 <= j < |s| :: LiveKey(r.store[j]) == LiveKey(s[j])
    ensures forall j | 0 <= j < |s| :: r.store[j] == s[j] || FindLive(s, RowKey(shape, row)) == Some(j)
  {
    match FindLive(s, RowKey(shape, row))
    case Some(i) =>
      Step(s[i := s[i].(content := Revise(shape, tax, s, s[i].content, row))],
           t.(updated := t.updated + 1))
    case None =>
      if Empty(RowTitle(shape, row)) then Step(s, t)
      else Step(s + [Node(true, Fresh(shape, tax, s, row))], t.(created := t.created + 1))
  }

  /** After a row, its key is present exactly when it was before or the row
      had a title to create it with; every other key keeps its presence. */
  lemma UpsertPresence(shape: Shape, tax: Taxonomy, s: Store, t: Tally, row: Row, k: NaturalKey)
    requires RowFits(shape, row)
    ensures var r := Upsert(shape, tax, s, t, row);
            Present(r.store, k) <==>
              Present(s, k) || (k == RowKey(shape, row) && !Empty(RowTitle(shape, row)))
  {
    var r := Upsert(shape, tax, s, t, row);
    if Present(s, k) {
      var j :| 0 <= j < |s| && Live(s[j], k);
      assert LiveKey(r.store[j]) == LiveKey(s[j]);
      assert Live(r.store[j], k);
    } else if k == RowKey(shape, row) && !Empty(RowTitle(shape, row)) {
      assert Live(r.store[|s|], k);
    } else {
      forall j | 0 <= j < |r.store|
        ensures !Live(r.store[j], k)
      {
        if j < |s| {
          assert LiveKey(r.store[j]) == LiveKey(s[j]);
        }
      }
    }
  }

  /** No two published nodes answer to the same natural key. */
  predicate KeysUnique(s: Store)
  {
    forall i, j | 0 <= i < j < |s| && s[i].published && s[j].published ::
      KeyOf(s[i].content) != KeyOf(s[j].content)
  }

  /** An upsert never adds a second published node for a key. */
  lemma UpsertKeepsKeysUnique(shape: Shape, tax: Taxonomy, s: Store, t: Tally, row: Row)
    requires RowFits(shape, row) && KeysUnique(s)
    ensures KeysUnique(Upsert(shape, tax, s, t, row).store)
  {
  }

  /** The update branch of a master product never touches its fast-food
      chain reference; only the create branch sets it. */
  lemma MasterUpdateKeepsChain(tax: Taxonomy, s: Store, t: Tally, row: Row)
    requires RowFits(MasterRow, row)
    ensures var r := Upsert(MasterRow, tax, s, t, row);
            && (Present(s, MasterKey(row[0])) ==>
                  var i := FindLive(s, MasterKey(row[0])).value;
                  r.store[i].content.chain == s[i].content.chain)
            && (!Present(s, MasterKey(row[0])) && !Empty(row[1]) ==>
                  r.store[|s|].content.chain == ChainField(s, row, NoRef))
  {
  }

  /** On a year product both branches copy the row's fields: the node the row
      leaves behind carries the row's title, name and verbatim detail
      columns, whichever branch ran. */
  lemma YearRowFieldsWritten(tax: Taxonomy, s: Store, t: Tally, row: Row)
    requires RowFits(YearRow, row)
    requires Present(s, ProductKey(row[0], row[2])) || !Empty(row[1])
    ensures var r := Upsert(YearRow, tax, s, t, row);
            var i := FindLive(r.store, ProductKey(row[0], row[2]));
            && i.Some?
            && r.store[i.value].content.title == row[1]
            && r.store[i.value].content.productName == row[1]
            && r.store[i.value].content.details == row[11..41]
            && r.store[i.value].content.allInformation
  {
    var r := Upsert(YearRow, tax, s, t, row);
    var k := ProductKey(row[0], row[2]);
    UpsertPresence(YearRow, tax, s, t, row, k);
    match FindLive(s, k)
    case Some(i) =>
      forall j | 0 <= j < i
        ensures !Live(r.store[j], k)
      {
        assert LiveKey(r.store[j]) == LiveKey(s[j]);
      }
      assert Live(r.store[i], k);
      assert FindLive(r.store, k) == Some(i);
    case None =>
      forall j | 0 <= j < |s|
        ensures !Live(r.store[j], k)
      {
        assert LiveKey(r.store[j]) == LiveKey(s[j]);
      }
      assert FindLive(r.store, k) == Some(|s|);
  }
}
