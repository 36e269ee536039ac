/** copyMPcreatePROD: for every published master product, create a year
    product for the given year carrying the master's ID, name, chain and
    classification.  It has no update branch: it always creates. */
module CopyForward {
  import opened Prelude
  import opened Store
  import opened RowUpsert

  predicate IsPublishedMaster(n: Node)
  {
    n.published && n.content.MasterProduct?
  }

  /** Storage keys at or after `from` of the published master products, in
      ascending order: what the command's node query returns. */
  function MastersFrom(s: Store, from: nat): (r: seq<nat>)
    requires from <= |s|
    ensures forall k | 0 <= k < |r| :: from <= r[k] < |s| && IsPublishedMaster(s[r[k]])
    ensures forall i | from <= i < |s| && IsPublishedMaster(s[i]) :: i in r
    ensures forall k, m | 0 <= k < m < |r| :: r[k] < r[m]
    decreases |s| - from
  {
    if from == |s| then []
    else if IsPublishedMaster(s[from]) then [from] + MastersFrom(s, from + 1)
    else MastersFrom(s, from + 1)
  }

  /** The year product built from a master product. */
  function CopyOf(m: Content, year: string): (c: Content)
    requires m.MasterProduct?
    ensures KeyOf(c) == ProductKey(m.productId, year)
    ensures c.title == m.title && c.productName == m.productName
    ensures c.chain == m.chain && c.group == m.group
    ensures c.details == [] && !c.allInformation
  {
    // Title, ID, name, year and both references; the detail columns and the
    // all-information flag are not set.
    Product(m.title, m.productId, m.productName, year, m.chain, m.group, [], false)
  }

  predicate AllMasters(s: Store, nids: seq<nat>)
  {
    forall k | 0 <= k < |nids| :: nids[k] < |s| && IsPublishedMaster(s[nids[k]])
  }

  /** The command's loop: load each listed master and save a copy of it,
      counting it both as processed and as created. */
  function CopyLoop(s: Store, nids: seq<nat>, year: string, t: Tally): (r: Step)
    requires AllMasters(s, nids)
    ensures r.tally == Tally(t.processed + |nids|, t.created + |nids|, t.updated)
    ensures |r.store| == |s| + |nids| && r.store[..|s|] == s
    ensures forall k | 0 <= k < |nids| :: r.store[|s|..][k] == Node(true, CopyOf(s[nids[k]].content, year))
    decreases |nids|
  {
    if |nids| == 0 then Step(s, t)
    else
      var copy := Node(true, CopyOf(s[nids[0]].content, year));
      var s' := s + [copy];
      assert AllMasters(s', nids[1..]) by {
        forall k | 0 <= k < |nids[1..]|
          ensures nids[1..][k] < |s'| && IsPublishedMaster(s'[nids[1..][k]])
        {
          assert nids[1..][k] == nids[k + 1];
        }
      }
      var r := CopyLoop(s', nids[1..], year, Tally(t.processed + 1, t.created + 1, t.updated));
      assert r.store[..|s|] == r.store[..|s'|][..|s|];
      assert r.store[|s|..][0] == r.store[..|s'|][|s|];
      forall k | 1 <= k < |nids|
        ensures r.store[|s|..][k] == Node(true, CopyOf(s[nids[k]].content, year))
      {
        assert r.store[|s|..][k] == r.store[|s'|..][k - 1];
        assert nids[k] == nids[1..][k - 1];
      }
      r
  }

  /** Every listed master has its copy among the added nodes, and every
      added node is the copy of a listed master. */
  lemma CopiesMatchMasters(s: Store, nids: seq<nat>, year: string, added: seq<Node>)
    requires AllMasters(s, nids) && |added| == |nids|
    requires forall k | 0 <= k < |nids| :: added[k] == Node(true, CopyOf(s[nids[k]].content, year))
    ensures forall i | i in nids :: Node(true, CopyOf(s[i].content, year)) in added
    ensures forall n | n in added ::
              exists i | 0 <= i < |s| && IsPublishedMaster(s[i]) :: n == Node(true, CopyOf(s[i].content, year))
  {
  }

  /** copyMPcreatePROD with the year argument. */
  function CopyForward(s: Store, year: string): (r: Step)
    ensures r.tally.processed == r.tally.created && r.tally.updated == 0
    ensures |r.store| == |s| + r.tally.created && r.store[..|s|] == s
    ensures forall i | 0 <= i < |s| && IsPublishedMaster(s[i]) ::
              Node(true, CopyOf(s[i].content, year)) in r.store[|s|..]
    ensures forall n | n in r.store[|s|..] ::
              exists i | 0 <= i < |s| && IsPublishedMaster(s[i]) :: n == Node(true, CopyOf(s[i].content, year))
  {
    var nids := MastersFrom(s, 0);
    var r := CopyLoop(s, nids, year, NoCounts);
    CopiesMatchMasters(s, nids, year, r.store[|s|..]);
    r
  }

  /** After copying forward, the key (master's ID, year) of every published
      master is present. */
  lemma CopyMakesKeysPresent(s: Store, year: string, i: nat)
    requires i < |s| && IsPublishedMaster(s[i])
    ensures Present(CopyForward(s, year).store, ProductKey(s[i].content.productId, year))
  {
    var c := CopyForward(s, year).store;
    var added := c[|s|..];
    var k :| 0 <= k < |added| && added[k] == Node(true, CopyOf(s[i].content, year));
    assert c[|s| + k] == added[k];
    assert Live(c[|s| + k], ProductKey(s[i].content.productId, year));
  }

  /** So a later year-product row for that ID and year updates the copy
      instead of creating a node. */
  lemma CopyThenImportUpdates(tax: Taxonomy, s: Store, year: string, i: nat, t: Tally, row: Row)
    requires i < |s| && IsPublishedMaster(s[i])
    requires RowFits(YearRow, row) && row[0] == s[i].content.productId && row[2] == year
    ensures var c := CopyForward(s, year).store;
            Upsert(YearRow, tax, c, t, row).tally == t.(updated := t.updated + 1)
  {
    CopyMakesKeysPresent(s, year, i);
  }

  function PublishedMasters(s: Store, from: nat): set<nat>
    requires from <= |s|
  {
    set i | from <= i < |s| && IsPublishedMaster(s[i])
  }

  /** How many published master products sit at or after `from`. */
  function CountFrom(s: Store, from: nat): nat
    requires from <= |s|
    decreases |s| - from
  {
    if from == |s| then 0
    else CountFrom(s, from + 1) + (if IsPublishedMaster(s[from]) then 1 else 0)
  }

  lemma {:induction false} PublishedMastersCount(s: Store, from: nat)
    requires from <= |s|
    ensures |PublishedMasters(s, from)| == CountFrom(s, from)
    decreases |s| - from
  {
    if from < |s| {
      PublishedMastersCount(s, from + 1);
      var later := PublishedMasters(s, from + 1);
      assert from !in later;
      if IsPublishedMaster(s[from]) {
        assert PublishedMasters(s, from) == later + {from};
      } else {
        assert PublishedMasters(s, from) == later;
      }
    } else {
      assert PublishedMasters(s, from) == {};
    }
  }

  lemma {:induction false} MastersFromLength(s: Store, from: nat)
    requires from <= |s|
    ensures |MastersFrom(s, from)| == CountFrom(s, from)
    decreases |s| - from
  {
    if from < |s| {
      MastersFromLength(s, from + 1);
    }
  }

  /** The command creates exactly as many products as there are published
      master products. */
  lemma CopyCountsMasters(s: Store, year: string)
    ensures var r := CopyForward(s, year);
            r.tally.created == |PublishedMasters(s, 0)|
  {
    MastersFromLength(s, 0);
    PublishedMastersCount(s, 0);
  }

  /** As it never looks for an existing product, copying forward into a year
      that already has a published product for a master's ID leaves two
      published nodes with that key. */
  lemma CopyIgnoresExisting(s: Store, year: string, i: nat, j: nat)
    requires i < |s| && IsPublishedMaster(s[i])
    requires j < |s| && Live(s[j], ProductKey(s[i].content.productId, year))
    ensures !KeysUnique(CopyForward(s, year).store)
  {
  }
}
