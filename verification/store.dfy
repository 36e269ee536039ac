/** The entity store the import commands read and write, reduced to what the
    commands can observe: content nodes in creation order, each published or
    not, and the taxonomy terms of the "food_group" vocabulary.  A node's
    storage key (its node id) is its position in the store, and an entity
    query hands back its matches in ascending storage key. */
module Store {
  import opened Prelude

  /** An entity-reference field: empty, or the storage key of its target. */
  datatype Ref = NoRef | RefTo(id: nat)

  /** The three node bundles the commands touch, with the fields they set.
      `details` stands for the thirty nutrition and note columns of a year
      product, kept as the verbatim slice of the row. */
  datatype Content =
    | FastFoodChain(title: string, chainId: string)
    | MasterProduct(title: string, productId: string, productName: string, chain: Ref, group: Ref)
    | Product(title: string, productId: string, productName: string, year: string,
              chain: Ref, group: Ref, details: seq<string>, allInformation: bool)

  datatype Node = Node(published: bool, content: Content)

  type Store = seq<Node>

  /** The field values an upsert looks a node up by. */
  datatype NaturalKey =
    | ChainKey(chainId: string)
    | MasterKey(productId: string)
    | ProductKey(productId: string, year: string)

  /** Each bundle is the only one carrying its key fields, so the key also
      tells the bundle apart. */
  function KeyOf(c: Content): NaturalKey
  {
    match c
    case FastFoodChain(_, chainId) => ChainKey(chainId)
    case MasterProduct(_, productId, _, _, _) => MasterKey(productId)
    case Product(_, productId, _, year, _, _, _, _) => ProductKey(productId, year)
  }

  /** The key a node answers to in upsert queries, if it is published. */
  function LiveKey(n: Node): Option<NaturalKey>
  {
    if n.published then Some(KeyOf(n.content)) else None
  }

  /** What an upsert query (status = 1 plus the key conditions) matches. */
  predicate Live(n: Node, k: NaturalKey)
  {
    LiveKey(n) == Some(k)
  }

  predicate Present(s: Store, k: NaturalKey)
  {
    exists j | 0 <= j < |s| :: Live(s[j], k)
  }

  /** The node an upsert loads: the first published node with the key. */
  function FindLive(s: Store, k: NaturalKey): (r: Option<nat>)
    ensures r.Some? <==> Present(s, k)
    ensures r.Some? ==> r.value < |s| && Live(s[r.value], k)
    ensures r.Some? ==> forall j | 0 <= j < r.value :: !Live(s[j], k)
  {
    First(s, (n: Node) => Live(n, k))
  }

  predicate IsChain(n: Node, chainId: string)
  {
    n.content.FastFoodChain? && n.content.chainId == chainId
  }

  /** The fast-food chain resolver: the first chain node with the domain ID,
      published or not (its query has no status condition); no match gives
      an empty reference (the PHP code returns FALSE). */
  function ResolveChain(s: Store, chainId: string): (r: Ref)
    ensures r.RefTo? ==> r.id < |s| && IsChain(s[r.id], chainId)
    ensures r.RefTo? ==> forall j | 0 <= j < r.id :: !IsChain(s[j], chainId)
    ensures r.NoRef? <==> forall j | 0 <= j < |s| :: !IsChain(s[j], chainId)
  {
    match First(s, (n: Node) => IsChain(n, chainId))
    case Some(i) => RefTo(i)
    case None => NoRef
  }

  const FoodGroupVocabulary := "food_group"

  /** A taxonomy term with the three domain-ID fields a term may carry. */
  datatype Term = Term(tid: nat, vocabulary: string, foodGroupId: Option<string>,
                       majorCategoryId: Option<string>, minorCategoryId: Option<string>)

  /** All taxonomy terms, in the order a term query returns them. */
  type Taxonomy = seq<Term>

  datatype TermField = FoodGroupId | MajorCategoryId | MinorCategoryId

  function FieldValue(t: Term, f: TermField): Option<string>
  {
    match f
    case FoodGroupId => t.foodGroupId
    case MajorCategoryId => t.majorCategoryId
    case MinorCategoryId => t.minorCategoryId
  }

  predicate TermMatches(t: Term, f: TermField, code: string)
  {
    t.vocabulary == FoodGroupVocabulary && FieldValue(t, f) == Some(code)
  }

  /** The food-group, major-category and minor-category resolvers: the term id
      of the first "food_group" term whose field `f` holds `code`; with no
      match the PHP code returns an unset variable, i.e. null. */
  function ResolveTerm(tax: Taxonomy, f: TermField, code: string): (r: Ref)
    ensures r.NoRef? <==> forall i | 0 <= i < |tax| :: !TermMatches(tax[i], f, code)
    ensures r.RefTo? ==> exists i | 0 <= i < |tax| ::
                           && TermMatches(tax[i], f, code)
                           && r.id == tax[i].tid
                           && forall j | 0 <= j < i :: !TermMatches(tax[j], f, code)
  {
    match First(tax, (t: Term) => TermMatches(t, f, code))
    case Some(i) => RefTo(tax[i].tid)
    case None => NoRef
  }
}
