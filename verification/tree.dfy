/**
 * The taxonomy tree: matched photos are grouped order > family > genus > species,
 * every level's children are sorted by name and every node counts the photos below it.
 *
 * `build_tree` fills four levels of nested hash maps and then turns each level into
 * a sorted list of nodes. A hash map is modelled as a table: a list of aggregates with
 * pairwise distinct keys in first-insertion order. The map's own iteration order is
 * never observable, since every level is sorted by its (distinct) key afterwards.
 */
module Tree {
  import opened Wrappers
  import opened Text
  import opened Types
  import opened Seqs
  import opened Sorting

  /** `genus_name`: the first whitespace-separated word of the latin name, or "Unknown". */
  function GenusName(latin: string): string
  {
    FirstToken(latin).GetOr("Unknown")
  }

  /**
   * A blank latin name gives "Unknown"; any other gives the word that starts at its
   * first non-whitespace character and runs up to the next whitespace or the end.
   */
  lemma GenusNameSpec(latin: string)
    ensures AllWhitespace(latin) ==> GenusName(latin) == "Unknown"
    ensures !AllWhitespace(latin) ==>
      exists k :: 0 <= k < |latin| && AllWhitespace(latin[..k]) && !IsWhitespace(latin[k])
        && GenusName(latin) == Word(latin[k..])
  {
    var t := TrimStart(latin);
    var k := |latin| - |t|;
    if t == [] {
      assert latin[..k] == latin;
    } else {
      assert latin[k..] == t;
    }
  }

  /** For a trimmed, non-empty latin name (what the reference table yields) the genus is its leading word. */
  lemma GenusNameOfTrimmed(latin: string)
    requires Trimmed(latin) && latin != []
    ensures GenusName(latin) != [] && GenusName(latin) == latin[..|GenusName(latin)|]
    ensures forall i :: 0 <= i < |GenusName(latin)| ==> !IsWhitespace(GenusName(latin)[i])
    ensures |GenusName(latin)| == |latin| || IsWhitespace(latin[|GenusName(latin)|])
  {
    assert TrimStart(latin) == latin;
  }

  // ----- the aggregates `build_tree` fills -----

  datatype SpeciesAgg = SpeciesAgg(latin: string, chinese: string, photos: seq<PhotoItem>)

  /** The genus name with its species table (keyed by latin name). */
  datatype GenusAgg = GenusAgg(name: string, species: seq<SpeciesAgg>)

  datatype FamilyAgg = FamilyAgg(name: string, genera: seq<GenusAgg>)

  datatype OrderAgg = OrderAgg(name: string, families: seq<FamilyAgg>)

  function SpeciesKey(s: SpeciesAgg): string { s.latin }
  function GenusKey(g: GenusAgg): string { g.name }
  function FamilyKey(f: FamilyAgg): string { f.name }
  function OrderKey(o: OrderAgg): string { o.name }

  /** A list that is a map: no two elements share a key, and every element is valid. */
  predicate ValidTable<T>(xs: seq<T>, key: T -> string, valid: T -> bool)
  {
    DistinctBy(xs, key) && forall k :: 0 <= k < |xs| ==> valid(xs[k])
  }

  lemma ValidTableUpdate<T>(xs: seq<T>, key: T -> string, valid: T -> bool, i: nat, y: T)
    requires ValidTable(xs, key, valid) && i < |xs|
    requires key(y) == key(xs[i]) && valid(y)
    ensures ValidTable(xs[i := y], key, valid)
  {
    var ys := xs[i := y];
    forall a, b | 0 <= a < b < |ys| ensures key(ys[a]) != key(ys[b]) {
      assert key(ys[a]) == key(xs[a]) && key(ys[b]) == key(xs[b]);
    }
  }

  lemma ValidTableAppend<T>(xs: seq<T>, key: T -> string, valid: T -> bool, y: T)
    requires ValidTable(xs, key, valid)
    requires forall k :: 0 <= k < |xs| ==> key(xs[k]) != key(y)
    requires valid(y)
    ensures ValidTable(xs + [y], key, valid)
  {
  }

  /** Every species holds a photo; `or_insert_with` only ever runs right before a push. */
  predicate SpeciesAggOk(s: SpeciesAgg)
  {
    s.photos != []
  }

  predicate GenusAggOk(g: GenusAgg)
  {
    g.species != [] && ValidTable(g.species, SpeciesKey, SpeciesAggOk)
  }

  predicate FamilyAggOk(f: FamilyAgg)
  {
    f.genera != [] && ValidTable(f.genera, GenusKey, GenusAggOk)
  }

  predicate OrderAggOk(o: OrderAgg)
  {
    o.families != [] && ValidTable(o.families, FamilyKey, FamilyAggOk)
  }

  predicate AggOk(orders: seq<OrderAgg>)
  {
    ValidTable(orders, OrderKey, OrderAggOk)
  }

  // ----- one iteration of the loop: the `entry().or_insert_with()` chain and the push -----

  /** The species entry keyed by the latin name, created with the entry's names; then the push. */
  function PushSpecies(species: seq<SpeciesAgg>, e: IocEntry, photo: PhotoItem): seq<SpeciesAgg>
  {
    match FindBy(species, SpeciesKey, e.latin)
    case Some(i) => species[i := species[i].(photos := species[i].photos + [photo])]
    case None => species + [SpeciesAgg(e.latin, e.chinese, [photo])]
  }

  function PushGenus(genera: seq<GenusAgg>, genus: string, e: IocEntry, photo: PhotoItem): seq<GenusAgg>
  {
    match FindBy(genera, GenusKey, genus)
    case Some(i) => genera[i := genera[i].(species := PushSpecies(genera[i].species, e, photo))]
    case None => genera + [GenusAgg(genus, PushSpecies([], e, photo))]
  }

  function PushFamily(families: seq<FamilyAgg>, genus: string, e: IocEntry, photo: PhotoItem): seq<FamilyAgg>
  {
    match FindBy(families, FamilyKey, e.family)
    case Some(i) => families[i := families[i].(genera := PushGenus(families[i].genera, genus, e, photo))]
    case None => families + [FamilyAgg(e.family, PushGenus([], genus, e, photo))]
  }

  function PushOrder(orders: seq<OrderAgg>, genus: string, e: IocEntry, photo: PhotoItem): seq<OrderAgg>
  {
    match FindBy(orders, OrderKey, e.order)
    case Some(i) => orders[i := orders[i].(families := PushFamily(orders[i].families, genus, e, photo))]
    case None => orders + [OrderAgg(e.order, PushFamily([], genus, e, photo))]
  }

  lemma PushSpeciesOk(species: seq<SpeciesAgg>, e: IocEntry, photo: PhotoItem)
    requires ValidTable(species, SpeciesKey, SpeciesAggOk)
    ensures PushSpecies(species, e, photo) != []
    ensures ValidTable(PushSpecies(species, e, photo), SpeciesKey, SpeciesAggOk)
  {
    match FindBy(species, SpeciesKey, e.latin)
    case Some(i) =>
      ValidTableUpdate(species, SpeciesKey, SpeciesAggOk, i, species[i].(photos := species[i].photos + [photo]));
    case None =>
      ValidTableAppend(species, SpeciesKey, SpeciesAggOk, SpeciesAgg(e.latin, e.chinese, [photo]));
  }

  lemma PushGenusOk(genera: seq<GenusAgg>, genus: string, e: IocEntry, photo: PhotoItem)
    requires ValidTable(genera, GenusKey, GenusAggOk)
    ensures PushGenus(genera, genus, e, photo) != []
    ensures ValidTable(PushGenus(genera, genus, e, photo), GenusKey, GenusAggOk)
  {
    match FindBy(genera, GenusKey, genus)
    case Some(i) =>
      PushSpeciesOk(genera[i].species, e, photo);
      ValidTableUpdate(genera, GenusKey, GenusAggOk, i, genera[i].(species := PushSpecies(genera[i].species, e, photo)));
    case None =>
      PushSpeciesOk([], e, photo);
      ValidTableAppend(genera, GenusKey, GenusAggOk, GenusAgg(genus, PushSpecies([], e, photo)));
  }

  lemma PushFamilyOk(families: seq<FamilyAgg>, genus: string, e: IocEntry, photo: PhotoItem)
    requires ValidTable(families, FamilyKey, FamilyAggOk)
    ensures PushFamily(families, genus, e, photo) != []
    ensures ValidTable(PushFamily(families, genus, e, photo), FamilyKey, FamilyAggOk)
  {
    match FindBy(families, FamilyKey, e.family)
    case Some(i) =>
      PushGenusOk(families[i].genera, genus, e, photo);
      ValidTableUpdate(families, FamilyKey, FamilyAggOk, i, families[i].(genera := PushGenus(families[i].genera, genus, e, photo)));
    case None =>
      PushGenusOk([], genus, e, photo);
      ValidTableAppend(families, FamilyKey, FamilyAggOk, FamilyAgg(e.family, PushGenus([], genus, e, photo)));
  }

  /** One loop iteration keeps every table a map and every aggregate non-empty. */
  lemma PushOrderOk(orders: seq<OrderAgg>, genus: string, e: IocEntry, photo: PhotoItem)
    requires AggOk(orders)
    ensures PushOrder(orders, genus, e, photo) != []
    ensures AggOk(PushOrder(orders, genus, e, photo))
  {
    match FindBy(orders, OrderKey, e.order)
    case Some(i) =>
      PushFamilyOk(orders[i].families, genus, e, photo);
      ValidTableUpdate(orders, OrderKey, OrderAggOk, i, orders[i].(families := PushFamily(orders[i].families, genus, e, photo)));
    case None =>
      PushFamilyOk([], genus, e, photo);
      ValidTableAppend(orders, OrderKey, OrderAggOk, OrderAgg(e.order, PushFamily([], genus, e, photo)));
  }

  // ----- leaves: every photo together with the names on its way down from the root -----

  /** A photo and the path of names (order, family, genus, latin) that leads to it. */
  datatype Leaf = Leaf(path: seq<string>, photo: PhotoItem)

  function PhotoLeaf(path: seq<string>, photo: PhotoItem): seq<Leaf>
  {
    [Leaf(path, photo)]
  }

  function SpeciesAggLeaves(ctx: seq<string>, s: SpeciesAgg): seq<Leaf>
  {
    Flat(ctx + [s.latin], s.photos, PhotoLeaf)
  }

  function GenusAggLeaves(ctx: seq<string>, g: GenusAgg): seq<Leaf>
  {
    Flat(ctx + [g.name], g.species, SpeciesAggLeaves)
  }

  function FamilyAggLeaves(ctx: seq<string>, f: FamilyAgg): seq<Leaf>
  {
    Flat(ctx + [f.name], f.genera, GenusAggLeaves)
  }

  function OrderAggLeaves(ctx: seq<string>, o: OrderAgg): seq<Leaf>
  {
    Flat(ctx + [o.name], o.families, FamilyAggLeaves)
  }

  function AggLeaves(orders: seq<OrderAgg>): seq<Leaf>
  {
    Flat([], orders, OrderAggLeaves)
  }

  lemma PushSpeciesLeaves(ctx: seq<string>, species: seq<SpeciesAgg>, e: IocEntry, photo: PhotoItem)
    ensures multiset(Flat(ctx, PushSpecies(species, e, photo), SpeciesAggLeaves))
      == multiset(Flat(ctx, species, SpeciesAggLeaves)) + multiset{Leaf(ctx + [e.latin], photo)}
  {
    var leaf := Leaf(ctx + [e.latin], photo);
    match FindBy(species, SpeciesKey, e.latin)
    case Some(i) =>
      var s := species[i];
      var s' := s.(photos := s.photos + [photo]);
      FlatAppend(ctx + [s.latin], s.photos, [photo], PhotoLeaf);
      FlatSingle(ctx + [s.latin], photo, PhotoLeaf);
      assert SpeciesAggLeaves(ctx, s') == SpeciesAggLeaves(ctx, s) + [leaf];
      FlatUpdate(ctx, species, i, s', SpeciesAggLeaves);
      MultisetCancel(multiset(Flat(ctx, species[i := s'], SpeciesAggLeaves)), multiset(Flat(ctx, species, SpeciesAggLeaves)),
        multiset(SpeciesAggLeaves(ctx, s)), multiset{leaf});
    case None =>
      var s := SpeciesAgg(e.latin, e.chinese, [photo]);
      FlatAppend(ctx, species, [s], SpeciesAggLeaves);
      FlatSingle(ctx, s, SpeciesAggLeaves);
      FlatSingle(ctx + [e.latin], photo, PhotoLeaf);
  }

  lemma MultisetCancel<L>(updated: multiset<L>, before: multiset<L>, removed: multiset<L>, added: multiset<L>)
    requires updated + removed == before + (removed + added)
    ensures updated == before + added
  {
    forall x ensures updated[x] == (before + added)[x] {
      assert (updated + removed)[x] == (before + (removed + added))[x];
    }
  }

  lemma PushGenusLeaves(ctx: seq<string>, genera: seq<GenusAgg>, genus: string, e: IocEntry, photo: PhotoItem)
    ensures multiset(Flat(ctx, PushGenus(genera, genus, e, photo), GenusAggLeaves))
      == multiset(Flat(ctx, genera, GenusAggLeaves)) + multiset{Leaf(ctx + [genus, e.latin], photo)}
  {
    assert ctx + [genus] + [e.latin] == ctx + [genus, e.latin];
    match FindBy(genera, GenusKey, genus)
    case Some(i) =>
      var g := genera[i];
      var g' := g.(species := PushSpecies(g.species, e, photo));
      PushSpeciesLeaves(ctx + [genus], g.species, e, photo);
      FlatUpdate(ctx, genera, i, g', GenusAggLeaves);
      MultisetCancel(multiset(Flat(ctx, genera[i := g'], GenusAggLeaves)), multiset(Flat(ctx, genera, GenusAggLeaves)),
        multiset(GenusAggLeaves(ctx, g)), multiset{Leaf(ctx + [genus, e.latin], photo)});
    case None =>
      var g := GenusAgg(genus, PushSpecies([], e, photo));
      PushSpeciesLeaves(ctx + [genus], [], e, photo);
      FlatAppend(ctx, genera, [g], GenusAggLeaves);
      FlatSingle(ctx, g, GenusAggLeaves);
  }

  lemma PushFamilyLeaves(ctx: seq<string>, families: seq<FamilyAgg>, genus: string, e: IocEntry, photo: PhotoItem)
    ensures multiset(Flat(ctx, PushFamily(families, genus, e, photo), FamilyAggLeaves))
      == multiset(Flat(ctx, families, FamilyAggLeaves)) + multiset{Leaf(ctx + [e.family, genus, e.latin], photo)}
  {
    assert ctx + [e.family] + [genus, e.latin] == ctx + [e.family, genus, e.latin];
    match FindBy(families, FamilyKey, e.family)
    case Some(i) =>
      var f := families[i];
      var f' := f.(genera := PushGenus(f.genera, genus, e, photo));
      PushGenusLeaves(ctx + [e.family], f.genera, genus, e, photo);
      FlatUpdate(ctx, families, i, f', FamilyAggLeaves);
      MultisetCancel(multiset(Flat(ctx, families[i := f'], FamilyAggLeaves)), multiset(Flat(ctx, families, FamilyAggLeaves)),
        multiset(FamilyAggLeaves(ctx, f)), multiset{Leaf(ctx + [e.family, genus, e.latin], photo)});
    case None =>
      var f := FamilyAgg(e.family, PushGenus([], genus, e, photo));
      PushGenusLeaves(ctx + [e.family], [], genus, e, photo);
      FlatAppend(ctx, families, [f], FamilyAggLeaves);
      FlatSingle(ctx, f, FamilyAggLeaves);
  }

  /** One loop iteration files exactly one new photo, under the entry's order, family, genus and latin name. */
  lemma PushOrderLeaves(orders: seq<OrderAgg>, genus: string, e: IocEntry, photo: PhotoItem)
    ensures multiset(AggLeaves(PushOrder(orders, genus, e, photo)))
      == multiset(AggLeaves(orders)) + multiset{Leaf([e.order, e.family, genus, e.latin], photo)}
  {
    var ctx: seq<string> := [];
    assert ctx + [e.order] + [e.family, genus, e.latin] == [e.order, e.family, genus, e.latin];
    match FindBy(orders, OrderKey, e.order)
    case Some(i) =>
      var o := orders[i];
      var o' := o.(families := PushFamily(o.families, genus, e, photo));
      PushFamilyLeaves(ctx + [e.order], o.families, genus, e, photo);
      FlatUpdate(ctx, orders, i, o', OrderAggLeaves);
      MultisetCancel(multiset(Flat(ctx, orders[i := o'], OrderAggLeaves)), multiset(Flat(ctx, orders, OrderAggLeaves)),
        multiset(OrderAggLeaves(ctx, o)), multiset{Leaf([e.order, e.family, genus, e.latin], photo)});
    case None =>
      var o := OrderAgg(e.order, PushFamily([], genus, e, photo));
      PushFamilyLeaves(ctx + [e.order], [], genus, e, photo);
      FlatAppend(ctx, orders, [o], OrderAggLeaves);
      FlatSingle(ctx, o, OrderAggLeaves);
  }

  // ----- the whole loop -----

  /** `entries[matched.species_idx]` must not panic. */
  predicate IndicesInRange(entries: seq<IocEntry>, matches: seq<MatchedPhoto>)
  {
    forall k :: 0 <= k < |matches| ==> matches[k].speciesIdx < |entries|
  }

  lemma InRangeSlice(entries: seq<IocEntry>, matches: seq<MatchedPhoto>, a: nat, b: nat)
    requires IndicesInRange(entries, matches) && a <= b <= |matches|
    ensures IndicesInRange(entries, matches[a..b])
  {
    forall k | 0 <= k < b - a ensures matches[a..b][k].speciesIdx < |entries| {
      assert matches[a..b][k] == matches[a + k];
    }
  }

  function MatchedItem(m: MatchedPhoto): PhotoItem
  {
    PhotoItem(m.path, m.fileName)
  }

  /** Where a match belongs: its entry's order, family, genus and latin name, with the photo. */
  function MatchLeaf(entries: seq<IocEntry>, m: MatchedPhoto): Leaf
    requires m.speciesIdx < |entries|
  {
    var e := entries[m.speciesIdx];
    Leaf([e.order, e.family, GenusName(e.latin), e.latin], MatchedItem(m))
  }

  function MatchLeaves(entries: seq<IocEntry>, matches: seq<MatchedPhoto>): seq<Leaf>
    requires IndicesInRange(entries, matches)
  {
    if matches == [] then []
    else MatchLeaves(entries, matches[..|matches| - 1]) + [MatchLeaf(entries, matches[|matches| - 1])]
  }

  /** The aggregate tables after the loop has processed `matches`, in order. */
  function Aggregate(entries: seq<IocEntry>, matches: seq<MatchedPhoto>): seq<OrderAgg>
    requires IndicesInRange(entries, matches)
  {
    if matches == [] then []
    else
      var m := matches[|matches| - 1];
      var e := entries[m.speciesIdx];
      PushOrder(Aggregate(entries, matches[..|matches| - 1]), GenusName(e.latin), e, MatchedItem(m))
  }

  /** The tables are maps with non-empty aggregates, holding exactly the matches' photos at their paths. */
  lemma {:induction false} AggregateSpec(entries: seq<IocEntry>, matches: seq<MatchedPhoto>)
    requires IndicesInRange(entries, matches)
    ensures AggOk(Aggregate(entries, matches))
    ensures multiset(AggLeaves(Aggregate(entries, matches))) == multiset(MatchLeaves(entries, matches))
    ensures matches == [] <==> Aggregate(entries, matches) == []
  {
    if matches != [] {
      var m := matches[|matches| - 1];
      var e := entries[m.speciesIdx];
      var prefix := matches[..|matches| - 1];
      AggregateSpec(entries, prefix);
      PushOrderOk(Aggregate(entries, prefix), GenusName(e.latin), e, MatchedItem(m));
      PushOrderLeaves(Aggregate(entries, prefix), GenusName(e.latin), e, MatchedItem(m));
    }
  }

  // ----- `into_node`: each level becomes a sorted list of nodes with summed counts -----

  function PhotoFileName(p: PhotoItem): string { p.fileName }
  function SpeciesLatin(n: SpeciesNode): string { n.latin }
  function GenusNodeName(n: GenusNode): string { n.name }
  function FamilyNodeName(n: FamilyNode): string { n.name }
  function OrderNodeName(n: OrderNode): string { n.name }
  function SpeciesCount(n: SpeciesNode): nat { n.count }
  function GenusCount(n: GenusNode): nat { n.count }
  function FamilyCount(n: FamilyNode): nat { n.count }
  function OrderCount(n: OrderNode): nat { n.count }

  function SpeciesNodeOf(s: SpeciesAgg): SpeciesNode
  {
    var photos := SortBy(s.photos, PhotoFileName);
    SpeciesNode(s.latin, s.chinese, |photos|, photos)
  }

  function GenusNodeOf(g: GenusAgg): GenusNode
  {
    var species := SortBy(Map(g.species, SpeciesNodeOf), SpeciesLatin);
    GenusNode(g.name, Sum(species, SpeciesCount), species)
  }

  function FamilyNodeOf(f: FamilyAgg): FamilyNode
  {
    var genera := SortBy(Map(f.genera, GenusNodeOf), GenusNodeName);
    FamilyNode(f.name, Sum(genera, GenusCount), genera)
  }

  function OrderNodeOf(o: OrderAgg): OrderNode
  {
    var families := SortBy(Map(o.families, FamilyNodeOf), FamilyNodeName);
    OrderNode(o.name, Sum(families, FamilyCount), families)
  }

  /** The tail of `build_tree`: order nodes sorted by name. */
  function TreeOf(orders: seq<OrderAgg>): TaxonTree
  {
    TaxonTree(SortBy(Map(orders, OrderNodeOf), OrderNodeName))
  }

  // ----- what a finished tree looks like -----

  /** Photos sorted by file name; the count is the number of photos, and there is at least one. */
  predicate SpeciesNodeOk(n: SpeciesNode)
  {
    SortedBy(n.photos, PhotoFileName) && n.count == |n.photos| && n.count > 0
  }

  /** Species strictly ordered by latin name; the count is their sum and is positive. */
  predicate GenusNodeOk(n: GenusNode)
  {
    StrictlySortedBy(n.species, SpeciesLatin) && n.count == Sum(n.species, SpeciesCount) && n.count > 0
    && forall k :: 0 <= k < |n.species| ==> SpeciesNodeOk(n.species[k])
  }

  predicate FamilyNodeOk(n: FamilyNode)
  {
    StrictlySortedBy(n.genera, GenusNodeName) && n.count == Sum(n.genera, GenusCount) && n.count > 0
    && forall k :: 0 <= k < |n.genera| ==> GenusNodeOk(n.genera[k])
  }

  predicate OrderNodeOk(n: OrderNode)
  {
    StrictlySortedBy(n.families, FamilyNodeName) && n.count == Sum(n.families, FamilyCount) && n.count > 0
    && forall k :: 0 <= k < |n.families| ==> FamilyNodeOk(n.families[k])
  }

  predicate TreeOk(t: TaxonTree)
  {
    StrictlySortedBy(t.orders, OrderNodeName) && forall k :: 0 <= k < |t.orders| ==> OrderNodeOk(t.orders[k])
  }

  function TreeTotal(t: TaxonTree): nat
  {
    Sum(t.orders, OrderCount)
  }

  function SpeciesNodeLeaves(ctx: seq<string>, n: SpeciesNode): seq<Leaf>
  {
    Flat(ctx + [n.latin], n.photos, PhotoLeaf)
  }

  function GenusNodeLeaves(ctx: seq<string>, n: GenusNode): seq<Leaf>
  {
    Flat(ctx + [n.name], n.species, SpeciesNodeLeaves)
  }

  function FamilyNodeLeaves(ctx: seq<string>, n: FamilyNode): seq<Leaf>
  {
    Flat(ctx + [n.name], n.genera, GenusNodeLeaves)
  }

  function OrderNodeLeaves(ctx: seq<string>, n: OrderNode): seq<Leaf>
  {
    Flat(ctx + [n.name], n.families, FamilyNodeLeaves)
  }

  function TreeLeaves(t: TaxonTree): seq<Leaf>
  {
    Flat([], t.orders, OrderNodeLeaves)
  }

  /**
   * Converting one table: the nodes come out strictly sorted by key (the keys were distinct),
   * each one built from an aggregate of the table.
   */
  lemma SortedNodes<T, U>(xs: seq<T>, key: T -> string, valid: T -> bool, h: T -> U, nodeKey: U -> string)
    requires ValidTable(xs, key, valid)
    requires forall k :: 0 <= k < |xs| ==> nodeKey(h(xs[k])) == key(xs[k])
    ensures StrictlySortedBy(SortBy(Map(xs, h), nodeKey), nodeKey)
    ensures forall n :: n in SortBy(Map(xs, h), nodeKey) ==> exists k :: 0 <= k < |xs| && n == h(xs[k]) && valid(xs[k])
  {
    var nodes := Map(xs, h);
    SortByStrict(nodes, nodeKey);
    forall n | n in SortBy(nodes, nodeKey) ensures exists k :: 0 <= k < |xs| && n == h(xs[k]) && valid(xs[k]) {
      assert n in multiset(nodes);
      var k :| 0 <= k < |nodes| && nodes[k] == n;
    }
  }

  lemma SpeciesNodeOfOk(s: SpeciesAgg)
    requires SpeciesAggOk(s)
    ensures SpeciesNodeOk(SpeciesNodeOf(s))
  {
    SortBySorted(s.photos, PhotoFileName);
  }

  lemma GenusNodeOfOk(g: GenusAgg)
    requires GenusAggOk(g)
    ensures GenusNodeOk(GenusNodeOf(g))
  {
    SortedNodes(g.species, SpeciesKey, SpeciesAggOk, SpeciesNodeOf, SpeciesLatin);
    var sorted := GenusNodeOf(g).species;
    forall k | 0 <= k < |sorted| ensures SpeciesNodeOk(sorted[k]) {
      assert sorted[k] in sorted;
      var j :| 0 <= j < |g.species| && sorted[k] == SpeciesNodeOf(g.species[j]) && SpeciesAggOk(g.species[j]);
      SpeciesNodeOfOk(g.species[j]);
    }
    assert SpeciesNodeOk(sorted[0]);
  }

  lemma FamilyNodeOfOk(f: FamilyAgg)
    requires FamilyAggOk(f)
    ensures FamilyNodeOk(FamilyNodeOf(f))
  {
    SortedNodes(f.genera, GenusKey, GenusAggOk, GenusNodeOf, GenusNodeName);
    var sorted := FamilyNodeOf(f).genera;
    forall k | 0 <= k < |sorted| ensures GenusNodeOk(sorted[k]) {
      assert sorted[k] in sorted;
      var j :| 0 <= j < |f.genera| && sorted[k] == GenusNodeOf(f.genera[j]) && GenusAggOk(f.genera[j]);
      GenusNodeOfOk(f.genera[j]);
    }
    assert GenusNodeOk(sorted[0]);
  }

  lemma OrderNodeOfOk(o: OrderAgg)
    requires OrderAggOk(o)
    ensures OrderNodeOk(OrderNodeOf(o))
  {
    SortedNodes(o.families, FamilyKey, FamilyAggOk, FamilyNodeOf, FamilyNodeName);
    var sorted := OrderNodeOf(o).families;
    forall k | 0 <= k < |sorted| ensures FamilyNodeOk(sorted[k]) {
      assert sorted[k] in sorted;
      var j :| 0 <= j < |o.families| && sorted[k] == FamilyNodeOf(o.families[j]) && FamilyAggOk(o.families[j]);
      FamilyNodeOfOk(o.families[j]);
    }
    assert FamilyNodeOk(sorted[0]);
  }

  /** Converting well-formed tables gives a well-formed tree. */
  lemma TreeOfOk(orders: seq<OrderAgg>)
    requires AggOk(orders)
    ensures TreeOk(TreeOf(orders))
  {
    SortedNodes(orders, OrderKey, OrderAggOk, OrderNodeOf, OrderNodeName);
    var sorted := TreeOf(orders).orders;
    forall k | 0 <= k < |sorted| ensures OrderNodeOk(sorted[k]) {
      assert sorted[k] in sorted;
      var j :| 0 <= j < |orders| && sorted[k] == OrderNodeOf(orders[j]) && OrderAggOk(orders[j]);
      OrderNodeOfOk(orders[j]);
    }
  }

  /** Converting a table's aggregates to nodes and sorting them keeps the photos and their paths. */
  lemma SameLeaves<T, U>(ctx: seq<string>, xs: seq<T>, h: T -> U, nodeKey: U -> string,
                         leaves: (seq<string>, T) -> seq<Leaf>, nodeLeaves: (seq<string>, U) -> seq<Leaf>)
    requires forall x :: x in xs ==> multiset(nodeLeaves(ctx, h(x))) == multiset(leaves(ctx, x))
    ensures multiset(Flat(ctx, SortBy(Map(xs, h), nodeKey), nodeLeaves)) == multiset(Flat(ctx, xs, leaves))
  {
    FlatPermutation(ctx, SortBy(Map(xs, h), nodeKey), Map(xs, h), nodeLeaves);
    FlatMap(ctx, xs, h, leaves, nodeLeaves);
  }

  lemma SpeciesNodeOfLeaves(ctx: seq<string>, s: SpeciesAgg)
    ensures multiset(SpeciesNodeLeaves(ctx, SpeciesNodeOf(s))) == multiset(SpeciesAggLeaves(ctx, s))
  {
    FlatPermutation(ctx + [s.latin], SortBy(s.photos, PhotoFileName), s.photos, PhotoLeaf);
  }

  lemma GenusNodeOfLeaves(ctx: seq<string>, g: GenusAgg)
    ensures multiset(GenusNodeLeaves(ctx, GenusNodeOf(g))) == multiset(GenusAggLeaves(ctx, g))
  {
    forall s | s in g.species
      ensures multiset(SpeciesNodeLeaves(ctx + [g.name], SpeciesNodeOf(s))) == multiset(SpeciesAggLeaves(ctx + [g.name], s))
    {
      SpeciesNodeOfLeaves(ctx + [g.name], s);
    }
    SameLeaves(ctx + [g.name], g.species, SpeciesNodeOf, SpeciesLatin, SpeciesAggLeaves, SpeciesNodeLeaves);
  }

  lemma FamilyNodeOfLeaves(ctx: seq<string>, f: FamilyAgg)
    ensures multiset(FamilyNodeLeaves(ctx, FamilyNodeOf(f))) == multiset(FamilyAggLeaves(ctx, f))
  {
    forall g | g in f.genera
      ensures multiset(GenusNodeLeaves(ctx + [f.name], GenusNodeOf(g))) == multiset(GenusAggLeaves(ctx + [f.name], g))
    {
      GenusNodeOfLeaves(ctx + [f.name], g);
    }
    SameLeaves(ctx + [f.name], f.genera, GenusNodeOf, GenusNodeName, GenusAggLeaves, GenusNodeLeaves);
  }

  lemma OrderNodeOfLeaves(ctx: seq<string>, o: OrderAgg)
    ensures multiset(OrderNodeLeaves(ctx, OrderNodeOf(o))) == multiset(OrderAggLeaves(ctx, o))
  {
    forall f | f in o.families
      ensures multiset(FamilyNodeLeaves(ctx + [o.name], FamilyNodeOf(f))) == multiset(FamilyAggLeaves(ctx + [o.name], f))
    {
      FamilyNodeOfLeaves(ctx + [o.name], f);
    }
    SameLeaves(ctx + [o.name], o.families, FamilyNodeOf, FamilyNodeName, FamilyAggLeaves, FamilyNodeLeaves);
  }

  /** Converting the tables to the tree neither loses, duplicates nor moves a photo. */
  lemma TreeOfLeaves(orders: seq<OrderAgg>)
    ensures multiset(TreeLeaves(TreeOf(orders))) == multiset(AggLeaves(orders))
  {
    forall o | o in orders
      ensures multiset(OrderNodeLeaves([], OrderNodeOf(o))) == multiset(OrderAggLeaves([], o))
    {
      OrderNodeOfLeaves([], o);
    }
    SameLeaves([], orders, OrderNodeOf, OrderNodeName, OrderAggLeaves, OrderNodeLeaves);
  }

  // ----- counts are photo counts -----

  lemma {:induction false} PhotoLeavesLength(path: seq<string>, photos: seq<PhotoItem>)
    ensures |Flat(path, photos, PhotoLeaf)| == |photos|
  {
    if photos != [] {
      PhotoLeavesLength(path, photos[1..]);
    }
  }

  lemma GenusCountIsLeaves(ctx: seq<string>, n: GenusNode)
    requires GenusNodeOk(n)
    ensures n.count == |GenusNodeLeaves(ctx, n)|
  {
    forall s | s in n.species ensures SpeciesCount(s) == |SpeciesNodeLeaves(ctx + [n.name], s)| {
      var k :| 0 <= k < |n.species| && n.species[k] == s;
      PhotoLeavesLength(ctx + [n.name, s.latin], s.photos);
      assert ctx + [n.name] + [s.latin] == ctx + [n.name, s.latin];
    }
    SumIsFlatLength(ctx + [n.name], n.species, SpeciesCount, SpeciesNodeLeaves);
  }

  lemma FamilyCountIsLeaves(ctx: seq<string>, n: FamilyNode)
    requires FamilyNodeOk(n)
    ensures n.count == |FamilyNodeLeaves(ctx, n)|
  {
    forall g | g in n.genera ensures GenusCount(g) == |GenusNodeLeaves(ctx + [n.name], g)| {
      var k :| 0 <= k < |n.genera| && n.genera[k] == g;
      GenusCountIsLeaves(ctx + [n.name], g);
    }
    SumIsFlatLength(ctx + [n.name], n.genera, GenusCount, GenusNodeLeaves);
  }

  lemma OrderCountIsLeaves(ctx: seq<string>, n: OrderNode)
    requires OrderNodeOk(n)
    ensures n.count == |OrderNodeLeaves(ctx, n)|
  {
    forall f | f in n.families ensures FamilyCount(f) == |FamilyNodeLeaves(ctx + [n.name], f)| {
      var k :| 0 <= k < |n.families| && n.families[k] == f;
      FamilyCountIsLeaves(ctx + [n.name], f);
    }
    SumIsFlatLength(ctx + [n.name], n.families, FamilyCount, FamilyNodeLeaves);
  }

  /** In a well-formed tree the order counts add up to the number of photos in it. */
  lemma TreeTotalIsLeaves(t: TaxonTree)
    requires TreeOk(t)
    ensures TreeTotal(t) == |TreeLeaves(t)|
  {
    forall o | o in t.orders ensures OrderCount(o) == |OrderNodeLeaves([], o)| {
      var k :| 0 <= k < |t.orders| && t.orders[k] == o;
      OrderCountIsLeaves([], o);
    }
    SumIsFlatLength([], t.orders, OrderCount, OrderNodeLeaves);
  }

  // ----- a species keeps the localized name of the entry that created it -----

  /** The localized name stored under a latin key of a species table, if the key is there. */
  function SpeciesChineseAt(species: seq<SpeciesAgg>, latin: string): Option<string>
  {
    match FindBy(species, SpeciesKey, latin)
    case Some(i) => Some(species[i].chinese)
    case None => None
  }

  function GenusChineseAt(genera: seq<GenusAgg>, genus: string, latin: string): Option<string>
  {
    match FindBy(genera, GenusKey, genus)
    case Some(i) => SpeciesChineseAt(genera[i].species, latin)
    case None => None
  }

  function FamilyChineseAt(families: seq<FamilyAgg>, family: string, genus: string, latin: string): Option<string>
  {
    match FindBy(families, FamilyKey, family)
    case Some(i) => GenusChineseAt(families[i].genera, genus, latin)
    case None => None
  }

  /** The localized name the tables hold for the species at the path order > family > genus > latin. */
  function ChineseAt(orders: seq<OrderAgg>, order: string, family: string, genus: string, latin: string): Option<string>
  {
    match FindBy(orders, OrderKey, order)
    case Some(i) => FamilyChineseAt(orders[i].families, family, genus, latin)
    case None => None
  }

  lemma PushSpeciesChinese(species: seq<SpeciesAgg>, e: IocEntry, photo: PhotoItem, latin: string)
    ensures SpeciesChineseAt(PushSpecies(species, e, photo), latin)
      == if latin == e.latin && SpeciesChineseAt(species, latin).None? then Some(e.chinese)
         else SpeciesChineseAt(species, latin)
  {
    match FindBy(species, SpeciesKey, e.latin)
    case Some(i) =>
      FindByUpdate(species, SpeciesKey, i, species[i].(photos := species[i].photos + [photo]), latin);
    case None =>
      FindByAppend(species, SpeciesKey, SpeciesAgg(e.latin, e.chinese, [photo]), latin);
  }

  lemma PushGenusChinese(genera: seq<GenusAgg>, genus: string, e: IocEntry, photo: PhotoItem, g: string, latin: string)
    ensures GenusChineseAt(PushGenus(genera, genus, e, photo), g, latin)
      == if g == genus && latin == e.latin && GenusChineseAt(genera, g, latin).None? then Some(e.chinese)
         else GenusChineseAt(genera, g, latin)
  {
    match FindBy(genera, GenusKey, genus)
    case Some(i) =>
      FindByUpdate(genera, GenusKey, i, genera[i].(species := PushSpecies(genera[i].species, e, photo)), g);
      PushSpeciesChinese(genera[i].species, e, photo, latin);
    case None =>
      FindByAppend(genera, GenusKey, GenusAgg(genus, PushSpecies([], e, photo)), g);
      PushSpeciesChinese([], e, photo, latin);
  }

  lemma PushFamilyChinese(families: seq<FamilyAgg>, genus: string, e: IocEntry, photo: PhotoItem,
                          f: string, g: string, latin: string)
    ensures FamilyChineseAt(PushFamily(families, genus, e, photo), f, g, latin)
      == if f == e.family && g == genus && latin == e.latin && FamilyChineseAt(families, f, g, latin).None? then Some(e.chinese)
         else FamilyChineseAt(families, f, g, latin)
  {
    match FindBy(families, FamilyKey, e.family)
    case Some(i) =>
      FindByUpdate(families, FamilyKey, i, families[i].(genera := PushGenus(families[i].genera, genus, e, photo)), f);
      PushGenusChinese(families[i].genera, genus, e, photo, g, latin);
    case None =>
      FindByAppend(families, FamilyKey, FamilyAgg(e.family, PushGenus([], genus, e, photo)), f);
      PushGenusChinese([], genus, e, photo, g, latin);
  }

  /** One loop iteration names a species only when it creates it; an existing species keeps its name. */
  lemma PushOrderChinese(orders: seq<OrderAgg>, genus: string, e: IocEntry, photo: PhotoItem,
                         o: string, f: string, g: string, latin: string)
    ensures ChineseAt(PushOrder(orders, genus, e, photo), o, f, g, latin)
      == if [o, f, g, latin] == [e.order, e.family, genus, e.latin] && ChineseAt(orders, o, f, g, latin).None? then Some(e.chinese)
         else ChineseAt(orders, o, f, g, latin)
  {
    assert [o, f, g, latin] == [e.order, e.family, genus, e.latin] <==> o == e.order && f == e.family && g == genus && latin == e.latin by {
      if [o, f, g, latin] == [e.order, e.family, genus, e.latin] {
        assert [o, f, g, latin][0] == o && [o, f, g, latin][1] == f && [o, f, g, latin][2] == g && [o, f, g, latin][3] == latin;
      }
    }
    match FindBy(orders, OrderKey, e.order)
    case Some(i) =>
      FindByUpdate(orders, OrderKey, i, orders[i].(families := PushFamily(orders[i].families, genus, e, photo)), o);
      PushFamilyChinese(orders[i].families, genus, e, photo, f, g, latin);
    case None =>
      FindByAppend(orders, OrderKey, OrderAgg(e.order, PushFamily([], genus, e, photo)), o);
      PushFamilyChinese([], genus, e, photo, f, g, latin);
  }

  /** What a match contributes to naming species: its path and its entry's localized name. */
  datatype Stamp = Stamp(path: seq<string>, chinese: string)

  function MatchStamp(entries: seq<IocEntry>, m: MatchedPhoto): Stamp
    requires m.speciesIdx < |entries|
  {
    Stamp(MatchLeaf(entries, m).path, entries[m.speciesIdx].chinese)
  }

  function Stamps(entries: seq<IocEntry>, matches: seq<MatchedPhoto>): seq<Stamp>
    requires IndicesInRange(entries, matches)
  {
    if matches == [] then []
    else Stamps(entries, matches[..|matches| - 1]) + [MatchStamp(entries, matches[|matches| - 1])]
  }

  lemma {:induction false} StampsSpec(entries: seq<IocEntry>, matches: seq<MatchedPhoto>)
    requires IndicesInRange(entries, matches)
    ensures |Stamps(entries, matches)| == |matches|
    ensures forall k :: 0 <= k < |matches| ==> Stamps(entries, matches)[k] == MatchStamp(entries, matches[k])
  {
    if matches != [] {
      var prefix := matches[..|matches| - 1];
      InRangeSlice(entries, matches, 0, |matches| - 1);
      StampsSpec(entries, prefix);
      var stamps := Stamps(entries, matches);
      assert stamps == Stamps(entries, prefix) + [MatchStamp(entries, matches[|matches| - 1])];
      forall k | 0 <= k < |matches| ensures stamps[k] == MatchStamp(entries, matches[k]) {
        if k < |matches| - 1 {
          assert stamps[k] == Stamps(entries, prefix)[k];
          assert prefix[k] == matches[k];
        }
      }
    }
  }

  /** The localized name carried by the first stamp with path `path`, if there is one. */
  function FirstChinese(stamps: seq<Stamp>, path: seq<string>): Option<string>
  {
    if stamps == [] then None
    else if stamps[0].path == path then Some(stamps[0].chinese)
    else FirstChinese(stamps[1..], path)
  }

  /** `FirstChinese` is None exactly when no stamp has `path`, and otherwise is the earliest such stamp's name. */
  lemma {:induction false} FirstChineseSpec(stamps: seq<Stamp>, path: seq<string>)
    ensures FirstChinese(stamps, path).None? <==> forall k :: 0 <= k < |stamps| ==> stamps[k].path != path
    ensures FirstChinese(stamps, path).Some? ==>
      exists k :: 0 <= k < |stamps| && stamps[k].path == path
        && (forall j :: 0 <= j < k ==> stamps[j].path != path)
        && FirstChinese(stamps, path).value == stamps[k].chinese
  {
    if stamps != [] && stamps[0].path != path {
      var rest := stamps[1..];
      FirstChineseSpec(rest, path);
      if FirstChinese(rest, path).Some? {
        var k :| 0 <= k < |rest| && rest[k].path == path
          && (forall j :: 0 <= j < k ==> rest[j].path != path)
          && FirstChinese(rest, path).value == rest[k].chinese;
        assert stamps[k + 1] == rest[k];
        forall j | 0 <= j < k + 1 ensures stamps[j].path != path {
          if j > 0 {
            assert stamps[j] == rest[j - 1];
          }
        }
      }
    }
  }

  lemma {:induction false} FirstChineseSnoc(stamps: seq<Stamp>, s: Stamp, path: seq<string>)
    ensures FirstChinese(stamps + [s], path)
      == if FirstChinese(stamps, path).Some? then FirstChinese(stamps, path)
         else if s.path == path then Some(s.chinese)
         else None
  {
    if stamps == [] {
      assert ([] + [s])[1..] == [];
    } else {
      assert (stamps + [s])[1..] == stamps[1..] + [s];
      FirstChineseSnoc(stamps[1..], s, path);
    }
  }

  /** After the loop, the tables name each species after the first match filed under it. */
  lemma {:induction false} AggregateChinese(entries: seq<IocEntry>, matches: seq<MatchedPhoto>,
                                            o: string, f: string, g: string, latin: string)
    requires IndicesInRange(entries, matches)
    ensures ChineseAt(Aggregate(entries, matches), o, f, g, latin) == FirstChinese(Stamps(entries, matches), [o, f, g, latin])
  {
    if matches != [] {
      var prefix := matches[..|matches| - 1];
      var m := matches[|matches| - 1];
      var e := entries[m.speciesIdx];
      InRangeSlice(entries, matches, 0, |matches| - 1);
      AggregateChinese(entries, prefix, o, f, g, latin);
      PushOrderChinese(Aggregate(entries, prefix), GenusName(e.latin), e, MatchedItem(m), o, f, g, latin);
      FirstChineseSnoc(Stamps(entries, prefix), MatchStamp(entries, m), [o, f, g, latin]);
    }
  }

  function SpeciesNodeChineseAt(species: seq<SpeciesNode>, latin: string): Option<string>
  {
    match FindBy(species, SpeciesLatin, latin)
    case Some(i) => Some(species[i].chinese)
    case None => None
  }

  function GenusNodeChineseAt(genera: seq<GenusNode>, genus: string, latin: string): Option<string>
  {
    match FindBy(genera, GenusNodeName, genus)
    case Some(i) => SpeciesNodeChineseAt(genera[i].species, latin)
    case None => None
  }

  function FamilyNodeChineseAt(families: seq<FamilyNode>, family: string, genus: string, latin: string): Option<string>
  {
    match FindBy(families, FamilyNodeName, family)
    case Some(i) => GenusNodeChineseAt(families[i].genera, genus, latin)
    case None => None
  }

  /** The localized name of the species node at the path order > family > genus > latin, if there is one. */
  function TreeChineseAt(t: TaxonTree, order: string, family: string, genus: string, latin: string): Option<string>
  {
    match FindBy(t.orders, OrderNodeName, order)
    case Some(i) => FamilyNodeChineseAt(t.orders[i].families, family, genus, latin)
    case None => None
  }

  /** Each sorted node is the node of some aggregate of the table. */
  lemma NodeOrigin<T, U>(xs: seq<T>, h: T -> U, nodeKey: U -> string, j: nat) returns (i: nat)
    requires j < |SortBy(Map(xs, h), nodeKey)|
    ensures i < |xs| && SortBy(Map(xs, h), nodeKey)[j] == h(xs[i])
  {
    var nodes := Map(xs, h);
    assert SortBy(nodes, nodeKey)[j] in multiset(nodes);
    i :| 0 <= i < |nodes| && nodes[i] == SortBy(nodes, nodeKey)[j];
  }

  /** Each aggregate of the table has its node among the sorted nodes. */
  lemma NodePresent<T, U>(xs: seq<T>, h: T -> U, nodeKey: U -> string, i: nat) returns (p: nat)
    requires i < |xs|
    ensures p < |SortBy(Map(xs, h), nodeKey)| && SortBy(Map(xs, h), nodeKey)[p] == h(xs[i])
  {
    var nodes := Map(xs, h);
    assert nodes[i] in multiset(SortBy(nodes, nodeKey));
    p :| 0 <= p < |SortBy(nodes, nodeKey)| && SortBy(nodes, nodeKey)[p] == nodes[i];
  }

  /** Looking a key up among the sorted nodes finds the node of the aggregate the table holds under it. */
  lemma FindSorted<T, U>(xs: seq<T>, key: T -> string, h: T -> U, nodeKey: U -> string, k: string)
    requires DistinctBy(xs, key)
    requires forall j :: 0 <= j < |xs| ==> nodeKey(h(xs[j])) == key(xs[j])
    ensures FindBy(xs, key, k).None? ==> FindBy(SortBy(Map(xs, h), nodeKey), nodeKey, k).None?
    ensures FindBy(xs, key, k).Some? ==>
      FindBy(SortBy(Map(xs, h), nodeKey), nodeKey, k).Some?
      && SortBy(Map(xs, h), nodeKey)[FindBy(SortBy(Map(xs, h), nodeKey), nodeKey, k).value] == h(xs[FindBy(xs, key, k).value])
  {
    var sorted := SortBy(Map(xs, h), nodeKey);
    match FindBy(xs, key, k)
    case Some(i) =>
      var p := NodePresent(xs, h, nodeKey, i);
      assert nodeKey(sorted[p]) == k;
      var j := FindBy(sorted, nodeKey, k).value;
      var i' := NodeOrigin(xs, h, nodeKey, j);
      assert key(xs[i']) == key(xs[i]);
    case None =>
      forall j | 0 <= j < |sorted| ensures nodeKey(sorted[j]) != k {
        var i' := NodeOrigin(xs, h, nodeKey, j);
      }
  }

  lemma SpeciesNodesChinese(species: seq<SpeciesAgg>, latin: string)
    requires DistinctBy(species, SpeciesKey)
    ensures SpeciesNodeChineseAt(SortBy(Map(species, SpeciesNodeOf), SpeciesLatin), latin) == SpeciesChineseAt(species, latin)
  {
    FindSorted(species, SpeciesKey, SpeciesNodeOf, SpeciesLatin, latin);
  }

  lemma GenusNodesChinese(genera: seq<GenusAgg>, g: string, latin: string)
    requires ValidTable(genera, GenusKey, GenusAggOk)
    ensures GenusNodeChineseAt(SortBy(Map(genera, GenusNodeOf), GenusNodeName), g, latin) == GenusChineseAt(genera, g, latin)
  {
    FindSorted(genera, GenusKey, GenusNodeOf, GenusNodeName, g);
    match FindBy(genera, GenusKey, g)
    case Some(i) =>
      SpeciesNodesChinese(genera[i].species, latin);
    case None =>
  }

  lemma FamilyNodesChinese(families: seq<FamilyAgg>, f: string, g: string, latin: string)
    requires ValidTable(families, FamilyKey, FamilyAggOk)
    ensures FamilyNodeChineseAt(SortBy(Map(families, FamilyNodeOf), FamilyNodeName), f, g, latin)
      == FamilyChineseAt(families, f, g, latin)
  {
    FindSorted(families, FamilyKey, FamilyNodeOf, FamilyNodeName, f);
    match FindBy(families, FamilyKey, f)
    case Some(i) =>
      GenusNodesChinese(families[i].genera, g, latin);
    case None =>
  }

  /** Converting well-formed tables keeps every species' localized name where it was. */
  lemma TreeOfChinese(orders: seq<OrderAgg>, o: string, f: string, g: string, latin: string)
    requires AggOk(orders)
    ensures TreeChineseAt(TreeOf(orders), o, f, g, latin) == ChineseAt(orders, o, f, g, latin)
  {
    FindSorted(orders, OrderKey, OrderNodeOf, OrderNodeName, o);
    match FindBy(orders, OrderKey, o)
    case Some(i) =>
      FamilyNodesChinese(orders[i].families, f, g, latin);
    case None =>
  }

  /**
   * The tree has a species node at order > family > genus > latin exactly when some match
   * leads there, and its localized name is that of the entry of the first such match.
   */
  lemma BuildTreeChinese(entries: seq<IocEntry>, matches: seq<MatchedPhoto>, o: string, f: string, g: string, latin: string)
    requires IndicesInRange(entries, matches)
    ensures TreeChineseAt(TreeOf(Aggregate(entries, matches)), o, f, g, latin) == FirstChinese(Stamps(entries, matches), [o, f, g, latin])
  {
    AggregateSpec(entries, matches);
    AggregateChinese(entries, matches, o, f, g, latin);
    TreeOfChinese(Aggregate(entries, matches), o, f, g, latin);
  }

  // ----- `build_tree` -----

  /**
   * The tree of `matches` is well formed (sorted levels, summed positive counts, photos
   * sorted by file name), files every matched photo exactly once under its entry's order,
   * family, genus and latin name, counts every match, and is empty exactly when there
   * are no matches.
   */
  lemma BuildTreeSpec(entries: seq<IocEntry>, matches: seq<MatchedPhoto>)
    requires IndicesInRange(entries, matches)
    ensures TreeOk(TreeOf(Aggregate(entries, matches)))
    ensures multiset(TreeLeaves(TreeOf(Aggregate(entries, matches)))) == multiset(MatchLeaves(entries, matches))
    ensures TreeTotal(TreeOf(Aggregate(entries, matches))) == |matches|
    ensures TreeOf(Aggregate(entries, matches)).orders == [] <==> matches == []
  {
    var orders := Aggregate(entries, matches);
    var tree := TreeOf(orders);
    AggregateSpec(entries, matches);
    TreeOfOk(orders);
    TreeOfLeaves(orders);
    TreeTotalIsLeaves(tree);
    MatchLeavesLength(entries, matches);
    calc {
      TreeTotal(tree);
      |TreeLeaves(tree)|;
      |multiset(TreeLeaves(tree))|;
      |multiset(MatchLeaves(entries, matches))|;
      |MatchLeaves(entries, matches)|;
    }
  }

  /** One turn of the loop in `build_tree` pushes the next match onto the tables. */
  lemma AggregateStep(entries: seq<IocEntry>, matches: seq<MatchedPhoto>, i: nat)
    requires IndicesInRange(entries, matches) && i < |matches|
    ensures IndicesInRange(entries, matches[..i]) && IndicesInRange(entries, matches[..i + 1])
    ensures var e := entries[matches[i].speciesIdx];
      Aggregate(entries, matches[..i + 1])
        == PushOrder(Aggregate(entries, matches[..i]), GenusName(e.latin), e, MatchedItem(matches[i]))
  {
    InRangeSlice(entries, matches, 0, i);
    InRangeSlice(entries, matches, 0, i + 1);
    assert matches[..i + 1][..i] == matches[..i];
  }

  lemma {:induction false} MatchLeavesLength(entries: seq<IocEntry>, matches: seq<MatchedPhoto>)
    requires IndicesInRange(entries, matches)
    ensures |MatchLeaves(entries, matches)| == |matches|
  {
    if matches != [] {
      MatchLeavesLength(entries, matches[..|matches| - 1]);
    }
  }

  /** `build_tree`: one pass over the matches filling the tables, then the conversion to sorted nodes. */
  method BuildTree(entries: seq<IocEntry>, matches: seq<MatchedPhoto>) returns (tree: TaxonTree)
    requires IndicesInRange(entries, matches)
    ensures tree == TreeOf(Aggregate(entries, matches))
    ensures TreeOk(tree) && TreeTotal(tree) == |matches|
  {
    var orders: seq<OrderAgg> := [];
    for i := 0 to |matches|
      invariant orders == Aggregate(entries, matches[..i])
    {
      var matched := matches[i];
      var entry := entries[matched.speciesIdx];
      var genus := GenusName(entry.latin);
      AggregateStep(entries, matches, i);
      orders := PushOrder(orders, genus, entry, PhotoItem(matched.path, matched.fileName));
    }
    assert matches[..|matches|] == matches;
    var orderNodes := Map(orders, OrderNodeOf);
    orderNodes := SortBy(orderNodes, OrderNodeName);
    tree := TaxonTree(orderNodes);
    BuildTreeSpec(entries, matches);
  }
}
