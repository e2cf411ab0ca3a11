/** Archiving a collection and extracting it somewhere else gives the collection back. */
module RoundTrip {
  import opened Wrappers
  import opened Attributes
  import opened Paths
  import opened Index
  import opened Namespace
  import opened Catalogue
  import opened Listing
  import opened Server
  import opened Archive
  import opened ArchiveCreate
  import opened ArchiveExtract

  /** What a full extraction makes of the archive of `root`. */
  function Restored(cat: Catalogue, src: Tree, root: CollRow, archive: string, t: Tree, target: string): Tree
    requires WellFormed(cat) && root in cat.colls && root.name != "/"
  {
    StoreAll(Mkdir(t, target), target, MembersOf(src, root.name, FullListing(cat, root, archive)))
  }

  /** `rel` names something below the collection `root`, other than the archive object itself. */
  ghost predicate Archived(src: Tree, root: string, archive: string, rel: string) {
    Join(root, rel) in src && (Join(root, rel) == archive ==> IsColl(src, archive))
  }

  /** The name is there if and only if it was archived, with the same kind and bytes. */
  ghost predicate NameRestored(src: Tree, root: string, archive: string, target: string, out: Tree, rel: string) {
    && (Join(target, rel) in out <==> Archived(src, root, archive, rel))
    && (Archived(src, root, archive, rel) ==>
          Join(target, rel) in out && Shape(out)[Join(target, rel)] == Shape(src)[Join(root, rel)])
  }

  /** Below `target` there is what was below `root`, but for the archive itself, attributes and times. */
  ghost predicate ShapeRestored(src: Tree, root: string, archive: string, target: string, out: Tree) {
    forall rel :: NameRestored(src, root, archive, target, out, rel)
  }

  lemma {:induction false} ArchivedRow(cat: Catalogue, src: Tree, root: string, archive: string, rel: string)
      returns (f: Found)
    requires Describes(cat, src) && Archived(src, root, archive, rel)
    ensures ToList(cat, root, archive, f) && f.Path() == Join(root, rel)
  {
    f :| InCatalogue(cat, f) && f.Path() == Join(root, rel);
    JoinIsBelow(root, rel);
    assert Matches(cat, f, src[f.Path()]);
  }

  lemma {:induction false} RowArchived(cat: Catalogue, src: Tree, root: string, archive: string, f: Found)
    requires Describes(cat, src) && ToList(cat, root, archive, f)
    ensures Archived(src, root, archive, Relative(root, f.Path()))
  {
    assert Matches(cat, f, src[f.Path()]);
  }

  /** One row, restored: the same kind, bytes and modification time, and its attributes as replayed. */
  lemma {:induction false} RestoredNode(cat: Catalogue, src: Tree, root: CollRow, archive: string,
                                        t: Tree, target: string, f: Found)
    requires Describes(cat, src) && root in cat.colls && root.name != "/"
    requires target != "" && Fresh(t, target) && ToList(cat, root.name, archive, f)
    ensures var p := Join(target, Relative(root.name, f.Path()));
            p in Restored(cat, src, root, archive, t, target) &&
            Restored(cat, src, root, archive, t, target)[p] ==
              (match src[f.Path()]
               case CollNode(_) => CollNode(Replay(cat.AvuRows(RowId(f)), {}))
               case ObjNode(bytes, mtime, _) => ObjNode(bytes, mtime, Replay(cat.AvuRows(RowId(f)), {})))
  {
    var items := FullListing(cat, root, archive);
    var ms := MembersOf(src, root.name, items);
    var k := FullListingHas(cat, root, archive, f);
    FullListingOrder(cat, root, archive);
    StoreAllAt(Mkdir(t, target), target, ms, k);
    JoinIsBelow(target, items[k].name);
    assert Matches(cat, f, src[f.Path()]);
    assert AvusAt(Mkdir(t, target), Join(target, items[k].name)) == {};
  }

  /**
   * The round trip. Below the fresh target there is, under the same relative name, exactly what there is
   * below the archived collection, the archive object excepted; each node is the same in kind, bytes and
   * object modification time, and the same altogether if and only if the attribute listing of the row it
   * comes from has equal names adjacent. Nothing else in the target's namespace changes.
   */
  lemma {:induction false} RoundTripTree(cat: Catalogue, src: Tree, root: CollRow, archive: string,
                                         t: Tree, target: string, out: Tree)
    requires Describes(cat, src) && root in cat.colls && root.name != "/"
    requires target != "" && Fresh(t, target)
    requires out == Restored(cat, src, root, archive, t, target)
    ensures ShapeRestored(src, root.name, archive, target, out)
    ensures forall f :: ToList(cat, root.name, archive, f) ==>
              f.Path() in src && Join(target, Relative(root.name, f.Path())) in out &&
              (out[Join(target, Relative(root.name, f.Path()))] == src[f.Path()] <==> Grouped(cat.AvuRows(RowId(f))))
    ensures forall p :: p in t ==> p in out && out[p] == t[p]
    ensures forall p :: p in out && p !in t ==> p == target || IsBelow(p, target)
  {
    hide Describes, WellFormed, Fresh, NameRestored, ToList, StoreAll, FullListing;
    DescribedWell(cat, src);
    var ms := MembersOf(src, root.name, FullListing(cat, root, archive));
    forall rel
      ensures NameRestored(src, root.name, archive, target, out, rel)
    {
      RoundTripName(cat, src, root, archive, t, target, rel);
    }
    forall f | ToList(cat, root.name, archive, f)
      ensures f.Path() in src && Join(target, Relative(root.name, f.Path())) in out
      ensures out[Join(target, Relative(root.name, f.Path()))] == src[f.Path()] <==> Grouped(cat.AvuRows(RowId(f)))
    {
      RestoredExactIff(cat, src, root, archive, t, target, f);
    }
    forall p
      ensures p in t ==> p in out && out[p] == t[p]
      ensures p in out && p !in t ==> p == target || IsBelow(p, target)
    {
      RestoredFrame(t, target, ms, p);
    }
  }

  lemma {:induction false} RestoredExactIff(cat: Catalogue, src: Tree, root: CollRow, archive: string,
                                            t: Tree, target: string, f: Found)
    requires Describes(cat, src) && root in cat.colls && root.name != "/"
    requires target != "" && Fresh(t, target) && ToList(cat, root.name, archive, f)
    ensures var out, p := Restored(cat, src, root, archive, t, target), Join(target, Relative(root.name, f.Path()));
            f.Path() in src && p in out && (out[p] == src[f.Path()] <==> Grouped(cat.AvuRows(RowId(f))))
  {
    hide WellFormed, Fresh, Restored;
    RestoredNode(cat, src, root, archive, t, target, f);
    assert Matches(cat, f, src[f.Path()]);
    ReplayExactIffGrouped(cat.AvuRows(RowId(f)));
  }

  lemma {:induction false} RestoredFrame(t: Tree, target: string, ms: seq<Member>, p: string)
    requires Fresh(t, target)
    ensures var out := StoreAll(Mkdir(t, target), target, ms);
            (p in t ==> p in out && out[p] == t[p]) &&
            (p in out && p !in t ==> p == target || IsBelow(p, target))
  {
    StoreAllFrame(Mkdir(t, target), target, ms, p);
    if p in Files(target, ms) {
      var k :| 0 <= k < |ms| && Join(target, ms[k].item.name) == p;
      JoinIsBelow(target, ms[k].item.name);
    }
  }

  lemma {:induction false} RoundTripName(cat: Catalogue, src: Tree, root: CollRow, archive: string,
                                         t: Tree, target: string, rel: string)
    requires Describes(cat, src) && root in cat.colls && root.name != "/"
    requires target != "" && Fresh(t, target)
    ensures NameRestored(src, root.name, archive, target, Restored(cat, src, root, archive, t, target), rel)
  {
    hide Describes, WellFormed, Shortened, FullListing, Fresh, NameRestored, Archived, StoreAll;
    DescribedWell(cat, src);
    var full := FullListing(cat, root, archive);
    FullShortened(full);
    WholeRestores(cat, src, root, archive, t, Mkdir(t, target), target, full, 0, true,
                  Restored(cat, src, root, archive, t, target), rel);
  }

  lemma {:induction false} FullShortened(full: seq<Item>)
    ensures Shortened(full, full, 0, true)
  {
    if full != [] {
      FullShortened(full[..|full| - 1]);
    }
  }

  // ---- runs in which calls are refused ----

  /** When no item is missing, every name is restored, whichever attribute lists were cut. */
  lemma {:induction false} WholeRestores(cat: Catalogue, src: Tree, root: CollRow, archive: string, t: Tree, base: Tree,
                                         target: string, items: seq<Item>, trimmed: nat, all: bool, out: Tree,
                                         rel: string)
    requires Describes(cat, src) && root in cat.colls && root.name != "/"
    requires target != "" && Fresh(t, target) && (base == t || base == Mkdir(t, target))
    requires Shortened(FullListing(cat, root, archive), items, trimmed, all)
    requires |items| == |FullListing(cat, root, archive)|
    requires Shape(out) == Shape(StoreAll(base, target, MembersOf(src, root.name, items)))
    ensures NameRestored(src, root.name, archive, target, out, rel)
  {
    hide WellFormed, Shortened, FullListing, Describes, StoreAll, Archived, Fresh, Shape;
    DescribedWell(cat, src);
    var ms, p := MembersOf(src, root.name, items), Join(target, rel);
    SameShapeAt(out, StoreAll(base, target, ms), p);
    if Archived(src, root.name, archive, rel) {
      var k := ArchivedItem(cat, src, root, archive, items, trimmed, all, rel);
      StoreAllAt(base, target, ms, k);
      ShapeOfNode(StoreAll(base, target, ms), p, src, Join(root.name, rel), ms[k], AvusAt(base, p));
    } else {
      NotInFiles(cat, src, root, archive, target, items, trimmed, all, rel);
      StoreAllFrame(base, target, ms, p);
      NothingBelow(t, base, target, rel);
    }
  }

  lemma {:induction false} NothingBelow(t: Tree, base: Tree, target: string, rel: string)
    requires target != "" && Fresh(t, target) && (base == t || base == Mkdir(t, target))
    ensures Join(target, rel) !in base && AvusAt(base, Join(target, rel)) == {}
  {
    JoinIsBelow(target, rel);
  }

  lemma {:induction false} ShapeOfNode(u: Tree, p: string, src: Tree, q: string, m: Member, prior: set<Avu>)
    requires p in u && u[p] == NodeOf(m, prior) && q in src && src[q].CollNode? == m.item.Coll?
    requires m.item.DataObj? ==> src[q].bytes == m.bytes
    ensures p in Shape(u) && q in Shape(src) && Shape(u)[p] == Shape(src)[q]
  {
  }

  /** The item of something archived, when no item is missing. */
  lemma {:induction false} ArchivedItem(cat: Catalogue, src: Tree, root: CollRow, archive: string, items: seq<Item>,
                                        trimmed: nat, all: bool, rel: string) returns (k: nat)
    requires Describes(cat, src) && root in cat.colls && root.name != "/"
    requires Shortened(FullListing(cat, root, archive), items, trimmed, all)
    requires |items| == |FullListing(cat, root, archive)| && Archived(src, root.name, archive, rel)
    ensures k < |items| && items[k].name == rel && DistinctNames(items) && Join(root.name, rel) in src
    ensures var n, m := src[Join(root.name, rel)], Member(items[k], BytesAt(src, root.name, items[k]));
            n.CollNode? == m.item.Coll? && (m.item.DataObj? ==> n.bytes == m.bytes)
  {
    hide WellFormed, Shortened, FullListing, Describes, Trims, DistinctNames, Archived, Matches, BytesAt, ItemOf;
    DescribedWell(cat, src);
    var full := FullListing(cat, root, archive);
    JoinIsBelow(root.name, rel);
    var f := ArchivedRow(cat, src, root.name, archive, rel);
    k := FullListingHas(cat, root, archive, f);
    ShortenedWhole(full, items, trimmed, all, k);
    TrimsName(full[k], items[k], all);
    ShortenedListing(cat, root, archive, items, trimmed, all);
    RowMatches(cat, src, f);
    ItemName(cat, root.name, f);
    RowKind(cat, src, root.name, f, items[k]);
  }

  lemma {:induction false} RowKind(cat: Catalogue, src: Tree, root: string, f: Found, item: Item)
    requires f.Path() in src && Matches(cat, f, src[f.Path()])
    requires Join(root, item.name) == f.Path() && item.Coll? == ItemOf(cat, root, f).Coll?
    ensures src[f.Path()].CollNode? == item.Coll?
    ensures item.DataObj? ==> src[f.Path()].bytes == BytesAt(src, root, item)
  {
  }

  lemma {:induction false} SameShapeAt(u: Tree, v: Tree, p: string)
    requires Shape(u) == Shape(v)
    ensures p in u <==> p in v
    ensures p in u ==> Shape(u)[p] == Shape(v)[p]
  {
    assert p in u <==> p in Shape(u);
    assert p in v <==> p in Shape(v);
  }

  /** What was not archived is not among the files of the archive. */
  lemma {:induction false} NotInFiles(cat: Catalogue, src: Tree, root: CollRow, archive: string, target: string,
                                      items: seq<Item>, trimmed: nat, all: bool, rel: string)
    requires Describes(cat, src) && root in cat.colls && root.name != "/"
    requires Shortened(FullListing(cat, root, archive), items, trimmed, all)
    requires !Archived(src, root.name, archive, rel)
    ensures Join(target, rel) !in Files(target, MembersOf(src, root.name, items))
  {
    hide WellFormed, Shortened, FullListing, Describes, Archived;
    var ms := MembersOf(src, root.name, items);
    forall k | 0 <= k < |ms|
      ensures Join(target, ms[k].item.name) != Join(target, rel)
    {
      ItemArchived(cat, src, root, archive, items, trimmed, all, k);
      JoinInjective(target, ms[k].item.name, rel);
    }
  }

  lemma {:induction false} ItemArchived(cat: Catalogue, src: Tree, root: CollRow, archive: string, items: seq<Item>,
                                        trimmed: nat, all: bool, k: nat)
    requires Describes(cat, src) && root in cat.colls && root.name != "/" && k < |items|
    requires Shortened(FullListing(cat, root, archive), items, trimmed, all)
    ensures Archived(src, root.name, archive, items[k].name)
  {
    hide WellFormed, Shortened, FullListing, Archived;
    ShortenedListing(cat, root, archive, items, trimmed, all);
    assert ListedRow(cat, root.name, archive, items[k], all);
    var f :| ToList(cat, root.name, archive, f) && Join(root.name, items[k].name) == f.Path() &&
             Trims(ItemOf(cat, root.name, f), items[k], all);
    JoinIsBelow(root.name, items[k].name);
    RowArchived(cat, src, root.name, archive, f);
  }

  /** When an item is missing, its name is not restored. */
  lemma {:induction false} LossShows(cat: Catalogue, src: Tree, root: CollRow, archive: string, t: Tree, base: Tree,
                                     target: string, items: seq<Item>, trimmed: nat, all: bool, out: Tree)
      returns (rel: string)
    requires Describes(cat, src) && root in cat.colls && root.name != "/"
    requires target != "" && Fresh(t, target) && (base == t || base == Mkdir(t, target))
    requires Shortened(FullListing(cat, root, archive), items, trimmed, all)
    requires |items| < |FullListing(cat, root, archive)|
    requires Shape(out) == Shape(StoreAll(base, target, MembersOf(src, root.name, items)))
    ensures !NameRestored(src, root.name, archive, target, out, rel)
  {
    hide WellFormed, Shortened, FullListing, Describes;
    DescribedWell(cat, src);
    var full := FullListing(cat, root, archive);
    var ms := MembersOf(src, root.name, items);
    FullListingOrder(cat, root, archive);
    var i := ShortenedMisses(full, items, trimmed, all);
    var f := FullListingOnly(cat, root, archive, i);
    rel := full[i].name;
    RowArchived(cat, src, root.name, archive, f);
    JoinIsBelow(root.name, rel);
    var p := Join(target, rel);
    JoinIsBelow(target, rel);
    StoreAllFrame(base, target, ms, p);
    SameShapeAt(out, StoreAll(base, target, ms), p);
    forall k | 0 <= k < |ms|
      ensures Join(target, ms[k].item.name) != p
    {
      JoinInjective(target, ms[k].item.name, rel);
    }
  }

  /** Members that are stored as the same nodes give the same tree. */
  lemma {:induction false} StoreAllAlike(t: Tree, root: string, ms: seq<Member>, ms': seq<Member>)
    requires |ms| == |ms'|
    requires forall k :: 0 <= k < |ms| ==>
               ms[k].item.name == ms'[k].item.name && forall prior :: NodeOf(ms[k], prior) == NodeOf(ms'[k], prior)
    ensures StoreAll(t, root, ms) == StoreAll(t, root, ms')
  {
    if ms != [] {
      var n := |ms| - 1;
      StoreAllAlike(t, root, ms[..n], ms'[..n]);
    }
  }

  /** Items that differ only in their ACLs are stored alike. */
  lemma {:induction false} WholeStored(cat: Catalogue, src: Tree, root: CollRow, archive: string, base: Tree,
                                       target: string, items: seq<Item>, all: bool)
    requires WellFormed(cat) && root in cat.colls && root.name != "/"
    requires Shortened(FullListing(cat, root, archive), items, 0, all)
    requires |items| == |FullListing(cat, root, archive)|
    ensures StoreAll(base, target, MembersOf(src, root.name, items)) ==
            StoreAll(base, target, MembersOf(src, root.name, FullListing(cat, root, archive)))
  {
    hide WellFormed, Shortened, FullListing;
    var full := FullListing(cat, root, archive);
    var ms, ms' := MembersOf(src, root.name, items), MembersOf(src, root.name, full);
    forall k | 0 <= k < |ms|
      ensures ms[k].item.name == ms'[k].item.name
      ensures forall prior :: NodeOf(ms[k], prior) == NodeOf(ms'[k], prior)
    {
      ShortenedWhole(full, items, 0, all, k);
    }
    StoreAllAlike(base, target, ms, ms');
  }

  /** Nothing can be extracted below a target that is not there. */
  lemma {:induction false} TargetNeeded(t: Tree, target: string, ms: seq<Member>, k: nat)
    requires target != "" && Fresh(t, target) && ParentFirst(ItemsOf(ms))
    ensures FitUpTo(t, target, ms, k) ==> k == 0
  {
    if ms != [] {
      var name := ms[0].item.name;
      assert StoreAll(t, target, ms[..0]) == t;
      ParentFirstTake(ItemsOf(ms), 1);
      assert ItemsOf(ms)[..1][..0] == [];
      assert LastSlash(name) < 0;
      ParentOfJoin(target, name);
      JoinIsBelow(target, name);
      assert !FitsAt(t, target, ms, 0);
    }
  }

  /** Nothing has changed but for what is new at and below `target`. */
  ghost predicate OnlyBelow(t: Tree, u: Tree, target: string) {
    && (forall p :: p in t ==> p in u && u[p] == t[p])
    && (forall p :: p in u && p !in t ==> p == target || IsBelow(p, target))
  }

  // ---- attributes and times, row by row ----

  /** The row's node has the attributes it had. */
  ghost predicate AvusRestored(src: Tree, root: string, target: string, u: Tree, f: Found) {
    var p := Join(target, Relative(root, f.Path()));
    p in u && f.Path() in src && u[p].avus == src[f.Path()].avus
  }

  /** The row's data object has the modification time it had. */
  ghost predicate TimeRestored(src: Tree, root: string, target: string, u: Tree, f: Found) {
    var p := Join(target, Relative(root, f.Path()));
    IsObj(u, p) && IsObj(src, f.Path()) && u[p].mtime == src[f.Path()].mtime
  }

  /**
   * The attributes of a row come back if and only if its listing has equal names adjacent, its attribute query was
   * not cut short and no attribute call of it was refused; the time of an object if and only if setting it was not
   * refused, or the server had stamped that very time.
   */
  ghost predicate RowOutcome(cat: Catalogue, src: Tree, root: string, target: string, items: seq<Item>,
                             losses: seq<Loss>, u: Tree, f: Found, k: nat) {
    && k < |items| == |losses| && Join(root, items[k].name) == f.Path()
    && (AvusRestored(src, root, target, u, f) <==>
          Grouped(cat.AvuRows(RowId(f))) && items[k].attributes == NullIfEmpty(cat.AvuRows(RowId(f))) &&
          losses[k].calls == {})
    && (f.FoundObj? ==>
          (TimeRestored(src, root, target, u, f) <==>
            losses[k].stamp == None || losses[k].stamp == Some(f.obj.modified)))
  }

  /** What an index lists of a row's attributes, as far as its query got. */
  lemma {:induction false} ListedPart(rows: seq<Avu>, part: Option<seq<Avu>>, item: Item)
    requires TrimmedList(NullIfEmpty(rows), part) && item.attributes == part
    ensures item.Avus() <= rows && (item.Avus() == rows <==> part == NullIfEmpty(rows))
  {
  }

  lemma {:induction false} LostNothing(list: seq<Avu>, lost: set<nat>)
    requires forall k :: k in lost ==> k < |list|
    ensures NothingLost(list, lost) <==> lost == {}
  {
    if lost != {} {
      var k :| k in lost;
    }
  }

  /** Item `k` of the full listing, listed perhaps in part and extracted with its loss. */
  lemma {:induction false} RowRestored(cat: Catalogue, src: Tree, root: CollRow, archive: string, t: Tree, base: Tree,
                                       target: string, items: seq<Item>, trimmed: nat, all: bool,
                                       losses: seq<Loss>, u: Tree, f: Found, k: nat)
    requires Describes(cat, src) && root in cat.colls && root.name != "/"
    requires target != "" && Fresh(t, target) && (base == t || base == Mkdir(t, target))
    requires Shortened(FullListing(cat, root, archive), items, trimmed, all)
    requires |items| == |FullListing(cat, root, archive)| == |losses|
    requires forall i :: 0 <= i < |losses| ==> LossOf(Member(items[i], BytesAt(src, root.name, items[i])), losses[i])
    requires u == StoreSome(base, target, MembersOf(src, root.name, items), losses)
    requires k < |items| && ToList(cat, root.name, archive, f)
    requires FullListing(cat, root, archive)[k] == ItemOf(cat, root.name, f)
    ensures RowOutcome(cat, src, root.name, target, items, losses, u, f, k)
  {
    hide WellFormed, Shortened, FullListing, Describes, StoreSome, Fresh, DistinctNames, Matches, ReplayOnly, Grouped,
         NothingLost, TrimmedList, AvusRestored, TimeRestored, BytesAt, ItemOf, AvusAt, NodeWith, Mkdir, NullIfEmpty;
    DescribedWell(cat, src);
    var ms, rows := MembersOf(src, root.name, items), cat.AvuRows(RowId(f));
    ShortenedListing(cat, root, archive, items, trimmed, all);
    ShortenedWhole(FullListing(cat, root, archive), items, trimmed, all, k);
    SomeAt(base, target, ms, losses, k);
    NothingBelow(t, base, target, items[k].name);
    RowMatches(cat, src, f);
    RowRows(cat, src, f);
    ItemAttributes(cat, root.name, f);
    ListedPart(rows, items[k].attributes, items[k]);
    LostNothing(items[k].Avus(), losses[k].calls);
    ReplayOnlyExactIff(rows, items[k].Avus(), losses[k].calls);
    NodeRestored(cat, src, root.name, target, items[k], losses[k], u, f, all);
  }

  /** A row's attributes are those of its node, each once. */
  lemma {:induction false} RowRows(cat: Catalogue, src: Tree, f: Found)
    requires Describes(cat, src) && InCatalogue(cat, f)
    ensures var rows := cat.AvuRows(RowId(f)); forall i, j :: 0 <= i < j < |rows| ==> rows[i] != rows[j]
    ensures Matches(cat, f, src[f.Path()])
  {
  }

  lemma {:induction false} NodeRestored(cat: Catalogue, src: Tree, root: string, target: string, item: Item, loss: Loss,
                                        u: Tree, f: Found, all: bool)
    requires f.Path() in src && Matches(cat, f, src[f.Path()]) && Trims(ItemOf(cat, root, f), item, all)
    requires IsBelow(f.Path(), root)
    requires var p := Join(target, item.name);
             p in u && u[p] == NodeWith(Member(item, BytesAt(src, root, item)), {}, loss)
    ensures Join(root, item.name) == f.Path()
    ensures AvusRestored(src, root, target, u, f) <==>
            ReplayOnly(item.Avus(), loss.calls, {}) == Triples(cat.AvuRows(RowId(f)))
    ensures f.FoundObj? ==>
              (TimeRestored(src, root, target, u, f) <==>
                loss.stamp == None || loss.stamp == Some(f.obj.modified))
  {
    hide ReplayOnly, TrimmedList;
  }

  /** Every row's attributes come back. */
  ghost predicate AllAvusRestored(cat: Catalogue, src: Tree, root: string, archive: string, target: string, u: Tree) {
    forall f :: ToList(cat, root, archive, f) ==> AvusRestored(src, root, target, u, f)
  }

  /** Every row's listing has equal names adjacent. */
  ghost predicate AllGrouped(cat: Catalogue, root: string, archive: string) {
    forall f :: ToList(cat, root, archive, f) ==> Grouped(cat.AvuRows(RowId(f)))
  }

  ghost predicate RowsRestored(cat: Catalogue, src: Tree, root: string, archive: string, target: string,
                               items: seq<Item>, losses: seq<Loss>, u: Tree) {
    forall f :: ToList(cat, root, archive, f) ==>
      exists k :: RowOutcome(cat, src, root, target, items, losses, u, f, k)
  }

  /**
   * When no item is missing: each row comes back according to its own losses; and the attributes of all do if and only
   * if all listings have equal names adjacent, no attribute query was cut short and no attribute call refused.
   */
  lemma {:induction false} AvusExactly(cat: Catalogue, src: Tree, root: CollRow, archive: string, t: Tree, base: Tree,
                                       target: string, items: seq<Item>, trimmed: nat, all: bool,
                                       losses: seq<Loss>, u: Tree)
    requires Describes(cat, src) && root in cat.colls && root.name != "/"
    requires target != "" && Fresh(t, target) && (base == t || base == Mkdir(t, target))
    requires Shortened(FullListing(cat, root, archive), items, trimmed, all)
    requires |items| == |FullListing(cat, root, archive)| == |losses|
    requires forall i :: 0 <= i < |losses| ==> LossOf(Member(items[i], BytesAt(src, root.name, items[i])), losses[i])
    requires u == StoreSome(base, target, MembersOf(src, root.name, items), losses)
    ensures RowsRestored(cat, src, root.name, archive, target, items, losses, u)
    ensures AllAvusRestored(cat, src, root.name, archive, target, u) <==>
            AllGrouped(cat, root.name, archive) && trimmed == 0 && Unset(losses) == 0
  {
    hide WellFormed, Shortened, FullListing, Describes, StoreSome, Fresh, AvusRestored, TimeRestored, Grouped, ToList,
         LossOf, Unset, Mkdir, ItemOf;
    DescribedWell(cat, src);
    var full := FullListing(cat, root, archive);
    CountsZero(losses);
    forall f | ToList(cat, root.name, archive, f)
      ensures exists k :: RowOutcome(cat, src, root.name, target, items, losses, u, f, k)
      ensures AvusRestored(src, root.name, target, u, f) ==> Grouped(cat.AvuRows(RowId(f)))
      ensures trimmed == 0 && Unset(losses) == 0 && Grouped(cat.AvuRows(RowId(f))) ==>
                AvusRestored(src, root.name, target, u, f)
    {
      var k := FullListingHas(cat, root, archive, f);
      RowRestored(cat, src, root, archive, t, base, target, items, trimmed, all, losses, u, f, k);
      ShortenedWhole(full, items, trimmed, all, k);
      ItemAttributes(cat, root.name, f);
    }
    if AllAvusRestored(cat, src, root.name, archive, target, u) {
      forall k | 0 <= k < |losses|
        ensures losses[k].calls == {} && items[k].attributes == full[k].attributes
      {
        var f := FullListingOnly(cat, root, archive, k);
        RowRestored(cat, src, root, archive, t, base, target, items, trimmed, all, losses, u, f, k);
        ItemAttributes(cat, root.name, f);
      }
      if trimmed > 0 {
        var i, k := ShortenedTrimmed(full, items, trimmed, all);
      }
    }
  }

  lemma {:induction false} ItemAttributes(cat: Catalogue, root: string, f: Found)
    ensures ItemOf(cat, root, f).attributes == NullIfEmpty(cat.AvuRows(RowId(f)))
  {
  }

  /**
   * Both statuses are zero: the collection is restored, but for attributes and times, if and only if nothing cut the
   * listing or the reading short; then each row's attributes and time come back according to its own losses, the
   * attributes of all if and only if they were listed whole and adjacent and no call was refused, and the collection
   * altogether when no time was either. No other path changes.
   */
  lemma {:induction false} BothZero(cat: Catalogue, t: Tree, root: CollRow, archive: string, target: string,
                                    items: seq<Item>, trimmed: int, all: bool, listed: bool,
                                    base: Tree, u: Tree, done: nat, losses: seq<Loss>, told: bool, read: bool)
    requires Describes(cat, t) && target != "" && Fresh(t, target) && (base == t || base == Mkdir(t, target))
    requires Lists(cat, root, archive, items, trimmed, all, listed)
    requires FullOutcome(base, u, target, MembersOf(t, root.name, items), done, 0, losses, told, read)
    ensures ShapeRestored(t, root.name, archive, target, u) <==> listed && read
    ensures listed && read ==> RowsRestored(cat, t, root.name, archive, target, items, losses, u)
    ensures listed && read ==>
              (AllAvusRestored(cat, t, root.name, archive, target, u) <==>
                AllGrouped(cat, root.name, archive) && trimmed == 0 && Unset(losses) == 0)
    ensures listed && read && trimmed == 0 && Unset(losses) == 0 && Untimed(losses) == 0 ==>
              u == Restored(cat, t, root, archive, t, target) || (FullListing(cat, root, archive) == [] && u == t)
    ensures OnlyBelow(t, u, target)
  {
    hide WellFormed, Describes, Shortened, FullListing, Fresh, StoreAll, StoreSome, ParentFirst, NameRestored, FitsAt,
         RowsRestored, AllAvusRestored, AllGrouped, Unset, Untimed, LossOf, Mkdir;
    DescribedWell(cat, t);
    var full, ms := FullListing(cat, root, archive), MembersOf(t, root.name, items);
    var final := items[..done];
    var less := ShortenedTake(full, items, done, trimmed, all);
    ShortenedLength(full, items, trimmed, all);
    assert MembersOf(t, root.name, final) == ms[..done];
    SomeShape(base, target, ms[..done], losses);
    if |final| == |full| {
      assert final == items && ms[..done] == ms;
      forall rel
        ensures NameRestored(t, root.name, archive, target, u, rel)
      {
        WholeRestores(cat, t, root, archive, t, base, target, items, trimmed, all, u, rel);
      }
      AvusExactly(cat, t, root, archive, t, base, target, items, trimmed, all, losses, u);
      if trimmed == 0 && Unset(losses) == 0 && Untimed(losses) == 0 {
        CountsZero(losses);
        SomeIsAll(base, target, ms, losses);
        WholeStored(cat, t, root, archive, base, target, items, all);
        TargetNeeded(t, target, ms, done);
        NoItems(t, target, ms, full, done);
      }
    } else {
      var rel := LossShows(cat, t, root, archive, t, base, target, final, less, all, u);
    }
    forall p
      ensures p in t ==> p in u && u[p] == t[p]
      ensures p in u && p !in t ==> p == target || IsBelow(p, target)
    {
      SomeOnly(t, base, target, ms[..done], losses, p);
    }
  }

  lemma {:induction false} NoItems(t: Tree, target: string, ms: seq<Member>, full: seq<Item>, done: nat)
    requires done <= |ms|
    ensures done == 0 == |full| ==> full == [] && StoreAll(t, target, ms[..done]) == t
  {
  }

  lemma {:induction false} SomeOnly(t: Tree, base: Tree, target: string, ms: seq<Member>, losses: seq<Loss>, p: string)
    requires Fresh(t, target) && (base == t || base == Mkdir(t, target)) && |losses| == |ms|
    ensures var u := StoreSome(base, target, ms, losses);
            (p in t ==> p in u && u[p] == t[p]) && (p in u && p !in t ==> p == target || IsBelow(p, target))
  {
    SomeFrame(base, target, ms, losses, p);
    if p in Files(target, ms) {
      var k :| 0 <= k < |ms| && Join(target, ms[k].item.name) == p;
      JoinIsBelow(target, ms[k].item.name);
    }
  }

  /**
   * Creating an archive of a collection and extracting it into a fresh target, whatever calls are refused. When both
   * statuses are zero, names, kinds and bytes are restored if and only if no listing query and no header read was cut
   * short. Then the attributes and the time of each row come back if and only if nothing of its own was lost, its
   * listing having equal names adjacent, the losses being those counted and those the tree shows (`RunOf`); all times
   * when none was refused; the attributes of all rows if and only if all listings do and no attribute
   * query was cut short and no attribute call refused; and all together when no time was refused either. No path
   * outside the target changes. When nothing at all is refused, both statuses are zero.
   */
  method CreateAndExtract(server: Server, cat: Catalogue, archive: string, root: CollRow, target: string)
      returns (created: int, extracted: int, ghost items: seq<Item>, ghost losses: seq<Loss>)
    requires Describes(cat, server.tree) && server.Idle() && root in cat.colls && root.name != "/"
    requires target != "" && Fresh(server.tree, target)
    modifies server
    ensures server.Onward()
    ensures Unset(losses) == server.unset - old(server.unset) && Untimed(losses) == server.untimed - old(server.untimed)
    ensures created == 0 && extracted == 0 ==>
              RunOf(cat, root, archive, old(server.tree), target, items, server.unlisted - old(server.unlisted), losses,
                    server.tree, server.cut == old(server.cut))
    ensures created == 0 && extracted == 0 ==>
              (ShapeRestored(old(server.tree), root.name, archive, target, server.tree) <==>
                server.cut == old(server.cut))
    ensures created == 0 && extracted == 0 && server.cut == old(server.cut) ==>
              RowsRestored(cat, old(server.tree), root.name, archive, target, items, losses, server.tree)
    ensures created == 0 && extracted == 0 && server.cut == old(server.cut) ==>
              (AllAvusRestored(cat, old(server.tree), root.name, archive, target, server.tree) <==>
                AllGrouped(cat, root.name, archive) && server.unlisted == old(server.unlisted) &&
                server.unset == old(server.unset))
    ensures created == 0 && extracted == 0 && server.cut == old(server.cut) && server.untimed == old(server.untimed) ==>
              AllTimesRestored(cat, old(server.tree), root.name, archive, target, server.tree)
    ensures created == 0 && extracted == 0 && server.cut == old(server.cut) &&
            server.unlisted == old(server.unlisted) && server.unset == old(server.unset) &&
            server.untimed == old(server.untimed) ==>
              server.tree == Restored(cat, old(server.tree), root, archive, old(server.tree), target) ||
              (FullListing(cat, root, archive) == [] && server.tree == old(server.tree))
    ensures created == 0 && extracted == 0 ==> OnlyBelow(old(server.tree), server.tree, target)
    ensures server.refused == old(server.refused) ==>
              created == 0 && extracted == 0 &&
              server.tree == Restored(cat, old(server.tree), root, archive, old(server.tree), target)
  {
    hide Describes, WellFormed, StoreAll, FullListing, Fresh, FullOutcome, SingleOutcome, Pack, MembersOf, Mkdir;
    hide Lists, Held, ShapeRestored, Sized, LeftBehind, RowsRestored, AllAvusRestored, AllGrouped, Unset, Untimed,
         Restored, OnlyBelow, RunOf, AllTimesRestored, TotalBlocks, WithinSize, SizeRecorded, OneWithin, IsBelow;
    ghost var t := server.tree;
    var container: seq<Entry>;
    ghost var row, stored;
    created, container, row, items, stored := MsiArchiveCreate(server, cat, archive, root.name);
    extracted, losses := 0, [];
    CountsZero([]);
    DescribedWell(cat, t);
    if created == 0 {
      ghost var trimmed, all, listed, cut := server.unlisted - old(server.unlisted),
                                             server.refused == old(server.refused),
                                             server.cut == old(server.cut), server.cut;
      SameRow(cat, root, row, archive, items, trimmed, all, listed);
      ghost var base, done, hit, same, told, begun;
      extracted, base, done, hit, losses, same, told, begun :=
        MsiArchiveExtract(server, archive, container, target, None, None, 0, stored);
      if extracted == 0 {
        BothZero(cat, t, root, archive, target, items, trimmed, all, listed, base, server.tree, done, losses, told,
                 server.cut == cut);
        RunTied(cat, root, archive, t, target, items, trimmed, all, listed, base, server.tree, done, losses, told,
                server.cut == cut);
        if server.cut == old(server.cut) && server.untimed == old(server.untimed) {
          TimesRestored(cat, t, root.name, archive, target, items, losses, server.tree);
        }
      }
      if server.refused == old(server.refused) {
        NothingRefused(cat, t, root, archive, target, items, all, server.tree, done, extracted, losses);
      }
    }
  }

  /**
   * The items are rows of the collection, `trimmed` of them without all their attributes, and the tree is exactly what
   * the first of them make of a fresh target, each with its loss; the `whole` listing or not.
   */
  ghost predicate RunOf(cat: Catalogue, root: CollRow, archive: string, t: Tree, target: string, items: seq<Item>,
                        trimmed: int, losses: seq<Loss>, u: Tree, whole: bool) {
    && (Lists(cat, root, archive, items, trimmed, false, true) ||
        (!whole && Lists(cat, root, archive, items, trimmed, false, false)))
    && |losses| <= |items| && (whole <==> |losses| == |FullListing(cat, root, archive)|)
    && exists base ::
         (base == t || base == Mkdir(t, target)) &&
         Restoring(base, u, target, MembersOf(t, root.name, items), |losses|, losses)
  }

  lemma {:induction false} RunTied(cat: Catalogue, root: CollRow, archive: string, t: Tree, target: string,
                                   items: seq<Item>, trimmed: int, all: bool, listed: bool, base: Tree, u: Tree,
                                   done: nat, losses: seq<Loss>, told: bool, read: bool)
    requires Lists(cat, root, archive, items, trimmed, all, listed) && (base == t || base == Mkdir(t, target))
    requires FullOutcome(base, u, target, MembersOf(t, root.name, items), done, 0, losses, told, read)
    ensures RunOf(cat, root, archive, t, target, items, trimmed, losses, u, listed && read)
  {
    hide WellFormed, FullListing, ParentFirst, Shortened, StoreSome, FitsAt, LossOf, Mkdir;
    ShortenedWeaker(FullListing(cat, root, archive), items, trimmed, all, false);
    ShortenedLength(FullListing(cat, root, archive), items, trimmed, all);
  }

  /** Every data object's modification time comes back. */
  ghost predicate AllTimesRestored(cat: Catalogue, src: Tree, root: string, archive: string, target: string, u: Tree) {
    forall f :: ToList(cat, root, archive, f) && f.FoundObj? ==> TimeRestored(src, root, target, u, f)
  }

  /** When no time was refused, whatever happened to attributes, all come back. */
  lemma {:induction false} TimesRestored(cat: Catalogue, src: Tree, root: string, archive: string, target: string,
                                         items: seq<Item>, losses: seq<Loss>, u: Tree)
    requires RowsRestored(cat, src, root, archive, target, items, losses, u) && Untimed(losses) == 0
    ensures AllTimesRestored(cat, src, root, archive, target, u)
  {
    hide ToList, AvusRestored, TimeRestored, Untimed;
    CountsZero(losses);
    forall f | ToList(cat, root, archive, f) && f.FoundObj?
      ensures TimeRestored(src, root, target, u, f)
    {
      var k :| RowOutcome(cat, src, root, target, items, losses, u, f, k);
    }
  }

  lemma {:induction false} SameRow(cat: Catalogue, root: CollRow, row: CollRow, archive: string, items: seq<Item>,
                                   trimmed: int, all: bool, listed: bool)
    requires WellFormed(cat) && root in cat.colls && row.name == root.name
    requires Lists(cat, row, archive, items, trimmed, all, listed)
    ensures Lists(cat, root, archive, items, trimmed, all, listed)
  {
    hide FullListing, Shortened, ParentFirst;
    assert CollKeys(root, row);
  }

  /** Without refusals the extraction of a whole archive into a fresh target comes to its end. */
  lemma {:induction false} NothingRefused(cat: Catalogue, t: Tree, root: CollRow, archive: string, target: string,
                                          items: seq<Item>, all: bool, u: Tree, done: nat, status: int,
                                          losses: seq<Loss>)
    requires Describes(cat, t) && target != "" && Fresh(t, target)
    requires Lists(cat, root, archive, items, 0, all, true) && Unset(losses) == 0 && Untimed(losses) == 0
    requires FullOutcome(Mkdir(t, target), u, target, MembersOf(t, root.name, items), done, status, losses, false, true)
    ensures status == 0 && u == Restored(cat, t, root, archive, t, target)
  {
    hide WellFormed, Describes, Shortened, FullListing, Fresh, ParentFirst, StoreAll, StoreSome, FullOutcome, Shape,
         DistinctNames, FitUpTo, Mkdir, Files, Unset, Untimed;
    var ms := MembersOf(t, root.name, items);
    DescribedWell(cat, t);
    ShortenedListing(cat, root, archive, items, 0, all);
    StoppedGoesUnnoticed(t, u, target, items, ms, done, status, losses, true);
    WholeStored(cat, t, root, archive, Mkdir(t, target), target, items, all);
    assert ms[..|ms|] == ms;
    CountsZero(losses);
    SomeIsAll(Mkdir(t, target), target, ms, losses);
  }

  // ---- a run cut short ----

  /**
   * The collection "/z" with "/z/a" in it, archived and extracted to "/y". What the contracts allow when the query for
   * the subcollections is refused, or the header of the one entry is: both statuses are zero, and "/y" is empty.
   */
  lemma {:induction false} CutRun(z: CollRow, a: CollRow, cat: Catalogue, src: Tree, out: Tree)
    requires z == CollRow(1, "/z", "/", "o", "", 0, 0) && a == CollRow(2, "/z/a", "/z", "o", "", 0, 0)
    requires cat == Catalogue([CollRow(0, "/", "/", "o", "", 0, 0), z, a], [], map[], map[])
    requires src == map["/" := CollNode({}), "/z" := CollNode({}), "/z/a" := CollNode({})]
    requires out == src["/y" := CollNode({})]
    ensures Describes(cat, src) && Fresh(src, "/y")
    ensures Lists(cat, z, "/t.tar", [], 0, false, false)
    ensures FullOutcome(Mkdir(src, "/y"), out, "/y", [], 0, 0, [], false, true)
    ensures FullListing(cat, z, "/t.tar") != []
    ensures FullOutcome(Mkdir(src, "/y"), out, "/y", MembersOf(src, "/z", FullListing(cat, z, "/t.tar")), 0, 0,
                        [], false, false)
    ensures !ShapeRestored(src, "/z", "/t.tar", "/y", out)
  {
    hide Describes, WellFormed, FullListing, ShapeRestored, NameRestored, Fresh, Shortened, Mkdir;
    CutDescribed(z, a, cat, src);
    DescribedWell(cat, src);
    CutListing(z, a, cat);
    CutTree(src, out);
    RestoringStart(out, "/y", []);
    RestoringStart(out, "/y", MembersOf(src, "/z", FullListing(cat, z, "/t.tar")));
    NotThere(src, out);
  }

  lemma {:induction false} CutListing(z: CollRow, a: CollRow, cat: Catalogue)
    requires WellFormed(cat) && z in cat.colls && a in cat.colls && z.name == "/z" && a.name == "/z/a"
    ensures FullListing(cat, z, "/t.tar") != []
    ensures Lists(cat, z, "/t.tar", [], 0, false, false)
  {
    hide WellFormed, FullListing;
    assert "/z/a"[..3] == "/z/";
    var k := FullListingHas(cat, z, "/t.tar", FoundColl(a));
    ShortenedNone(FullListing(cat, z, "/t.tar"), false);
  }

  lemma {:induction false} CutTree(src: Tree, out: Tree)
    requires src == map["/" := CollNode({}), "/z" := CollNode({}), "/z/a" := CollNode({})]
    requires out == src["/y" := CollNode({})]
    ensures Fresh(src, "/y") && Mkdir(src, "/y") == out
  {
    LastSlashUnique("/y", 0);
    assert "/z/a"[1] != '/' && "/y/"[1] != "/z/a"[..3][1];
  }

  lemma {:induction false} NotThere(src: Tree, out: Tree)
    requires src == map["/" := CollNode({}), "/z" := CollNode({}), "/z/a" := CollNode({})]
    requires out == src["/y" := CollNode({})]
    ensures !ShapeRestored(src, "/z", "/t.tar", "/y", out)
  {
    assert Join("/z", "a") == "/z/a" && Join("/y", "a") == "/y/a";
    assert Archived(src, "/z", "/t.tar", "a");
    assert "/y/a"[1] != "/z/a"[1];
    assert "/y/a" !in out;
    assert !NameRestored(src, "/z", "/t.tar", "/y", out, "a");
  }

  lemma {:induction false} CutDescribed(z: CollRow, a: CollRow, cat: Catalogue, src: Tree)
    requires z == CollRow(1, "/z", "/", "o", "", 0, 0) && a == CollRow(2, "/z/a", "/z", "o", "", 0, 0)
    requires cat == Catalogue([CollRow(0, "/", "/", "o", "", 0, 0), z, a], [], map[], map[])
    requires src == map["/" := CollNode({}), "/z" := CollNode({}), "/z/a" := CollNode({})]
    ensures Describes(cat, src)
  {
    CutWellFormed(z, a, cat);
    hide WellFormed, Matches;
    forall f | InCatalogue(cat, f)
      ensures f.Path() in src && Matches(cat, f, src[f.Path()])
    {
      BareRow(cat, f, src);
    }
    forall p | p in src
      ensures exists f :: InCatalogue(cat, f) && f.Path() == p
    {
      var k := if p == "/" then 0 else if p == "/z" then 1 else 2;
      var f := FoundColl(cat.colls[k]);
      assert InCatalogue(cat, f) && f.Path() == p;
    }
  }

  /** A collection without attributes stands for a bare node. */
  lemma {:induction false} BareRow(cat: Catalogue, f: Found, src: Tree)
    requires InCatalogue(cat, f) && cat.objs == [] && cat.avus == map[]
    requires forall c :: c in cat.colls ==> c.name in src && src[c.name] == CollNode({})
    ensures f.Path() in src && Matches(cat, f, src[f.Path()])
  {
  }

  lemma {:induction false} CutWellFormed(z: CollRow, a: CollRow, cat: Catalogue)
    requires z == CollRow(1, "/z", "/", "o", "", 0, 0) && a == CollRow(2, "/z/a", "/z", "o", "", 0, 0)
    requires cat == Catalogue([CollRow(0, "/", "/", "o", "", 0, 0), z, a], [], map[], map[])
    ensures WellFormed(cat)
  {
    assert "/z"[..1] == "/" && "/z"[1..] == "z" && "/z/a"[..3] == "/z/" && Relative("/z", "/z/a") == "a";
    assert z in cat.colls;
  }
}
