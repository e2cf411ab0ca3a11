/** From the rows the walk finds to the items of the index, and from the index back to the tree. */
module Listing {
  import opened Wrappers
  import opened Attributes
  import opened Paths
  import opened Index
  import opened Namespace
  import opened Catalogue

  /** A list that stays NULL as long as there are no rows. */
  function NullIfEmpty<T>(rows: seq<T>): Option<seq<T>> {
    if rows == [] then None else Some(rows)
  }

  /** "user#zone:access" */
  function AclText(row: AclRow): string {
    row.user + "#" + row.zone + ":" + row.access
  }

  function AclTexts(rows: seq<AclRow>): (r: seq<string>)
    ensures |r| == |rows| && forall k :: 0 <= k < |rows| ==> r[k] == AclText(rows[k])
  {
    seq(|rows|, k requires 0 <= k < |rows| => AclText(rows[k]))
  }

  function RowId(f: Found): int {
    if f.FoundColl? then f.coll.id else f.obj.id
  }

  function ItemOf(cat: Catalogue, root: string, f: Found): Item
  {
    var attributes := NullIfEmpty(cat.AvuRows(RowId(f)));
    var acl := NullIfEmpty(AclTexts(cat.AclRows(RowId(f))));
    match f
    case FoundColl(c) =>
      Coll(Relative(root, c.name), c.created, c.modified, c.owner + "#" + c.zone, attributes, acl)
    case FoundObj(_, o) =>
      DataObj(Relative(root, f.Path()), o.size, o.created, o.modified, o.owner + "#" + o.zone,
              if o.checksum == "" then None else Some(o.checksum), attributes, acl)
  }

  /**
   * What an item records of its row, spelled out: all of it when `all` queries were answered, else perhaps only the
   * first attributes and access rights.
   */
  ghost predicate Records(cat: Catalogue, f: Found, item: Item, all: bool) {
    match f
    case FoundColl(c) =>
      && item.Coll? && item.created == c.created && item.modified == c.modified
      && item.owner == c.owner + "#" + c.zone
      && RecordsAvus(cat, c.id, item.attributes, all) && RecordsAcl(cat, c.id, item.acl, all)
    case FoundObj(_, o) =>
      && item.DataObj? && item.size == o.size && item.created == o.created && item.modified == o.modified
      && item.owner == o.owner + "#" + o.zone
      && item.checksum == (if o.checksum == "" then None else Some(o.checksum))
      && RecordsAvus(cat, o.id, item.attributes, all) && RecordsAcl(cat, o.id, item.acl, all)
  }

  ghost predicate RecordsAvus(cat: Catalogue, id: int, attributes: Option<seq<Avu>>, all: bool) {
    var rows := if id in cat.avus then cat.avus[id] else [];
    && (attributes.Some? ==> attributes.value != [] && attributes.value <= rows)
    && (all ==> (attributes == None <==> rows == []) && (attributes.Some? ==> attributes.value == rows))
  }

  ghost predicate RecordsAcl(cat: Catalogue, id: int, acl: Option<seq<string>>, all: bool) {
    var rows := if id in cat.acls then cat.acls[id] else [];
    && (acl.Some? ==>
          acl.value != [] && |acl.value| <= |rows| &&
          forall k :: 0 <= k < |acl.value| ==>
            acl.value[k] == rows[k].user + "#" + rows[k].zone + ":" + rows[k].access)
    && (all ==> (acl == None <==> rows == []) && (acl.Some? ==> |acl.value| == |rows|))
  }

  /** The text before and after the first separator; nothing when there is none. */
  function Split(text: string, sep: char): Option<(string, string)> {
    if text == "" then None
    else if text[0] == sep then Some(("", text[1..]))
    else
      var rest := Split(text[1..], sep);
      if rest == None then None else Some(([text[0]] + rest.value.0, rest.value.1))
  }

  /** An owner text gives back the user and the zone, for a user name without "#". */
  lemma {:induction false} OwnerReads(user: string, zone: string)
    ensures '#' !in user ==> Split(user + "#" + zone, '#') == Some((user, zone))
  {
    if '#' !in user {
      SplitAt(user, '#', zone);
      assert user + ['#'] + zone == user + "#" + zone;
    }
  }

  lemma {:induction false} SplitAt(a: string, sep: char, b: string)
    requires sep !in a
    ensures Split(a + [sep] + b, sep) == Some((a, b))
  {
    var text := a + [sep] + b;
    if a == [] {
      assert text[1..] == b;
    } else {
      assert text[1..] == a[1..] + [sep] + b;
      SplitAt(a[1..], sep, b);
      assert [a[0]] + a[1..] == a;
    }
  }

  /** An access text gives back user, zone and access, for a user name without "#" and a zone name without ":". */
  lemma {:induction false} AclReads(row: AclRow)
    requires '#' !in row.user && ':' !in row.zone
    ensures var owner := Split(row.user + "#" + row.zone + ":" + row.access, '#');
            owner.Some? && owner.value.0 == row.user &&
            Split(owner.value.1, ':') == Some((row.zone, row.access))
  {
    OwnerReads(row.user, row.zone + ":" + row.access);
    assert row.user + "#" + (row.zone + ":" + row.access) == row.user + "#" + row.zone + ":" + row.access;
    SplitAt(row.zone, ':', row.access);
    assert row.zone + [':'] + row.access == row.zone + ":" + row.access;
  }

  lemma {:induction false} ItemRecords(cat: Catalogue, root: string, f: Found, item: Item, all: bool)
    requires Trims(ItemOf(cat, root, f), item, all)
    ensures Records(cat, f, item, all)
  {
    TrimsAvus(cat, RowId(f), item.attributes);
    TrimsAcl(cat, RowId(f), item.acl);
  }

  lemma {:induction false} TrimsAvus(cat: Catalogue, id: int, part: Option<seq<Avu>>)
    requires TrimmedList(NullIfEmpty(cat.AvuRows(id)), part)
    ensures RecordsAvus(cat, id, part, part == NullIfEmpty(cat.AvuRows(id)))
  {
  }

  lemma {:induction false} TrimsAcl(cat: Catalogue, id: int, part: Option<seq<string>>)
    requires TrimmedList(NullIfEmpty(AclTexts(cat.AclRows(id))), part)
    ensures RecordsAcl(cat, id, part, part == NullIfEmpty(AclTexts(cat.AclRows(id))))
  {
    var texts := AclTexts(cat.AclRows(id));
    if part.Some? {
      assert forall k :: 0 <= k < |part.value| ==> part.value[k] == texts[k];
    }
  }

  /** The node a catalogue row stands for. */
  ghost predicate Matches(cat: Catalogue, f: Found, n: Node) {
    n.avus == Triples(cat.AvuRows(RowId(f))) &&
    match f
    case FoundColl(_) => n.CollNode?
    case FoundObj(_, o) => n.ObjNode? && |n.bytes| == o.size && n.mtime == o.modified
  }

  /** The catalogue describes the tree: the rows are exactly its paths, with their sizes, times and attributes. */
  ghost predicate Describes(cat: Catalogue, t: Tree) {
    && WellFormed(cat)
    && (forall f :: InCatalogue(cat, f) ==> f.Path() in t && Matches(cat, f, t[f.Path()]))
    && (forall p :: p in t ==> exists f :: InCatalogue(cat, f) && f.Path() == p)
    && (forall id :: id in cat.avus ==> Distinct(cat.avus[id]))
  }

  lemma {:induction false} DescribedWell(cat: Catalogue, t: Tree)
    requires Describes(cat, t)
    ensures WellFormed(cat)
  {
  }

  lemma {:induction false} RowMatches(cat: Catalogue, t: Tree, f: Found)
    requires Describes(cat, t) && InCatalogue(cat, f)
    ensures f.Path() in t && Matches(cat, f, t[f.Path()])
  {
  }

  /** The archive does not list itself. */
  predicate Dropped(archive: string, f: Found) {
    f.FoundObj? && f.Path() == archive
  }

  ghost predicate AllBelow(root: string, fs: seq<Found>) {
    forall f :: f in fs ==> IsBelow(f.Path(), root)
  }

  /** The items for rows found, in order. */
  function Items(cat: Catalogue, root: string, archive: string, fs: seq<Found>): seq<Item>
  {
    if fs == [] then []
    else
      var last := fs[|fs| - 1];
      Items(cat, root, archive, fs[..|fs| - 1]) + ItemStep(cat, root, archive, last)
  }

  function ItemStep(cat: Catalogue, root: string, archive: string, f: Found): seq<Item>
  {
    if Dropped(archive, f) then [] else [ItemOf(cat, root, f)]
  }

  /** The index `msiArchiveCreate` builds for the collection `root` when every query is answered. */
  function FullListing(cat: Catalogue, root: CollRow, archive: string): seq<Item>
    requires WellFormed(cat) && root in cat.colls && root.name != "/"
  {
    Items(cat, root.name, archive, Inside(cat, root))
  }

  lemma {:induction false} ItemsConcat(cat: Catalogue, root: string, archive: string, a: seq<Found>, b: seq<Found>)
    ensures Items(cat, root, archive, a + b) == Items(cat, root, archive, a) + Items(cat, root, archive, b)
    decreases |b|
  {
    if b == [] {
      assert a + b == a;
    } else {
      var n := |b| - 1;
      var pre, last := b[..n], b[n];
      ItemsConcat(cat, root, archive, a, pre);
      assert (a + b)[..|a + b| - 1] == a + pre && (a + b)[|a + b| - 1] == last;
      ConcatAssociates(Items(cat, root, archive, a), Items(cat, root, archive, pre),
                       ItemStep(cat, root, archive, last));
    }
  }

  // ---- what the index lists ----

  lemma {:induction false} ItemListed(cat: Catalogue, root: string, archive: string, fs: seq<Found>, f: Found)
      returns (k: nat)
    requires f in fs && !Dropped(archive, f)
    ensures k < |Items(cat, root, archive, fs)| && Items(cat, root, archive, fs)[k] == ItemOf(cat, root, f)
  {
    var n := |fs| - 1;
    if f == fs[n] {
      k := |Items(cat, root, archive, fs[..n])|;
    } else {
      k := ItemListed(cat, root, archive, fs[..n], f);
    }
  }

  lemma {:induction false} ItemFound(cat: Catalogue, root: string, archive: string, fs: seq<Found>, k: nat)
      returns (f: Found)
    requires AllBelow(root, fs) && k < |Items(cat, root, archive, fs)|
    ensures f in fs && !Dropped(archive, f) && Items(cat, root, archive, fs)[k] == ItemOf(cat, root, f)
    ensures Join(root, Items(cat, root, archive, fs)[k].name) == f.Path()
  {
    var n := |fs| - 1;
    if k < |Items(cat, root, archive, fs[..n])| {
      f := ItemFound(cat, root, archive, fs[..n], k);
    } else {
      f := fs[n];
    }
  }

  /** Different rows give different names. */
  lemma {:induction false} ItemsDistinct(cat: Catalogue, root: string, archive: string, fs: seq<Found>)
    requires WellFormed(cat) && AllBelow(root, fs) && Distinct(fs)
    requires forall f :: f in fs ==> InCatalogue(cat, f)
    ensures DistinctNames(Items(cat, root, archive, fs))
  {
    if fs != [] {
      var n := |fs| - 1;
      var pre, last := fs[..n], fs[n];
      ItemsDistinct(cat, root, archive, pre);
      var items := Items(cat, root, archive, pre);
      forall k | 0 <= k < |items|
        ensures items[k].name != ItemOf(cat, root, last).name
      {
        var f := ItemFound(cat, root, archive, pre, k);
        PathsDiffer(cat, f, last);
      }
    }
  }

  // ---- parents before children ----

  function ParentPath(f: Found): string {
    if f.FoundColl? then f.coll.parent else f.home.name
  }

  /** The collection named `path` is the root, or was found among the first rows. */
  ghost predicate Reached(root: string, fs: seq<Found>, path: string) {
    path == root || exists j :: 0 <= j < |fs| && fs[j].FoundColl? && fs[j].coll.name == path
  }

  ghost predicate ParentsReached(root: string, fs: seq<Found>) {
    forall k :: 0 <= k < |fs| ==> Reached(root, fs[..k], ParentPath(fs[k]))
  }

  lemma {:induction false} ReachedMonotone(root: string, a: seq<Found>, b: seq<Found>, path: string)
    requires Reached(root, a, path)
    ensures Reached(root, a + b, path)
  {
    if path != root {
      var j :| 0 <= j < |a| && a[j].FoundColl? && a[j].coll.name == path;
      assert (a + b)[j] == a[j];
    }
  }

  lemma {:induction false} AppendReached(root: string, a: seq<Found>, b: seq<Found>)
    requires ParentsReached(root, a)
    requires forall f :: f in b ==> Reached(root, a, ParentPath(f))
    ensures ParentsReached(root, a + b)
  {
    var s := a + b;
    forall k | 0 <= k < |s|
      ensures Reached(root, s[..k], ParentPath(s[k]))
    {
      if k < |a| {
        assert s[..k] == a[..k];
      } else {
        assert s[k] == b[k - |a|];
        ReachedMonotone(root, a, b[..k - |a|], ParentPath(s[k]));
        assert s[..k] == a + b[..k - |a|];
      }
    }
  }

  /** Continuing a parents-first list with the walk of a collection it has reached. */
  lemma {:induction false} WalkReached(cat: Catalogue, root: string, path: string, a: seq<Found>)
    requires WellFormed(cat) && path != "/"
    requires ParentsReached(root, a) && Reached(root, a, path)
    ensures ParentsReached(root, a + WalkColl(cat, path))
    decreases Descendants(cat, path), 1, 0
  {
    var kids := SubColls(cat.colls, path);
    var b := a + CollsFound(kids);
    AppendReached(root, a, CollsFound(kids));
    forall c | c in kids
      ensures Reached(root, b, c.name)
    {
      var k :| 0 <= k < |kids| && kids[k] == c;
      assert b[|a| + k] == FoundColl(c);
    }
    WalkKidsReached(cat, root, path, kids, b);
    ConcatAssociates(a, CollsFound(kids), WalkKids(cat, path, kids));
  }

  lemma {:induction false} ConcatAssociates<T>(a: seq<T>, b: seq<T>, c: seq<T>)
    ensures a + (b + c) == a + b + c
  {
  }

  lemma {:induction false} WalkKidsReached(cat: Catalogue, root: string, path: string, kids: seq<CollRow>,
                                           a: seq<Found>)
    requires WellFormed(cat) && path != "/"
    requires forall c :: c in kids ==> c in cat.colls && c.parent == path && Reached(root, a, c.name)
    requires ParentsReached(root, a)
    ensures ParentsReached(root, a + WalkKids(cat, path, kids))
    decreases Descendants(cat, path), 0, |kids|
  {
    if kids == [] {
      assert a + WalkKids(cat, path, kids) == a;
    } else {
      var n := |kids| - 1;
      var before := a + WalkKids(cat, path, kids[..n]);
      WalkKidsReached(cat, root, path, kids[..n], a);
      KidDescends(cat, path, kids[n]);
      ReachedMonotone(root, a, WalkKids(cat, path, kids[..n]), kids[n].name);
      InsideReached(cat, root, kids[n], before);
      ConcatAssociates(a, WalkKids(cat, path, kids[..n]), Inside(cat, kids[n]));
    }
  }

  lemma {:induction false} InsideReached(cat: Catalogue, root: string, c: CollRow, a: seq<Found>)
    requires WellFormed(cat) && c.name != "/"
    requires ParentsReached(root, a) && Reached(root, a, c.name)
    ensures ParentsReached(root, a + Inside(cat, c))
    decreases Descendants(cat, c.name), 2, 0
  {
    var w, os := WalkColl(cat, c.name), ObjsFound(c, ObjsIn(cat.objs, c.id));
    WalkReached(cat, root, c.name, a);
    ReachedMonotone(root, a, w, c.name);
    AppendReached(root, a + w, os);
    ConcatAssociates(a, w, os);
  }

  /** A row is spelled after its parent. */
  lemma {:induction false} RelativeToParent(cat: Catalogue, root: string, f: Found) returns (comp: string)
    requires WellFormed(cat) && InCatalogue(cat, f) && root != "" && IsBelow(f.Path(), root)
    ensures IsComponent(comp) && f.Path() == Join(ParentPath(f), comp)
    ensures ParentPath(f) == root || IsBelow(ParentPath(f), root)
  {
    if f.FoundObj? {
      comp := f.obj.name;
      assert Placed(cat.colls, f.obj);
    } else {
      assert NamedAfterParent(cat.colls, f.coll);
      assert f.Path()[..|root| + 1][|root|] == '/';
      assert forall k :: 1 <= k < |f.Path()| ==> f.Path()[k] == f.Path()[1..][k - 1];
      comp := Relative(f.coll.parent, f.coll.name);
    }
    BelowSplits(ParentPath(f), comp, root);
  }

  /** In names relative to the root: no "/" when the parent is the root, otherwise the parent's name before the last. */
  ghost predicate NamedBelow(root: string, f: Found) {
    var name := Relative(root, f.Path());
    if LastSlash(name) < 0 then ParentPath(f) == root
    else IsBelow(ParentPath(f), root) && name[..LastSlash(name)] == Relative(root, ParentPath(f))
  }

  lemma {:induction false} NameAfterParent(cat: Catalogue, root: string, f: Found)
    requires WellFormed(cat) && InCatalogue(cat, f) && root != "" && IsBelow(f.Path(), root)
    ensures NamedBelow(root, f)
  {
    var comp := RelativeToParent(cat, root, f);
    var name, up := Relative(root, f.Path()), ParentPath(f);
    if up == root {
      JoinIsBelow(root, comp);
      ComponentHasNoSlash(comp);
    } else {
      RelativeOfJoin(root, up, comp);
    }
  }

  lemma {:induction false} ItemsSnocNames(cat: Catalogue, root: string, archive: string, fs: seq<Found>)
    requires fs != []
    ensures CollNames(Items(cat, root, archive, fs)) ==
            CollNames(Items(cat, root, archive, fs[..|fs| - 1])) +
            if fs[|fs| - 1].FoundColl? then {Relative(root, fs[|fs| - 1].coll.name)} else {}
  {
    var pre, last := Items(cat, root, archive, fs[..|fs| - 1]), fs[|fs| - 1];
    if Dropped(archive, last) {
      assert pre + [] == pre;
    } else {
      CollNamesSnoc(pre, ItemOf(cat, root, last));
    }
  }

  lemma {:induction false} CollFoundListed(cat: Catalogue, root: string, archive: string, fs: seq<Found>, j: nat)
    requires j < |fs| && fs[j].FoundColl?
    ensures Relative(root, fs[j].coll.name) in CollNames(Items(cat, root, archive, fs))
  {
    hide Items, CollNames;
    var n := |fs| - 1;
    ItemsSnocNames(cat, root, archive, fs);
    if j < n {
      CollFoundListed(cat, root, archive, fs[..n], j);
    }
  }

  lemma {:induction false} ParentListed(cat: Catalogue, root: string, archive: string, pre: seq<Found>, f: Found)
    requires NamedBelow(root, f) && Reached(root, pre, ParentPath(f))
    ensures HasParent(CollNames(Items(cat, root, archive, pre)), Relative(root, f.Path()))
  {
    if LastSlash(Relative(root, f.Path())) >= 0 {
      var j :| 0 <= j < |pre| && pre[j].FoundColl? && pre[j].coll.name == ParentPath(f);
      CollFoundListed(cat, root, archive, pre, j);
    }
  }

  lemma {:induction false} ParentsReachedSplit(root: string, fs: seq<Found>)
    requires fs != [] && ParentsReached(root, fs)
    ensures ParentsReached(root, fs[..|fs| - 1])
    ensures Reached(root, fs[..|fs| - 1], ParentPath(fs[|fs| - 1]))
  {
    var n := |fs| - 1;
    assert forall k :: 0 <= k < n ==> fs[..n][k] == fs[k] && fs[..n][..k] == fs[..k];
  }

  lemma {:induction false} ListedParentFirst(cat: Catalogue, root: string, archive: string, fs: seq<Found>)
    requires ParentsReached(root, fs)
    requires forall f :: f in fs ==> NamedBelow(root, f)
    ensures ParentFirst(Items(cat, root, archive, fs))
  {
    if fs != [] {
      var n := |fs| - 1;
      var pre, last := fs[..n], fs[n];
      ParentsReachedSplit(root, fs);
      ListedParentFirst(cat, root, archive, pre);
      if !Dropped(archive, last) {
        ParentListed(cat, root, archive, pre, last);
        ParentFirstSnoc(Items(cat, root, archive, pre), ItemOf(cat, root, last));
      } else {
        assert Items(cat, root, archive, fs) == Items(cat, root, archive, pre);
      }
    }
  }

  /** `f` is a row the index has to list. */
  ghost predicate ToList(cat: Catalogue, root: string, archive: string, f: Found) {
    InCatalogue(cat, f) && IsBelow(f.Path(), root) && !Dropped(archive, f)
  }

  /** The index of a collection lists parents before children and no name twice. */
  lemma {:induction false} FullListingOrder(cat: Catalogue, root: CollRow, archive: string)
    requires WellFormed(cat) && root in cat.colls && root.name != "/"
    ensures ParentFirst(FullListing(cat, root, archive))
    ensures DistinctNames(FullListing(cat, root, archive))
  {
    var fs := Inside(cat, root);
    WalkComplete(cat, root);
    RootNamed(cat, root);
    ItemsDistinct(cat, root.name, archive, fs);
    InsideReached(cat, root.name, root, []);
    assert [] + fs == fs;
    forall f | f in fs
      ensures NamedBelow(root.name, f)
    {
      NameAfterParent(cat, root.name, f);
    }
    ListedParentFirst(cat, root.name, archive, fs);
  }

  lemma {:induction false} RootNamed(cat: Catalogue, root: CollRow)
    requires WellFormed(cat) && root in cat.colls
    ensures root.name != ""
  {
    assert NamedAfterParent(cat.colls, root);
  }

  /** Every row strictly below the collection is listed, except the archive itself. */
  lemma {:induction false} FullListingHas(cat: Catalogue, root: CollRow, archive: string, f: Found) returns (k: nat)
    requires WellFormed(cat) && root in cat.colls && root.name != "/"
    requires ToList(cat, root.name, archive, f)
    ensures k < |FullListing(cat, root, archive)|
    ensures FullListing(cat, root, archive)[k] == ItemOf(cat, root.name, f)
    ensures Join(root.name, FullListing(cat, root, archive)[k].name) == f.Path()
    ensures Records(cat, f, FullListing(cat, root, archive)[k], true)
  {
    hide Records;
    WalkComplete(cat, root);
    k := ItemListed(cat, root.name, archive, Inside(cat, root), f);
    ItemRecords(cat, root.name, f, FullListing(cat, root, archive)[k], true);
  }

  /** Every item is such a row, and the collection, "/" and the item's name spell the row's path. */
  lemma {:induction false} FullListingOnly(cat: Catalogue, root: CollRow, archive: string, k: nat) returns (f: Found)
    requires WellFormed(cat) && root in cat.colls && root.name != "/"
    requires k < |FullListing(cat, root, archive)|
    ensures ToList(cat, root.name, archive, f)
    ensures FullListing(cat, root, archive)[k] == ItemOf(cat, root.name, f)
    ensures Join(root.name, FullListing(cat, root, archive)[k].name) == f.Path()
    ensures Records(cat, f, FullListing(cat, root, archive)[k], true)
  {
    hide Records;
    WalkComplete(cat, root);
    f := ItemFound(cat, root.name, archive, Inside(cat, root), k);
    ItemRecords(cat, root.name, f, FullListing(cat, root, archive)[k], true);
  }

  // ---- listings that queries cut short ----

  /** What is left of a list whose query stopped early: all or its first entries, NULL for none. */
  predicate TrimmedList<T(==)>(full: Option<seq<T>>, part: Option<seq<T>>) {
    part == full || part == None || (full.Some? && part.Some? && part.value != [] && part.value <= full.value)
  }

  /** The item but for trimmed attribute and ACL lists; with `all` neither is. */
  predicate Trims(full: Item, item: Item, all: bool) {
    && item == full.(attributes := item.attributes, acl := item.acl)
    && TrimmedList(full.attributes, item.attributes) && TrimmedList(full.acl, item.acl)
    && (all ==> item == full)
  }

  /** Whether attributes are missing. */
  function Cost(full: Item, item: Item): nat {
    if item.attributes == full.attributes then 0 else 1
  }

  /** `items` are some of `full`, in order, each perhaps trimmed; `trimmed` of them lack attributes. */
  ghost predicate Shortened(full: seq<Item>, items: seq<Item>, trimmed: nat, all: bool) {
    if full == [] then items == [] && trimmed == 0
    else
      var n, m := |full| - 1, |items| - 1;
      Shortened(full[..n], items, trimmed, all) ||
      (items != [] && Trims(full[n], items[m], all) && Cost(full[n], items[m]) <= trimmed &&
       Shortened(full[..n], items[..m], trimmed - Cost(full[n], items[m]), all))
  }

  /** A list grew from `before` to `now` by some of `full`, by `whole` of it if and only if nothing was left out. */
  ghost predicate Grows(before: seq<Item>, now: seq<Item>, full: seq<Item>, trimmed: int, all: bool, whole: bool) {
    && |before| <= |now| && now[..|before|] == before
    && trimmed >= 0 && Shortened(full, now[|before|..], trimmed, all)
    && (whole <==> |now| == |before| + |full|)
  }

  lemma {:induction false} ShortenedNone(full: seq<Item>, all: bool)
    ensures Shortened(full, [], 0, all)
  {
    if full != [] {
      ShortenedNone(full[..|full| - 1], all);
    }
  }

  lemma {:induction false} ShortenedLength(full: seq<Item>, items: seq<Item>, trimmed: nat, all: bool)
    requires Shortened(full, items, trimmed, all)
    ensures |items| <= |full|
  {
    if full != [] {
      var n, m := |full| - 1, |items| - 1;
      if Shortened(full[..n], items, trimmed, all) {
        ShortenedLength(full[..n], items, trimmed, all);
      } else {
        ShortenedLength(full[..n], items[..m], trimmed - Cost(full[n], items[m]), all);
      }
    }
  }

  lemma {:induction false} ShortenedWeaker(full: seq<Item>, items: seq<Item>, trimmed: nat, all: bool, all': bool)
    requires Shortened(full, items, trimmed, all) && (all' ==> all)
    ensures Shortened(full, items, trimmed, all')
  {
    if full != [] {
      var n, m := |full| - 1, |items| - 1;
      if Shortened(full[..n], items, trimmed, all) {
        ShortenedWeaker(full[..n], items, trimmed, all, all');
      } else {
        ShortenedWeaker(full[..n], items[..m], trimmed - Cost(full[n], items[m]), all, all');
      }
    }
  }

  lemma {:induction false} ShortenedConcat(x: seq<Item>, a: seq<Item>, s: nat, y: seq<Item>, b: seq<Item>, t: nat,
                                           all: bool)
    requires Shortened(x, a, s, all) && Shortened(y, b, t, all)
    ensures Shortened(x + y, a + b, s + t, all)
    decreases |y|
  {
    hide Trims, Cost;
    if y == [] {
      assert x + y == x && a + b == a;
    } else {
      var n, m := |y| - 1, |b| - 1;
      assert (x + y)[..|x + y| - 1] == x + y[..n];
      if Shortened(y[..n], b, t, all) {
        ShortenedConcat(x, a, s, y[..n], b, t, all);
      } else {
        assert (a + b)[..|a + b| - 1] == a + b[..m];
        ShortenedConcat(x, a, s, y[..n], b[..m], t - Cost(y[n], b[m]), all);
      }
    }
  }

  lemma {:induction false} ShortenedTake(full: seq<Item>, items: seq<Item>, k: nat, trimmed: nat, all: bool)
      returns (t: nat)
    requires Shortened(full, items, trimmed, all) && k <= |items|
    ensures t <= trimmed && Shortened(full, items[..k], t, all)
  {
    t := trimmed;
    if full != [] {
      var n, m := |full| - 1, |items| - 1;
      if Shortened(full[..n], items, trimmed, all) {
        t := ShortenedTake(full[..n], items, k, trimmed, all);
      } else if k == |items| {
        assert items[..k] == items;
      } else {
        t := ShortenedTake(full[..n], items[..m], k, trimmed - Cost(full[n], items[m]), all);
        assert items[..m][..k] == items[..k];
      }
    }
  }

  /** Where an item comes from. */
  lemma {:induction false} ShortenedAt(full: seq<Item>, items: seq<Item>, k: nat, trimmed: nat, all: bool)
      returns (i: nat)
    requires Shortened(full, items, trimmed, all) && k < |items|
    ensures i < |full| && Trims(full[i], items[k], all) && Cost(full[i], items[k]) <= trimmed
  {
    var n, m := |full| - 1, |items| - 1;
    if Shortened(full[..n], items, trimmed, all) {
      i := ShortenedAt(full[..n], items, k, trimmed, all);
    } else if k == m {
      i := n;
    } else {
      i := ShortenedAt(full[..n], items[..m], k, trimmed - Cost(full[n], items[m]), all);
    }
  }

  /** An item that lacks attributes, when some do. */
  lemma {:induction false} ShortenedTrimmed(full: seq<Item>, items: seq<Item>, trimmed: nat, all: bool)
      returns (i: nat, k: nat)
    requires Shortened(full, items, trimmed, all) && trimmed > 0
    ensures i < |full| && k < |items| && Trims(full[i], items[k], all) && Cost(full[i], items[k]) == 1
    ensures |items| == |full| ==> i == k
  {
    var n, m := |full| - 1, |items| - 1;
    if Shortened(full[..n], items, trimmed, all) {
      ShortenedLength(full[..n], items, trimmed, all);
      i, k := ShortenedTrimmed(full[..n], items, trimmed, all);
    } else if Cost(full[n], items[m]) == 1 {
      i, k := n, m;
    } else {
      i, k := ShortenedTrimmed(full[..n], items[..m], trimmed, all);
    }
  }

  /** Nothing is left out if and only if the lengths agree: then the items correspond one to one. */
  lemma {:induction false} ShortenedWhole(full: seq<Item>, items: seq<Item>, trimmed: nat, all: bool, k: nat)
    requires Shortened(full, items, trimmed, all) && |items| == |full| && k < |full|
    ensures Trims(full[k], items[k], all) && Cost(full[k], items[k]) <= trimmed
  {
    var n := |full| - 1;
    if Shortened(full[..n], items, trimmed, all) {
      ShortenedLength(full[..n], items, trimmed, all);
    } else if k < n {
      ShortenedWhole(full[..n], items[..n], trimmed - Cost(full[n], items[n]), all, k);
    }
  }

  lemma {:induction false} ShortenedDistinct(full: seq<Item>, items: seq<Item>, trimmed: nat, all: bool)
    requires Shortened(full, items, trimmed, all) && DistinctNames(full)
    ensures DistinctNames(items)
  {
    if full != [] {
      var n, m := |full| - 1, |items| - 1;
      if Shortened(full[..n], items, trimmed, all) {
        ShortenedDistinct(full[..n], items, trimmed, all);
      } else {
        var t := trimmed - Cost(full[n], items[m]);
        ShortenedDistinct(full[..n], items[..m], t, all);
        forall k | 0 <= k < m
          ensures items[k].name != items[m].name
        {
          var i := ShortenedAt(full[..n], items[..m], k, t, all);
          assert full[i].name != full[n].name;
        }
      }
    }
  }

  /** What is left out has a name that no item has. */
  lemma {:induction false} ShortenedMisses(full: seq<Item>, items: seq<Item>, trimmed: nat, all: bool) returns (i: nat)
    requires Shortened(full, items, trimmed, all) && DistinctNames(full) && |items| < |full|
    ensures i < |full| && forall k :: 0 <= k < |items| ==> items[k].name != full[i].name
  {
    var n, m := |full| - 1, |items| - 1;
    if Shortened(full[..n], items, trimmed, all) {
      i := n;
      forall k | 0 <= k < |items|
        ensures items[k].name != full[n].name
      {
        var j := ShortenedAt(full[..n], items, k, trimmed, all);
        assert full[j].name != full[n].name;
      }
    } else {
      i := ShortenedMisses(full[..n], items[..m], trimmed - Cost(full[n], items[m]), all);
      assert full[i].name != full[n].name;
    }
  }

  lemma {:induction false} GrowsNot(list: seq<Item>)
    ensures Grows(list, list, [], 0, true, true)
  {
  }

  lemma {:induction false} GrowsWeaker(a: seq<Item>, b: seq<Item>, x: seq<Item>, t: int, l: bool, w: bool, l': bool)
    requires Grows(a, b, x, t, l, w) && (l' ==> l)
    ensures Grows(a, b, x, t, l', w)
  {
    ShortenedWeaker(x, b[|a|..], t, l, l');
  }

  lemma {:induction false} GrowsOne(list: seq<Item>, now: seq<Item>, step: seq<Item>, got: seq<Item>, t: int, all: bool)
    requires now == list + got && |got| == |step| <= 1
    requires step != [] ==> Trims(step[0], got[0], all)
    requires t == if step == [] then 0 else Cost(step[0], got[0])
    ensures Grows(list, now, step, t, all, true)
  {
    assert now[|list|..] == got;
    if step != [] {
      assert step[..0] == [] && got[..0] == [];
      ShortenedNone(step[..0], all);
    }
  }

  /** Growing twice. */
  lemma {:induction false} GrowsThen(a: seq<Item>, b: seq<Item>, c: seq<Item>, x: seq<Item>, y: seq<Item>,
                                     s: int, l: bool, w: bool, t: int, l': bool, w': bool)
    requires Grows(a, b, x, s, l, w) && Grows(b, c, y, t, l', w')
    ensures Grows(a, c, x + y, s + t, l && l', w && w')
  {
    var p, q := b[|a|..], c[|b|..];
    ShortenedWeaker(x, p, s, l, l && l');
    ShortenedWeaker(y, q, t, l', l && l');
    ShortenedConcat(x, p, s, y, q, t, l && l');
    ShortenedLength(x, p, s, l);
    ShortenedLength(y, q, t, l');
    assert c[|a|..] == p + q;
    assert c[..|a|] == c[..|b|][..|a|];
  }

  /** Growing, with more that was never reached. */
  lemma {:induction false} GrowsShort(a: seq<Item>, b: seq<Item>, x: seq<Item>, y: seq<Item>, t: int, l: bool, w: bool)
    requires Grows(a, b, x, t, l, w)
    ensures Grows(a, b, x + y, t, l, w && y == [])
  {
    ShortenedNone(y, l);
    ShortenedConcat(x, b[|a|..], t, y, [], 0, l);
    ShortenedLength(x, b[|a|..], t, l);
    assert b[|a|..] + [] == b[|a|..];
  }

  /** The row after which the objects of a collection yield no more items: all rows, but for the archive at the end. */
  function Needed(archive: string, home: CollRow, rows: seq<DataRow>): nat {
    if rows == [] then 0
    else if Dropped(archive, FoundObj(home, rows[|rows| - 1])) then Needed(archive, home, rows[..|rows| - 1])
    else |rows|
  }

  lemma {:induction false} NeededRows(cat: Catalogue, root: string, archive: string, home: CollRow,
                                      rows: seq<DataRow>, n: nat)
    requires n <= |rows|
    ensures |Items(cat, root, archive, ObjsFound(home, rows[n..]))| == 0 <==> n >= Needed(archive, home, rows)
  {
    hide Items, ObjsFound, Dropped;
    NeededAtMost(archive, home, rows);
    if n < |rows| {
      var m := |rows| - 1;
      NeededRows(cat, root, archive, home, rows[..m], n);
      NeededAtMost(archive, home, rows[..m]);
      ObjsLast(cat, root, archive, home, rows, n);
    } else {
      ObjsNone(cat, root, archive, home, rows);
    }
  }

  lemma {:induction false} ObjsNone(cat: Catalogue, root: string, archive: string, home: CollRow, rows: seq<DataRow>)
    ensures |Items(cat, root, archive, ObjsFound(home, rows[|rows|..]))| == 0
  {
  }

  lemma {:induction false} ObjsLast(cat: Catalogue, root: string, archive: string, home: CollRow,
                                    rows: seq<DataRow>, n: nat)
    requires n < |rows|
    ensures var m := |rows| - 1;
            |Items(cat, root, archive, ObjsFound(home, rows[n..]))| ==
            |Items(cat, root, archive, ObjsFound(home, rows[..m][n..]))| +
            if Dropped(archive, FoundObj(home, rows[m])) then 0 else 1
  {
    hide Dropped, ItemOf;
    var m := |rows| - 1;
    var found := ObjsFound(home, rows[n..]);
    assert found[..m - n] == ObjsFound(home, rows[..m][n..]);
    assert found[m - n] == FoundObj(home, rows[m]);
  }

  lemma {:induction false} NeededAtMost(archive: string, home: CollRow, rows: seq<DataRow>)
    ensures Needed(archive, home, rows) <= |rows|
  {
    if rows != [] {
      NeededAtMost(archive, home, rows[..|rows| - 1]);
    }
  }

  /** Collections are never dropped. */
  lemma {:induction false} CollItems(cat: Catalogue, root: string, archive: string, rows: seq<CollRow>)
    ensures |Items(cat, root, archive, CollsFound(rows))| == |rows|
  {
    if rows != [] {
      var n := |rows| - 1;
      CollItems(cat, root, archive, rows[..n]);
      assert CollsFound(rows)[..n] == CollsFound(rows[..n]);
    }
  }

  /**
   * A listing that was cut anywhere still has only rows strictly below the collection, each under its own path
   * and no name twice; it has all of them if and only if no item is missing, and all their attributes if and only if
   * none is trimmed.
   */
  lemma {:induction false} ShortenedListing(cat: Catalogue, root: CollRow, archive: string, items: seq<Item>,
                                            trimmed: nat, all: bool)
    requires WellFormed(cat) && root in cat.colls && root.name != "/"
    requires Shortened(FullListing(cat, root, archive), items, trimmed, all)
    ensures DistinctNames(items)
    ensures forall k :: 0 <= k < |items| ==> ListedRow(cat, root.name, archive, items[k], all)
    ensures (forall f :: ToList(cat, root.name, archive, f) ==> InItems(cat, root.name, items, f)) <==>
            |items| == |FullListing(cat, root, archive)|
    ensures trimmed == 0 <==> forall k :: 0 <= k < |items| ==> AvusListed(cat, root.name, archive, items[k])
  {
    hide FullListing, WellFormed, Shortened, Trims, AvusListed;
    var full := FullListing(cat, root, archive);
    FullListingOrder(cat, root, archive);
    ShortenedDistinct(full, items, trimmed, all);
    ShortenedLength(full, items, trimmed, all);
    forall k | 0 <= k < |items|
      ensures ListedRow(cat, root.name, archive, items[k], all)
      ensures trimmed == 0 ==> AvusListed(cat, root.name, archive, items[k])
    {
      var i := ShortenedAt(full, items, k, trimmed, all);
      var f := FullListingOnly(cat, root, archive, i);
      RowListed(cat, root.name, archive, f, full[i], items[k], all);
    }
    if trimmed > 0 {
      var i, k := ShortenedTrimmed(full, items, trimmed, all);
      var f := FullListingOnly(cat, root, archive, i);
      RowListed(cat, root.name, archive, f, full[i], items[k], all);
    }
    if |items| == |full| {
      forall f | ToList(cat, root.name, archive, f)
        ensures InItems(cat, root.name, items, f)
      {
        var k := FullListingHas(cat, root, archive, f);
        ShortenedWhole(full, items, trimmed, all, k);
        TrimsName(full[k], items[k], all);
      }
    } else {
      var i := ShortenedMisses(full, items, trimmed, all);
      var f := FullListingOnly(cat, root, archive, i);
      ItemName(cat, root.name, f);
      assert !InItems(cat, root.name, items, f);
    }
  }

  /** The index lists rows below the collection, parents first, and the `whole` of them or not. */
  ghost predicate Lists(cat: Catalogue, root: CollRow, archive: string, items: seq<Item>,
                        trimmed: int, all: bool, whole: bool) {
    && WellFormed(cat) && root in cat.colls && root.name != "/" && ParentFirst(items)
    && trimmed >= 0 && Shortened(FullListing(cat, root, archive), items, trimmed, all)
    && (whole <==> |items| == |FullListing(cat, root, archive)|)
  }

  /** The item is that of a row to list, perhaps trimmed. */
  ghost predicate ListedRow(cat: Catalogue, root: string, archive: string, item: Item, all: bool) {
    exists f :: ToList(cat, root, archive, f) && Join(root, item.name) == f.Path() &&
                Trims(ItemOf(cat, root, f), item, all)
  }

  /** The item has the name of a row to list below `root`, and records that row. */
  ghost predicate RecordsSomeRow(cat: Catalogue, root: string, archive: string, item: Item, all: bool) {
    exists f :: ToList(cat, root, archive, f) && root + "/" + item.name == f.Path() && Records(cat, f, item, all)
  }

  /** Every item of a listing that was cut anywhere records its row, under the row's own path. */
  lemma {:induction false} ListsRecords(cat: Catalogue, root: CollRow, archive: string, items: seq<Item>,
                                        trimmed: int, all: bool, whole: bool)
    requires Lists(cat, root, archive, items, trimmed, all, whole)
    ensures forall k :: 0 <= k < |items| ==> RecordsSomeRow(cat, root.name, archive, items[k], all)
  {
    hide WellFormed, FullListing, Shortened, ParentFirst, Records, ToList, Trims, ItemOf;
    ShortenedListing(cat, root, archive, items, trimmed, all);
    forall k | 0 <= k < |items|
      ensures RecordsSomeRow(cat, root.name, archive, items[k], all)
    {
      assert ListedRow(cat, root.name, archive, items[k], all);
      var f :| ToList(cat, root.name, archive, f) && Join(root.name, items[k].name) == f.Path() &&
               Trims(ItemOf(cat, root.name, f), items[k], all);
      ItemRecords(cat, root.name, f, items[k], all);
    }
  }

  /** The item has all the attributes of its row. */
  ghost predicate AvusListed(cat: Catalogue, root: string, archive: string, item: Item) {
    forall f :: ToList(cat, root, archive, f) && Join(root, item.name) == f.Path() ==>
                item.attributes == ItemOf(cat, root, f).attributes
  }

  /** Some item has the name of this row. */
  ghost predicate InItems(cat: Catalogue, root: string, items: seq<Item>, f: Found) {
    exists k :: 0 <= k < |items| && items[k].name == ItemOf(cat, root, f).name
  }

  lemma {:induction false} RowListed(cat: Catalogue, root: string, archive: string, f: Found, full: Item, item: Item,
                                     all: bool)
    requires WellFormed(cat) && ToList(cat, root, archive, f)
    requires Join(root, full.name) == f.Path() && full == ItemOf(cat, root, f) && Trims(full, item, all)
    ensures ListedRow(cat, root, archive, item, all)
    ensures AvusListed(cat, root, archive, item) <==> Cost(full, item) == 0
  {
    hide WellFormed, ItemOf;
    forall g | ToList(cat, root, archive, g) && Join(root, item.name) == g.Path()
      ensures g == f
    {
      PathsDiffer(cat, f, g);
    }
  }

  lemma {:induction false} TrimsName(full: Item, item: Item, all: bool)
    requires Trims(full, item, all)
    ensures item.name == full.name && item.Coll? == full.Coll?
  {
  }

  lemma {:induction false} ItemName(cat: Catalogue, root: string, f: Found)
    ensures ItemOf(cat, root, f).name == Relative(root, f.Path())
  {
  }
}
