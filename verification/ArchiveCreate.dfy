/** `msiArchiveCreate`: the paged, recursive walk that fills an archive, and the writing of its container. */
module ArchiveCreate {
  import opened Wrappers
  import opened Attributes
  import opened Blocks
  import opened Paths
  import opened Index
  import opened Namespace
  import opened Catalogue
  import opened Listing
  import opened Server
  import opened Archive

  /** The entries for query rows. */
  function Mapped<R, E>(rows: seq<R>, format: R -> E): (r: seq<E>)
    ensures |r| == |rows| && forall k :: 0 <= k < |rows| ==> r[k] == format(rows[k])
  {
    seq(|rows|, k requires 0 <= k < |rows| => format(rows[k]))
  }

  /**
   * The loop of `attrDataObj`, `attrColl`, `aclDataObj` and `aclColl`: pages of any size give the
   * entries of all rows in order, and NULL exactly when there are none. A query that fails part way
   * leaves the entries of the rows before.
   */
  method Collect<R, E>(server: Server, rows: seq<R>, format: R -> E, ghost stake: Stake)
      returns (list: Option<seq<E>>, ghost n: nat)
    requires stake == OfAttributes(|rows|) || stake.needed == 0
    modifies server`refused, server`codes, server`cut, server`unlisted
    ensures server.Onward() && server.cut == old(server.cut)
    ensures n <= |rows| && list == NullIfEmpty(Mapped(rows[..n], format))
    ensures server.refused == old(server.refused) ==> n == |rows|
    ensures server.unlisted == old(server.unlisted) + if stake.needed > 0 && n < |rows| then 1 else 0
  {
    var continueInx := 0;
    list, n := None, 0;
    while true
      invariant server.Onward() && server.refused == old(server.refused) && server.cut == old(server.cut)
      invariant server.unlisted == old(server.unlisted) && continueInx == n <= |rows|
      invariant list == NullIfEmpty(Mapped(rows[..n], format))
      decreases |rows| - n
    {
      var status, page, next := server.GenQuery(rows, continueInx, stake);
      if status != 0 || |page| == 0 {
        break;
      }
      for i := 0 to |page|
        invariant list == NullIfEmpty(Mapped(rows[..n + i], format))
      {
        if list == None {
          list := Some([]);
        }
        list := Some(list.value + [format(page[i])]);
        assert Mapped(rows[..n + i + 1], format) == Mapped(rows[..n + i], format) + [format(page[i])];
      }
      n := n + |page|;
      continueInx := next;
      if continueInx == 0 {
        break;
      }
    }
  }

  /** `attrDataObj` and `attrColl`, for a row that is `listed` or that will be dropped. */
  method AttributeList(server: Server, cat: Catalogue, id: int, ghost listed: bool) returns (list: Option<seq<Avu>>)
    modifies server`refused, server`codes, server`cut, server`unlisted
    ensures server.Onward() && server.cut == old(server.cut)
    ensures TrimmedList(NullIfEmpty(cat.AvuRows(id)), list)
    ensures server.refused == old(server.refused) ==> list == NullIfEmpty(cat.AvuRows(id))
    ensures server.unlisted ==
            old(server.unlisted) + if listed && list != NullIfEmpty(cat.AvuRows(id)) then 1 else 0
  {
    var rows := cat.AvuRows(id);
    ghost var n;
    list, n := Collect(server, rows, (a: Avu) => a, OfAttributes(if listed then |rows| else 0));
    assert Mapped(rows[..n], (a: Avu) => a) == rows[..n];
    TakeAll(rows, n);
  }

  /** `aclDataObj` and `aclColl`. */
  method AclList(server: Server, cat: Catalogue, id: int) returns (list: Option<seq<string>>)
    modifies server`refused, server`codes, server`cut, server`unlisted
    ensures server.Onward() && server.cut == old(server.cut) && server.unlisted == old(server.unlisted)
    ensures TrimmedList(NullIfEmpty(AclTexts(cat.AclRows(id))), list)
    ensures server.refused == old(server.refused) ==> list == NullIfEmpty(AclTexts(cat.AclRows(id)))
  {
    var rows := cat.AclRows(id);
    ghost var n;
    list, n := Collect(server, rows, AclText, OfItems(0));
    assert Mapped(rows[..n], AclText) == AclTexts(rows)[..n];
    TakeAll(AclTexts(rows), n);
  }

  lemma {:induction false} TakeAll<T>(rows: seq<T>, n: nat)
    ensures n == |rows| ==> rows[..n] == rows
  {
  }

  /** The collection `path` is the archive's own, or among those listed already. */
  ghost predicate Entered(listed: set<string>, root: string, path: string) {
    path == root || (IsBelow(path, root) && Relative(root, path) in listed)
  }

  /** What is in a collection already entered can be listed next. */
  lemma {:induction false} MemberHasParent(listed: set<string>, root: string, path: string, comp: string)
    requires Entered(listed, root, path) && IsComponent(comp)
    ensures IsBelow(Join(path, comp), root)
    ensures HasParent(listed, Relative(root, Join(path, comp)))
  {
    JoinIsBelow(path, comp);
    if path == root {
      ComponentHasNoSlash(comp);
    } else {
      BelowTransitive(Join(path, comp), path, root);
      RelativeOfJoin(root, path, comp);
    }
  }

  /** What the names of the data objects in `path` are prefixed with. */
  function Prefix(root: string, path: string): string {
    if path == root then "" else Relative(root, path) + "/"
  }

  lemma {:induction false} PrefixJoin(root: string, path: string, name: string)
    requires path == root || IsBelow(path, root)
    ensures Join(root, Prefix(root, path) + name) == Join(path, name)
    ensures Relative(root, Join(path, name)) == Prefix(root, path) + name
  {
    if path != root {
      assert Join(root, Prefix(root, path) + name) == Join(root, Relative(root, path)) + "/" + name;
    }
    JoinIsBelow(root, Prefix(root, path) + name);
  }

  function ObjItem(name: string, o: DataRow, attributes: Option<seq<Avu>>, acl: Option<seq<string>>): Item {
    DataObj(name, o.size, o.created, o.modified, o.owner + "#" + o.zone,
            if o.checksum == "" then None else Some(o.checksum), attributes, acl)
  }

  /** Adding an item whose parent is there, or dropping it, keeps parents before children. */
  lemma {:induction false} Snoc(t: Tree, root: string, list: seq<Item>, item: Item, dropped: bool, now: seq<Item>)
    requires ParentFirst(list) && HasParent(CollNames(list), item.name) && SizesRecorded(t, root, list)
    requires item.DataObj? && IsObj(t, Join(root, item.name)) ==> |t[Join(root, item.name)].bytes| == item.size
    requires now == list + if dropped then [] else [item]
    ensures ParentFirst(now) && CollNames(list) <= CollNames(now) && SizesRecorded(t, root, now)
    ensures !dropped && item.Coll? ==> item.name in CollNames(now)
  {
    if dropped {
      assert now == list;
    } else {
      ParentFirstSnoc(list, item);
      CollNamesSnoc(list, item);
    }
  }

  /** What the listing of one data object amounts to. */
  lemma {:induction false} ObjRowListed(t: Tree, cat: Catalogue, root: string, archive: string, coll: string,
                                        o: DataRow, home: CollRow, attributes: Option<seq<Avu>>,
                                        acl: Option<seq<string>>, list: seq<Item>, now: seq<Item>,
                                        trimmed: int, all: bool)
    requires IsComponent(o.name) && coll == Prefix(root, home.name)
    requires ParentFirst(list) && Entered(CollNames(list), root, home.name)
    requires SizesRecorded(t, root, list) && RowSized(t, home, o)
    requires TrimmedLists(cat, o.id, attributes, acl, archive != Join(root, coll + o.name), trimmed, all)
    requires now == list +
               if archive == Join(root, coll + o.name) then [] else [ObjItem(coll + o.name, o, attributes, acl)]
    ensures ParentFirst(now) && CollNames(list) <= CollNames(now) && SizesRecorded(t, root, now)
    ensures Grows(list, now, ItemStep(cat, root, archive, FoundObj(home, o)), trimmed, all, true)
  {
    hide HasParent, SizesRecorded, Grows;
    var got := if archive == Join(root, coll + o.name) then [] else [ObjItem(coll + o.name, o, attributes, acl)];
    PrefixJoin(root, home.name, o.name);
    MemberHasParent(CollNames(list), root, home.name, o.name);
    Snoc(t, root, list, ObjItem(coll + o.name, o, attributes, acl), archive == Join(root, coll + o.name), now);
    GrowsOne(list, now, ItemStep(cat, root, archive, FoundObj(home, o)), got, trimmed, all);
  }

  /** The attribute and ACL lists of a row, as far as their queries got. */
  ghost predicate TrimmedLists(cat: Catalogue, id: int, attributes: Option<seq<Avu>>, acl: Option<seq<string>>,
                               listed: bool, trimmed: int, all: bool) {
    && TrimmedList(NullIfEmpty(cat.AvuRows(id)), attributes)
    && TrimmedList(NullIfEmpty(AclTexts(cat.AclRows(id))), acl)
    && trimmed == (if listed && attributes != NullIfEmpty(cat.AvuRows(id)) then 1 else 0)
    && (all ==> attributes == NullIfEmpty(cat.AvuRows(id)))
    && (all ==> acl == NullIfEmpty(AclTexts(cat.AclRows(id))))
  }

  /** Both lists of a row are looked up. */
  method RowLists(server: Server, cat: Catalogue, id: int, ghost listed: bool)
      returns (attributes: Option<seq<Avu>>, acl: Option<seq<string>>)
    modifies server`refused, server`codes, server`cut, server`unlisted
    ensures server.Onward() && server.cut == old(server.cut)
    ensures TrimmedLists(cat, id, attributes, acl, listed, server.unlisted - old(server.unlisted),
                         server.refused == old(server.refused))
  {
    attributes := AttributeList(server, cat, id, listed);
    acl := AclList(server, cat, id);
  }

  /** The archive is being filled, parents before children. */
  ghost predicate Filling(a: Archive, t: Tree)
    reads a, a.archive
  {
    a.Valid() && a.creating && ParentFirst(a.list) && SizesRecorded(t, a.origin, a.list)
  }

  /** The row's size is that of the data object it describes. */
  ghost predicate RowSized(t: Tree, home: CollRow, o: DataRow) {
    IsObj(t, Join(home.name, o.name)) ==> |t[Join(home.name, o.name)].bytes| == o.size
  }

  ghost predicate RowsSized(cat: Catalogue, t: Tree) {
    forall home, o {:trigger RowSized(t, home, o)} ::
      home in cat.colls && o in cat.objs && o.collId == home.id ==> RowSized(t, home, o)
  }

  /** One row of `dirDataObj`: its attributes and access rights are looked up, and it is listed. */
  method AddObjRow(a: Archive, server: Server, cat: Catalogue, coll: string, o: DataRow, ghost home: CollRow)
    requires Filling(a, server.tree) && WellFormed(cat) && RowsSized(cat, server.tree)
    requires home in cat.colls && o in cat.objs && o.collId == home.id
    requires Entered(CollNames(a.list), a.origin, home.name) && coll == Prefix(a.origin, home.name)
    modifies a`list, a`dataSize, server`refused, server`codes, server`cut, server`unlisted
    ensures Filling(a, server.tree) && server.Onward() && server.cut == old(server.cut)
    ensures old(CollNames(a.list)) <= CollNames(a.list)
    ensures Grows(old(a.list), a.list, ItemStep(cat, a.origin, a.path, FoundObj(home, o)),
                  server.unlisted - old(server.unlisted), server.refused == old(server.refused), true)
  {
    hide Grows, TrimmedLists, CollNames, HasParent, ParentFirst, Prefix, ItemStep, TotalBlocks, Entered, NullIfEmpty;
    var attributes, acl := RowLists(server, cat, o.id, a.path != Join(a.origin, coll + o.name));
    assert Placed(cat.colls, o) && RowSized(server.tree, home, o);
    ghost var list := a.list;
    a.AddDataObj(coll + o.name, o.size, o.created, o.modified, o.owner, o.zone, o.checksum, attributes, acl);
    ObjRowListed(server.tree, cat, a.origin, a.path, coll, o, home, attributes, acl, list, a.list,
                 server.unlisted - old(server.unlisted), server.refused == old(server.refused));
  }

  /** The rows of one page. */
  method AddObjPage(a: Archive, server: Server, cat: Catalogue, coll: string, page: seq<DataRow>, ghost home: CollRow)
    requires Filling(a, server.tree) && WellFormed(cat) && RowsSized(cat, server.tree)
    requires home in cat.colls
    requires forall o :: o in page ==> o in cat.objs && o.collId == home.id
    requires Entered(CollNames(a.list), a.origin, home.name) && coll == Prefix(a.origin, home.name)
    modifies a`list, a`dataSize, server`refused, server`codes, server`cut, server`unlisted
    ensures Filling(a, server.tree) && server.Onward() && server.cut == old(server.cut)
    ensures old(CollNames(a.list)) <= CollNames(a.list)
    ensures Grows(old(a.list), a.list, Items(cat, a.origin, a.path, ObjsFound(home, page)),
                  server.unlisted - old(server.unlisted), server.refused == old(server.refused), true)
  {
    hide Filling, Items, CollNames, HasParent, SizesRecorded, ObjsFound, Grows, ItemStep;
    ghost var base := a.list;
    ObjsStart(cat, a.origin, a.path, home, page);
    GrowsNot(base);
    for i := 0 to |page|
      invariant Filling(a, server.tree) && server.Onward() && server.cut == old(server.cut)
      invariant CollNames(base) <= CollNames(a.list)
      invariant Grows(base, a.list, Items(cat, a.origin, a.path, ObjsFound(home, page[..i])),
                      server.unlisted - old(server.unlisted), server.refused == old(server.refused), true)
    {
      ghost var before, unlisted, refused := a.list, server.unlisted, server.refused;
      AddObjRow(a, server, cat, coll, page[i], home);
      ObjsStep(cat, a.origin, a.path, home, page, i);
      GrowsThen(base, before, a.list, Items(cat, a.origin, a.path, ObjsFound(home, page[..i])),
                ItemStep(cat, a.origin, a.path, FoundObj(home, page[i])),
                unlisted - old(server.unlisted), refused == old(server.refused), true,
                server.unlisted - unlisted, server.refused == refused, true);
    }
    assert page[..|page|] == page;
  }

  /**
   * `dirDataObj`: pages of any size list the data objects of one collection in order; fewer if and only if the
   * query was cut short.
   */
  method DirDataObj(a: Archive, server: Server, cat: Catalogue, coll: string, collId: int, ghost home: CollRow)
    requires Filling(a, server.tree) && WellFormed(cat) && RowsSized(cat, server.tree)
    requires home in cat.colls && home.id == collId
    requires Entered(CollNames(a.list), a.origin, home.name) && coll == Prefix(a.origin, home.name)
    modifies a`list, a`dataSize, server`refused, server`codes, server`cut, server`unlisted
    ensures Filling(a, server.tree) && server.Onward()
    ensures old(CollNames(a.list)) <= CollNames(a.list)
    ensures Grows(old(a.list), a.list, Items(cat, a.origin, a.path, ObjsFound(home, ObjsIn(cat.objs, collId))),
                  server.unlisted - old(server.unlisted), server.refused == old(server.refused),
                  server.cut == old(server.cut))
  {
    hide Filling, Items, CollNames, HasParent, SizesRecorded, ObjsFound, Grows, Needed, WellFormed, RowsSized,
         Prefix;
    var rows := ObjsIn(cat.objs, collId);
    var continueInx := 0;
    ghost var n, base := 0, a.list;
    ObjsStart(cat, a.origin, a.path, home, rows);
    GrowsNot(base);
    while true
      invariant continueInx == n <= |rows|
      invariant Filling(a, server.tree) && server.Onward() && server.cut == old(server.cut)
      invariant CollNames(base) <= CollNames(a.list)
      invariant Grows(base, a.list, Items(cat, a.origin, a.path, ObjsFound(home, rows[..n])),
                      server.unlisted - old(server.unlisted), server.refused == old(server.refused), true)
      decreases |rows| - n
    {
      ghost var before, unlisted, refused := a.list, server.unlisted, server.refused;
      var status, page, next := server.GenQuery(rows, continueInx, OfItems(Needed(a.path, home, rows)));
      if status != 0 || |page| == 0 {
        GrowsWeaker(base, a.list, Items(cat, a.origin, a.path, ObjsFound(home, rows[..n])),
                    unlisted - old(server.unlisted), refused == old(server.refused), true,
                    server.refused == old(server.refused));
        break;
      }
      AddObjPage(a, server, cat, coll, page, home);
      ObjsSplit(cat, a.origin, a.path, home, rows, n, page);
      GrowsThen(base, before, a.list, Items(cat, a.origin, a.path, ObjsFound(home, rows[..n])),
                Items(cat, a.origin, a.path, ObjsFound(home, page)),
                unlisted - old(server.unlisted), refused == old(server.refused), true,
                server.unlisted - unlisted, server.refused == refused, true);
      n := n + |page|;
      continueInx := next;
      if continueInx == 0 {
        break;
      }
    }
    NeededAtMost(a.path, home, rows);
    ObjsEnd(cat, a.origin, a.path, home, rows, n, base, a.list,
            server.unlisted - old(server.unlisted), server.refused == old(server.refused));
  }

  /** The rows that never came would have given no more items if and only if all that were needed came. */
  lemma {:induction false} ObjsEnd(cat: Catalogue, root: string, archive: string, home: CollRow, rows: seq<DataRow>,
                                   n: nat, base: seq<Item>, now: seq<Item>, trimmed: int, all: bool)
    requires n <= |rows|
    requires Grows(base, now, Items(cat, root, archive, ObjsFound(home, rows[..n])), trimmed, all, true)
    ensures Grows(base, now, Items(cat, root, archive, ObjsFound(home, rows)), trimmed, all,
                  n >= Needed(archive, home, rows))
  {
    hide Items, ObjsFound, Grows, Needed;
    NeededRows(cat, root, archive, home, rows, n);
    ObjsSplit(cat, root, archive, home, rows, n, rows[n..]);
    TakeAll(rows, |rows|);
    GrowsShort(base, now, Items(cat, root, archive, ObjsFound(home, rows[..n])),
               Items(cat, root, archive, ObjsFound(home, rows[n..])), trimmed, all, true);
  }

  lemma {:induction false} ObjsStart(cat: Catalogue, root: string, archive: string, home: CollRow, rows: seq<DataRow>)
    ensures Items(cat, root, archive, ObjsFound(home, rows[..0])) == []
  {
  }

  lemma {:induction false} ObjsSplit(cat: Catalogue, root: string, archive: string, home: CollRow, rows: seq<DataRow>,
                                     n: nat, page: seq<DataRow>)
    requires n + |page| <= |rows| && page == rows[n..n + |page|]
    ensures Items(cat, root, archive, ObjsFound(home, rows[..n + |page|])) ==
            Items(cat, root, archive, ObjsFound(home, rows[..n])) + Items(cat, root, archive, ObjsFound(home, page))
  {
    hide Items;
    var x, y := ObjsFound(home, rows[..n]), ObjsFound(home, page);
    assert ObjsFound(home, rows[..n + |page|]) == x + y;
    ItemsConcat(cat, root, archive, x, y);
  }

  lemma {:induction false} ObjsStep(cat: Catalogue, root: string, archive: string, home: CollRow,
                                    rows: seq<DataRow>, k: nat)
    requires k < |rows|
    ensures Items(cat, root, archive, ObjsFound(home, rows[..k + 1])) ==
            Items(cat, root, archive, ObjsFound(home, rows[..k])) +
            ItemStep(cat, root, archive, FoundObj(home, rows[k]))
  {
    assert ObjsFound(home, rows[..k + 1])[..k] == ObjsFound(home, rows[..k]);
  }

  // ---- dirColl ----

  /** One row of `dirColl`: its attributes and access rights are looked up, and it is listed. */
  method AddCollRow(a: Archive, server: Server, cat: Catalogue, coll: string, c: CollRow)
    requires Filling(a, server.tree) && WellFormed(cat) && RowsSized(cat, server.tree)
    requires coll == a.origin
    requires c in cat.colls && c.parent != "/" && Entered(CollNames(a.list), coll, c.parent)
    modifies a`list, server`refused, server`codes, server`cut, server`unlisted
    ensures Filling(a, server.tree) && server.Onward() && server.cut == old(server.cut)
    ensures old(CollNames(a.list)) <= CollNames(a.list)
    ensures Entered(CollNames(a.list), coll, c.name) && IsBelow(c.name, coll)
    ensures Grows(old(a.list), a.list, ItemStep(cat, coll, a.path, FoundColl(c)),
                  server.unlisted - old(server.unlisted), server.refused == old(server.refused), true)
  {
    hide Grows;
    var attributes, acl := RowLists(server, cat, c.id, true);
    assert NamedAfterParent(cat.colls, c);
    MemberHasParent(CollNames(a.list), coll, c.parent, Relative(c.parent, c.name));
    ghost var list := a.list;
    ghost var item := Coll(Relative(coll, c.name), c.created, c.modified, c.owner + "#" + c.zone, attributes, acl);
    a.AddColl(c.name[|coll| + 1..], c.created, c.modified, c.owner, c.zone, attributes, acl);
    Snoc(server.tree, coll, list, item, false, a.list);
    GrowsOne(list, a.list, ItemStep(cat, coll, a.path, FoundColl(c)), [item],
             server.unlisted - old(server.unlisted), server.refused == old(server.refused));
  }

  /** The names and ids to go into later. */
  function Dirs(rows: seq<CollRow>): (dirs: seq<(string, int)>)
    ensures |dirs| == |rows| && forall k :: 0 <= k < |rows| ==> dirs[k] == (rows[k].name, rows[k].id)
  {
    seq(|rows|, k requires 0 <= k < |rows| => (rows[k].name, rows[k].id))
  }

  ghost predicate AllEntered(listed: set<string>, root: string, rows: seq<CollRow>) {
    forall k :: 0 <= k < |rows| ==> Entered(listed, root, rows[k].name)
  }

  lemma {:induction false} DirsStep(dirs: seq<(string, int)>, page: seq<CollRow>, i: nat, before: set<string>,
                                    now: set<string>, root: string)
    requires i < |page| && dirs == Dirs(page[..i]) && AllEntered(before, root, page[..i]) && before <= now
    requires Entered(now, root, page[i].name)
    ensures dirs + [(page[i].name, page[i].id)] == Dirs(page[..i + 1])
    ensures AllEntered(now, root, page[..i + 1])
  {
  }

  /** The rows of one page. */
  method AddCollPage(a: Archive, server: Server, cat: Catalogue, coll: string, path: string, page: seq<CollRow>)
      returns (dirs: seq<(string, int)>)
    requires Filling(a, server.tree) && WellFormed(cat) && RowsSized(cat, server.tree)
    requires coll == a.origin && path != "/" && Entered(CollNames(a.list), coll, path)
    requires forall c :: c in page ==> c in cat.colls && c.parent == path
    modifies a`list, server`refused, server`codes, server`cut, server`unlisted
    ensures Filling(a, server.tree) && server.Onward() && server.cut == old(server.cut)
    ensures old(CollNames(a.list)) <= CollNames(a.list)
    ensures dirs == Dirs(page) && AllEntered(CollNames(a.list), coll, page)
    ensures Grows(old(a.list), a.list, Items(cat, coll, a.path, CollsFound(page)),
                  server.unlisted - old(server.unlisted), server.refused == old(server.refused), true)
  {
    hide Filling, Items, CollNames, HasParent, SizesRecorded, Dirs, CollsFound, Grows, ItemStep;
    ghost var base := a.list;
    dirs := [];
    CollsStart(cat, coll, a.path, page);
    GrowsNot(base);
    for i := 0 to |page|
      invariant Filling(a, server.tree) && server.Onward() && server.cut == old(server.cut)
      invariant CollNames(base) <= CollNames(a.list)
      invariant dirs == Dirs(page[..i]) && AllEntered(CollNames(a.list), coll, page[..i])
      invariant Grows(base, a.list, Items(cat, coll, a.path, CollsFound(page[..i])),
                      server.unlisted - old(server.unlisted), server.refused == old(server.refused), true)
    {
      ghost var before, unlisted, refused := a.list, server.unlisted, server.refused;
      AddCollRow(a, server, cat, coll, page[i]);
      DirsStep(dirs, page, i, CollNames(before), CollNames(a.list), coll);
      dirs := dirs + [(page[i].name, page[i].id)];
      CollsStep(cat, coll, a.path, page, i);
      GrowsThen(base, before, a.list, Items(cat, coll, a.path, CollsFound(page[..i])),
                ItemStep(cat, coll, a.path, FoundColl(page[i])),
                unlisted - old(server.unlisted), refused == old(server.refused), true,
                server.unlisted - unlisted, server.refused == refused, true);
    }
    assert page[..|page|] == page;
  }

  lemma {:induction false} CollsStart(cat: Catalogue, root: string, archive: string, rows: seq<CollRow>)
    ensures Items(cat, root, archive, CollsFound(rows[..0])) == []
  {
  }

  lemma {:induction false} CollsStep(cat: Catalogue, root: string, archive: string, rows: seq<CollRow>, k: nat)
    requires k < |rows|
    ensures Items(cat, root, archive, CollsFound(rows[..k + 1])) ==
            Items(cat, root, archive, CollsFound(rows[..k])) + ItemStep(cat, root, archive, FoundColl(rows[k]))
  {
    assert CollsFound(rows[..k + 1])[..k] == CollsFound(rows[..k]);
  }

  lemma {:induction false} CollsSplit(cat: Catalogue, root: string, archive: string, rows: seq<CollRow>, n: nat,
                                      page: seq<CollRow>)
    requires n + |page| <= |rows| && page == rows[n..n + |page|]
    ensures Items(cat, root, archive, CollsFound(rows[..n + |page|])) ==
            Items(cat, root, archive, CollsFound(rows[..n])) + Items(cat, root, archive, CollsFound(page))
  {
    hide Items;
    var x, y := CollsFound(rows[..n]), CollsFound(page);
    assert CollsFound(rows[..n + |page|]) == x + y;
    ItemsConcat(cat, root, archive, x, y);
  }

  /** The query loop of `dirColl`: lists the subcollections and remembers them. */
  method ListColls(a: Archive, server: Server, cat: Catalogue, coll: string, path: string, rows: seq<CollRow>)
      returns (dirs: seq<(string, int)>, ghost n: nat)
    requires Filling(a, server.tree) && WellFormed(cat) && RowsSized(cat, server.tree)
    requires coll == a.origin && path != "/" && Entered(CollNames(a.list), coll, path)
    requires forall c :: c in rows ==> c in cat.colls && c.parent == path
    modifies a`list, server`refused, server`codes, server`cut, server`unlisted
    ensures Filling(a, server.tree) && server.Onward()
    ensures old(CollNames(a.list)) <= CollNames(a.list)
    ensures n <= |rows| && dirs == Dirs(rows[..n]) && AllEntered(CollNames(a.list), coll, rows[..n])
    ensures server.cut == old(server.cut) <==> n == |rows|
    ensures Grows(old(a.list), a.list, Items(cat, coll, a.path, CollsFound(rows)),
                  server.unlisted - old(server.unlisted), server.refused == old(server.refused),
                  server.cut == old(server.cut))
  {
    hide Filling, Items, CollNames, HasParent, SizesRecorded, Dirs, CollsFound, Grows;
    var continueInx := 0;
    ghost var base := a.list;
    dirs, n := [], 0;
    CollsStart(cat, coll, a.path, rows);
    GrowsNot(base);
    while true
      invariant continueInx == n <= |rows|
      invariant Filling(a, server.tree) && server.Onward() && server.cut == old(server.cut)
      invariant CollNames(base) <= CollNames(a.list)
      invariant dirs == Dirs(rows[..n]) && AllEntered(CollNames(a.list), coll, rows[..n])
      invariant Grows(base, a.list, Items(cat, coll, a.path, CollsFound(rows[..n])),
                      server.unlisted - old(server.unlisted), server.refused == old(server.refused), true)
      decreases |rows| - n
    {
      ghost var before, unlisted, refused := a.list, server.unlisted, server.refused;
      var status, page, next := server.GenQuery(rows, continueInx, OfItems(|rows|));
      if status != 0 || |page| == 0 {
        GrowsWeaker(base, a.list, Items(cat, coll, a.path, CollsFound(rows[..n])),
                    unlisted - old(server.unlisted), refused == old(server.refused), true,
                    server.refused == old(server.refused));
        break;
      }
      PageRows(rows, n, page);
      var more := AddCollPage(a, server, cat, coll, path, page);
      CollsSplit(cat, coll, a.path, rows, n, page);
      GrowsThen(base, before, a.list, Items(cat, coll, a.path, CollsFound(rows[..n])),
                Items(cat, coll, a.path, CollsFound(page)),
                unlisted - old(server.unlisted), refused == old(server.refused), true,
                server.unlisted - unlisted, server.refused == refused, true);
      PageJoins(CollNames(before), CollNames(a.list), coll, rows, n, page, dirs, more);
      dirs := dirs + more;
      n := n + |page|;
      continueInx := next;
      if continueInx == 0 {
        break;
      }
    }
    CollsEnd(cat, coll, a.path, rows, n, base, a.list,
             server.unlisted - old(server.unlisted), server.refused == old(server.refused));
  }

  /** Every row that never came would have given an item. */
  lemma {:induction false} CollsEnd(cat: Catalogue, root: string, archive: string, rows: seq<CollRow>, n: nat,
                                    base: seq<Item>, now: seq<Item>, trimmed: int, all: bool)
    requires n <= |rows|
    requires Grows(base, now, Items(cat, root, archive, CollsFound(rows[..n])), trimmed, all, true)
    ensures Grows(base, now, Items(cat, root, archive, CollsFound(rows)), trimmed, all, n == |rows|)
  {
    hide Items, CollsFound, Grows;
    CollItems(cat, root, archive, rows[n..]);
    CollsSplit(cat, root, archive, rows, n, rows[n..]);
    TakeAll(rows, |rows|);
    GrowsShort(base, now, Items(cat, root, archive, CollsFound(rows[..n])),
               Items(cat, root, archive, CollsFound(rows[n..])), trimmed, all, true);
  }

  lemma {:induction false} PageJoins(before: set<string>, now: set<string>, root: string, rows: seq<CollRow>, n: nat,
                                     page: seq<CollRow>, dirs: seq<(string, int)>, more: seq<(string, int)>)
    requires n + |page| <= |rows| && page == rows[n..n + |page|]
    requires AllEntered(before, root, rows[..n]) && AllEntered(now, root, page) && before <= now
    requires dirs == Dirs(rows[..n]) && more == Dirs(page)
    ensures AllEntered(now, root, rows[..n + |page|])
    ensures dirs + more == Dirs(rows[..n + |page|])
  {
    var all := rows[..n + |page|];
    assert all == rows[..n] + page;
  }

  lemma {:induction false} PageRows<T>(rows: seq<T>, n: nat, page: seq<T>)
    requires n + |page| <= |rows| && page == rows[n..n + |page|]
    ensures forall c :: c in page ==> c in rows
  {
  }

  /**
   * `dirColl`: lists the collections below `path`, then what is inside each. The list grows by the walk, by all
   * of it if and only if no query was cut short; in any case parents stay before children.
   */
  method DirColl(a: Archive, server: Server, cat: Catalogue, coll: string, path: string)
    requires Filling(a, server.tree) && WellFormed(cat) && RowsSized(cat, server.tree)
    requires coll == a.origin && path != "/" && Entered(CollNames(a.list), coll, path)
    modifies a`list, a`dataSize, server`refused, server`codes, server`cut, server`unlisted
    ensures Filling(a, server.tree) && server.Onward()
    ensures old(CollNames(a.list)) <= CollNames(a.list)
    ensures Grows(old(a.list), a.list, Items(cat, coll, a.path, WalkColl(cat, path)),
                  server.unlisted - old(server.unlisted), server.refused == old(server.refused),
                  server.cut == old(server.cut))
    decreases Descendants(cat, path), 1
  {
    hide Filling, Items, CollNames, HasParent, SizesRecorded, Dirs, CollsFound, WalkKids, WalkColl, SubColls, Grows;
    var rows := SubColls(cat.colls, path);
    ghost var base := a.list;
    var dirs, n := ListColls(a, server, cat, coll, path, rows);
    ghost var listed, unlisted, refused, cut := a.list, server.unlisted, server.refused, server.cut;
    ghost var codes := server.codes;
    KidsStart(cat, coll, a.path, path, rows);
    GrowsNot(listed);
    for i := 0 to |dirs|
      invariant Filling(a, server.tree) && CollNames(listed) <= CollNames(a.list)
      invariant server.unlisted >= unlisted && server.cut >= cut && |server.codes| >= |codes|
      invariant server.refused - refused >= (server.cut - cut) + (server.unlisted - unlisted)
      invariant Grows(listed, a.list, Items(cat, coll, a.path, WalkKids(cat, path, rows[..i])),
                      server.unlisted - unlisted, server.refused == refused, server.cut == cut)
    {
      ghost var before, u, r, c := a.list, server.unlisted, server.refused, server.cut;
      KidDir(cat, coll, path, rows, n, i, CollNames(listed));
      EnterDir(a, server, cat, coll, path, dirs[i], rows[i]);
      KidsStep(cat, coll, a.path, path, rows, i);
      GrowsThen(listed, before, a.list, Items(cat, coll, a.path, WalkKids(cat, path, rows[..i])),
                Items(cat, coll, a.path, Inside(cat, rows[i])),
                u - unlisted, r == refused, c == cut, server.unlisted - u, server.refused == r, server.cut == c);
    }
    ghost var missed := KidsMissed(cat, coll, a.path, path, rows, n);
    GrowsShort(listed, a.list, Items(cat, coll, a.path, WalkKids(cat, path, rows[..n])), missed,
               server.unlisted - unlisted, server.refused == refused, server.cut == cut);
    WalkSplit(cat, coll, a.path, path, rows);
    GrowsThen(base, listed, a.list, Items(cat, coll, a.path, CollsFound(rows)),
              Items(cat, coll, a.path, WalkKids(cat, path, rows)),
              unlisted - old(server.unlisted), refused == old(server.refused), cut == old(server.cut),
              server.unlisted - unlisted, server.refused == refused, server.cut == cut && missed == []);
  }

  /** One round of the loop over the remembered collections. */
  method EnterDir(a: Archive, server: Server, cat: Catalogue, coll: string, ghost path: string, dir: (string, int),
                  ghost kid: CollRow)
    requires Filling(a, server.tree) && WellFormed(cat) && RowsSized(cat, server.tree)
    requires coll == a.origin && kid in cat.colls && kid.name != "/" && dir == (kid.name, kid.id)
    requires Entered(CollNames(a.list), coll, kid.name) && IsBelow(kid.name, coll)
    requires Descendants(cat, kid.name) < Descendants(cat, path)
    modifies a`list, a`dataSize, server`refused, server`codes, server`cut, server`unlisted
    ensures Filling(a, server.tree) && server.Onward()
    ensures old(CollNames(a.list)) <= CollNames(a.list)
    ensures Grows(old(a.list), a.list, Items(cat, coll, a.path, Inside(cat, kid)),
                  server.unlisted - old(server.unlisted), server.refused == old(server.refused),
                  server.cut == old(server.cut))
    decreases Descendants(cat, path), 0
  {
    hide Filling, Items, CollNames, HasParent, SizesRecorded, WalkColl, Grows, Descendants, WellFormed;
    InsideColl(a, server, cat, coll, dir.0, dir.0[|coll| + 1..] + "/", dir.1, kid);
  }

  /** `dirColl` and then `dirDataObj` for one collection. */
  method InsideColl(a: Archive, server: Server, cat: Catalogue, coll: string, path: string, prefix: string, id: int,
                    ghost home: CollRow)
    requires Filling(a, server.tree) && WellFormed(cat) && RowsSized(cat, server.tree)
    requires coll == a.origin && Entered(CollNames(a.list), coll, path)
    requires home in cat.colls && home.name == path != "/" && home.id == id && prefix == Prefix(coll, path)
    modifies a`list, a`dataSize, server`refused, server`codes, server`cut, server`unlisted
    ensures Filling(a, server.tree) && server.Onward()
    ensures old(CollNames(a.list)) <= CollNames(a.list)
    ensures Grows(old(a.list), a.list, Items(cat, coll, a.path, Inside(cat, home)),
                  server.unlisted - old(server.unlisted), server.refused == old(server.refused),
                  server.cut == old(server.cut))
    decreases Descendants(cat, path), 2
  {
    hide Filling, Items, CollNames, HasParent, SizesRecorded, WalkColl, Grows;
    ghost var before := a.list;
    DirColl(a, server, cat, coll, path);
    ghost var between, unlisted, refused, cut := a.list, server.unlisted, server.refused, server.cut;
    DirDataObj(a, server, cat, prefix, id, home);
    InsideSplit(cat, coll, a.path, home);
    GrowsThen(before, between, a.list, Items(cat, coll, a.path, WalkColl(cat, path)),
              Items(cat, coll, a.path, ObjsFound(home, ObjsIn(cat.objs, id))),
              unlisted - old(server.unlisted), refused == old(server.refused), cut == old(server.cut),
              server.unlisted - unlisted, server.refused == refused, server.cut == cut);
  }

  /** A remembered subcollection is below the root, listed, and spelled as its prefix says. */
  lemma {:induction false} KidDir(cat: Catalogue, root: string, path: string, rows: seq<CollRow>, n: nat, i: nat,
                                  listed: set<string>)
    requires WellFormed(cat) && path != "/" && rows == SubColls(cat.colls, path)
    requires i < n <= |rows| && AllEntered(listed, root, rows[..n]) && (path == root || IsBelow(path, root))
    ensures var kid := rows[i];
            kid in cat.colls && kid.name != "/" && Entered(listed, root, kid.name) && IsBelow(kid.name, root) &&
            Descendants(cat, kid.name) < Descendants(cat, path) &&
            Prefix(root, kid.name) == kid.name[|root| + 1..] + "/"
  {
    var kid := rows[i];
    assert rows[..n][i] == kid && kid in rows;
    KidDescends(cat, path, kid);
    if path != root {
      BelowTransitive(kid.name, path, root);
    }
  }

  lemma {:induction false} KidsStart(cat: Catalogue, root: string, archive: string, path: string, rows: seq<CollRow>)
    requires WellFormed(cat) && path != "/" && rows == SubColls(cat.colls, path)
    ensures Items(cat, root, archive, WalkKids(cat, path, rows[..0])) == []
  {
  }

  lemma {:induction false} WalkSplit(cat: Catalogue, root: string, archive: string, path: string, rows: seq<CollRow>)
    requires WellFormed(cat) && path != "/" && rows == SubColls(cat.colls, path)
    ensures Items(cat, root, archive, WalkColl(cat, path)) ==
            Items(cat, root, archive, CollsFound(rows)) + Items(cat, root, archive, WalkKids(cat, path, rows))
  {
    hide Items, WalkKids;
    ItemsConcat(cat, root, archive, CollsFound(rows), WalkKids(cat, path, rows));
  }

  lemma {:induction false} KidsStep(cat: Catalogue, root: string, archive: string, path: string, rows: seq<CollRow>,
                                    k: nat)
    requires WellFormed(cat) && path != "/" && k < |rows| && rows == SubColls(cat.colls, path) && rows[k].name != "/"
    ensures Items(cat, root, archive, WalkKids(cat, path, rows[..k + 1])) ==
            Items(cat, root, archive, WalkKids(cat, path, rows[..k])) + Items(cat, root, archive, Inside(cat, rows[k]))
  {
    hide Items, WalkColl;
    var x, y := WalkKids(cat, path, rows[..k]), Inside(cat, rows[k]);
    assert rows[..k + 1][..k] == rows[..k];
    assert WalkKids(cat, path, rows[..k + 1]) == x + y;
    ItemsConcat(cat, root, archive, x, y);
  }

  /** The items inside the subcollections that were never remembered. */
  lemma {:induction false} KidsMissed(cat: Catalogue, root: string, archive: string, path: string, rows: seq<CollRow>,
                                      n: nat) returns (missed: seq<Item>)
    requires WellFormed(cat) && path != "/" && n <= |rows| && rows == SubColls(cat.colls, path)
    ensures Items(cat, root, archive, WalkKids(cat, path, rows)) ==
            Items(cat, root, archive, WalkKids(cat, path, rows[..n])) + missed
    ensures n == |rows| ==> missed == []
  {
    hide Items, WalkKids, SubColls;
    missed := [];
    var x := Items(cat, root, archive, WalkKids(cat, path, rows[..n]));
    TakeAll(rows, |rows|);
    for k := n to |rows|
      invariant Items(cat, root, archive, WalkKids(cat, path, rows[..k])) == x + missed
      invariant k == n ==> missed == []
    {
      assert rows[k] in rows;
      KidDescends(cat, path, rows[k]);
      KidsStep(cat, root, archive, path, rows, k);
      ConcatAssociates(x, missed, Items(cat, root, archive, Inside(cat, rows[k])));
      missed := missed + Items(cat, root, archive, Inside(cat, rows[k]));
    }
  }

  lemma {:induction false} InsideSplit(cat: Catalogue, root: string, archive: string, home: CollRow)
    requires WellFormed(cat) && home.name != "/"
    ensures Items(cat, root, archive, Inside(cat, home)) ==
            Items(cat, root, archive, WalkColl(cat, home.name)) +
            Items(cat, root, archive, ObjsFound(home, ObjsIn(cat.objs, home.id)))
  {
    hide Items, WalkColl;
    ItemsConcat(cat, root, archive, WalkColl(cat, home.name), ObjsFound(home, ObjsIn(cat.objs, home.id)));
  }

  // ---- the microservice ----

  /** The rows of `COLL_NAME = 'name'`. */
  function NamedColls(rows: seq<CollRow>, name: string): (r: seq<CollRow>)
    ensures forall c :: c in r <==> c in rows && c.name == name
  {
    if rows == [] then []
    else
      var last := rows[|rows| - 1];
      NamedColls(rows[..|rows| - 1], name) + if last.name == name then [last] else []
  }

  /** `collID`: the id of a collection, or a negative status. */
  method CollId(server: Server, cat: Catalogue, coll: string) returns (id: int, ghost row: CollRow)
    requires WellFormed(cat)
    modifies server`refused, server`codes, server`cut, server`unlisted
    ensures server.Onward() && server.cut == old(server.cut) && server.unlisted == old(server.unlisted)
    ensures id >= 0 ==> row in cat.colls && row.name == coll && row.id == id
    ensures server.refused == old(server.refused) ==> (id >= 0 <==> exists c :: c in cat.colls && c.name == coll)
  {
    var rows := NamedColls(cat.colls, coll);
    NamedOnce(cat, cat.colls, coll);
    row := CollRow(0, "", "", "", "", 0, 0);
    var status, page, _ := server.GenQuery(rows, 0, OfItems(0));
    id := status;
    if status == 0 {
      if |page| != 1 {
        id := CAT_UNKNOWN_COLLECTION;
      } else {
        id, row := page[0].id, page[0];
        assert row in rows && CollKeys(row, row);
      }
    }
    if rows != [] {
      assert rows[0] in rows;
    }
  }

  lemma {:induction false} NamedOnce(cat: Catalogue, rows: seq<CollRow>, name: string)
    requires WellFormed(cat) && Distinct(rows) && forall c :: c in rows ==> c in cat.colls
    ensures |NamedColls(rows, name)| <= 1
  {
    if rows != [] {
      var pre, last := rows[..|rows| - 1], rows[|rows| - 1];
      NamedOnce(cat, pre, name);
      forall c | c in pre
        ensures c.name != last.name
      {
        assert CollKeys(c, last);
      }
      assert NamedColls(pre, name) != [] ==> NamedColls(pre, name)[0] in NamedColls(pre, name);
    }
  }

  /**
   * What a container holds of the listed items: the first of them, the last perhaps with
   * only the first of its bytes.
   */
  ghost predicate LeftBehind(t: Tree, origin: string, items: seq<Item>, stored: seq<Member>) {
    && |stored| <= |items| && WithinSize(stored)
    && (forall k :: 0 <= k < |stored| ==>
          stored[k].item == items[k] && stored[k].bytes <= BytesAt(t, origin, items[k]))
    && (forall k :: 0 <= k < |stored| - 1 ==> stored[k] == Member(items[k], BytesAt(t, origin, items[k])))
  }

  /**
   * `msiArchiveCreate`. A zero status means a container whose entries are the listed items in order, parents before
   * children, each data object with the bytes it has. The items are the walk of the collection, all of it if and
   * only if no listing query was cut short; as many of them lack attributes as had their attribute query cut short.
   * When the status is negative and there is a container that opens, it holds the first of these items.
   */
  method MsiArchiveCreate(server: Server, cat: Catalogue, archive: string, collection: string)
      returns (status: int, container: seq<Entry>, ghost root: CollRow, ghost items: seq<Item>,
               ghost stored: seq<Member>)
    requires Describes(cat, server.tree) && server.Idle() && collection != "/"
    modifies server`refused, server`codes, server`cut, server`unlisted, server`desc
    ensures server.Onward() && server.Idle() && status <= 0
    ensures container != [] ==>
              root.name == collection &&
              Lists(cat, root, archive, items, server.unlisted - old(server.unlisted),
                    server.refused == old(server.refused), server.cut == old(server.cut))
    ensures container != [] ==>
              forall k :: 0 <= k < |items| ==>
                RecordsSomeRow(cat, collection, archive, items[k], server.refused == old(server.refused))
    ensures status == 0 ==> stored == MembersOf(server.tree, collection, items) && Sized(stored)
    ensures status == 0 ==> container == Pack(collection, ToSigned(TotalBlocks(items) % TWO_TO_THE_64), stored)
    ensures Opens(container) ==>
              Held(container, stored) && Indexed(container) == items &&
              LeftBehind(server.tree, collection, items, stored)
    ensures server.refused == old(server.refused) ==>
              (status == 0 <==> exists c :: c in cat.colls && c.name == collection)
  {
    hide WellFormed, NamedColls, Lists, Held, LeftBehind, Sized, Pack, MembersOf, TotalBlocks, RecordsSomeRow;
    container, items, stored := [], [], [];
    var id;
    id, root := CollId(server, cat, collection);
    if id < 0 {
      status := id;
    } else {
      var a := Archive.Create(server, archive, collection);
      if a == null {
        status := SYS_TAR_OPEN_ERR;
      } else {
        ghost var all;
        status, stored, all := FillAndConstruct(a, server, cat, id, root);
        container, items := a.archive.entries, a.list;
        ListsWeaker(cat, root, archive, items, server.unlisted - old(server.unlisted), all,
                    server.cut == old(server.cut), server.refused == old(server.refused));
        ListsRecords(cat, root, archive, items, server.unlisted - old(server.unlisted),
                     server.refused == old(server.refused), server.cut == old(server.cut));
      }
    }
  }

  /** The archive that was created is filled and written. */
  method FillAndConstruct(a: Archive, server: Server, cat: Catalogue, id: int, ghost root: CollRow)
      returns (status: int, ghost stored: seq<Member>, ghost all: bool)
    requires Describes(cat, server.tree) && server.Idle() && a.server == server && a.Valid() && a.creating
    requires a.list == [] && a.index == 0 && a.archive.entries == [] && a.origin != "/"
    requires root in cat.colls && root.name == a.origin && root.id == id
    modifies a`list, a`dataSize, a`index, a.archive`entries
    modifies server`refused, server`codes, server`cut, server`unlisted, server`desc
    ensures server.Onward() && server.Idle() && status <= 0
    ensures server.refused == old(server.refused) ==> all && status == 0
    ensures Lists(cat, root, a.path, a.list, server.unlisted - old(server.unlisted), all,
                  server.cut == old(server.cut))
    ensures status == 0 ==> stored == MembersOf(server.tree, a.origin, a.list) && Sized(stored)
    ensures status == 0 ==>
              a.archive.entries == Pack(a.origin, ToSigned(TotalBlocks(a.list) % TWO_TO_THE_64), stored)
    ensures Opens(a.archive.entries) ==>
              Held(a.archive.entries, stored) && Indexed(a.archive.entries) == a.list &&
              LeftBehind(server.tree, a.origin, a.list, stored)
  {
    hide Items, CollNames, ParentFirst, FullListing, Inside, Pack, MembersOf, TotalBlocks, SizesRecorded;
    hide WellFormed, Grows, Lists, Held, LeftBehind, Sized;
    RowsHaveSizes(cat, server.tree);
    NothingListed(server.tree, a.origin);
    InsideColl(a, server, cat, a.origin, a.origin, "", id, root);
    all := server.refused == old(server.refused);
    ListedAndPresent(cat, server.tree, root, a.path, a.list, server.unlisted - old(server.unlisted), all,
                     server.cut == old(server.cut));
    status := a.Construct();
    stored := MembersOf(server.tree, a.origin, a.list);
    if status == 0 {
      PackedHeld(server.tree, a.origin, ToSigned(a.dataSize), a.list);
    } else if Opens(a.archive.entries) {
      stored := StoppedStored(server.tree, a.origin, ToSigned(a.dataSize), a.list, a.archive.entries, a.index);
    }
  }

  lemma {:induction false} NothingListed(t: Tree, origin: string)
    ensures ParentFirst([]) && SizesRecorded(t, origin, [])
  {
  }

  lemma {:induction false} RowsHaveSizes(cat: Catalogue, t: Tree)
    requires Describes(cat, t)
    ensures RowsSized(cat, t)
  {
    forall home, o | home in cat.colls && o in cat.objs && o.collId == home.id
      ensures RowSized(t, home, o)
    {
      var f := FoundObj(home, o);
      assert InCatalogue(cat, f) && Matches(cat, f, t[f.Path()]);
    }
  }

  /** What was listed is the walk, and is there. */
  lemma {:induction false} ListedAndPresent(cat: Catalogue, t: Tree, root: CollRow, archive: string, items: seq<Item>,
                                            trimmed: int, all: bool, whole: bool)
    requires Describes(cat, t) && root in cat.colls && root.name != "/" && ParentFirst(items)
    requires Grows([], items, Items(cat, root.name, archive, Inside(cat, root)), trimmed, all, whole)
    ensures Lists(cat, root, archive, items, trimmed, all, whole)
    ensures AllPresent(t, root.name, items, |items|)
  {
    hide WellFormed, ParentFirst, Shortened, Items, Inside, Describes, Trims;
    DescribedWell(cat, t);
    var full := FullListing(cat, root, archive);
    assert items[0..] == items;
    ShortenedListing(cat, root, archive, items, trimmed, all);
    forall k | 0 <= k < |items| && items[k].DataObj?
      ensures IsObj(t, Join(root.name, items[k].name))
    {
      assert ListedRow(cat, root.name, archive, items[k], all);
      var f :| ToList(cat, root.name, archive, f) && Join(root.name, items[k].name) == f.Path() &&
               Trims(ItemOf(cat, root.name, f), items[k], all);
      TrimsName(ItemOf(cat, root.name, f), items[k], all);
      RowMatches(cat, t, f);
    }
  }

  lemma {:induction false} ListsWeaker(cat: Catalogue, root: CollRow, archive: string, items: seq<Item>,
                                       trimmed: int, all: bool, whole: bool, all': bool)
    requires Lists(cat, root, archive, items, trimmed, all, whole) && (all' ==> all)
    ensures Lists(cat, root, archive, items, trimmed, all', whole)
  {
    hide WellFormed, FullListing, Shortened;
    ShortenedWeaker(FullListing(cat, root, archive), items, trimmed, all, all');
  }

  lemma {:induction false} PackedHeld(t: Tree, origin: string, size: int, items: seq<Item>)
    requires SizesRecorded(t, origin, items) && AllPresent(t, origin, items, |items|)
    ensures var ms, container := MembersOf(t, origin, items), Pack(origin, size, MembersOf(t, origin, items));
            Sized(ms) && Held(container, ms) && Indexed(container) == items && LeftBehind(t, origin, items, ms)
  {
    PresentAreSized(t, origin, items);
  }

  lemma {:induction false} StoppedStored(t: Tree, origin: string, size: int, items: seq<Item>,
                                         container: seq<Entry>, index: nat) returns (stored: seq<Member>)
    requires SizesRecorded(t, origin, items) && AllPresent(t, origin, items, |items|)
    requires StoppedAt(container, Pack(origin, size, MembersOf(t, origin, items)), index)
    ensures Held(container, stored) && Indexed(container) == items && LeftBehind(t, origin, items, stored)
  {
    hide Pack, StoppedAt, Held;
    var ms := MembersOf(t, origin, items);
    PresentAreSized(t, origin, items);
    stored := StoppedHeld(container, origin, size, ms, index);
    assert forall k :: 0 <= k < index ==> stored[k] == stored[..index][k] == ms[k];
  }
}
