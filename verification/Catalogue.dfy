/**
 * The flat relational catalogue: collections keyed by their parent's name, data objects by their
 * collection's id. The walk of `dirColl` and `dirDataObj` over it, unpaged, and what the walk finds.
 */
module Catalogue {
  import opened Wrappers
  import opened Attributes
  import opened Blocks
  import opened Paths

  datatype CollRow = CollRow(id: int, name: string, parent: string, owner: string, zone: string,
                             created: int, modified: int)

  datatype DataRow = DataRow(id: int, collId: int, name: string, size: nat, owner: string, zone: string,
                             created: int, modified: int, checksum: string)

  datatype AclRow = AclRow(user: string, zone: string, access: string)

  datatype Catalogue = Catalogue(colls: seq<CollRow>, objs: seq<DataRow>,
                                 avus: map<int, seq<Avu>>, acls: map<int, seq<AclRow>>)
  {
    function AvuRows(id: int): seq<Avu> {
      if id in avus then avus[id] else []
    }

    function AclRows(id: int): seq<AclRow> {
      if id in acls then acls[id] else []
    }
  }

  // ---- what makes the rows a namespace ----

  /** A collection is named after its parent, which exists; only those directly below "/" are spelled differently. */
  ghost predicate NamedAfterParent(colls: seq<CollRow>, c: CollRow) {
    if c.parent == "/" then
      c.name == "/" || (c.name != "" && c.name[0] == '/' && IsComponent(c.name[1..]))
    else
      && IsBelow(c.name, c.parent) && IsComponent(Relative(c.parent, c.name))
      && exists p :: p in colls && p.name == c.parent
  }

  /** A good-replica row: a component as its name, a size that fits a signed 64-bit word, and a collection. */
  ghost predicate Placed(colls: seq<CollRow>, o: DataRow) {
    IsComponent(o.name) && o.size < TWO_TO_THE_63 && exists c :: c in colls && c.id == o.collId
  }

  /** Names and ids, which are not negative, are keys of the collections. */
  ghost predicate CollKeys(c: CollRow, d: CollRow) {
    c.id >= 0 && (c != d ==> c.name != d.name && c.id != d.id)
  }

  /** A name is a key of the objects of one collection. */
  ghost predicate ObjKeys(o: DataRow, q: DataRow) {
    o != q ==> o.collId != q.collId || o.name != q.name
  }

  /** No data object has the path of a collection. */
  ghost predicate Apart(o: DataRow, c: CollRow, d: CollRow) {
    o.collId == c.id ==> d.name != Join(c.name, o.name)
  }

  ghost predicate WellFormed(cat: Catalogue) {
    && Distinct(cat.colls) && Distinct(cat.objs)
    && (forall c, d {:trigger CollKeys(c, d)} :: c in cat.colls && d in cat.colls ==> CollKeys(c, d))
    && (forall o, q {:trigger ObjKeys(o, q)} :: o in cat.objs && q in cat.objs ==> ObjKeys(o, q))
    && (forall o, c, d {:trigger Apart(o, c, d)} ::
          o in cat.objs && c in cat.colls && d in cat.colls ==> Apart(o, c, d))
    && (forall c {:trigger NamedAfterParent(cat.colls, c)} :: c in cat.colls ==> NamedAfterParent(cat.colls, c))
    && (forall o {:trigger Placed(cat.colls, o)} :: o in cat.objs ==> Placed(cat.colls, o))
  }

  // ---- query results ----

  /** The rows of `COLL_PARENT_NAME = 'path'`. */
  function SubColls(rows: seq<CollRow>, path: string): (r: seq<CollRow>)
    ensures forall c :: c in r <==> c in rows && c.parent == path
  {
    if rows == [] then []
    else
      var last := rows[|rows| - 1];
      SubColls(rows[..|rows| - 1], path) + if last.parent == path then [last] else []
  }

  /** The rows of `D_COLL_ID = 'id'`, good replicas only. */
  function ObjsIn(rows: seq<DataRow>, collId: int): (r: seq<DataRow>)
    ensures forall o :: o in r <==> o in rows && o.collId == collId
  {
    if rows == [] then []
    else
      var last := rows[|rows| - 1];
      ObjsIn(rows[..|rows| - 1], collId) + if last.collId == collId then [last] else []
  }

  // ---- the walk ----

  /** A row the walk comes upon; an object together with the collection it is in. */
  datatype Found = FoundColl(coll: CollRow) | FoundObj(home: CollRow, obj: DataRow)
  {
    function Path(): string {
      match this
      case FoundColl(c) => c.name
      case FoundObj(c, o) => Join(c.name, o.name)
    }
  }

  ghost function Descendants(cat: Catalogue, path: string): set<CollRow> {
    set c | c in cat.colls && IsBelow(c.name, path)
  }

  /** Below a subcollection there is strictly less than below the collection: why the recursion ends. */
  lemma {:induction false} KidDescends(cat: Catalogue, path: string, kid: CollRow)
    requires WellFormed(cat) && path != "/" && kid in cat.colls && kid.parent == path
    ensures kid.name != "/" && IsBelow(kid.name, path)
    ensures Descendants(cat, kid.name) < Descendants(cat, path)
  {
    assert NamedAfterParent(cat.colls, kid);
    forall c | c in Descendants(cat, kid.name)
      ensures c in Descendants(cat, path)
    {
      BelowTransitive(c.name, kid.name, path);
    }
    assert kid in Descendants(cat, path) && kid !in Descendants(cat, kid.name);
  }

  function CollsFound(rows: seq<CollRow>): (fs: seq<Found>)
    ensures |fs| == |rows| && forall k :: 0 <= k < |rows| ==> fs[k] == FoundColl(rows[k])
  {
    seq(|rows|, k requires 0 <= k < |rows| => FoundColl(rows[k]))
  }

  function ObjsFound(home: CollRow, rows: seq<DataRow>): (fs: seq<Found>)
    ensures |fs| == |rows| && forall k :: 0 <= k < |rows| ==> fs[k] == FoundObj(home, rows[k])
  {
    seq(|rows|, k requires 0 <= k < |rows| => FoundObj(home, rows[k]))
  }

  /** `dirColl`: the subcollections of `path` first, then the contents of each. */
  function WalkColl(cat: Catalogue, path: string): seq<Found>
    requires WellFormed(cat) && path != "/"
    decreases Descendants(cat, path), 1, 0
  {
    var kids := SubColls(cat.colls, path);
    CollsFound(kids) + WalkKids(cat, path, kids)
  }

  function WalkKids(cat: Catalogue, path: string, kids: seq<CollRow>): seq<Found>
    requires WellFormed(cat) && path != "/"
    requires forall c :: c in kids ==> c in cat.colls && c.parent == path
    decreases Descendants(cat, path), 0, |kids|
  {
    if kids == [] then []
    else
      var last := kids[|kids| - 1];
      KidDescends(cat, path, last);
      WalkKids(cat, path, kids[..|kids| - 1]) + Inside(cat, last)
  }

  /** Everything in one collection: `dirColl`, then `dirDataObj`. */
  function Inside(cat: Catalogue, c: CollRow): seq<Found>
    requires WellFormed(cat) && c.name != "/"
    decreases Descendants(cat, c.name), 2, 0
  {
    WalkColl(cat, c.name) + ObjsFound(c, ObjsIn(cat.objs, c.id))
  }

  // ---- what the walk finds ----

  /** The collection a row is, or is in. */
  function Anchor(f: Found): CollRow {
    match f
    case FoundColl(c) => c
    case FoundObj(c, _) => c
  }

  ghost predicate InCatalogue(cat: Catalogue, f: Found) {
    match f
    case FoundColl(c) => c in cat.colls
    case FoundObj(c, o) => c in cat.colls && o in cat.objs && o.collId == c.id
  }

  /** The subcollection among `kids` inside which the row is found. */
  ghost predicate InsideSome(cat: Catalogue, kids: seq<CollRow>, f: Found)
    requires WellFormed(cat)
  {
    exists c :: c in kids && c.name != "/" && f in Inside(cat, c)
  }

  lemma {:induction false} InWalkKids(cat: Catalogue, path: string, kids: seq<CollRow>, f: Found)
    requires WellFormed(cat) && path != "/"
    requires forall c :: c in kids ==> c in cat.colls && c.parent == path
    ensures f in WalkKids(cat, path, kids) <==> InsideSome(cat, kids, f)
    decreases |kids|
  {
    if kids != [] {
      var n := |kids| - 1;
      var pre, last := kids[..n], kids[n];
      KidDescends(cat, path, last);
      InWalkKids(cat, path, pre, f);
      assert f in WalkKids(cat, path, kids) <==> f in WalkKids(cat, path, pre) || f in Inside(cat, last);
      InsideSomeStep(cat, kids, f);
    }
  }

  lemma {:induction false} InsideSomeStep(cat: Catalogue, kids: seq<CollRow>, f: Found)
    requires WellFormed(cat) && kids != [] && kids[|kids| - 1].name != "/"
    ensures InsideSome(cat, kids, f) <==>
            (InsideSome(cat, kids[..|kids| - 1], f) || f in Inside(cat, kids[|kids| - 1]))
  {
    var n := |kids| - 1;
    assert forall c :: c in kids <==> c in kids[..n] || c == kids[n];
    if InsideSome(cat, kids[..n], f) {
      var c :| c in kids[..n] && c.name != "/" && f in Inside(cat, c);
      assert c in kids;
    }
    assert kids[n] in kids;
  }

  lemma {:induction false} InInside(cat: Catalogue, c: CollRow, f: Found)
    requires WellFormed(cat) && c.name != "/"
    ensures f in Inside(cat, c) <==>
            f in WalkColl(cat, c.name) || (f.FoundObj? && f.home == c && f.obj in cat.objs && f.obj.collId == c.id)
  {
    var os := ObjsIn(cat.objs, c.id);
    if f.FoundObj? && f.home == c && f.obj in os {
      var k :| 0 <= k < |os| && os[k] == f.obj;
      assert ObjsFound(c, os)[k] == f;
    }
  }

  /** Everything found below `path` is a row of the catalogue anchored below `path`. */
  lemma {:induction false} WalkSound(cat: Catalogue, path: string, f: Found)
    requires WellFormed(cat) && path != "/" && f in WalkColl(cat, path)
    ensures InCatalogue(cat, f) && IsBelow(Anchor(f).name, path)
    decreases Descendants(cat, path)
  {
    var kids := SubColls(cat.colls, path);
    InWalkKids(cat, path, kids, f);
    if f in CollsFound(kids) {
      KidDescends(cat, path, f.coll);
    } else {
      var kid :| kid in kids && kid.name != "/" && f in Inside(cat, kid);
      KidDescends(cat, path, kid);
      InInside(cat, kid, f);
      if f in WalkColl(cat, kid.name) {
        WalkSound(cat, kid.name, f);
        BelowTransitive(Anchor(f).name, kid.name, path);
      }
    }
  }

  lemma {:induction false} KidToward(cat: Catalogue, path: string, c: CollRow) returns (kid: CollRow)
    requires WellFormed(cat) && path != "/" && path != "" && c in cat.colls && IsBelow(c.name, path)
    ensures kid in cat.colls && kid.parent == path && (c == kid || IsBelow(c.name, kid.name))
    decreases |c.name|
  {
    assert NamedAfterParent(cat.colls, c);
    assert c.name[..|path| + 1][|path|] == '/';
    if c.parent == path {
      kid := c;
    } else {
      assert forall k :: 1 <= k < |c.name| ==> c.name[k] == c.name[1..][k - 1];
      var p :| p in cat.colls && p.name == c.parent;
      BelowSplits(c.parent, Relative(c.parent, c.name), path);
      kid := KidToward(cat, path, p);
      if p != kid {
        BelowTransitive(c.name, p.name, kid.name);
      }
    }
  }

  /** Every row anchored below `path` is found. */
  lemma {:induction false} WalkFinds(cat: Catalogue, path: string, f: Found)
    requires WellFormed(cat) && path != "/" && path != ""
    requires InCatalogue(cat, f) && IsBelow(Anchor(f).name, path)
    ensures f in WalkColl(cat, path)
    decreases Descendants(cat, path)
  {
    var kids := SubColls(cat.colls, path);
    var kid := KidToward(cat, path, Anchor(f));
    KidDescends(cat, path, kid);
    InWalkKids(cat, path, kids, f);
    InInside(cat, kid, f);
    if Anchor(f) != kid {
      WalkFinds(cat, kid.name, f);
    } else if f.FoundColl? {
      var k :| 0 <= k < |kids| && kids[k] == kid;
      assert CollsFound(kids)[k] == f;
    }
  }

  /** Two subcollections of one collection share nothing. */
  lemma {:induction false} InsideUnique(cat: Catalogue, path: string, a: CollRow, b: CollRow, f: Found)
    requires WellFormed(cat) && path != "/"
    requires a in cat.colls && b in cat.colls && a.parent == path == b.parent
    requires a.name != "/" && b.name != "/"
    requires f in Inside(cat, a) && (f in Inside(cat, b) || f == FoundColl(b))
    ensures a == b && f != FoundColl(b)
  {
    KidDescends(cat, path, a);
    KidDescends(cat, path, b);
    InInside(cat, a, f);
    InInside(cat, b, f);
    if f in WalkColl(cat, a.name) {
      WalkSound(cat, a.name, f);
    }
    if f in WalkColl(cat, b.name) {
      WalkSound(cat, b.name, f);
    }
    assert NamedAfterParent(cat.colls, a) && NamedAfterParent(cat.colls, b) && CollKeys(a, b);
    ComponentUnique(path, Relative(path, a.name), Relative(path, b.name), Anchor(f).name);
  }

  lemma {:induction false} SubCollsDistinct(rows: seq<CollRow>, path: string)
    requires Distinct(rows)
    ensures Distinct(SubColls(rows, path))
  {
    if rows != [] {
      SubCollsDistinct(rows[..|rows| - 1], path);
    }
  }

  lemma {:induction false} ObjsInDistinct(rows: seq<DataRow>, collId: int)
    requires Distinct(rows)
    ensures Distinct(ObjsIn(rows, collId))
  {
    if rows != [] {
      ObjsInDistinct(rows[..|rows| - 1], collId);
    }
  }

  lemma {:induction false} WalkDistinct(cat: Catalogue, path: string)
    requires WellFormed(cat) && path != "/"
    ensures Distinct(WalkColl(cat, path))
    decreases Descendants(cat, path), 1, 0
  {
    var kids := SubColls(cat.colls, path);
    SubCollsDistinct(cat.colls, path);
    WalkKidsDistinct(cat, path, kids);
    forall f | f in CollsFound(kids)
      ensures f !in WalkKids(cat, path, kids)
    {
      InWalkKids(cat, path, kids, f);
      forall kid | kid in kids && kid.name != "/"
        ensures f !in Inside(cat, kid)
      {
        if f in Inside(cat, kid) {
          KidDescends(cat, path, f.coll);
          InsideUnique(cat, path, kid, f.coll, f);
        }
      }
    }
    DistinctConcat(CollsFound(kids), WalkKids(cat, path, kids));
  }

  lemma {:induction false} WalkKidsDistinct(cat: Catalogue, path: string, kids: seq<CollRow>)
    requires WellFormed(cat) && path != "/" && Distinct(kids)
    requires forall c :: c in kids ==> c in cat.colls && c.parent == path
    ensures Distinct(WalkKids(cat, path, kids))
    decreases Descendants(cat, path), 0, |kids|
  {
    if kids != [] {
      var n := |kids| - 1;
      var pre, last := kids[..n], kids[n];
      KidDescends(cat, path, last);
      WalkKidsDistinct(cat, path, pre);
      InsideDistinct(cat, last);
      forall f | f in WalkKids(cat, path, pre)
        ensures f !in Inside(cat, last)
      {
        InWalkKids(cat, path, pre, f);
        var kid :| kid in pre && kid.name != "/" && f in Inside(cat, kid);
        if f in Inside(cat, last) {
          InsideUnique(cat, path, kid, last, f);
        }
      }
      DistinctConcat(WalkKids(cat, path, pre), Inside(cat, last));
    }
  }

  lemma {:induction false} InsideDistinct(cat: Catalogue, c: CollRow)
    requires WellFormed(cat) && c.name != "/"
    ensures Distinct(Inside(cat, c))
    decreases Descendants(cat, c.name), 2, 0
  {
    WalkDistinct(cat, c.name);
    ObjsInDistinct(cat.objs, c.id);
    var os := ObjsFound(c, ObjsIn(cat.objs, c.id));
    forall f | f in WalkColl(cat, c.name)
      ensures f !in os
    {
      WalkSound(cat, c.name, f);
    }
    DistinctConcat(WalkColl(cat, c.name), os);
  }

  /** The walk of a collection lists exactly the rows strictly below it, each once. */
  lemma {:induction false} WalkComplete(cat: Catalogue, root: CollRow)
    requires WellFormed(cat) && root in cat.colls && root.name != "/"
    ensures Distinct(Inside(cat, root))
    ensures forall f :: f in Inside(cat, root) <==> InCatalogue(cat, f) && IsBelow(f.Path(), root.name)
  {
    InsideDistinct(cat, root);
    assert NamedAfterParent(cat.colls, root);
    assert root.name != "";
    forall f
      ensures f in Inside(cat, root) <==> InCatalogue(cat, f) && IsBelow(f.Path(), root.name)
    {
      InInside(cat, root, f);
      var a := Anchor(f).name;
      if f in WalkColl(cat, root.name) {
        WalkSound(cat, root.name, f);
      } else if InCatalogue(cat, f) && IsBelow(a, root.name) {
        WalkFinds(cat, root.name, f);
      }
      if f.FoundObj? && InCatalogue(cat, f) {
        assert Placed(cat.colls, f.obj) && CollKeys(f.home, root);
        JoinIsBelow(a, f.obj.name);
        if IsBelow(a, root.name) {
          BelowTransitive(f.Path(), a, root.name);
        } else if IsBelow(f.Path(), root.name) {
          BelowSplits(a, f.obj.name, root.name);
        }
      }
    }
  }

  /** Different rows have different paths. */
  lemma {:induction false} PathsDiffer(cat: Catalogue, f: Found, g: Found)
    requires WellFormed(cat) && InCatalogue(cat, f) && InCatalogue(cat, g)
    ensures f.Path() == g.Path() ==> f == g
  {
    assert CollKeys(Anchor(f), Anchor(g));
    if f.FoundObj? && g.FoundColl? {
      assert Apart(f.obj, f.home, g.coll);
    } else if f.FoundColl? && g.FoundObj? {
      assert Apart(g.obj, g.home, f.coll);
    } else if f.FoundObj? && g.FoundObj? && f.Path() == g.Path() {
      assert ObjKeys(f.obj, g.obj);
      assert Placed(cat.colls, f.obj) && Placed(cat.colls, g.obj);
      ComponentHasNoSlash(f.obj.name);
      ComponentHasNoSlash(g.obj.name);
      LastSlashOfJoin(f.home.name, f.obj.name);
      LastSlashOfJoin(g.home.name, g.obj.name);
      assert f.home.name == f.Path()[..|f.home.name|] == g.home.name;
      JoinInjective(f.home.name, f.obj.name, g.obj.name);
    }
  }
}
