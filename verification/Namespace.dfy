/**
 * The iRODS namespace as a value, and what the extractor's operations do to it when no call is refused.
 */
module Namespace {
  import opened Wrappers
  import opened Attributes
  import opened Paths
  import opened Index

  datatype Node =
    | CollNode(avus: set<Avu>)
    | ObjNode(bytes: seq<byte>, mtime: int, avus: set<Avu>)

  type Tree = map<string, Node>

  predicate IsColl(t: Tree, p: string) {
    p in t && t[p].CollNode?
  }

  predicate IsObj(t: Tree, p: string) {
    p in t && t[p].ObjNode?
  }

  function AvusAt(t: Tree, p: string): set<Avu> {
    if p in t then t[p].avus else {}
  }

  /** Creating one collection; an existing path or a missing parent leaves everything as it was. */
  function Mkdir(t: Tree, p: string): Tree {
    if p !in t && IsColl(t, Parent(p)) then t[p := CollNode({})] else t
  }

  /** Creating a collection together with its missing ancestors. */
  function MkdirAll(t: Tree, p: string): Tree
    decreases |p|
  {
    if p in t || |Parent(p)| >= |p| then t
    else Mkdir(MkdirAll(t, Parent(p)), p)
  }

  /** The file can be created or overwritten as this kind of node. */
  predicate Fits(t: Tree, file: string, coll: bool) {
    if file in t then t[file].CollNode? == coll else IsColl(t, Parent(file))
  }

  function NodeOf(m: Member, prior: set<Avu>): Node {
    var avus := Replay(m.item.Avus(), prior);
    if m.item.Coll? then CollNode(avus) else ObjNode(m.bytes, m.item.modified, avus)
  }

  /** The whole effect of extracting one member as `file`: contents, modification time and attributes. */
  function Store(t: Tree, file: string, m: Member): Tree {
    t[file := NodeOf(m, AvusAt(t, file))]
  }

  /** Extracting the members in order below `root`. */
  function StoreAll(t: Tree, root: string, ms: seq<Member>): Tree {
    if ms == [] then t
    else
      var m := ms[|ms| - 1];
      Store(StoreAll(t, root, ms[..|ms| - 1]), Join(root, m.item.name), m)
  }

  /**
   * What refused calls cost one member: its modification time, when the one the server stamped could not be replaced,
   * and the attribute calls of these positions.
   */
  datatype Loss = Loss(stamp: Option<int>, calls: set<nat>)

  const NO_LOSS := Loss(None, {})

  /** A loss that this member can have: of its own calls, and of a time only when it is a data object. */
  ghost predicate LossOf(m: Member, loss: Loss) {
    (forall k :: k in loss.calls ==> k < |m.item.Avus()|) && (m.item.Coll? ==> loss.stamp == None)
  }

  /** The attribute calls that were refused. */
  function Unset(losses: seq<Loss>): nat {
    if losses == [] then 0 else Unset(losses[..|losses| - 1]) + |losses[|losses| - 1].calls|
  }

  /** The modification times that could not be set. */
  function Untimed(losses: seq<Loss>): nat {
    if losses == [] then 0
    else Untimed(losses[..|losses| - 1]) + if losses[|losses| - 1].stamp.Some? then 1 else 0
  }

  function NodeWith(m: Member, prior: set<Avu>, loss: Loss): Node {
    var avus := ReplayOnly(m.item.Avus(), loss.calls, prior);
    if m.item.Coll? then CollNode(avus)
    else ObjNode(m.bytes, if loss.stamp.Some? then loss.stamp.value else m.item.modified, avus)
  }

  function StoreWith(t: Tree, file: string, m: Member, loss: Loss): Tree {
    t[file := NodeWith(m, AvusAt(t, file), loss)]
  }

  /** Extracting the members in order below `root`, each with its loss. */
  function StoreSome(t: Tree, root: string, ms: seq<Member>, losses: seq<Loss>): Tree
    requires |losses| == |ms|
  {
    if ms == [] then t
    else
      var n := |ms| - 1;
      StoreWith(StoreSome(t, root, ms[..n], losses[..n]), Join(root, ms[n].item.name), ms[n], losses[n])
  }

  /** Extracting only `m`: its ancestors are made when its name has any. */
  function StoreOne(t: Tree, root: string, m: Member): Tree {
    Store(Ancestry(t, root, m.item.name), Join(root, m.item.name), m)
  }

  /** A tree without modification times and attributes: collections, and objects with their bytes. */
  function Shape(t: Tree): map<string, Option<seq<byte>>> {
    map p | p in t :: if t[p].CollNode? then None else Some(t[p].bytes)
  }

  /** Nothing is at or below `root` yet, and `root` itself can be created. */
  ghost predicate Fresh(t: Tree, root: string) {
    root !in t && IsColl(t, Parent(root)) && forall p :: p in t ==> !IsBelow(p, root)
  }

  ghost function Files(root: string, ms: seq<Member>): set<string> {
    set k | 0 <= k < |ms| :: Join(root, ms[k].item.name)
  }

  /** The bytes an archive of `origin` stores for an item. */
  function BytesAt(t: Tree, origin: string, item: Item): seq<byte> {
    if item.DataObj? && IsObj(t, Join(origin, item.name)) then t[Join(origin, item.name)].bytes else []
  }

  /** The index items with the contents their paths hold. */
  function MembersOf(t: Tree, origin: string, items: seq<Item>): (ms: seq<Member>)
    ensures ItemsOf(ms) == items
    ensures forall k :: 0 <= k < |items| ==> ms[k] == Member(items[k], BytesAt(t, origin, items[k]))
  {
    seq(|items|, k requires 0 <= k < |items| => Member(items[k], BytesAt(t, origin, items[k])))
  }

  /** `u` is `t` with a data object of these bytes at `file`, keeping the attributes `file` had. */
  ghost predicate Overwritten(t: Tree, u: Tree, file: string, bytes: seq<byte>) {
    IsObj(u, file) && u == t[file := ObjNode(bytes, u[file].mtime, AvusAt(t, file))]
  }

  /**
   * What a member whose extraction failed leaves: everything as it was, or its data object with the first of its
   * bytes and the attributes the path had.
   */
  ghost predicate Disturbed(t: Tree, u: Tree, file: string, m: Member) {
    u == t ||
    (m.item.DataObj? && IsObj(u, file) && (file in t ==> IsObj(t, file)) &&
     u[file].bytes <= m.bytes && Overwritten(t, u, file, u[file].bytes))
  }

  lemma {:induction false} OverwrittenAgain(t: Tree, u: Tree, v: Tree, file: string, bytes: seq<byte>)
    requires IsObj(u, file) && Overwritten(t, u, file, u[file].bytes) && Overwritten(u, v, file, bytes)
    ensures Overwritten(t, v, file, bytes)
  {
  }

  // ---- frame ----

  lemma {:induction false} FilesStep(root: string, ms: seq<Member>, k: nat)
    requires k < |ms|
    ensures Files(root, ms[..k + 1]) == Files(root, ms[..k]) + {Join(root, ms[k].item.name)}
  {
    assert forall i :: 0 <= i < k ==> ms[..k + 1][i] == ms[..k][i];
    forall f | f in Files(root, ms[..k + 1])
      ensures f in Files(root, ms[..k]) + {Join(root, ms[k].item.name)}
    {
      var i :| 0 <= i < k + 1 && Join(root, ms[..k + 1][i].item.name) == f;
      if i < k {
        assert Join(root, ms[..k][i].item.name) == f;
      }
    }
    forall f | f in Files(root, ms[..k])
      ensures f in Files(root, ms[..k + 1])
    {
      var i :| 0 <= i < k && Join(root, ms[..k][i].item.name) == f;
      assert Join(root, ms[..k + 1][i].item.name) == f;
    }
    assert Join(root, ms[..k + 1][k].item.name) in Files(root, ms[..k + 1]);
  }

  /**
   * Whatever is lost, extraction touches only the paths of the members, and there only the attribute names listed
   * for them.
   */
  lemma {:induction false} SomeFrame(t: Tree, root: string, ms: seq<Member>, losses: seq<Loss>, p: string)
    requires |losses| == |ms|
    ensures p !in Files(root, ms) ==>
              (p in StoreSome(t, root, ms, losses) <==> p in t) &&
              (p in t ==> StoreSome(t, root, ms, losses)[p] == t[p])
    ensures p in Files(root, ms) ==> p in StoreSome(t, root, ms, losses)
    ensures forall a: Avu ::
              (forall k :: 0 <= k < |ms| && Join(root, ms[k].item.name) == p ==> !Listed(ms[k].item.Avus(), a.name)) ==>
              (a in AvusAt(StoreSome(t, root, ms, losses), p) <==> a in AvusAt(t, p))
  {
    hide Join, ReplayOnly, Listed;
    if ms != [] {
      var n := |ms| - 1;
      SomeFrame(t, root, ms[..n], losses[..n], p);
      FilesStep(root, ms, n);
      assert ms[..n + 1] == ms;
    }
    forall a: Avu | forall k :: 0 <= k < |ms| && Join(root, ms[k].item.name) == p ==> !Listed(ms[k].item.Avus(), a.name)
      ensures a in AvusAt(StoreSome(t, root, ms, losses), p) <==> a in AvusAt(t, p)
    {
      SomeAvus(t, root, ms, losses, p, a);
    }
  }

  lemma {:induction false} SomeAvus(t: Tree, root: string, ms: seq<Member>, losses: seq<Loss>, p: string, a: Avu)
    requires |losses| == |ms|
    requires forall k :: 0 <= k < |ms| && Join(root, ms[k].item.name) == p ==> !Listed(ms[k].item.Avus(), a.name)
    ensures a in AvusAt(StoreSome(t, root, ms, losses), p) <==> a in AvusAt(t, p)
  {
    hide Join, ReplayOnly, Listed;
    if ms != [] {
      var n := |ms| - 1;
      SomeAvus(t, root, ms[..n], losses[..n], p, a);
      if Join(root, ms[n].item.name) == p {
        UnlistedKept(ms[n].item.Avus(), losses[n].calls, AvusAt(StoreSome(t, root, ms[..n], losses[..n]), p), a);
      }
    }
  }

  lemma {:induction false} CountsSnoc(losses: seq<Loss>, loss: Loss)
    ensures Unset(losses + [loss]) == Unset(losses) + |loss.calls|
    ensures Untimed(losses + [loss]) == Untimed(losses) + if loss.stamp.Some? then 1 else 0
  {
    assert (losses + [loss])[..|losses|] == losses;
  }

  /** The counts are zero if and only if no member lost any of that kind. */
  lemma {:induction false} CountsZero(losses: seq<Loss>)
    ensures Unset(losses) == 0 <==> forall k :: 0 <= k < |losses| ==> losses[k].calls == {}
    ensures Untimed(losses) == 0 <==> forall k :: 0 <= k < |losses| ==> losses[k].stamp == None
    ensures Unset(losses) == 0 && Untimed(losses) == 0 <==> forall k :: 0 <= k < |losses| ==> losses[k] == NO_LOSS
  {
    if losses != [] {
      var n := |losses| - 1;
      CountsZero(losses[..n]);
      assert losses == losses[..n] + [losses[n]];
      assert |losses[n].calls| == 0 <==> losses[n].calls == {};
    }
  }

  function NoLosses(n: nat): (losses: seq<Loss>)
    ensures |losses| == n && forall k :: 0 <= k < n ==> losses[k] == NO_LOSS
  {
    seq(n, _ => NO_LOSS)
  }

  /** Without losses, everything is stored. */
  lemma {:induction false} SomeIsAll(t: Tree, root: string, ms: seq<Member>, losses: seq<Loss>)
    requires |losses| == |ms| && forall k :: 0 <= k < |ms| ==> losses[k] == NO_LOSS
    ensures StoreSome(t, root, ms, losses) == StoreAll(t, root, ms)
  {
    if ms != [] {
      var n := |ms| - 1;
      SomeIsAll(t, root, ms[..n], losses[..n]);
      ReplayNothingLost(ms[n].item.Avus(), {}, AvusAt(StoreAll(t, root, ms[..n]), Join(root, ms[n].item.name)));
    }
  }

  /** Collections, objects and bytes do not depend on the losses. */
  lemma {:induction false} SomeShape(t: Tree, root: string, ms: seq<Member>, losses: seq<Loss>)
    requires |losses| == |ms|
    ensures Shape(StoreSome(t, root, ms, losses)) == Shape(StoreAll(t, root, ms))
  {
    hide ReplayOnly, Replay, Join;
    if ms != [] {
      var n := |ms| - 1;
      var u, v := StoreSome(t, root, ms[..n], losses[..n]), StoreAll(t, root, ms[..n]);
      SomeShape(t, root, ms[..n], losses[..n]);
      var f := Join(root, ms[n].item.name);
      ShapeAt(u, f, NodeWith(ms[n], AvusAt(u, f), losses[n]));
      ShapeAt(v, f, NodeOf(ms[n], AvusAt(v, f)));
    }
  }

  lemma {:induction false} ShapeAt(t: Tree, p: string, n: Node)
    ensures Shape(t[p := n]) == Shape(t)[p := if n.CollNode? then None else Some(n.bytes)]
  {
  }

  lemma {:induction false} SomeLast(t: Tree, root: string, ms: seq<Member>, losses: seq<Loss>, loss: Loss)
    requires |losses| < |ms|
    ensures var k := |losses|;
            StoreSome(t, root, ms[..k + 1], losses + [loss]) ==
            StoreWith(StoreSome(t, root, ms[..k], losses), Join(root, ms[k].item.name), ms[k], loss)
  {
    var k := |losses|;
    assert ms[..k + 1][..k] == ms[..k] && (losses + [loss])[..k] == losses;
  }

  /** Extraction touches only the paths of the members, and there only the listed attribute names. */
  lemma {:induction false} StoreAllFrame(t: Tree, root: string, ms: seq<Member>, p: string)
    ensures p !in Files(root, ms) ==>
              (p in StoreAll(t, root, ms) <==> p in t) && (p in t ==> StoreAll(t, root, ms)[p] == t[p])
    ensures p in Files(root, ms) ==> p in StoreAll(t, root, ms)
    ensures forall a: Avu ::
              (forall k :: 0 <= k < |ms| && Join(root, ms[k].item.name) == p ==> !Listed(ms[k].item.Avus(), a.name)) ==>
              (a in AvusAt(StoreAll(t, root, ms), p) <==> a in AvusAt(t, p))
  {
    hide Join, Listed, StoreSome, StoreAll;
    SomeIsAll(t, root, ms, NoLosses(|ms|));
    SomeFrame(t, root, ms, NoLosses(|ms|), p);
  }

  // ---- extraction of members with different names ----

  lemma {:induction false} FilesDiffer(root: string, ms: seq<Member>, k: nat)
    requires DistinctNames(ItemsOf(ms)) && k < |ms|
    ensures Join(root, ms[k].item.name) !in Files(root, ms[..k])
  {
    forall i | 0 <= i < k
      ensures Join(root, ms[..k][i].item.name) != Join(root, ms[k].item.name)
    {
      assert ItemsOf(ms)[i].name != ItemsOf(ms)[k].name;
      JoinInjective(root, ms[i].item.name, ms[k].item.name);
    }
  }

  /** Every member ends with its own kind, bytes and time, and its attributes replayed over what the path held. */
  lemma {:induction false} SomeAt(t: Tree, root: string, ms: seq<Member>, losses: seq<Loss>, k: nat)
    requires |losses| == |ms| && DistinctNames(ItemsOf(ms)) && k < |ms|
    ensures var f := Join(root, ms[k].item.name);
            f in StoreSome(t, root, ms, losses) &&
            StoreSome(t, root, ms, losses)[f] == NodeWith(ms[k], AvusAt(t, f), losses[k])
  {
    hide Join, NodeWith;
    var n := |ms| - 1;
    var pre, f := ms[..n], Join(root, ms[k].item.name);
    assert forall i :: 0 <= i < n ==> ItemsOf(pre)[i] == ItemsOf(ms)[i];
    if k < n {
      SomeAt(t, root, pre, losses[..n], k);
      assert ItemsOf(ms)[k].name != ItemsOf(ms)[n].name;
      JoinInjective(root, ms[k].item.name, ms[n].item.name);
    } else {
      SomeFrame(t, root, pre, losses[..n], f);
      FilesDiffer(root, ms, k);
    }
  }

  lemma {:induction false} StoreAllAt(t: Tree, root: string, ms: seq<Member>, k: nat)
    requires DistinctNames(ItemsOf(ms)) && k < |ms|
    ensures var f := Join(root, ms[k].item.name);
            f in StoreAll(t, root, ms) && StoreAll(t, root, ms)[f] == NodeOf(ms[k], AvusAt(t, f))
  {
    hide StoreAll, StoreSome, Join;
    var f := Join(root, ms[k].item.name);
    SomeIsAll(t, root, ms, NoLosses(|ms|));
    SomeAt(t, root, ms, NoLosses(|ms|), k);
    ReplayNothingLost(ms[k].item.Avus(), {}, AvusAt(t, f));
  }

  /**
   * After a full extraction, extracting the same members again finds every path already there in its kind,
   * and leaves everything as it is after each item.
   */
  lemma {:induction false} ExtractionIdempotent(t: Tree, root: string, ms: seq<Member>, k: nat)
    requires DistinctNames(ItemsOf(ms)) && k <= |ms|
    ensures var once := StoreAll(t, root, ms);
            StoreAll(once, root, ms[..k]) == once &&
            (k < |ms| ==> Fits(once, Join(root, ms[k].item.name), ms[k].item.Coll?))
  {
    hide StoreAll, Store, NodeOf, AvusAt, Join, ItemsOf, DistinctNames;
    var once := StoreAll(t, root, ms);
    if k < |ms| {
      StoreAllAt(t, root, ms, k);
      NodeFits(once, Join(root, ms[k].item.name), ms[k], AvusAt(t, Join(root, ms[k].item.name)));
    }
    if k > 0 {
      var f := Join(root, ms[k - 1].item.name);
      ExtractionIdempotent(t, root, ms, k - 1);
      StoreAllAt(t, root, ms, k - 1);
      StoreAgain(once, f, ms[k - 1], AvusAt(t, f));
      StoreAllLast(once, root, ms, k - 1);
    } else {
      StoreNone(once, root, ms);
    }
  }

  lemma {:induction false} StoreNone(t: Tree, root: string, ms: seq<Member>)
    ensures StoreAll(t, root, ms[..0]) == t
  {
  }

  lemma {:induction false} NodeFits(t: Tree, file: string, m: Member, prior: set<Avu>)
    requires file in t && t[file] == NodeOf(m, prior)
    ensures Fits(t, file, m.item.Coll?)
  {
  }

  /** What was stored once is stored again without change. */
  lemma {:induction false} StoreAgain(t: Tree, file: string, m: Member, prior: set<Avu>)
    requires file in t && t[file] == NodeOf(m, prior)
    ensures Store(t, file, m) == t
  {
    ReplayIdempotent(m.item.Avus(), prior);
    assert t[file := t[file]] == t;
  }

  lemma {:induction false} StoreAllLast(t: Tree, root: string, ms: seq<Member>, k: nat)
    requires k < |ms|
    ensures StoreAll(t, root, ms[..k + 1]) ==
            Store(StoreAll(t, root, ms[..k]), Join(root, ms[k].item.name), ms[k])
  {
    assert ms[..k + 1][..k] == ms[..k];
  }

  /**
   * After a full extraction with any losses, extracting the members again finds every path in its kind, and with any
   * further losses changes neither collections, objects nor bytes.
   */
  lemma {:induction false} ExtractedAgain(t: Tree, root: string, ms: seq<Member>, losses: seq<Loss>, again: seq<Loss>)
    requires DistinctNames(ItemsOf(ms)) && |losses| == |ms| && |again| <= |ms|
    ensures var once, k := StoreSome(t, root, ms, losses), |again|;
            Shape(StoreSome(once, root, ms[..k], again)) == Shape(once) &&
            (k < |ms| ==> Fits(once, Join(root, ms[k].item.name), ms[k].item.Coll?))
    decreases |again|
  {
    hide StoreSome, NodeWith, AvusAt, Join, ItemsOf, DistinctNames, Shape;
    var once, k := StoreSome(t, root, ms, losses), |again|;
    if k < |ms| {
      var f := Join(root, ms[k].item.name);
      SomeAt(t, root, ms, losses, k);
      NodeWithFits(once, f, ms[k], AvusAt(t, f), losses[k]);
    }
    if k > 0 {
      var f, before := Join(root, ms[k - 1].item.name), again[..k - 1];
      ExtractedAgain(t, root, ms, losses, before);
      SomeLast(once, root, ms, before, again[k - 1]);
      assert before + [again[k - 1]] == again;
      SomeAt(t, root, ms, losses, k - 1);
      var u := StoreSome(once, root, ms[..k - 1], before);
      SameShapeStored(once, u, f, ms[k - 1], AvusAt(t, f), losses[k - 1], again[k - 1]);
    } else {
      SomeNone(once, root, ms, again);
    }
  }

  lemma {:induction false} NodeWithFits(t: Tree, file: string, m: Member, prior: set<Avu>, loss: Loss)
    requires file in t && t[file] == NodeWith(m, prior, loss)
    ensures Fits(t, file, m.item.Coll?)
  {
  }

  lemma {:induction false} SomeNone(t: Tree, root: string, ms: seq<Member>, losses: seq<Loss>)
    requires |losses| == 0
    ensures StoreSome(t, root, ms[..0], losses) == t
  {
  }

  lemma {:induction false} SameShapeStored(t: Tree, u: Tree, file: string, m: Member, prior: set<Avu>, loss: Loss,
                                           again: Loss)
    requires Shape(u) == Shape(t) && file in t && t[file] == NodeWith(m, prior, loss)
    ensures Shape(StoreWith(u, file, m, again)) == Shape(t)
  {
    ShapeAt(u, file, NodeWith(m, AvusAt(u, file), again));
    assert Shape(t)[file := Shape(t)[file]] == Shape(t);
  }

  /** A complete extraction makes up for all that was lost in an earlier one. */
  lemma {:induction false} ExtractionRepairs(t: Tree, root: string, ms: seq<Member>, losses: seq<Loss>)
    requires DistinctNames(ItemsOf(ms)) && |losses| == |ms|
    ensures StoreAll(StoreSome(t, root, ms, losses), root, ms) == StoreAll(t, root, ms)
  {
    hide StoreAll, StoreSome, DistinctNames, ItemsOf;
    var once := StoreSome(t, root, ms, losses);
    var u, v := StoreAll(once, root, ms), StoreAll(t, root, ms);
    forall p
      ensures (p in u <==> p in v) && (p in u ==> u[p] == v[p])
    {
      SomeFrame(t, root, ms, losses, p);
      StoreAllFrame(once, root, ms, p);
      StoreAllFrame(t, root, ms, p);
      if p in Files(root, ms) {
        var k :| 0 <= k < |ms| && Join(root, ms[k].item.name) == p;
        SomeAt(t, root, ms, losses, k);
        StoreAllAt(once, root, ms, k);
        StoreAllAt(t, root, ms, k);
        ReplayRepairs(ms[k].item.Avus(), losses[k].calls, AvusAt(t, p));
      }
    }
    assert u == v;
  }

  /** The target collection is made at most once. */
  lemma {:induction false} MkdirOnce(t: Tree, root: string, ms: seq<Member>, losses: seq<Loss>)
    requires root != "" && |losses| == |ms|
    ensures var once := StoreSome(Mkdir(t, root), root, ms, losses);
            Mkdir(once, root) == once
  {
    var t1 := Mkdir(t, root);
    SomeFrame(t1, root, ms, losses, root);
    SomeFrame(t1, root, ms, losses, Parent(root));
    forall k | 0 <= k < |ms|
      ensures Join(root, ms[k].item.name) != Parent(root)
    {
      assert |Join(root, ms[k].item.name)| > |root|;
    }
  }

  /**
   * Into a fresh target, a list with parents before children never meets a missing parent
   * or a node of another kind.
   */
  lemma {:induction false} FreshExtractionFits(t: Tree, root: string, ms: seq<Member>, k: nat)
    requires root != "" && Fresh(t, root) && k < |ms|
    requires ParentFirst(ItemsOf(ms)) && DistinctNames(ItemsOf(ms))
    ensures Fits(StoreAll(Mkdir(t, root), root, ms[..k]), Join(root, ms[k].item.name), ms[k].item.Coll?)
  {
    var t1, items, name := Mkdir(t, root), ItemsOf(ms), ms[k].item.name;
    var pre, f := ms[..k], Join(root, ms[k].item.name);
    var now := StoreAll(t1, root, pre);
    assert forall i :: 0 <= i < k ==> ItemsOf(pre)[i] == items[i];
    JoinIsBelow(root, name);
    ParentOfJoin(root, name);
    // the file itself is not there yet
    StoreAllFrame(t1, root, pre, f);
    FilesDiffer(root, ms, k);
    assert f !in now;
    // its parent is
    if LastSlash(name) < 0 {
      StoreAllFrame(t1, root, pre, root);
      assert forall i :: 0 <= i < k ==> |Join(root, pre[i].item.name)| > |root|;
    } else {
      var j := ParentIndex(items, k);
      assert pre[j].item == items[j];
      StoreAllAt(t1, root, pre, j);
    }
  }

  // ---- single-item extraction ----

  /** Recursive creation adds only empty collections, each of them `p` or an ancestor of `p` below `base`. */
  lemma {:induction false} MkdirAllMeaning(t: Tree, base: string, rel: string)
    requires base != "" && IsColl(t, base)
    requires forall q :: q in t && IsBelow(q, base) ==> t[q].CollNode?
    ensures var p, u := Join(base, rel), MkdirAll(t, Join(base, rel));
            IsColl(u, p) &&
            (forall q :: q in t ==> q in u && u[q] == t[q]) &&
            (forall q :: q in u && q !in t ==>
              u[q] == CollNode({}) && IsBelow(q, base) && (q == p || IsBelow(p, q)))
    decreases |rel|
  {
    var p, i := Join(base, rel), LastSlash(rel);
    JoinIsBelow(base, rel);
    ParentOfJoin(base, rel);
    if p !in t {
      if i >= 0 {
        MkdirAllMeaning(t, base, rel[..i]);
        var q := Join(base, rel[..i]);
        var u := MkdirAll(t, q);
        assert Parent(p) == q;
        AboveJoin(base, rel, i);
        forall x | x in u && x !in t
          ensures IsBelow(p, x)
        {
          if x != q {
            BelowTransitive(p, q, x);
          }
        }
      } else {
        assert Parent(p) == base;
        assert MkdirAll(t, base) == t;
      }
    }
  }

  lemma {:induction false} AboveJoin(base: string, rel: string, i: nat)
    requires i < |rel| && rel[i] == '/'
    ensures IsBelow(Join(base, rel), Join(base, rel[..i]))
  {
    assert Join(base, rel)[..|base| + 1 + i + 1] == Join(base, rel[..i]) + "/";
  }

  /** What is in place when the one item `name` is extracted: `t` and, at most, empty ancestors of `name`. */
  function Ancestry(t: Tree, root: string, name: string): Tree {
    var i := LastSlash(name);
    if i >= 0 then MkdirAll(t, Join(root, name[..i])) else t
  }

  /** `u` is `t` with nothing added but empty collections: `p` and ancestors of it. */
  ghost predicate WithAncestors(t: Tree, u: Tree, p: string) {
    && (forall q :: q in t ==> q in u && u[q] == t[q])
    && (forall q :: q in u && q !in t ==> u[q] == CollNode({}) && (q == p || IsBelow(p, q)))
  }

  /** In any tree, recursive creation adds nothing but empty collections: the path and ancestors of it. */
  lemma {:induction false} MkdirAllFrame(t: Tree, p: string)
    ensures WithAncestors(t, MkdirAll(t, p), p)
    decreases |p|
  {
    if p !in t && |Parent(p)| < |p| {
      MkdirAllFrame(t, Parent(p));
      forall q | q in MkdirAll(t, Parent(p)) && q !in t
        ensures IsBelow(p, q)
      {
        ParentIsAbove(t, p, q);
      }
    }
  }

  lemma {:induction false} ParentIsAbove(t: Tree, p: string, q: string)
    requires |Parent(p)| < |p| && q in MkdirAll(t, Parent(p)) && q !in t
    requires q == Parent(p) || IsBelow(Parent(p), q)
    ensures IsBelow(p, q)
  {
    if Parent(p) != "/" {
      assert IsBelow(p, Parent(p));
      if q != Parent(p) {
        BelowTransitive(p, Parent(p), q);
      }
    }
  }

  /** Ancestors of a path above the file are ancestors of the file. */
  lemma {:induction false} AncestorsOfAbove(t: Tree, u: Tree, file: string, p: string)
    requires WithAncestors(t, u, p) && IsBelow(file, p)
    ensures WithAncestors(t, u, file)
  {
    forall q | q in u && q !in t && q != p
      ensures IsBelow(file, q)
    {
      BelowTransitive(file, p, q);
    }
  }

  /** In any tree, making the ancestors of an item adds nothing but empty collections above it. */
  lemma {:induction false} AncestryFrame(t: Tree, root: string, name: string)
    ensures WithAncestors(t, Ancestry(t, root, name), Join(root, name))
  {
    var i := LastSlash(name);
    if i >= 0 {
      var p := Join(root, name[..i]);
      MkdirAllFrame(t, p);
      AboveJoin(root, name, i);
      AncestorsOfAbove(t, MkdirAll(t, p), Join(root, name), p);
    }
  }

  lemma {:induction false} AncestryMeaning(t: Tree, root: string, name: string)
    requires root != "" && IsColl(t, root)
    requires forall q :: q in t ==> !IsBelow(q, root)
    ensures var f, u := Join(root, name), Ancestry(t, root, name);
            IsBelow(f, root) && f !in u && IsColl(u, Parent(f)) &&
            (forall q :: q in t ==> q in u && u[q] == t[q]) &&
            (forall q :: q in u && q !in t ==> u[q] == CollNode({}) && IsBelow(q, root) && IsBelow(f, q))
  {
    var f, i := Join(root, name), LastSlash(name);
    JoinIsBelow(root, name);
    ParentOfJoin(root, name);
    if i >= 0 {
      var q := Join(root, name[..i]);
      MkdirAllMeaning(t, root, name[..i]);
      AboveJoin(root, name, i);
      forall p | p in MkdirAll(t, q) && p !in t
        ensures IsBelow(f, p)
      {
        if p != q {
          BelowTransitive(f, q, p);
        }
      }
      assert forall p :: IsBelow(f, p) ==> |p| < |f|;
    }
  }

  /**
   * Extracting one item of an archive into a fresh target meets no missing parent, gives the node a
   * full extraction gives, and besides it creates only the target and empty ancestor collections of the item.
   */
  lemma {:induction false} SingleRefinesFull(t: Tree, root: string, ms: seq<Member>, k: nat, f: string, one: Tree)
    requires root != "" && Fresh(t, root) && k < |ms|
    requires DistinctNames(ItemsOf(ms))
    requires f == Join(root, ms[k].item.name) && one == StoreOne(Mkdir(t, root), root, ms[k])
    ensures Fits(Ancestry(Mkdir(t, root), root, ms[k].item.name), f, ms[k].item.Coll?)
    ensures f in one && f in StoreAll(Mkdir(t, root), root, ms) && one[f] == StoreAll(Mkdir(t, root), root, ms)[f]
    ensures forall p :: p in t ==> p in one && one[p] == t[p]
    ensures forall p :: p in one && p !in t && p != f ==>
              one[p] == CollNode({}) && (p == root || (IsBelow(p, root) && IsBelow(f, p)))
  {
    var t1 := Mkdir(t, root);
    StoreAllAt(t1, root, ms, k);
    AncestryMeaning(t1, root, ms[k].item.name);
  }
}
