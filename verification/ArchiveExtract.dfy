/** `msiArchiveExtract`: the space guard, the extraction loop and the replay of metadata. */
module ArchiveExtract {
  import opened Wrappers
  import opened Attributes
  import opened Blocks
  import opened Paths
  import opened Index
  import opened Namespace
  import opened Server
  import opened Archive

  // ---- metadata ----

  /**
   * `attributes`: the first of a run of equal names is set, the others are added; refusals are passed over, and
   * leave everything as the other calls make it.
   */
  method ReplayAttributes(server: Server, file: string, coll: bool, list: seq<Avu>) returns (ghost lost: set<nat>)
    requires file in server.tree && server.tree[file].CollNode? == coll
    modifies server`tree, server`refused, server`codes, server`unset
    ensures server.Onward() && server.refused - old(server.refused) == server.unset - old(server.unset) == |lost|
    ensures forall k :: k in lost ==> k < |list|
    ensures var n := old(server.tree)[file];
            server.tree == old(server.tree)[file := n.(avus := ReplayOnly(list, lost, n.avus))]
  {
    hide ReplayOnly, Without;
    var name: Option<string> := None;
    ghost var t := server.tree;
    lost := {};
    NothingToReplay(t, file);
    for i := 0 to |list|
      invariant server.Onward()
      invariant server.refused - old(server.refused) == server.unset - old(server.unset) == |lost|
      invariant name == if i == 0 then None else Some(list[i - 1].name)
      invariant forall k :: k in lost ==> k < i
      invariant server.tree == t[file := t[file].(avus := ReplayOnly(list[..i], lost, t[file].avus))]
    {
      var op := if name == None || list[i].name != name.value then Set else Add;
      name := Some(list[i].name);
      ghost var unset := server.unset;
      ReplayOnlyNext(list, lost, t[file].avus, i);
      AvusTwice(t, file, ReplayOnly(list[..i], lost, t[file].avus));
      var _ := server.ModifyAvu(op, coll, file, list[i]);
      if server.unset > unset {
        lost := lost + {i};
      }
    }
    assert list[..|list|] == list;
  }

  /** Modification time and attributes of what was extracted, as far as the server allows. */
  method SetMetadata(server: Server, file: string, item: Item) returns (ghost loss: Loss)
    requires file in server.tree && server.tree[file].CollNode? == item.Coll?
    modifies server`tree, server`refused, server`codes, server`untimed, server`unset
    ensures server.Onward()
    ensures server.unset - old(server.unset) == |loss.calls|
    ensures server.untimed - old(server.untimed) == if loss.stamp.Some? then 1 else 0
    ensures server.refused - old(server.refused) ==
            (server.untimed - old(server.untimed)) + (server.unset - old(server.unset))
    ensures LossOf(Member(item, BytesOf(old(server.tree)[file])), loss)
    ensures var n := old(server.tree)[file];
            server.tree == old(server.tree)[file := NodeWith(Member(item, BytesOf(n)), n.avus, loss)]
  {
    hide ReplayOnly;
    ghost var t := server.tree;
    ghost var stamp: Option<int>, lost: set<nat> := None, {};
    if item.DataObj? {
      ghost var untimed := server.untimed;
      var _ := server.ModifyTime(file, item.modified);
      stamp := if server.untimed > untimed then Some(t[file].mtime) else None;
    }
    if item.attributes.Some? {
      lost := ReplayAttributes(server, file, item.Coll?, item.attributes.value);
    } else {
      NothingToReplay(server.tree, file);
    }
    loss := Loss(stamp, lost);
  }

  lemma {:induction false} AvusTwice(t: Tree, file: string, avus: set<Avu>)
    requires file in t
    ensures var u := t[file := t[file].(avus := avus)];
            forall now :: u[file := u[file].(avus := now)] == t[file := t[file].(avus := now)]
  {
  }

  lemma {:induction false} NothingToReplay(t: Tree, file: string)
    requires file in t
    ensures ReplayOnly([], {}, t[file].avus) == t[file].avus && t[file := t[file].(avus := t[file].avus)] == t
  {
    assert t[file := t[file]] == t;
  }

  function BytesOf(n: Node): seq<byte> {
    if n.ObjNode? then n.bytes else []
  }

  /**
   * One item: its content, and once that is there its metadata, all of it but what is refused. A failure leaves at
   * most a part of its bytes, and asks for no metadata.
   */
  method ExtractMember(a: Archive, server: Server, file: string, item: Item) returns (status: int, ghost loss: Loss)
    requires a.Valid() && !a.creating && a.server == server && a.index > 0 && a.archive.offset == 0 && server.Idle()
    requires item == a.members[a.index - 1].item
    modifies a.archive`offset, server`tree, server`desc, server`written
    modifies server`refused, server`codes, server`untimed, server`unset
    ensures a.Valid() && server.Idle() && server.Onward() && status <= 0
    ensures server.unset - old(server.unset) == |loss.calls|
    ensures server.untimed - old(server.untimed) == if loss.stamp.Some? then 1 else 0
    ensures LossOf(a.members[a.index - 1], loss)
    ensures status == 0 ==>
              Fits(old(server.tree), file, item.Coll?) &&
              server.tree == StoreWith(old(server.tree), file, a.members[a.index - 1], loss)
    ensures status < 0 ==> loss == NO_LOSS && Disturbed(old(server.tree), server.tree, file, a.members[a.index - 1])
    ensures status < 0 ==> server.Failed(status) || !Fits(old(server.tree), file, item.Coll?)
    ensures old(server.written) <= server.written
    ensures server.written <= old(server.written) +
              if item.Coll? then 0 else Occupied(|a.members[a.index - 1].bytes|)
  {
    hide Held, ItemsOf, StoreWith, Fits, NodeWith, Disturbed;
    ghost var t, m := server.tree, a.members[a.index - 1];
    loss := NO_LOSS;
    status := a.ExtractItem(file);
    if status == 0 {
      ghost var u := server.tree;
      loss := SetMetadata(server, file, item);
      ExtractedStored(t, u, file, m, loss);
    }
  }

  lemma {:induction false} ExtractedStored(t: Tree, u: Tree, file: string, m: Member, loss: Loss)
    requires Extracted(t, u, file, m)
    ensures file in u
    ensures u[file := NodeWith(Member(m.item, BytesOf(u[file])), u[file].avus, loss)] == StoreWith(t, file, m, loss)
  {
  }

  // ---- the loop ----

  /** The path of member `k`, and the members before it in place: it can be created or overwritten as what it is. */
  ghost predicate FitsAt(base: Tree, root: string, ms: seq<Member>, k: nat)
    requires k < |ms|
  {
    Fits(StoreAll(base, root, ms[..k]), Join(root, ms[k].item.name), ms[k].item.Coll?)
  }

  ghost predicate FitUpTo(base: Tree, root: string, ms: seq<Member>, k: nat) {
    k <= |ms| && forall i :: 0 <= i < k ==> FitsAt(base, root, ms, i)
  }

  /** `u` is what extracting the first `k` members, each with its loss, makes of `base`. */
  ghost predicate Restoring(base: Tree, u: Tree, root: string, ms: seq<Member>, k: nat, losses: seq<Loss>) {
    && FitUpTo(base, root, ms, k) && |losses| == k && u == StoreSome(base, root, ms[..k], losses)
    && forall i :: 0 <= i < k ==> LossOf(ms[i], losses[i])
  }

  lemma {:induction false} RestoringStart(base: Tree, root: string, ms: seq<Member>)
    ensures Restoring(base, base, root, ms, 0, [])
  {
  }

  lemma {:induction false} RestoringStep(base: Tree, u: Tree, v: Tree, root: string, ms: seq<Member>, k: nat,
                                         losses: seq<Loss>, loss: Loss)
    requires k < |ms| && Restoring(base, u, root, ms, k, losses)
    requires Fits(u, Join(root, ms[k].item.name), ms[k].item.Coll?)
    requires v == StoreWith(u, Join(root, ms[k].item.name), ms[k], loss) && LossOf(ms[k], loss)
    ensures Restoring(base, v, root, ms, k + 1, losses + [loss])
  {
    hide StoreWith, StoreSome, StoreAll, Fits, Join;
    SomeLast(base, root, ms, losses, loss);
    FitsSome(base, root, ms, k, losses);
  }

  /** Whether a member fits does not depend on what was lost before. */
  lemma {:induction false} FitsSome(base: Tree, root: string, ms: seq<Member>, k: nat, losses: seq<Loss>)
    requires k < |ms| && |losses| == k
    ensures FitsAt(base, root, ms, k) <==>
            Fits(StoreSome(base, root, ms[..k], losses), Join(root, ms[k].item.name), ms[k].item.Coll?)
  {
    SomeShape(base, root, ms[..k], losses);
    FitsByShape(StoreSome(base, root, ms[..k], losses), StoreAll(base, root, ms[..k]),
                Join(root, ms[k].item.name), ms[k].item.Coll?);
  }

  /** Whether a path fits depends on no bytes, times or attributes. */
  lemma {:induction false} FitsByShape(u: Tree, w: Tree, file: string, coll: bool)
    requires Shape(u) == Shape(w)
    ensures Fits(u, file, coll) <==> Fits(w, file, coll)
  {
    forall p
      ensures (p in u <==> p in w) && (p in u ==> u[p].CollNode? == w[p].CollNode?)
    {
      assert p in u <==> p in Shape(u);
      assert p in w <==> p in Shape(w);
      assert p in u ==> Shape(u)[p] == Shape(w)[p];
    }
  }

  /** The first member of this name. */
  ghost predicate FirstNamed(ms: seq<Member>, name: string, k: nat) {
    k < |ms| && ms[k].item.name == name && NoneNamed(ms, name, k)
  }

  ghost predicate NoneNamed(ms: seq<Member>, name: string, k: nat)
    requires k <= |ms|
  {
    forall i :: 0 <= i < k ==> ms[i].item.name != name
  }

  /** The single-file space check. */
  predicate TooBig(space: int, item: Item) {
    space != 0 && item.Size() > space - space / 10
  }

  /**
   * How a full extraction ends: with the first `done` members in place, all of them if and only if the `whole`
   * container was read; or stopped at member `done`. What is in place is exact but for the losses of each member.
   */
  ghost predicate FullOutcome(base: Tree, u: Tree, root: string, ms: seq<Member>, done: nat, status: int,
                              losses: seq<Loss>, told: bool, whole: bool) {
    if status == 0 then
      Restoring(base, u, root, ms, done, losses) && (whole <==> done == |ms|)
    else
      Halted(base, u, root, ms, done, losses, told)
  }

  /**
   * Stopped at a member whose path does not fit, unless the status tells of a refused call (`told`): those before are
   * in place, its own path has perhaps a part of its bytes, and nothing after was touched.
   */
  ghost predicate Halted(base: Tree, u: Tree, root: string, ms: seq<Member>, done: nat, losses: seq<Loss>, told: bool) {
    && done < |ms| && |losses| == done && FitUpTo(base, root, ms, done) && (told || !FitsAt(base, root, ms, done))
    && Disturbed(StoreSome(base, root, ms[..done], losses), u, Join(root, ms[done].item.name), ms[done])
  }

  /** How the extraction of the one item ends when `v` is what its file is created in. */
  ghost predicate OneFrom(v: Tree, u: Tree, file: string, m: Member, status: int, loss: Loss, told: bool) {
    if status == 0 then
      Fits(v, file, m.item.Coll?) && u == StoreWith(v, file, m, loss) && LossOf(m, loss)
    else
      Disturbed(v, u, file, m) && (told || !Fits(v, file, m.item.Coll?))
  }

  /**
   * How the extraction of the one item ends once it is found. When no call but for its metadata was refused (`same`)
   * all its ancestors are there; otherwise perhaps only some.
   */
  ghost predicate OneOutcome(base: Tree, u: Tree, root: string, m: Member, space: int, status: int,
                             loss: Loss, same: bool, told: bool) {
    var file := Join(root, m.item.name);
    if TooBig(space, m.item) then
      status == SYS_RESC_QUOTA_EXCEEDED && u == base
    else
      exists v :: OneFrom(v, u, file, m, status, loss, told) && WithAncestors(base, v, file) &&
                  (same ==> v == Ancestry(base, root, m.item.name))
  }

  lemma {:induction false} OneEnded(base: Tree, v: Tree, u: Tree, root: string, m: Member, space: int, status: int,
                                    loss: Loss, same: bool, told: bool)
    requires !TooBig(space, m.item) && OneFrom(v, u, Join(root, m.item.name), m, status, loss, told)
    requires same ==> v == Ancestry(base, root, m.item.name)
    requires
      || v == base
      || (LastSlash(m.item.name) >= 0 && WithAncestors(base, v, Join(root, m.item.name[..LastSlash(m.item.name)])))
    ensures OneOutcome(base, u, root, m, space, status, loss, same, told)
  {
    hide OneFrom;
    var i := LastSlash(m.item.name);
    if v != base {
      AboveJoin(root, m.item.name, i);
      AncestorsOfAbove(base, v, Join(root, m.item.name), Join(root, m.item.name[..i]));
    }
  }

  /**
   * With no call refused but for metadata, the status says whether the item was within the space and fitted, and
   * what is there is the item in its collections, but for what its metadata lost.
   */
  lemma {:induction false} OneExact(base: Tree, u: Tree, root: string, m: Member, space: int, status: int, loss: Loss)
    requires OneOutcome(base, u, root, m, space, status, loss, true, false)
    ensures status == 0 <==>
            !TooBig(space, m.item) && Fits(Ancestry(base, root, m.item.name), Join(root, m.item.name), m.item.Coll?)
    ensures status == 0 ==>
              u == StoreWith(Ancestry(base, root, m.item.name), Join(root, m.item.name), m, loss) &&
              (loss == NO_LOSS ==> u == StoreOne(base, root, m))
  {
    var file, v := Join(root, m.item.name), Ancestry(base, root, m.item.name);
    ReplayNothingLost(m.item.Avus(), {}, AvusAt(v, file));
  }

  /** How a single-item extraction ends: at the first item of that name, or with nothing done when none was read. */
  ghost predicate SingleOutcome(base: Tree, u: Tree, root: string, ms: seq<Member>, name: string, space: int,
                                done: nat, hit: bool, status: int, losses: seq<Loss>, same: bool, told: bool,
                                whole: bool) {
    if hit then
      FirstNamed(ms, name, done) && |losses| == 1 &&
      OneOutcome(base, u, root, ms[done], space, status, losses[0], same, told)
    else
      && done <= |ms| && NoneNamed(ms, name, done) && (whole <==> done == |ms|)
      && status == 0 && u == base && losses == []
  }

  /** Nothing but `file` is changed, and nothing is added besides it but empty ancestors of it. */
  ghost predicate OnlyFile(base: Tree, u: Tree, file: string) {
    && (forall p :: p in base && p != file ==> p in u && u[p] == base[p])
    && (forall p :: p in u && p !in base && p != file ==> u[p] == CollNode({}) && IsBelow(file, p))
  }

  /**
   * In every run, whatever is refused, a single-item extraction changes only that file and its ancestors, and of the
   * attributes of the file only those listed for the item, none at all when it fails.
   */
  lemma {:induction false} SingleFrame(base: Tree, u: Tree, root: string, ms: seq<Member>, name: string, space: int,
                                       done: nat, hit: bool, status: int, losses: seq<Loss>, same: bool, told: bool,
                                       whole: bool)
    requires SingleOutcome(base, u, root, ms, name, space, done, hit, status, losses, same, told, whole)
    ensures OnlyFile(base, u, Join(root, name))
    ensures status == 0 && hit ==>
              done < |ms| && Join(root, name) in u && u[Join(root, name)].CollNode? == ms[done].item.Coll? &&
              (ms[done].item.DataObj? ==> u[Join(root, name)].bytes == ms[done].bytes)
    ensures forall a: Avu :: (hit && status == 0 ==> done < |ms| && !Listed(ms[done].item.Avus(), a.name)) ==>
              (a in AvusAt(u, Join(root, name)) <==> a in AvusAt(base, Join(root, name)))
  {
    hide Listed, OneFrom, WithAncestors;
    if hit && !TooBig(space, ms[done].item) {
      var file, m := Join(root, name), ms[done];
      var v :| OneFrom(v, u, file, m, status, losses[0], told) && WithAncestors(base, v, file);
      OneFrame(base, v, u, file, m, status, losses[0], told);
      forall a: Avu | status == 0 ==> !Listed(m.item.Avus(), a.name)
        ensures a in AvusAt(u, file) <==> a in AvusAt(base, file)
      {
        OneAvus(base, v, u, file, m, status, losses[0], told, a);
      }
    }
  }

  lemma {:induction false} OneFrame(base: Tree, v: Tree, u: Tree, file: string, m: Member, status: int, loss: Loss,
                                    told: bool)
    requires OneFrom(v, u, file, m, status, loss, told) && WithAncestors(base, v, file)
    ensures OnlyFile(base, u, file)
    ensures status == 0 ==>
              file in u && u[file].CollNode? == m.item.Coll? && (m.item.DataObj? ==> u[file].bytes == m.bytes)
  {
    hide ReplayOnly;
  }

  lemma {:induction false} OneAvus(base: Tree, v: Tree, u: Tree, file: string, m: Member, status: int, loss: Loss,
                                   told: bool, a: Avu)
    requires OneFrom(v, u, file, m, status, loss, told) && WithAncestors(base, v, file)
    requires status == 0 ==> !Listed(m.item.Avus(), a.name)
    ensures a in AvusAt(u, file) <==> a in AvusAt(base, file)
  {
    hide ReplayOnly, Listed;
    assert AvusAt(v, file) == AvusAt(base, file);
    if status == 0 {
      UnlistedKept(m.item.Avus(), loss.calls, AvusAt(v, file), a);
    }
  }

  /**
   * In every run, whatever is refused and wherever it stops, a full extraction changes no path the archive does not
   * name, and nowhere an attribute name that is not listed there.
   */
  lemma {:induction false} FullFrame(base: Tree, u: Tree, root: string, ms: seq<Member>, done: nat, status: int,
                                     losses: seq<Loss>, told: bool, whole: bool, p: string)
    requires FullOutcome(base, u, root, ms, done, status, losses, told, whole)
    ensures p !in Files(root, ms) ==> (p in u <==> p in base) && (p in base ==> u[p] == base[p])
    ensures forall a: Avu ::
              (forall k :: 0 <= k < |ms| && Join(root, ms[k].item.name) == p ==> !Listed(ms[k].item.Avus(), a.name)) ==>
              (a in AvusAt(u, p) <==> a in AvusAt(base, p))
  {
    hide StoreSome, FitsAt, Listed, Join;
    var pre := ms[..done];
    assert forall k :: 0 <= k < done ==> pre[k] == ms[k];
    SomeFrame(base, root, pre, losses, p);
    if p in Files(root, pre) {
      var k :| 0 <= k < |pre| && Join(root, pre[k].item.name) == p;
      assert Join(root, ms[k].item.name) == p;
    }
    forall a: Avu | forall k :: 0 <= k < |ms| && Join(root, ms[k].item.name) == p ==> !Listed(ms[k].item.Avus(), a.name)
      ensures a in AvusAt(u, p) <==> a in AvusAt(base, p)
    {
      assert forall k :: 0 <= k < |pre| && Join(root, pre[k].item.name) == p ==> !Listed(pre[k].item.Avus(), a.name);
    }
  }

  /** The blocks of the first `k` items. */
  ghost function BlocksUpTo(ms: seq<Member>, k: nat): nat
    requires k <= |ms|
  {
    TotalBlocks(ItemsOf(ms)[..k])
  }

  lemma {:induction false} BlocksStep(ms: seq<Member>, k: nat)
    requires k < |ms|
    ensures BlocksUpTo(ms, k + 1) ==
            BlocksUpTo(ms, k) + if ms[k].item.DataObj? then Occupied(ms[k].item.size) else 0
    ensures BlocksUpTo(ms, k) <= BlocksUpTo(ms, |ms|) == TotalBlocks(ItemsOf(ms))
    ensures BlocksUpTo(ms, k + 1) <= BlocksUpTo(ms, |ms|)
  {
    var items := ItemsOf(ms);
    assert items[..k + 1][..k] == items[..k];
    TotalBlocksMonotone(items, k);
    TotalBlocksMonotone(items, k + 1);
    assert items[..|ms|] == items;
  }

  /** One round of a full extraction. */
  method ExtractNext(a: Archive, server: Server, path: string, item: Item,
                     ghost base: Tree, ghost done: nat, ghost losses: seq<Loss>)
      returns (status: int, ghost loss: Loss, ghost told: bool)
    requires a.Valid() && !a.creating && a.server == server && a.archive.offset == 0 && server.Idle()
    requires a.index == done + 1 && item == a.members[done].item
    requires Restoring(base, server.tree, path, a.members, done, losses)
    modifies a.archive`offset, server`tree, server`desc, server`written
    modifies server`refused, server`codes, server`untimed, server`unset
    ensures a.Valid() && server.Idle() && server.Onward() && status <= 0
    ensures server.unset - old(server.unset) == |loss.calls|
    ensures server.untimed - old(server.untimed) == if loss.stamp.Some? then 1 else 0
    ensures status == 0 ==> Restoring(base, server.tree, path, a.members, done + 1, losses + [loss])
    ensures status < 0 ==> loss == NO_LOSS && Halted(base, server.tree, path, a.members, done, losses, told)
    ensures told ==> status < 0 && server.Failed(status)
    ensures old(server.written) <= server.written
    ensures WithinSize(a.members) ==>
              server.written <= old(server.written) + BlocksUpTo(a.members, done + 1) - BlocksUpTo(a.members, done)
  {
    hide Join, Restoring, TotalBlocks, ItemsOf, Held, Halted, StoreWith, Fits, Disturbed, LossOf;
    ghost var u, ms := server.tree, a.members;
    BlocksStep(ms, done);
    MembersFit(a, done);
    status, loss := ExtractMember(a, server, Join(path, item.name), item);
    told := status < 0 && Fits(u, Join(path, item.name), item.Coll?);
    MemberBlocks(ms, done);
    if status == 0 {
      RestoringStep(base, u, server.tree, path, ms, done, losses, loss);
    } else {
      FullHalted(base, u, server.tree, path, ms, done, losses, told);
    }
  }

  lemma {:induction false} MemberBlocks(ms: seq<Member>, k: nat)
    requires k < |ms|
    ensures WithinSize(ms) ==> Occupied(|ms[k].bytes|) <= Occupied(ms[k].item.Size())
  {
    if WithinSize(ms) {
      OccupiedMonotone(|ms[k].bytes|, ms[k].item.Size());
    }
  }

  lemma {:induction false} MembersFit(a: Archive, done: nat)
    requires a.Valid() && !a.creating && a.index == done + 1
    ensures done < |a.members|
  {
  }

  lemma {:induction false} FullHalted(base: Tree, v: Tree, u: Tree, root: string, ms: seq<Member>, done: nat,
                                      losses: seq<Loss>, told: bool)
    requires done < |ms| && Restoring(base, v, root, ms, done, losses)
    requires Disturbed(v, u, Join(root, ms[done].item.name), ms[done])
    requires told || !Fits(v, Join(root, ms[done].item.name), ms[done].item.Coll?)
    ensures Halted(base, u, root, ms, done, losses, told)
  {
    hide Fits, Disturbed, StoreSome, Join;
    FitsSome(base, root, ms, done, losses);
  }

  /** The one wanted item: the space check, its ancestors, and the item itself. */
  method ExtractOne(a: Archive, server: Server, path: string, item: Item, space: int)
      returns (status: int, ghost loss: Loss, ghost same: bool, ghost told: bool)
    requires a.Valid() && !a.creating && a.server == server && a.index > 0 && a.archive.offset == 0 && server.Idle()
    requires item == a.members[a.index - 1].item
    modifies a.archive`offset, server`tree, server`desc, server`written
    modifies server`refused, server`codes, server`untimed, server`unset
    ensures a.Valid() && server.Idle() && server.Onward() && status <= 0
    ensures server.unset - old(server.unset) == |loss.calls|
    ensures server.untimed - old(server.untimed) == if loss.stamp.Some? then 1 else 0
    ensures same <==> server.refused - old(server.refused) ==
                      (server.untimed - old(server.untimed)) + (server.unset - old(server.unset))
    ensures OneOutcome(old(server.tree), server.tree, path, a.members[a.index - 1], space, status, loss, same, told)
    ensures told ==> status < 0 && server.Failed(status) && !same
    ensures old(server.written) <= server.written
    ensures server.written <= old(server.written) +
              if TooBig(space, item) || item.Coll? then 0 else Occupied(|a.members[a.index - 1].bytes|)
  {
    hide Join, LastSlash, MkdirAll, Fits, NodeWith, StoreWith, Held, ItemsOf, Occupied, WithAncestors, OneOutcome,
         Disturbed, LossOf;
    ghost var base := server.tree;
    loss, same, told := NO_LOSS, true, false;
    if TooBig(space, item) {
      OneTooBig(base, path, a.members[a.index - 1], space);
      return SYS_RESC_QUOTA_EXCEEDED, loss, same, told;
    }
    var found := LastSlash(item.name);
    if found >= 0 {
      var _ := server.CollCreate(Join(path, item.name[..found]), true);
    }
    ghost var v := server.tree;
    status, loss := ExtractMember(a, server, Join(path, item.name), item);
    same := server.refused - old(server.refused) ==
            (server.untimed - old(server.untimed)) + (server.unset - old(server.unset));
    told := status < 0 && Fits(v, Join(path, item.name), item.Coll?);
    OneEnded(base, v, server.tree, path, a.members[a.index - 1], space, status, loss, same, told);
  }

  lemma {:induction false} OneTooBig(base: Tree, root: string, m: Member, space: int)
    requires TooBig(space, m.item)
    ensures OneOutcome(base, base, root, m, space, SYS_RESC_QUOTA_EXCEEDED, NO_LOSS, true, false)
  {
  }

  /** The loop has passed `done` members: they are in place when everything is wanted, else none is the wanted one. */
  ghost predicate InLoop(base: Tree, u: Tree, root: string, ms: seq<Member>, extract: Option<string>, done: nat,
                         losses: seq<Loss>, written: int) {
    done <= |ms| &&
    if extract == None then
      Restoring(base, u, root, ms, done, losses) && (WithinSize(ms) ==> written <= BlocksUpTo(ms, done))
    else
      u == base && NoneNamed(ms, extract.value, done) && losses == [] && written == 0
  }

  /** How the loop ends. */
  ghost predicate Outcome(base: Tree, u: Tree, root: string, ms: seq<Member>, extract: Option<string>, space: int,
                          done: nat, hit: bool, status: int, losses: seq<Loss>, same: bool, told: bool,
                          whole: bool, written: int) {
    if extract == None then
      FullOutcome(base, u, root, ms, done, status, losses, told, whole) &&
      (WithinSize(ms) ==> written <= TotalBlocks(ItemsOf(ms)))
    else
      SingleOutcome(base, u, root, ms, extract.value, space, done, hit, status, losses, same, told, whole) &&
      (WithinSize(ms) ==> OneWithin(space, written))
  }

  lemma {:induction false} LoopStart(base: Tree, root: string, ms: seq<Member>, extract: Option<string>)
    ensures InLoop(base, base, root, ms, extract, 0, [], 0)
  {
    RestoringStart(base, root, ms);
  }

  /** No more members are read. */
  lemma {:induction false} LoopDone(base: Tree, u: Tree, root: string, ms: seq<Member>, extract: Option<string>,
                                    space: int, done: nat, losses: seq<Loss>, whole: bool, written: int)
    requires InLoop(base, u, root, ms, extract, done, losses, written) && (whole <==> done == |ms|)
    ensures Outcome(base, u, root, ms, extract, space, done, false, 0, losses, true, false, whole, written)
  {
    BlocksBound(ms, done);
  }

  /** The wanted member was found and tried. */
  lemma {:induction false} LoopFound(base: Tree, u: Tree, root: string, ms: seq<Member>, name: string, space: int,
                                     done: nat, status: int, loss: Loss, same: bool, told: bool, written: int)
    requires done < |ms| && NoneNamed(ms, name, done) && ms[done].item.name == name
    requires OneOutcome(base, u, root, ms[done], space, status, loss, same, told)
    requires written <= if TooBig(space, ms[done].item) || ms[done].item.Coll? then 0 else Occupied(|ms[done].bytes|)
    ensures Outcome(base, u, root, ms, Some(name), space, done, true, status, [loss], same, told, true,
                    written)
  {
    hide OneOutcome;
    MemberWithin(ms, done, space);
  }

  /** One round: the next item is extracted, or passed over when another is wanted. */
  method ExtractRound(a: Archive, server: Server, path: string, item: Item, extract: Option<string>, space: int,
                      ghost base: Tree, ghost done: nat, ghost before: seq<Loss>, ghost written: int)
      returns (status: int, stop: bool, ghost losses: seq<Loss>, ghost same: bool, ghost told: bool)
    requires a.Valid() && !a.creating && a.server == server && a.archive.offset == 0 && server.Idle()
    requires a.index == done + 1 && item == a.members[done].item
    requires InLoop(base, server.tree, path, a.members, extract, done, before, written)
    modifies a.archive`offset, server`tree, server`desc, server`written
    modifies server`refused, server`codes, server`untimed, server`unset
    ensures a.Valid() && server.Idle() && server.Onward() && status <= 0 && old(server.written) <= server.written
    ensures server.unset - old(server.unset) == Unset(losses) - Unset(before)
    ensures server.untimed - old(server.untimed) == Untimed(losses) - Untimed(before)
    ensures !same ==> server.refused - old(server.refused) >
                      (server.untimed - old(server.untimed)) + (server.unset - old(server.unset))
    ensures told ==> status < 0 && server.Failed(status) && !same
    ensures !stop ==>
              status == 0 && same &&
              InLoop(base, server.tree, path, a.members, extract, done + 1, losses,
                     written + server.written - old(server.written))
    ensures stop ==>
              Outcome(base, server.tree, path, a.members, extract, space, done, extract.Some?, status, losses, same,
                      told, true, written + server.written - old(server.written))
  {
    hide Join, Restoring, TotalBlocks, ItemsOf, Held, Halted, OneOutcome, Occupied, TooBig, BlocksUpTo, SingleOutcome,
         OneWithin, Unset, Untimed;
    status, stop, losses, same, told := 0, false, before, true, false;
    ghost var ms, loss := a.members, NO_LOSS;
    MembersFit(a, done);
    if extract == None {
      BlocksBound(ms, done);
      BlocksBound(ms, done + 1);
      status, loss, told := ExtractNext(a, server, path, item, base, done, before);
      stop, same := status < 0, !told;
      CountsSnoc(before, loss);
      if !stop {
        losses := before + [loss];
      }
    } else if item.name == extract.value {
      status, loss, same, told := ExtractOne(a, server, path, item, space);
      stop, losses := true, before + [loss];
      CountsSnoc(before, loss);
      assert losses == [loss];
      LoopFound(base, server.tree, path, ms, extract.value, space, done, status, loss, same, told,
                server.written - old(server.written));
    }
  }

  /** The next item is read, and its round done; or there is none to read. */
  method NextRound(a: Archive, server: Server, path: string, extract: Option<string>, space: int,
                   ghost base: Tree, ghost done: nat, ghost before: seq<Loss>, ghost written: int)
      returns (status: int, stop: bool, ghost hit: bool, ghost losses: seq<Loss>, ghost same: bool, ghost told: bool)
    requires a.Valid() && !a.creating && a.server == server && a.index == done && server.Idle()
    requires InLoop(base, server.tree, path, a.members, extract, done, before, written)
    modifies a`index, a.archive`pos, a.archive`offset, server
    ensures a.Valid() && server.Idle() && server.Onward() && status <= 0 && old(server.written) <= server.written
    ensures server.unlisted == old(server.unlisted)
    ensures server.unset - old(server.unset) == Unset(losses) - Unset(before)
    ensures server.untimed - old(server.untimed) == Untimed(losses) - Untimed(before)
    ensures !same ==> server.refused - old(server.refused) >
                      (server.untimed - old(server.untimed)) + (server.unset - old(server.unset))
    ensures told ==> status < 0 && server.Failed(status) && !same
    ensures !stop ==>
              status == 0 && same && server.cut == old(server.cut) && a.index == done + 1 <= |a.members| &&
              InLoop(base, server.tree, path, a.members, extract, done + 1, losses,
                     written + server.written - old(server.written))
    ensures stop ==>
              Outcome(base, server.tree, path, a.members, extract, space, done, hit, status, losses, same, told,
                      server.cut == old(server.cut), written + server.written - old(server.written))
  {
    hide InLoop, Outcome, Held, Unset, Untimed;
    AtMember(a, done);
    status, stop, hit, losses, same, told := 0, true, false, before, true, false;
    var next := a.NextItem();
    if next == None {
      LoopDone(base, server.tree, path, a.members, extract, space, done, losses, server.cut == old(server.cut),
               written);
    } else {
      status, stop, losses, same, told :=
        ExtractRound(a, server, path, next.value, extract, space, base, done, before, written);
      hit := stop && extract.Some?;
    }
  }

  /**
   * Items are extracted until they run out or one fails; when one item is wanted, the others are passed
   * over, and the first of its name ends the loop.
   */
  method ExtractItems(a: Archive, server: Server, path: string, extract: Option<string>, space: int)
      returns (status: int, ghost base: Tree, ghost done: nat, ghost hit: bool, ghost losses: seq<Loss>,
               ghost same: bool, ghost told: bool)
    requires a.Valid() && !a.creating && a.server == server && a.index == 0 && server.Idle()
    modifies a`index, a.archive`pos, a.archive`offset, server
    ensures server.Idle() && server.Onward() && status <= 0 && server.unlisted == old(server.unlisted)
    ensures base == old(server.tree) || base == Mkdir(old(server.tree), path)
    ensures server.refused - old(server.refused) == Untimed(losses) + Unset(losses) ==>
              base == Mkdir(old(server.tree), path)
    ensures server.unset - old(server.unset) == Unset(losses) && server.untimed - old(server.untimed) == Untimed(losses)
    ensures !same ==> server.refused - old(server.refused) > Untimed(losses) + Unset(losses)
    ensures told ==> status < 0 && server.Failed(status) && !same
    ensures Outcome(base, server.tree, path, a.members, extract, space, done, hit, status, losses, same,
                    told, server.cut == old(server.cut), server.written - old(server.written))
    ensures old(server.written) <= server.written
  {
    hide InLoop, Outcome, Mkdir, Held, Unset, Untimed;
    var _ := server.CollCreate(path, false);
    base, done, losses := server.tree, 0, [];
    LoopStart(base, path, a.members, extract);
    CountsZero([]);
    while true
      invariant a.Valid() && server.Idle() && server.Onward() && done == a.index <= |a.members|
      invariant server.cut == old(server.cut) && server.unlisted == old(server.unlisted)
      invariant server.refused - old(server.refused) == Untimed(losses) + Unset(losses) ==>
                  base == Mkdir(old(server.tree), path)
      invariant server.unset - old(server.unset) == Unset(losses)
      invariant server.untimed - old(server.untimed) == Untimed(losses)
      invariant old(server.written) <= server.written
      invariant InLoop(base, server.tree, path, a.members, extract, done, losses, server.written - old(server.written))
      decreases |a.members| - done
    {
      var stop;
      status, stop, hit, losses, same, told :=
        NextRound(a, server, path, extract, space, base, done, losses, server.written - old(server.written));
      if stop {
        break;
      }
      done := done + 1;
    }
  }

  /** What a single item that the check let through may occupy: up to a block more than nine tenths of the space. */
  ghost predicate OneWithin(space: int, written: int) {
    space > 0 ==> 10 * written <= 9 * space + 9 + 10 * (BLOCK_SIZE - 1)
  }

  lemma {:induction false} OneWithinNone(space: int)
    ensures OneWithin(space, 0)
  {
  }

  lemma {:induction false} MemberWithin(ms: seq<Member>, k: nat, space: int)
    requires k < |ms|
    ensures WithinSize(ms) ==>
              OneWithin(space, if TooBig(space, ms[k].item) || ms[k].item.Coll? then 0 else Occupied(|ms[k].bytes|))
  {
  }

  /** What the check lets through stays within its limit in blocks, too, if and only if the limit is whole blocks. */
  lemma {:induction false} SingleItemWithinIff(space: int)
    requires space > 0
    ensures var limit := space - space / 10;
            (forall item: Item :: item.DataObj? && !TooBig(space, item) ==> Occupied(item.size) <= limit) <==>
            limit % BLOCK_SIZE == 0
  {
    var limit: nat := space - space / 10;
    if limit % BLOCK_SIZE == 0 {
      forall item: Item | item.DataObj? && !TooBig(space, item)
        ensures Occupied(item.size) <= limit
      {
        OccupiedMonotone(item.size, limit);
      }
    } else {
      var item := DataObj("", limit, 0, 0, "", None, None, None);
      assert !TooBig(space, item) && Occupied(item.size) > limit;
    }
  }

  /** The bound of the single-item check is not that of the full one, which counts blocks: less than all may be left. */
  lemma {:induction false} SingleItemExceeds(item: Item)
    requires item.DataObj? && item.size == 9000
    ensures !TooBig(10000, item) && Occupied(item.size) > 10000
    ensures OneWithin(10000, Occupied(item.size))
    ensures !LetThrough(TotalBlocks([item]), None, Some(""), 10000)
  {
    assert [item][..0] == [];
  }

  lemma {:induction false} AtMember(a: Archive, done: nat)
    requires a.Valid() && !a.creating && a.index == done
    ensures |a.list| >= |a.members|
    ensures done < |a.members| ==> a.list[done] == a.members[done].item
  {
  }

  lemma {:induction false} BlocksBound(ms: seq<Member>, k: nat)
    ensures k <= |ms| ==> BlocksUpTo(ms, k) <= TotalBlocks(ItemsOf(ms))
  {
    if k <= |ms| {
      TotalBlocksMonotone(ItemsOf(ms), k);
    }
  }

  // ---- the microservice ----

  /** The index records the blocks of its items, without wrapping around, and no more is stored. */
  ghost predicate SizeRecorded(container: seq<Entry>, ms: seq<Member>) {
    Opens(container) && WithinSize(ms) && TotalBlocks(Indexed(container)) < TWO_TO_THE_64 &&
    container[0].body.document.size == ToSigned(TotalBlocks(Indexed(container)))
  }

  /**
   * `msiArchiveExtract`. `freeSpace` is what the resource's free-space query gave: negative when it failed,
   * zero when it is not set. A run that is turned away leaves the namespace as it was; a full extraction
   * with known free space that is let through writes, block-rounded and at every point, at most nine tenths of it,
   * and a single item at most a block more.
   */
  method MsiArchiveExtract(server: Server, archive: string, container: seq<Entry>, path: string,
                           extract: Option<string>, resource: Option<string>, freeSpace: int, ghost ms: seq<Member>)
      returns (status: int, ghost base: Tree, ghost done: nat, ghost hit: bool, ghost losses: seq<Loss>,
               ghost same: bool, ghost told: bool, ghost begun: bool)
    requires server.Idle() && (Opens(container) ==> Held(container, ms))
    modifies server
    ensures server.Idle() && server.Onward() && status <= 0 && server.unlisted == old(server.unlisted)
    ensures begun ==> Opens(container) &&
                      LetThrough(ToUnsigned(container[0].body.document.size), extract, resource, freeSpace)
    ensures !begun ==> status < 0 && server.tree == old(server.tree) && server.written == old(server.written)
    ensures !begun ==>
              status == SYS_TAR_OPEN_ERR ||
              (Opens(container) && status == (if freeSpace < 0 then freeSpace else SYS_RESC_QUOTA_EXCEEDED) &&
               !LetThrough(ToUnsigned(container[0].body.document.size), extract, resource, freeSpace))
    ensures server.refused == old(server.refused) ==>
              (begun <==> Opens(container) &&
                          LetThrough(ToUnsigned(container[0].body.document.size), extract, resource, freeSpace))
    ensures server.refused == old(server.refused) && Opens(container) ==>
              (begun <==>
                || resource == None || freeSpace == 0
                || (freeSpace > 0 &&
                    (extract.Some? ||
                     ToUnsigned(container[0].body.document.size) <= freeSpace - freeSpace / 10)))
    ensures begun && extract.Some? ==>
              if hit then
                done < |ms| && ms[done].item.name == extract.value &&
                forall k :: 0 <= k < done ==> ms[k].item.name != extract.value
              else
                status == 0 && server.tree == base &&
                (server.cut == old(server.cut) ==> forall k :: 0 <= k < |ms| ==> ms[k].item.name != extract.value)
    ensures begun && extract.Some? && hit && resource.Some? && freeSpace > 0 &&
            ms[done].item.DataObj? && ms[done].item.size > freeSpace - freeSpace / 10 ==>
              status == SYS_RESC_QUOTA_EXCEEDED && server.tree == base
    ensures begun && extract.Some? && hit && server.refused - old(server.refused) == Untimed(losses) + Unset(losses) &&
            !(resource.Some? && freeSpace > 0 &&
              ms[done].item.DataObj? && ms[done].item.size > freeSpace - freeSpace / 10) ==>
              (status == 0 <==>
                Fits(Ancestry(base, path, extract.value), path + "/" + extract.value, ms[done].item.Coll?))
    ensures begun ==> base == old(server.tree) || base == Mkdir(old(server.tree), path)
    ensures begun && server.refused - old(server.refused) == Untimed(losses) + Unset(losses) ==>
              base == Mkdir(old(server.tree), path)
    ensures server.unset - old(server.unset) == Unset(losses) && server.untimed - old(server.untimed) == Untimed(losses)
    ensures !same ==> server.refused - old(server.refused) > Untimed(losses) + Unset(losses)
    ensures told ==> status < 0 && server.Failed(status) && !same
    ensures begun && extract == None ==>
              FullOutcome(base, server.tree, path, ms, done, status, losses, told, server.cut == old(server.cut))
    ensures begun && extract.Some? ==>
              SingleOutcome(base, server.tree, path, ms, extract.value, Space(resource, freeSpace), done, hit, status,
                            losses, same, told, server.cut == old(server.cut))
    ensures resource.Some? && freeSpace > 0 && extract == None && SizeRecorded(container, ms) ==>
              10 * (server.written - old(server.written)) <= 9 * freeSpace + 9 &&
              freeSpace - (server.written - old(server.written)) >= freeSpace / 10
    ensures resource.Some? && extract.Some? && WithinSize(ms) ==>
              OneWithin(freeSpace, server.written - old(server.written))
  {
    hide FullOutcome, SingleOutcome, Held, Mkdir, TotalBlocks, ItemsOf, WithinSize, OneWithin, Unset, Untimed;
    base, done, hit, losses, same, told, begun := server.tree, 0, false, [], true, false, false;
    OneWithinNone(freeSpace);
    CountsZero([]);
    var a := Archive.Open(server, archive, container, ms);
    if a == null {
      status := SYS_TAR_OPEN_ERR;
    } else {
      HeldAt(container, ms, 0);
      HeldBlocks(container, ms);
      status := 0;
      var space := 0;
      if resource.Some? {
        space := freeSpace;
        if space < 0 {
          status := space;
        } else if space != 0 && extract == None && a.Size() > space - space / 10 {
          status := SYS_RESC_QUOTA_EXCEEDED;
        }
        if status < 0 {
          return;
        }
      }
      begun := true;
      status, base, done, hit, losses, same, told := ExtractItems(a, server, path, extract, space);
      if extract.Some? {
        SingleMeaning(base, server.tree, path, ms, extract.value, space, done, hit, status, losses, same, told,
                      server.cut == old(server.cut));
      }
    }
  }

  /** What a single-item outcome says of the item, its space and its status. */
  lemma {:induction false} SingleMeaning(base: Tree, u: Tree, root: string, ms: seq<Member>, name: string, space: int,
                                         done: nat, hit: bool, status: int, losses: seq<Loss>, same: bool, told: bool,
                                         whole: bool)
    requires SingleOutcome(base, u, root, ms, name, space, done, hit, status, losses, same, told, whole)
    requires space >= 0 && (told ==> !same)
    ensures if hit then
              done < |ms| && ms[done].item.name == name && forall k :: 0 <= k < done ==> ms[k].item.name != name
            else
              status == 0 && u == base && (whole ==> forall k :: 0 <= k < |ms| ==> ms[k].item.name != name)
    ensures hit && space > 0 && ms[done].item.DataObj? && ms[done].item.size > space - space / 10 ==>
              status == SYS_RESC_QUOTA_EXCEEDED && u == base
    ensures hit && same && !(space > 0 && ms[done].item.DataObj? && ms[done].item.size > space - space / 10) ==>
              (status == 0 <==> Fits(Ancestry(base, root, name), root + "/" + name, ms[done].item.Coll?))
  {
    hide Fits, Ancestry, StoreWith, Disturbed, LossOf, WithAncestors;
  }

  /** A container holds no more blocks than its index lists. */
  lemma {:induction false} HeldBlocks(container: seq<Entry>, ms: seq<Member>)
    requires Held(container, ms)
    ensures TotalBlocks(ItemsOf(ms)) <= TotalBlocks(Indexed(container))
    ensures TotalBlocks(Indexed(container)) < TWO_TO_THE_64 &&
            container[0].body.document.size == ToSigned(TotalBlocks(Indexed(container))) ==>
              ToUnsigned(container[0].body.document.size) == TotalBlocks(Indexed(container))
  {
    assert ItemsOf(ms) == Indexed(container)[..|ms|];
    TotalBlocksMonotone(Indexed(container), |ms|);
  }

  /**
   * With no call refused but for metadata, and the container read to its end, the status of a full extraction is zero
   * if and only if every member fits when its turn comes.
   */
  lemma {:induction false} FullStatus(base: Tree, u: Tree, root: string, ms: seq<Member>, done: nat, status: int,
                                      losses: seq<Loss>)
    requires FullOutcome(base, u, root, ms, done, status, losses, false, true)
    ensures status == 0 <==> FitUpTo(base, root, ms, |ms|)
    ensures status == 0 ==> |losses| == |ms| && u == StoreSome(base, root, ms, losses)
    ensures status == 0 && Unset(losses) == 0 && Untimed(losses) == 0 ==> u == StoreAll(base, root, ms)
  {
    hide StoreSome, Disturbed, Unset, Untimed, StoreAll;
    assert ms[..|ms|] == ms;
    CountsZero(losses);
    if status == 0 && Unset(losses) == 0 && Untimed(losses) == 0 {
      SomeIsAll(base, root, ms, losses);
    }
  }

  /**
   * A container whose writing was stopped, extracted into a fresh target: unless a call is refused the status is
   * zero, and nothing tells that the items after those it holds are missing.
   */
  lemma {:induction false} StoppedGoesUnnoticed(t: Tree, u: Tree, root: string, items: seq<Item>, stored: seq<Member>,
                                                done: nat, status: int, losses: seq<Loss>, whole: bool)
    requires root != "" && Fresh(t, root) && ParentFirst(items) && DistinctNames(items)
    requires |stored| <= |items| && forall k :: 0 <= k < |stored| ==> stored[k].item == items[k]
    requires FullOutcome(Mkdir(t, root), u, root, stored, done, status, losses, false, whole)
    ensures status == 0 && Restoring(Mkdir(t, root), u, root, stored, done, losses)
    ensures whole ==> done == |stored|
    ensures forall k :: |stored| <= k < |items| ==> Join(root, items[k].name) !in u
  {
    hide StoreSome, Disturbed;
    var base := Mkdir(t, root);
    var names := ItemsOf(stored);
    assert names == items[..|stored|];
    ParentFirstTake(items, |stored|);
    if status != 0 {
      FreshExtractionFits(t, root, stored, done);
    }
    forall k | |stored| <= k < |items|
      ensures Join(root, items[k].name) !in u
    {
      var p := Join(root, items[k].name);
      SomeFrame(base, root, stored[..done], losses, p);
      JoinIsBelow(root, items[k].name);
      forall i | 0 <= i < done
        ensures Join(root, stored[..done][i].item.name) != p
      {
        assert items[i].name != items[k].name;
        JoinInjective(root, items[i].name, items[k].name);
      }
    }
  }

  /**
   * A full extraction that came to its end, with any losses of metadata, run again with any losses: a zero status
   * means that collections, objects and bytes are as they were; that all is as if nothing had ever been lost, when the
   * second run lost nothing and read everything; and that nothing at all changed when neither run lost anything.
   * A stop is always a refusal, and disturbs only one file.
   */
  lemma {:induction false} SecondExtraction(t: Tree, u: Tree, base: Tree, v: Tree, root: string, ms: seq<Member>,
                                            first: seq<Loss>, done: nat, status: int, second: seq<Loss>,
                                            told: bool, whole: bool)
    requires root != "" && DistinctNames(ItemsOf(ms)) && |first| == |ms|
    requires u == StoreSome(Mkdir(t, root), root, ms, first) && (base == u || base == Mkdir(u, root))
    requires FullOutcome(base, v, root, ms, done, status, second, told, whole)
    ensures status == 0 ==> Shape(v) == Shape(u)
    ensures status == 0 && whole && Unset(second) == 0 && Untimed(second) == 0 ==>
              v == StoreAll(Mkdir(t, root), root, ms)
    ensures Unset(first) == 0 && Untimed(first) == 0 && Unset(second) == 0 && Untimed(second) == 0 ==>
              if status == 0 then v == u else Disturbed(u, v, Join(root, ms[done].item.name), ms[done])
    ensures status != 0 ==> done < |ms| && told
    ensures status != 0 ==>
              exists w :: Shape(w) == Shape(u) && Disturbed(w, v, Join(root, ms[done].item.name), ms[done])
  {
    hide StoreSome, StoreAll, Shape, Disturbed, Unset, Untimed, DistinctNames, ItemsOf, Mkdir, Fits;
    MkdirOnce(t, root, ms, first);
    var t1, w := Mkdir(t, root), StoreSome(u, root, ms[..done], second);
    ExtractedAgain(t1, root, ms, first, second);
    CountsZero(first);
    CountsZero(second);
    assert ms[..|ms|] == ms;
    if Unset(second) == 0 && Untimed(second) == 0 {
      SomeIsAll(u, root, ms[..done], second);
      ExtractionRepairs(t1, root, ms, first);
      if Unset(first) == 0 && Untimed(first) == 0 {
        SomeIsAll(t1, root, ms, first);
        ExtractionIdempotent(t1, root, ms, done);
      }
    }
    if status != 0 {
      FitsSome(u, root, ms, done, second);
      FitsByShape(w, u, Join(root, ms[done].item.name), ms[done].item.Coll?);
    }
  }

  /** What `Construct` records as the size is the size the guard of a later extraction compares. */
  lemma {:induction false} CreatedSizeRecorded(origin: string, ms: seq<Member>)
    requires Sized(ms) && TotalBlocks(ItemsOf(ms)) < TWO_TO_THE_64
    ensures var container := Pack(origin, ToSigned(TotalBlocks(ItemsOf(ms)) % TWO_TO_THE_64), ms);
            Indexed(container) == ItemsOf(ms) && SizeRecorded(container, ms) &&
            ToUnsigned(container[0].body.document.size) == TotalBlocks(ItemsOf(ms))
  {
    hide TotalBlocks, ItemsOf, Pack;
    SizeSurvives(TotalBlocks(ItemsOf(ms)));
  }

  function Space(resource: Option<string>, freeSpace: int): int {
    if resource.Some? then freeSpace else 0
  }

  /** The space guard of a run: not for a single item, and not when the free space is unknown. */
  predicate LetThrough(size: nat, extract: Option<string>, resource: Option<string>, freeSpace: int) {
    resource == None ||
    (freeSpace >= 0 && (freeSpace == 0 || extract.Some? || size <= freeSpace - freeSpace / 10))
  }
}
