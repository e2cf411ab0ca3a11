/**
 * The iRODS server as the microservices see it through its `rs...` calls. Every call may be refused for
 * reasons outside the namespace (policy, network, storage). `refused` counts those refusals. Some kinds of them
 * leave no trace in a status and are counted once more: `cut` those that end a listing or a container early,
 * `unlisted` those that end the attribute list of a listed item early, `untimed` those of a modification time and
 * `unset` those of an attribute. So a contract can say what each kind costs, and what holds whatever happens.
 */
module Server {
  import opened Wrappers
  import opened Attributes
  import opened Blocks
  import opened Paths
  import opened Namespace

  // Only the sign of a status and the difference between these constants matter.
  const CAT_NO_ROWS_FOUND := -808000
  const CATALOG_ALREADY_HAS_ITEM_BY_THAT_NAME := -809000
  const CAT_UNKNOWN_COLLECTION := -814000
  const OBJ_PATH_DOES_NOT_EXIST := -358000
  const SYS_RESC_QUOTA_EXCEEDED := -110000
  const SYS_TAR_OPEN_ERR := -144000
  const SYS_TAR_EXTRACT_ALL_ERR := -145000
  const SYS_TAR_APPEND_ERR := -146000

  /** An open data object: its path, how far it was read, and whether it was opened for writing. */
  datatype Descriptor = Descriptor(path: string, offset: nat, writing: bool)

  /** The metadata operation of rsModAVUMetadata. */
  datatype AvuOp = Set | Add

  /** What goes missing when the rows of a query stop before row `needed`: items of a listing, or attributes. */
  datatype Stake = OfItems(needed: nat) | OfAttributes(needed: nat)

  class Server {
    var tree: Tree
    var desc: Option<Descriptor> // a run has at most one data object open at a time
    ghost var refused: nat
    ghost var codes: seq<int> // the statuses of the refused calls
    ghost var cut: nat
    ghost var unlisted: nat
    ghost var untimed: nat
    ghost var unset: nat
    ghost var written: nat // bytes written, each data object rounded up to whole blocks

    /** Calls are only ever added to the counts, and every one of them is a refusal. */
    twostate predicate Onward()
      reads this`refused, this`codes, this`cut, this`unlisted, this`untimed, this`unset
    {
      && old(refused) <= refused && |old(codes)| <= |codes| && old(cut) <= cut && old(unlisted) <= unlisted
      && old(untimed) <= untimed && old(unset) <= unset
      && refused - old(refused) >=
         (cut - old(cut)) + (unlisted - old(unlisted)) + (untimed - old(untimed)) + (unset - old(unset))
    }

    ghost predicate Idle()
      reads this`desc
    {
      desc == None
    }

    ghost predicate Writing(file: string)
      reads this`desc, this`tree
    {
      && desc.Some? && desc.value.writing && desc.value.path == file
      && IsObj(tree, file)
    }

    /** The status is that of a call refused meanwhile. */
    twostate predicate Reported(status: int)
      reads this`codes
    {
      exists k :: |old(codes)| <= k < |codes| && codes[k] == status
    }

    /**
     * It is, or stands for a read of an archive that was refused, or comes after an open that was refused as if there
     * were no such path.
     */
    twostate predicate Failed(status: int)
      reads this`refused, this`codes
    {
      refused > old(refused) &&
      (Reported(status) || status == SYS_TAR_EXTRACT_ALL_ERR || Reported(OBJ_PATH_DOES_NOT_EXIST))
    }

    constructor (t: Tree)
      ensures tree == t && Idle() && written == 0
      ensures codes == [] && refused == 0 && cut == 0 && unlisted == 0 && untimed == 0 && unset == 0
    {
      tree, desc, written := t, None, 0;
      codes, refused, cut, unlisted, untimed, unset := [], 0, 0, 0, 0, 0;
    }

    method Refuse() returns (status: int)
      modifies this`refused, this`codes
      ensures status < 0 && refused == old(refused) + 1 && codes == old(codes) + [status]
      ensures codes[|old(codes)|] == status
    {
      status :| status < 0;
      codes := codes + [status];
      refused := refused + 1;
    }

    /** rsGenQuery: the next page of a result, from row `continueInx` on; `next` is 0 when it was the last. */
    method GenQuery<R>(rows: seq<R>, continueInx: nat, ghost stake: Stake)
        returns (status: int, page: seq<R>, next: nat)
      requires continueInx <= |rows|
      modifies this`refused, this`codes, this`cut, this`unlisted
      ensures Onward()
      ensures cut == old(cut) + if refused > old(refused) && stake.OfItems? && continueInx < stake.needed then 1 else 0
      ensures unlisted ==
                old(unlisted) +
                if refused > old(refused) && stake.OfAttributes? && continueInx < stake.needed then 1 else 0
      ensures status <= 0
      ensures status != 0 ==> page == [] && (refused > old(refused) || continueInx == |rows|)
      ensures status == 0 ==> refused == old(refused) && continueInx + |page| <= |rows|
      ensures status == 0 ==> page == rows[continueInx..continueInx + |page|]
      ensures status == 0 && page == [] ==> continueInx == |rows|
      ensures status == 0 ==> next == if next == 0 then 0 else continueInx + |page|
      ensures status == 0 && next == 0 ==> continueInx + |page| == |rows|
    {
      page, next := [], 0;
      if * {
        status := Refuse();
        if continueInx < stake.needed {
          if stake.OfItems? {
            cut := cut + 1;
          } else {
            unlisted := unlisted + 1;
          }
        }
      } else if continueInx == |rows| {
        status :| status == 0 || status == CAT_NO_ROWS_FOUND;
      } else {
        var n: nat :| 1 <= n <= |rows| - continueInx;
        status, page := 0, rows[continueInx..continueInx + n];
        if continueInx + n < |rows| {
          next := continueInx + n;
        } else if * {
          next := continueInx + n;
        }
      }
    }

    /** rsCollCreate, one level or with the missing ancestors, of which some may be made before a refusal. */
    method CollCreate(path: string, recursive: bool) returns (status: int)
      modifies this`tree, this`refused, this`codes
      ensures Onward()
      ensures refused > old(refused) ==> status < 0 && (!recursive ==> tree == old(tree)) && Reported(status)
      ensures recursive ==> WithAncestors(old(tree), tree, path)
      ensures refused == old(refused) ==>
                tree == if recursive then MkdirAll(old(tree), path) else Mkdir(old(tree), path)
      ensures refused == old(refused) && !recursive ==>
                (status == 0 <==> path !in old(tree) && IsColl(old(tree), Parent(path)))
      ensures refused == old(refused) && !recursive && IsColl(old(tree), path) ==>
                status == CATALOG_ALREADY_HAS_ITEM_BY_THAT_NAME
      ensures !recursive ==> tree == if status == 0 then old(tree)[path := CollNode({})] else old(tree)
      ensures status == CATALOG_ALREADY_HAS_ITEM_BY_THAT_NAME ==> IsColl(old(tree), path)
      ensures status <= 0
    {
      if * {
        refused := refused + 1;
        status :| status < 0 && status != CATALOG_ALREADY_HAS_ITEM_BY_THAT_NAME;
        codes := codes + [status];
        assert codes[|old(codes)|] == status;
        if recursive {
          var reached := path;
          while Parent(reached) != "/"
            invariant tree == old(tree) && refused == old(refused) + 1 && codes == old(codes) + [status]
            invariant reached == path || IsBelow(path, reached)
            decreases |reached|
          {
            assert IsBelow(reached, Parent(reached));
            if reached != path {
              BelowTransitive(path, reached, Parent(reached));
            }
            reached := Parent(reached);
            if * {
              break;
            }
          }
          MkdirAllFrame(tree, reached);
          if reached != path {
            AncestorsOfAbove(tree, MkdirAll(tree, reached), path, reached);
          }
          tree := MkdirAll(tree, reached);
        }
      } else if recursive {
        MkdirAllFrame(tree, path);
        tree := MkdirAll(tree, path);
        status := 0;
      } else if IsColl(tree, path) {
        status := CATALOG_ALREADY_HAS_ITEM_BY_THAT_NAME;
      } else if path in tree || !IsColl(tree, Parent(path)) {
        status := CAT_UNKNOWN_COLLECTION;
      } else {
        tree := Mkdir(tree, path);
        status := 0;
      }
    }

    /** rsDataObjOpen with O_RDONLY. */
    method OpenRead(path: string) returns (fd: int)
      requires Idle()
      modifies this`desc, this`refused, this`codes
      ensures Onward()
      ensures refused > old(refused) ==> fd < 0
      ensures refused == old(refused) ==> (fd >= 0 <==> IsObj(tree, path))
      ensures desc == if fd >= 0 then Some(Descriptor(path, 0, false)) else None
    {
      if * {
        fd := Refuse();
      } else if IsObj(tree, path) {
        fd :| fd >= 0;
        desc := Some(Descriptor(path, 0, false));
      } else {
        fd := OBJ_PATH_DOES_NOT_EXIST;
      }
    }

    /** rsDataObjRead: up to `len` of the bytes that follow, none only at the end. */
    method Read(len: nat) returns (n: int, chunk: seq<byte>)
      requires len > 0 && desc.Some? && IsObj(tree, desc.value.path)
      requires desc.value.offset <= |tree[desc.value.path].bytes|
      modifies this`desc, this`refused, this`codes
      ensures Onward()
      ensures n < 0 <==> refused > old(refused)
      ensures n < 0 ==> desc == old(desc)
      ensures n >= 0 ==> n == |chunk| <= len && desc == Some(old(desc).value.(offset := old(desc).value.offset + n))
      ensures n >= 0 ==> var d, bytes := old(desc).value, tree[old(desc).value.path].bytes;
                         d.offset + n <= |bytes| && chunk == bytes[d.offset..d.offset + n] &&
                         (n == 0 ==> d.offset == |bytes|)
    {
      chunk := [];
      if * {
        n := Refuse();
      } else {
        var d, bytes := desc.value, tree[desc.value.path].bytes;
        var left := |bytes| - d.offset;
        if left == 0 {
          n := 0;
        } else {
          n :| 1 <= n <= left && n <= len;
          chunk := bytes[d.offset..d.offset + n];
        }
        desc := Some(d.(offset := d.offset + n));
      }
    }

    /** rsDataObjOpen with O_WRONLY | O_TRUNC: an existing data object, emptied. */
    method OpenTruncate(path: string) returns (fd: int)
      requires Idle()
      modifies this`tree, this`desc, this`refused, this`codes
      ensures Onward()
      ensures refused > old(refused) ==> fd < 0 && Reported(fd)
      ensures refused == old(refused) && path !in old(tree) ==> fd == OBJ_PATH_DOES_NOT_EXIST
      ensures refused == old(refused) ==> (fd >= 0 <==> IsObj(old(tree), path))
      ensures fd < 0 ==> tree == old(tree) && Idle()
      ensures fd >= 0 ==> IsObj(old(tree), path) && Writing(path) && Overwritten(old(tree), tree, path, [])
    {
      if * {
        fd := Refuse();
      } else if IsObj(tree, path) {
        fd :| fd >= 0;
        var now: int := *;
        tree := tree[path := ObjNode([], now, tree[path].avus)];
        desc := Some(Descriptor(path, 0, true));
      } else if path !in tree {
        fd := OBJ_PATH_DOES_NOT_EXIST;
      } else {
        fd :| fd < 0;
      }
    }

    /** rsDataObjCreate with O_CREAT | O_WRONLY, not recursive and without force flag. */
    method Create(path: string) returns (fd: int)
      requires Idle()
      modifies this`tree, this`desc, this`refused, this`codes
      ensures Onward()
      ensures old(codes) <= codes && (refused > old(refused) ==> fd < 0 && Reported(fd))
      ensures refused == old(refused) ==> (fd >= 0 <==> path !in old(tree) && IsColl(old(tree), Parent(path)))
      ensures fd < 0 ==> tree == old(tree) && Idle()
      ensures fd >= 0 ==> path !in old(tree) && IsColl(old(tree), Parent(path))
      ensures fd >= 0 ==> Writing(path) && Overwritten(old(tree), tree, path, [])
    {
      if * {
        fd := Refuse();
      } else if path !in tree && IsColl(tree, Parent(path)) {
        fd :| fd >= 0;
        var now: int := *;
        tree := tree[path := ObjNode([], now, {})];
        desc := Some(Descriptor(path, 0, true));
      } else {
        fd :| fd < 0;
      }
    }

    /** rsDataObjWrite: a write that does not fail is complete, one that fails may have written a part. */
    method Write(chunk: seq<byte>) returns (status: int)
      requires desc.Some? && Writing(desc.value.path)
      modifies this`tree, this`refused, this`codes, this`written
      ensures Onward()
      ensures status < 0 <==> refused > old(refused)
      ensures status < 0 ==> Reported(status)
      ensures Writing(desc.value.path)
      ensures var p := desc.value.path;
              var was, now := old(tree)[p].bytes, tree[p].bytes;
              Overwritten(old(tree), tree, p, now) &&
              |was| <= |now| <= |was| + |chunk| && now == was + chunk[..|now| - |was|] &&
              (status >= 0 ==> now == was + chunk) &&
              written == old(written) + Occupied(|now|) - Occupied(|was|)
      ensures written >= old(written)
    {
      var p, n, now := desc.value.path, |chunk|, 0;
      if * {
        status := Refuse();
        n :| 0 <= n <= |chunk|;
      } else {
        status :| status >= 0;
      }
      now := *;
      var was := tree[p].bytes;
      OccupiedMonotone(|was|, |was + chunk[..n]|);
      assert chunk[..|chunk|] == chunk;
      written := written + Occupied(|was + chunk[..n]|) - Occupied(|was|);
      tree := tree[p := ObjNode(was + chunk[..n], now, tree[p].avus)];
    }

    /** rsDataObjClose of a data object that was read. */
    method Close() returns (status: int)
      requires desc.Some? && !desc.value.writing
      modifies this`desc, this`refused, this`codes
      ensures Idle() && Onward() && status <= 0
      ensures status < 0 <==> refused > old(refused)
    {
      if * {
        status := Refuse();
      } else {
        status := 0;
      }
      desc := None;
    }

    /** rsDataObjClose of a data object that was written, which stamps its modification time. */
    method CloseWritten(ghost file: string) returns (status: int)
      requires desc.Some? && Writing(file)
      modifies this`tree, this`desc, this`refused, this`codes
      ensures Idle() && Onward() && status <= 0
      ensures status < 0 <==> refused > old(refused)
      ensures old(codes) <= codes && (status < 0 ==> Reported(status))
      ensures Overwritten(old(tree), tree, file, old(tree)[file].bytes)
    {
      var path, now := desc.value.path, 0;
      if * {
        status := Refuse();
      } else {
        status := 0;
      }
      now := *;
      tree := tree[path := tree[path].(mtime := now)];
      desc := None;
    }

    /** rsModDataObjMeta with DATA_MODIFY_KW. */
    method ModifyTime(path: string, mtime: int) returns (status: int)
      modifies this`tree, this`refused, this`codes, this`untimed
      ensures Onward() && refused - old(refused) == untimed - old(untimed) <= 1
      ensures untimed > old(untimed) ==> tree == old(tree)
      ensures untimed == old(untimed) ==>
                tree == if IsObj(old(tree), path) then old(tree)[path := old(tree)[path].(mtime := mtime)]
                        else old(tree)
    {
      if * {
        status := Refuse();
        untimed := untimed + 1;
      } else if IsObj(tree, path) {
        tree := tree[path := tree[path].(mtime := mtime)];
        status := 0;
      } else {
        status := CAT_UNKNOWN_COLLECTION;
      }
    }

    /**
     * rsModAVUMetadata on a collection ("-C") or data object ("-d"): "set" leaves one triple of that name,
     * "add" joins a triple to the others.
     */
    method ModifyAvu(op: AvuOp, coll: bool, path: string, a: Avu) returns (status: int)
      modifies this`tree, this`refused, this`codes, this`unset
      ensures Onward() && refused - old(refused) == unset - old(unset) <= 1
      ensures unset > old(unset) ==> tree == old(tree)
      ensures unset == old(unset) ==>
                tree == if path in old(tree) && old(tree)[path].CollNode? == coll then
                          old(tree)[path := old(tree)[path].(avus :=
                            (if op == Set then Without(old(tree)[path].avus, a.name) else old(tree)[path].avus) + {a})]
                        else old(tree)
    {
      if * {
        status := Refuse();
        unset := unset + 1;
      } else if path in tree && tree[path].CollNode? == coll {
        var avus := tree[path].avus;
        tree := tree[path := tree[path].(avus := (if op == Set then Without(avus, a.name) else avus) + {a})];
        status := 0;
      } else {
        status := CAT_UNKNOWN_COLLECTION;
      }
    }
  }
}
