/** The `Archive` class: an item list with its size, written to a container and read back in step with it. */
module Archive {
  import opened Wrappers
  import opened Attributes
  import opened Blocks
  import opened Paths
  import opened Index
  import opened Namespace
  import opened Server
  import opened LibArchive

  const A_BUFSIZE: nat := 1024 * 1024

  /** The container begins with an index that can be read. */
  predicate Opens(container: seq<Entry>) {
    container != [] && container[0].pathname == INDEX_NAME && container[0].body.Text?
  }

  /** The items of the container's index. */
  function Indexed(container: seq<Entry>): seq<Item>
    requires Opens(container)
  {
    container[0].body.document.items
  }

  /**
   * After the index, the container holds entries of the first items in order, with these bytes: of all items when
   * it is complete, of fewer, the last perhaps without all its data, when writing it was stopped.
   */
  ghost predicate Held(container: seq<Entry>, ms: seq<Member>) {
    && Opens(container) && |container| == |ms| + 1 && |ms| <= |Indexed(container)|
    && forall k :: 0 <= k < |ms| ==> ms[k].item == Indexed(container)[k] && container[k + 1] == EntryOf(ms[k])
  }

  /** An entry with the right header and the first of its data. */
  ghost predicate Partial(entry: Entry, whole: Entry) {
    && entry.body.Bytes? && whole.body.Bytes? && entry == whole.(body := entry.body)
    && entry.body.bytes <= whole.body.bytes
  }

  /** Writing `whole` stopped at item `index`: all entries before it are complete, and at most its own follows. */
  ghost predicate StoppedAt(entries: seq<Entry>, whole: seq<Entry>, index: nat) {
    && index + 1 < |whole| && index + 1 <= |entries| <= index + 2
    && entries[..index + 1] == whole[..index + 1]
    && (|entries| == index + 2 ==> Partial(entries[index + 1], whole[index + 1]))
  }

  /** A container whose writing was stopped opens, and holds what was written. */
  lemma {:induction false} StoppedHeld(entries: seq<Entry>, collection: string, size: int, full: seq<Member>,
                                       index: nat) returns (ms: seq<Member>)
    requires StoppedAt(entries, Pack(collection, size, full), index)
    ensures Held(entries, ms) && Indexed(entries) == ItemsOf(full)
    ensures index < |full| && index <= |ms| <= index + 1 && ms[..index] == full[..index]
    ensures |ms| == index + 1 ==>
              ms[index].item == full[index].item && ms[index].bytes <= full[index].bytes
  {
    hide Pack, ItemsOf, EntryOf;
    var whole := Pack(collection, size, full);
    assert forall k :: 0 <= k <= index ==> entries[k] == entries[..index + 1][k] == whole[k];
    ms := full[..index];
    if |entries| == index + 2 {
      var last := Member(full[index].item, entries[index + 1].body.bytes);
      PartialEntry(entries[index + 1], full[index], last);
      ms := ms + [last];
    }
  }

  lemma {:induction false} PartialEntry(entry: Entry, m: Member, last: Member)
    requires Partial(entry, EntryOf(m)) && last == Member(m.item, entry.body.bytes)
    ensures entry == EntryOf(last) && last.bytes <= m.bytes
  {
  }

  /** The listed data objects that exist have their recorded sizes. */
  ghost predicate SizesRecorded(t: Tree, origin: string, items: seq<Item>) {
    forall k :: 0 <= k < |items| && items[k].DataObj? && IsObj(t, Join(origin, items[k].name)) ==>
      |t[Join(origin, items[k].name)].bytes| == items[k].size
  }

  /** The data objects among the first `n` items exist. */
  ghost predicate AllPresent(t: Tree, origin: string, items: seq<Item>, n: nat)
    requires n <= |items|
  {
    forall k :: 0 <= k < n && items[k].DataObj? ==> IsObj(t, Join(origin, items[k].name))
  }

  /** After its first entry the container has one entry for each item, with what the item's path holds. */
  ghost predicate EntriesFor(t: Tree, origin: string, items: seq<Item>, whole: seq<Entry>) {
    |whole| == |items| + 1 &&
    forall k :: 0 <= k < |items| ==> whole[k + 1] == EntryOf(Member(items[k], BytesAt(t, origin, items[k])))
  }

  lemma {:induction false} PresentAreSized(t: Tree, origin: string, items: seq<Item>)
    requires SizesRecorded(t, origin, items) && AllPresent(t, origin, items, |items|)
    ensures Sized(MembersOf(t, origin, items))
  {
  }

  /** The effect of extracting a member as `file`, before its metadata is set. */
  ghost predicate Extracted(t: Tree, u: Tree, file: string, m: Member) {
    if m.item.Coll? then
      IsColl(u, file) && u == if file in t then t else t[file := CollNode({})]
    else
      Overwritten(t, u, file, m.bytes)
  }

  class Archive {
    const server: Server
    const archive: LibArchive
    const creating: bool
    const path: string
    const origin: string
    var list: seq<Item>
    var index: nat
    var dataSize: nat
    ghost const members: seq<Member> // what the container being read holds

    /**
     * While creating, the size is the sum of the blocks of the listed data objects, in a 64-bit word.
     * While reading, the cursor and the stream are in step.
     */
    ghost predicate Valid()
      reads this, archive
    {
      if creating then
        && (forall k :: 0 <= k < |list| ==> list[k].Size() < TWO_TO_THE_63)
        && dataSize == TotalBlocks(list) % TWO_TO_THE_64
      else
        && Held(archive.entries, members) && list == Indexed(archive.entries)
        && archive.entries[0].body.document.collection == origin
        && dataSize == ToUnsigned(archive.entries[0].body.document.size)
        && index <= |members| && archive.pos == index + 1
        && (index > 0 && list[index - 1].DataObj? ==> archive.offset <= |members[index - 1].bytes|)
    }

    constructor Creating(server: Server, archive: LibArchive, path: string, origin: string)
      requires archive.entries == []
      ensures Valid() && creating && list == [] && index == 0
      ensures this.server == server && this.archive == archive && this.path == path && this.origin == origin
    {
      this.server, this.archive, this.path, this.origin := server, archive, path, origin;
      creating, list, index, dataSize, members := true, [], 0, 0, [];
    }

    constructor Reading(server: Server, archive: LibArchive, path: string, document: Document, ghost ms: seq<Member>)
      requires Held(archive.entries, ms) && archive.entries[0].body.document == document && archive.pos == 1
      ensures Valid() && !creating && list == Indexed(archive.entries) && members == ms && index == 0
      ensures this.server == server && this.archive == archive
    {
      this.server, this.archive, this.path, this.origin := server, archive, path, document.collection;
      creating, list, index, dataSize, members := false, document.items, 0, ToUnsigned(document.size), ms;
    }

    /** `create`: nothing when the archive's own data object cannot be opened. */
    static method Create(server: Server, path: string, collection: string) returns (a: Archive?)
      modifies server`refused, server`codes
      ensures server.Onward()
      ensures a == null <==> server.refused > old(server.refused)
      ensures a != null ==> fresh(a) && fresh(a.archive) && a.Valid() && a.creating && a.server == server
      ensures a != null ==> a.path == path && a.origin == collection
      ensures a != null ==> a.list == [] && a.index == 0 && a.archive.entries == []
    {
      if * {
        var _ := server.Refuse();
        return null;
      }
      var handle := new LibArchive.Write();
      a := new Archive.Creating(server, handle, path, collection);
    }

    /** `open`: nothing when the archive cannot be read or does not begin with its index. */
    static method Open(server: Server, path: string, container: seq<Entry>, ghost ms: seq<Member>) returns (a: Archive?)
      requires Opens(container) ==> Held(container, ms)
      modifies server`refused, server`codes, server`cut
      ensures server.Onward()
      ensures a != null ==> Opens(container) && server.refused == old(server.refused)
      ensures a == null ==> !Opens(container) || server.refused > old(server.refused)
      ensures a != null ==> fresh(a) && fresh(a.archive) && a.Valid() && !a.creating && a.server == server
      ensures a != null ==> a.members == ms && a.list == Indexed(container) && a.index == 0
      ensures a != null ==> a.archive.entries == container && container[0].pathname == "INDEX.json"
    {
      var handle := new LibArchive.Read(container);
      var ok := handle.NextHeader(server);
      if !ok || handle.Current().pathname != INDEX_NAME {
        return null;
      }
      var document := handle.ReadText(server);
      if document == None {
        return null;
      }
      a := new Archive.Reading(server, handle, path, document.value, ms);
    }

    /** `addDataObj`: listed and counted, unless it is the archive itself. */
    method AddDataObj(name: string, size: nat, created: int, modified: int, owner: string, zone: string,
                      checksum: string, attributes: Option<seq<Avu>>, acl: Option<seq<string>>)
      requires Valid() && creating && size < TWO_TO_THE_63
      modifies this`list, this`dataSize
      ensures Valid()
      ensures list == old(list) +
                if path == Join(origin, name) then []
                else [DataObj(name, size, created, modified, owner + "#" + zone,
                              if checksum == "" then None else Some(checksum), attributes, acl)]
    {
      if path != origin + "/" + name {
        var item := DataObj(name, size, created, modified, owner + "#" + zone,
                            if |checksum| != 0 then Some(checksum) else None, attributes, acl);
        TotalBlocksSnoc(list, item);
        RoundUpIsOccupied(size);
        AddModulo(TotalBlocks(list), RoundUp(size), TWO_TO_THE_64);
        list := list + [item];
        dataSize := (dataSize + RoundUp(size)) % TWO_TO_THE_64;
      }
    }

    /** `addColl`: listed, and taking no space. */
    method AddColl(name: string, created: int, modified: int, owner: string, zone: string,
                   attributes: Option<seq<Avu>>, acl: Option<seq<string>>)
      requires Valid() && creating
      modifies this`list
      ensures Valid()
      ensures list == old(list) + [Coll(name, created, modified, owner + "#" + zone, attributes, acl)]
    {
      var item := Coll(name, created, modified, owner + "#" + zone, attributes, acl);
      TotalBlocksSnoc(list, item);
      list := list + [item];
    }

    /** The container that `Construct` is to write. */
    ghost function Whole(): seq<Entry>
      requires dataSize < TWO_TO_THE_64
      reads this`list, this`dataSize, server`tree
    {
      Pack(origin, ToSigned(dataSize), MembersOf(server.tree, origin, list))
    }

    /**
     * `construct`: on success the container is the index followed by one entry for each item. When it stops
     * at item `index`, exactly the entries before that item are complete, and at most one follows.
     */
    method Construct() returns (status: int)
      requires Valid() && server.Idle()
      requires creating ==> archive.entries == [] && index == 0 && SizesRecorded(server.tree, origin, list)
      modifies this`index, archive`entries, server`desc, server`refused, server`codes
      ensures server.Idle() && status <= 0
      ensures server.refused >= old(server.refused) && |server.codes| >= |old(server.codes)|
      ensures !creating ==> status == 0 && index == old(index) && archive.entries == old(archive.entries)
      ensures Valid()
      ensures creating && status == 0 ==> index == |list| && archive.entries == Whole()
      ensures creating && status == 0 ==> AllPresent(server.tree, origin, list, |list|)
      ensures creating && status < 0 ==>
                (index == 0 && !Opens(archive.entries)) || StoppedAt(archive.entries, Whole(), index)
      ensures creating && server.refused == old(server.refused) ==>
                (status == 0 <==> AllPresent(server.tree, origin, list, |list|))
      ensures creating && (status == 0 || index > 0) ==>
                archive.entries[0] == Entry("INDEX.json", Regular, 0, 0, archive.entries[0].body) &&
                archive.entries[0].body == Text(Document(origin, ToSigned(dataSize), list))
      ensures creating && status == 0 ==> |archive.entries| == |list| + 1
      ensures creating ==>
                forall k :: 0 <= k < index ==>
                  var entry, item := archive.entries[k + 1], list[k];
                  entry.pathname == item.name && entry.mtime == item.modified &&
                  (entry.filetype == Directory <==> item.Coll?) &&
                  if item.Coll? then entry.size == 0 && entry.body == Bytes([])
                  else entry.size == item.size &&
                       entry.body == Bytes(if IsObj(server.tree, origin + "/" + item.name)
                                           then server.tree[origin + "/" + item.name].bytes else [])
    {
      hide Pack, MembersOf, ItemsOf, TotalBlocks, EntryOf;
      status := 0;
      if creating {
        status := WriteIndex();
        if status == 0 {
          WholeShows(server.tree, origin, ToSigned(dataSize), list);
          status := WriteItems(Whole());
        }
      }
    }

    /** The loop over the items. */
    method WriteItems(ghost whole: seq<Entry>) returns (status: int)
      requires EntriesFor(server.tree, origin, list, whole) && server.Idle()
      requires SizesRecorded(server.tree, origin, list) && archive.entries == [whole[0]] && whole[0].Complete()
      modifies this`index, archive`entries, server`desc, server`refused, server`codes
      ensures server.Idle() && status <= 0
      ensures server.refused >= old(server.refused) && |server.codes| >= |old(server.codes)|
      ensures status == 0 ==> index == |list| && archive.entries == whole
      ensures status == 0 ==> AllPresent(server.tree, origin, list, |list|)
      ensures status < 0 ==> StoppedAt(archive.entries, whole, index)
      ensures server.refused == old(server.refused) && status < 0 ==>
                index < |list| && list[index].DataObj? && !IsObj(server.tree, Join(origin, list[index].name))
    {
      assert [whole[0]] == whole[..1];
      index := 0;
      while index < |list|
        invariant index <= |list| && server.Idle()
        invariant server.refused >= old(server.refused) && |server.codes| >= |old(server.codes)|
        invariant archive.entries == whole[..index + 1] && whole[index].Complete()
        invariant AllPresent(server.tree, origin, list, index)
        decreases |list| - index
      {
        status := WriteNext(whole);
        if status < 0 {
          return;
        }
        index := index + 1;
      }
      assert whole[..|list| + 1] == whole;
      status := 0;
    }

    /** One round of the loop: the next entry of the container, or a reason to stop. */
    method WriteNext(ghost whole: seq<Entry>) returns (status: int)
      requires index < |list| && EntriesFor(server.tree, origin, list, whole) && server.Idle()
      requires archive.entries == whole[..index + 1] && whole[index].Complete()
      requires SizesRecorded(server.tree, origin, list)
      modifies archive`entries, server`desc, server`refused, server`codes
      ensures server.Idle() && status <= 0
      ensures server.refused >= old(server.refused) && |server.codes| >= |old(server.codes)|
      ensures status == 0 ==> archive.entries == whole[..index + 2] && whole[index + 1].Complete()
      ensures status == 0 && list[index].DataObj? ==> IsObj(server.tree, Join(origin, list[index].name))
      ensures status < 0 ==> StoppedAt(archive.entries, whole, index)
      ensures server.refused == old(server.refused) && status < 0 ==>
                list[index].DataObj? && !IsObj(server.tree, Join(origin, list[index].name))
    {
      status := WriteItem(list[index]);
      if status == 0 {
        assert whole[..index + 2] == whole[..index + 1] + [whole[index + 1]];
      }
    }

    /** The first entry. */
    method WriteIndex() returns (status: int)
      requires archive.entries == [] && dataSize < TWO_TO_THE_64
      modifies archive`entries, server`refused, server`codes
      ensures server.refused >= old(server.refused) && |server.codes| >= |old(server.codes)| && status <= 0
      ensures status == 0 ==> archive.entries == [IndexEntry(Document(origin, ToSigned(dataSize), list))]
      ensures status < 0 ==> !Opens(archive.entries) && server.refused > old(server.refused)
    {
      var header := IndexEntry(Document(origin, ToSigned(dataSize), list));
      status := archive.WriteHeader(server, header.(body := Bytes([])));
      if status < 0 {
        return SYS_TAR_APPEND_ERR;
      }
      status := archive.WriteText(server, header.body.document);
      if status < 0 {
        return SYS_TAR_APPEND_ERR;
      }
      status := 0;
    }

    /** The entry of one item, its data included. */
    method WriteItem(item: Item) returns (status: int)
      requires server.Idle() && archive.entries != [] && archive.entries[|archive.entries| - 1].Complete()
      requires item.DataObj? && IsObj(server.tree, Join(origin, item.name)) ==>
                 |server.tree[Join(origin, item.name)].bytes| == item.size
      modifies archive`entries, server`desc, server`refused, server`codes
      ensures server.Idle() && status <= 0
      ensures server.refused >= old(server.refused) && |server.codes| >= |old(server.codes)|
      ensures status == 0 ==>
                archive.entries == old(archive.entries) + [EntryOf(Member(item, BytesAt(server.tree, origin, item)))]
      ensures status == 0 && item.DataObj? ==> IsObj(server.tree, Join(origin, item.name))
      ensures status < 0 ==> |old(archive.entries)| <= |archive.entries| <= |old(archive.entries)| + 1 &&
                             archive.entries[..|old(archive.entries)|] == old(archive.entries)
      ensures status < 0 && |archive.entries| > |old(archive.entries)| ==>
                Partial(archive.entries[|old(archive.entries)|],
                        EntryOf(Member(item, BytesAt(server.tree, origin, item))))
      ensures server.refused == old(server.refused) && status < 0 ==>
                item.DataObj? && !IsObj(server.tree, Join(origin, item.name))
    {
      status := archive.WriteHeader(server, HeaderOf(item));
      if status < 0 {
        return SYS_TAR_APPEND_ERR;
      }
      assert archive.entries[..|old(archive.entries)|] == old(archive.entries);
      status := 0;
      if item.DataObj? {
        status := CopyIn(item);
      }
      assert archive.entries == archive.entries[..|old(archive.entries)|] + [archive.entries[|old(archive.entries)|]];
    }

    /** The data of one listed object, read in chunks of any size and appended to its entry. */
    method CopyIn(item: Item) returns (status: int)
      requires server.Idle() && item.DataObj?
      requires archive.entries != [] && archive.entries[|archive.entries| - 1] == HeaderOf(item)
      requires IsObj(server.tree, Join(origin, item.name)) ==> |server.tree[Join(origin, item.name)].bytes| == item.size
      modifies archive`entries, server`desc, server`refused, server`codes
      ensures server.Idle() && server.refused >= old(server.refused) && |server.codes| >= |old(server.codes)|
      ensures |archive.entries| == |old(archive.entries)|
      ensures archive.entries[..|archive.entries| - 1] == old(archive.entries)[..|archive.entries| - 1]
      ensures server.refused == old(server.refused) ==> (status >= 0 <==> IsObj(server.tree, Join(origin, item.name)))
      ensures status >= 0 ==> IsObj(server.tree, Join(origin, item.name))
      ensures status <= 0
      ensures Partial(archive.entries[|archive.entries| - 1],
                      EntryOf(Member(item, BytesAt(server.tree, origin, item))))
      ensures status >= 0 ==>
                archive.entries[|archive.entries| - 1] == EntryOf(Member(item, BytesAt(server.tree, origin, item)))
    {
      var fd := server.OpenRead(origin + "/" + item.name);
      if fd < 0 {
        return fd;
      }
      ghost var content := BytesAt(server.tree, origin, item);
      ghost var n := |archive.entries| - 1;
      ghost var before := archive.entries[..n];
      ghost var offset := 0;
      while true
        invariant server.refused == old(server.refused) && |server.codes| >= |old(server.codes)|
        invariant |archive.entries| == n + 1 && archive.entries[..n] == before
        invariant offset <= |content| == item.size
        invariant archive.entries[n] == HeaderOf(item).(body := Bytes(content[..offset]))
        invariant server.desc == Some(Descriptor(Join(origin, item.name), offset, false))
        decreases |content| - offset
      {
        var len, chunk := server.Read(A_BUFSIZE);
        if len < 0 {
          var _ := server.Close();
          return SYS_TAR_APPEND_ERR;
        }
        if len == 0 {
          break;
        }
        status := archive.WriteData(server, chunk);
        ChunkIsPrefix(content, offset, chunk, archive.entries[n].body.bytes);
        if status < 0 {
          var _ := server.Close();
          return SYS_TAR_APPEND_ERR;
        }
        offset := offset + len;
      }
      assert content[..offset] == content;
      var _ := server.Close();
      status := 0;
    }

    /** `size`: the space the items take once extracted. */
    function Size(): nat
      reads this
    {
      dataSize
    }

    /** `nextItem`: the item of the next entry; whatever is left of the current one is skipped. */
    method NextItem() returns (item: Option<Item>)
      requires Valid() && !creating
      modifies this`index, archive`pos, archive`offset, server`refused, server`codes, server`cut
      ensures Valid() && server.Onward()
      ensures item == None ==> index == old(index) && (server.cut == old(server.cut) <==> index == |members|)
      ensures item == None && server.refused == old(server.refused) ==> index == |members|
      ensures item.Some? ==> server.refused == old(server.refused) && index == old(index) + 1 && archive.offset == 0
      ensures item.Some? ==> item.value == list[old(index)] == members[old(index)].item
      ensures item.Some? ==> archive.AtEntry() && archive.Current() == EntryOf(members[old(index)])
      ensures item.Some? ==>
                var entry, bytes := archive.Current(), members[old(index)].bytes;
                entry.pathname == item.value.name && entry.mtime == item.value.modified &&
                (entry.filetype == Directory <==> item.value.Coll?) &&
                if item.value.Coll? then entry.size == 0 && entry.body == Bytes([])
                else entry.size == item.value.size && entry.body == Bytes(bytes)
    {
      hide Held;
      HeldAt(archive.entries, members, index);
      var ok := archive.NextHeader(server);
      if ok {
        item := if index < |list| then Some(list[index]) else None;
        index := index + 1;
      } else {
        item := None;
      }
    }

    /** `extractItem`: the current entry as `file`. */
    method ExtractItem(file: string) returns (status: int)
      requires Valid() && !creating && index > 0 && archive.offset == 0 && server.Idle()
      modifies archive`offset, server`tree, server`desc, server`refused, server`codes, server`written
      ensures Valid() && server.Idle() && server.Onward() && status <= 0
      ensures status == 0 ==> Extracted(old(server.tree), server.tree, file, members[index - 1])
      ensures status == 0 ==> Fits(old(server.tree), file, members[index - 1].item.Coll?)
      ensures status < 0 ==> Disturbed(old(server.tree), server.tree, file, members[index - 1])
      ensures status < 0 ==> server.Failed(status) || !Fits(old(server.tree), file, members[index - 1].item.Coll?)
      ensures server.refused == old(server.refused) ==>
                (status == 0 <==> Fits(old(server.tree), file, members[index - 1].item.Coll?))
      ensures old(server.written) <= server.written
      ensures server.written <= old(server.written) +
                if members[index - 1].item.Coll? then 0 else Occupied(|members[index - 1].bytes|)
    {
      hide Held;
      HeldAt(archive.entries, members, index - 1);
      if archive.Current().filetype == Directory {
        status := server.CollCreate(file, false);
        if status == CATALOG_ALREADY_HAS_ITEM_BY_THAT_NAME {
          status := 0;
        }
      } else {
        status := CopyOut(file, members[index - 1]);
      }
    }

    /** `_creat`: an existing data object emptied, otherwise a new one. */
    method Creat(file: string) returns (fd: int)
      requires server.Idle()
      modifies server`tree, server`desc, server`refused, server`codes
      ensures server.Onward()
      ensures fd >= 0 ==> Fits(old(server.tree), file, false)
      ensures fd < 0 ==> server.Failed(fd) || !Fits(old(server.tree), file, false)
      ensures server.refused == old(server.refused) ==> (fd >= 0 <==> Fits(old(server.tree), file, false))
      ensures fd < 0 ==> server.Idle() && server.tree == old(server.tree)
      ensures fd >= 0 ==>
                server.desc.Some? && server.Writing(file) && Overwritten(old(server.tree), server.tree, file, [])
    {
      fd := server.OpenTruncate(file);
      if fd == OBJ_PATH_DOES_NOT_EXIST {
        fd := server.Create(file);
      }
    }

    /** The data of the current entry, written in chunks of any size to `file`, emptied or created. */
    method CopyOut(file: string, ghost m: Member) returns (status: int)
      requires server.Idle() && archive.AtEntry() && archive.Current() == EntryOf(m) && m.item.DataObj?
      requires archive.offset == 0
      modifies archive`offset, server`tree, server`desc, server`refused, server`codes, server`written
      ensures server.Idle() && server.Onward() && status <= 0
      ensures archive.offset <= |m.bytes|
      ensures status == 0 ==> Fits(old(server.tree), file, false)
      ensures status == 0 ==> Extracted(old(server.tree), server.tree, file, m)
      ensures status < 0 ==> Disturbed(old(server.tree), server.tree, file, m)
      ensures status < 0 ==> server.Failed(status) || !Fits(old(server.tree), file, false)
      ensures server.refused == old(server.refused) ==> (status == 0 <==> Fits(old(server.tree), file, false))
      ensures old(server.written) <= server.written <= old(server.written) + Occupied(|m.bytes|)
    {
      ghost var t := server.tree;
      var fd := Creat(file);
      if fd < 0 {
        return fd;
      }
      status := CopyData(file, m, t);
      ghost var u := server.tree;
      if status < 0 {
        var _ := server.CloseWritten(file);
      } else {
        status := server.CloseWritten(file);
      }
      OverwrittenAgain(t, u, server.tree, file, u[file].bytes);
    }

    /** The loop that copies the entry's data. */
    method CopyData(file: string, ghost m: Member, ghost t: Tree) returns (status: int)
      requires archive.AtEntry() && archive.Current() == EntryOf(m) && m.item.DataObj? && archive.offset == 0
      requires server.desc.Some? && server.Writing(file) && Overwritten(t, server.tree, file, [])
      modifies archive`offset, server`tree, server`refused, server`codes, server`written
      ensures server.Onward() && (status < 0 <==> server.refused > old(server.refused))
      ensures archive.offset <= |m.bytes| && status <= 0 && server.Writing(file)
      ensures status < 0 ==> server.Failed(status)
      ensures Overwritten(t, server.tree, file, server.tree[file].bytes)
      ensures server.tree[file].bytes <= m.bytes && (status == 0 ==> server.tree[file].bytes == m.bytes)
      ensures old(server.written) <= server.written <= old(server.written) + Occupied(|m.bytes|)
    {
      hide Overwritten, Occupied;
      OverwrittenBytes(t, server.tree, file, []);
      OccupiedNothing();
      while true
        invariant archive.offset <= |m.bytes|
        invariant server.Onward() && server.refused == old(server.refused) && server.Writing(file)
        invariant server.tree[file].bytes == m.bytes[..archive.offset]
        invariant Overwritten(t, server.tree, file, server.tree[file].bytes)
        invariant server.written == old(server.written) + Occupied(archive.offset)
        decreases |m.bytes| - archive.offset
      {
        ghost var offset, u := archive.offset, server.tree;
        var len, chunk := archive.ReadData(server, A_BUFSIZE);
        OccupiedMonotone(offset, |m.bytes|);
        if len < 0 {
          return SYS_TAR_EXTRACT_ALL_ERR;
        }
        if len == 0 {
          break;
        }
        status := server.Write(chunk);
        ChunkIsPrefix(m.bytes, offset, chunk, server.tree[file].bytes);
        OverwrittenAgain(t, u, server.tree, file, server.tree[file].bytes);
        if status < 0 {
          OccupiedMonotone(|server.tree[file].bytes|, |m.bytes|);
          return;
        }
      }
      assert m.bytes[..archive.offset] == m.bytes;
      status := 0;
    }
  }

  lemma {:induction false} OverwrittenBytes(t: Tree, u: Tree, file: string, bytes: seq<byte>)
    requires Overwritten(t, u, file, bytes)
    ensures IsObj(u, file) && u[file].bytes == bytes
  {
  }

  lemma {:induction false} OccupiedNothing()
    ensures Occupied(0) == 0
  {
  }

  lemma {:induction false} ChunkIsPrefix(content: seq<byte>, offset: nat, chunk: seq<byte>, now: seq<byte>)
    requires offset + |chunk| <= |content| && chunk == content[offset..offset + |chunk|]
    requires now <= content[..offset] + chunk
    ensures content[..offset] + chunk == content[..offset + |chunk|] && now <= content
  {
  }

  /** What the container of a listing shows, spelled out. */
  lemma {:induction false} WholeShows(t: Tree, origin: string, size: int, items: seq<Item>)
    ensures var whole := Pack(origin, size, MembersOf(t, origin, items));
            |whole| == |items| + 1 &&
            whole[0] == Entry("INDEX.json", Regular, 0, 0, Text(Document(origin, size, items))) &&
            forall k :: 0 <= k < |items| ==>
              var entry, item := whole[k + 1], items[k];
              entry.pathname == item.name && entry.mtime == item.modified &&
              (entry.filetype == Directory <==> item.Coll?) &&
              if item.Coll? then entry.size == 0 && entry.body == Bytes([])
              else entry.size == item.size &&
                   entry.body == Bytes(if IsObj(t, origin + "/" + item.name)
                                       then t[origin + "/" + item.name].bytes else [])
  {
  }

  /** Entry `k + 1` of a container is that of item `k`. */
  lemma {:induction false} HeldAt(container: seq<Entry>, ms: seq<Member>, k: nat)
    requires Held(container, ms) && k <= |ms|
    ensures |container| == |ms| + 1 && |ms| <= |Indexed(container)|
    ensures k < |ms| ==> container[k + 1] == EntryOf(ms[k]) && Indexed(container)[k] == ms[k].item
  {
  }

  lemma {:induction false} AddModulo(a: nat, b: nat, m: nat)
    requires m > 0
    ensures (a % m + b) % m == (a + b) % m
  {
    var q := a / m;
    assert a == q * m + a % m;
    var r, s := (a % m + b) % m, (a % m + b) / m;
    assert a + b == (q + s) * m + r;
    QuotientUnique(a + b, m, q + s, r, (a + b) / m, (a + b) % m);
  }
}
