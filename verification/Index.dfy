/** The stored index of an archive, its physical entries, and the container that pairs them. */
module Index {
  import opened Wrappers
  import opened Attributes
  import opened Blocks
  import Paths

  /** One object of the "items" array of INDEX.json. */
  datatype Item =
    | DataObj(name: string, size: nat, created: int, modified: int, owner: string,
              checksum: Option<string>, attributes: Option<seq<Avu>>, acl: Option<seq<string>>)
    | Coll(name: string, created: int, modified: int, owner: string,
           attributes: Option<seq<Avu>>, acl: Option<seq<string>>)
  {
    /** The triples an extractor replays: none when the "attributes" key is missing. */
    function Avus(): seq<Avu> {
      if attributes.Some? then attributes.value else []
    }

    /** The "size" an item asks for, zero for a collection, which has no such key. */
    function Size(): nat {
      if DataObj? then size else 0
    }
  }

  /** The value of INDEX.json. */
  datatype Document = Document(collection: string, size: int, items: seq<Item>)

  datatype FileType = Regular | Directory

  /** What an entry carries: plain bytes, or the text of an index, kept as its value. */
  datatype Body = Bytes(bytes: seq<byte>) | Text(document: Document)

  /** One entry of the container, as the archive library delivers it. */
  datatype Entry = Entry(pathname: string, filetype: FileType, mtime: int, size: nat, body: Body)
  {
    /** As many bytes as the header announced; an index text always has its own length. */
    predicate Complete() {
      body.Bytes? ==> |body.bytes| == size
    }
  }

  const INDEX_NAME := "INDEX.json"

  /** An index item together with the bytes stored for it. */
  datatype Member = Member(item: Item, bytes: seq<byte>)

  /** The stored bytes have the recorded size. */
  ghost predicate Sized(ms: seq<Member>) {
    forall k :: 0 <= k < |ms| ==> |ms[k].bytes| == ms[k].item.Size()
  }

  /** No more is stored than recorded. */
  ghost predicate WithinSize(ms: seq<Member>) {
    forall k :: 0 <= k < |ms| ==> |ms[k].bytes| <= ms[k].item.Size()
  }

  function HeaderOf(item: Item): Entry {
    Entry(item.name, if item.Coll? then Directory else Regular, item.modified, item.Size(), Bytes([]))
  }

  function EntryOf(m: Member): Entry {
    HeaderOf(m.item).(body := Bytes(if m.item.Coll? then [] else m.bytes))
  }

  function IndexEntry(document: Document): Entry {
    Entry(INDEX_NAME, Regular, 0, 0, Text(document))
  }

  function ItemsOf(ms: seq<Member>): (items: seq<Item>)
    ensures |items| == |ms|
    ensures forall k :: 0 <= k < |ms| ==> items[k] == ms[k].item
  {
    seq(|ms|, k requires 0 <= k < |ms| => ms[k].item)
  }

  /** The container of these members: the index first, then one entry for each item, in index order. */
  function Pack(collection: string, size: int, ms: seq<Member>): (es: seq<Entry>)
    ensures |es| == |ms| + 1
    ensures es[0] == IndexEntry(Document(collection, size, ItemsOf(ms)))
    ensures forall k :: 0 <= k < |ms| ==> es[k + 1] == EntryOf(ms[k])
  {
    [IndexEntry(Document(collection, size, ItemsOf(ms)))] + seq(|ms|, k requires 0 <= k < |ms| => EntryOf(ms[k]))
  }

  /** The blocks the listed data objects occupy, the number the index records as its size. */
  function TotalBlocks(items: seq<Item>): nat {
    if items == [] then 0
    else
      var last := items[|items| - 1];
      TotalBlocks(items[..|items| - 1]) + if last.DataObj? then Occupied(last.size) else 0
  }

  function TotalBytes(items: seq<Item>): nat {
    if items == [] then 0 else TotalBytes(items[..|items| - 1]) + items[|items| - 1].Size()
  }

  function CountObjects(items: seq<Item>): nat {
    if items == [] then 0
    else CountObjects(items[..|items| - 1]) + if items[|items| - 1].DataObj? then 1 else 0
  }

  /** The recorded total lies between the raw sum and the raw sum plus 8191 bytes for each object. */
  lemma {:induction false} TotalBlocksBounds(items: seq<Item>)
    ensures TotalBytes(items) <= TotalBlocks(items) <= TotalBytes(items) + (BLOCK_SIZE - 1) * CountObjects(items)
    ensures TotalBlocks(items) % BLOCK_SIZE == 0
  {
    if items != [] {
      TotalBlocksBounds(items[..|items| - 1]);
    }
  }

  lemma {:induction false} TotalBlocksMonotone(items: seq<Item>, k: nat)
    requires k <= |items|
    ensures TotalBlocks(items[..k]) <= TotalBlocks(items)
    decreases |items| - k
  {
    if k == |items| {
      assert items[..k] == items;
    } else {
      assert items[..k + 1][..k] == items[..k];
      TotalBlocksMonotone(items, k + 1);
    }
  }

  lemma {:induction false} TotalBlocksSnoc(items: seq<Item>, item: Item)
    ensures TotalBlocks(items + [item]) == TotalBlocks(items) + if item.DataObj? then Occupied(item.size) else 0
  {
    assert (items + [item])[..|items|] == items;
  }

  /** The names of the collection items. */
  ghost function CollNames(items: seq<Item>): set<string> {
    if items == [] then {}
    else
      var last := items[|items| - 1];
      CollNames(items[..|items| - 1]) + if last.Coll? then {last.name} else {}
  }

  /** The collection `name` is in was listed, or is the root. */
  ghost predicate HasParent(listed: set<string>, name: string) {
    Paths.LastSlash(name) < 0 || name[..Paths.LastSlash(name)] in listed
  }

  /** Every item whose name contains "/" comes after the collection item of its parent. */
  ghost predicate ParentFirst(items: seq<Item>) {
    items == [] ||
    (ParentFirst(items[..|items| - 1]) && HasParent(CollNames(items[..|items| - 1]), items[|items| - 1].name))
  }

  lemma {:induction false} CollNamesSnoc(items: seq<Item>, item: Item)
    ensures CollNames(items + [item]) == CollNames(items) + if item.Coll? then {item.name} else {}
  {
    assert (items + [item])[..|items|] == items;
  }

  lemma {:induction false} ParentFirstSnoc(items: seq<Item>, item: Item)
    requires ParentFirst(items) && HasParent(CollNames(items), item.name)
    ensures ParentFirst(items + [item])
  {
    assert (items + [item])[..|items|] == items;
  }

  lemma {:induction false} ParentFirstTake(items: seq<Item>, k: nat)
    requires ParentFirst(items) && k <= |items|
    ensures ParentFirst(items[..k])
    decreases |items|
  {
    if k < |items| {
      ParentFirstTake(items[..|items| - 1], k);
      assert items[..|items| - 1][..k] == items[..k];
    } else {
      assert items[..k] == items;
    }
  }

  lemma {:induction false} CollNameIndex(items: seq<Item>, name: string) returns (j: nat)
    requires name in CollNames(items)
    ensures j < |items| && items[j].Coll? && items[j].name == name
  {
    var n := |items| - 1;
    if items[n].Coll? && items[n].name == name {
      j := n;
    } else {
      j := CollNameIndex(items[..n], name);
    }
  }

  /** Where the parent of item `k` is. */
  lemma {:induction false} ParentIndex(items: seq<Item>, k: nat) returns (j: nat)
    requires ParentFirst(items) && k < |items| && Paths.LastSlash(items[k].name) >= 0
    ensures j < k && items[j].Coll? && items[j].name == items[k].name[..Paths.LastSlash(items[k].name)]
  {
    var n := |items| - 1;
    if k == n {
      j := CollNameIndex(items[..n], items[n].name[..Paths.LastSlash(items[n].name)]);
    } else {
      j := ParentIndex(items[..n], k);
    }
  }

  ghost predicate DistinctNames(items: seq<Item>) {
    forall i, j :: 0 <= i < j < |items| ==> items[i].name != items[j].name
  }
}
