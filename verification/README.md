# Archives, JSON editing and handle payloads: a verified model

The repository is a set of iRODS microservices. This project models the three of its parts that compute
something, and proves what they promise:

- **The archive subsystem** (`src/Archive.hh`, `src/msiArchiveCreate.cc`, `src/msiArchiveExtract.cc`). A paged,
  recursive walk over a flat relational catalogue fills an index; the index and one entry for each of its items
  are written to a container; a cursor over the index and a cursor over the container are read back in step; and
  each item is replayed into a target collection, behind a guard on free space.
- **The JSON editing services** (`src/msi_json_arrayops.cc`, `src/msi_json_objops.cc`): an array with a
  deduplication rule, and a batch of key-value operations folded over an object.
- **The handle payload** (`src/msiRegisterEpicPID.cc`): a hand-written printer for JSON string contents, the
  payload around it, and its upload in chunks.

## How it is laid out

| modules | what they hold |
|---|---|
| `Wrappers`, `Paths` | options, bytes, repetition-free lists; slash-separated paths |
| `Attributes`, `Blocks`, `Index`, `Namespace` | what things mean: attribute replay, 64-bit block arithmetic, index and container, the namespace and extraction into it |
| `Catalogue`, `Listing` | the rows of the catalogue, the unpaged walk over them, and the items it lists |
| `Server`, `LibArchive` | the two libraries below the microservices, as objects with state |
| `Archive`, `ArchiveCreate`, `ArchiveExtract` | the class and the two microservices, imperative as in the source, each method proved against the meanings above |
| `RoundTrip` | both microservices together |
| `Json`, `JsonArrayOps`, `JsonObjOps`, `EpicPayload`, `EpicDocument` | the other two parts |

The methods of `Archive`, `ArchiveCreate` and `ArchiveExtract` follow the source's loops and branches and are tied
by their postconditions to functions on values (`Catalogue.Inside`, `Listing.FullListing`, `Index.Pack`,
`Namespace.StoreAll`, `Attributes.Replay`). What these functions mean is proved about them as lemmas, so that a
reader never has to take the walk's or the loop's own word for it.

## The server, and calls that fail

The server's answers are nondeterministic: pages and chunks are of any size, and any call may be refused for reasons
outside the namespace (policy, storage, network). A data object or collection that cannot be created because of the
namespace itself (a missing parent, a node of another kind) is not a refusal.

Refusals are counted, in ghost fields of `Server.Server`, by what they cost. No status tells of the first four.

- `cut`: a listing query refused with rows left that would have given an item, or a header read refused with entries
  left.
- `unlisted`: an attribute query refused with rows left, for a row that is listed.
- `untimed`: a modification time that could not be set.
- `unset`: an attribute call refused.
- `refused`: every refusal, these included. The others either end the run with a negative status or cost nothing (closing
  what was read, an ACL query, a query or header read at its end, making a target that is there). `codes` keeps their
  statuses, so that a contract can say that a run returns the status of a call that was refused in it.

What the extraction's metadata calls lose is also kept member by member, as a `Namespace.Loss`: the time the server had
stamped, and the positions of the attribute calls that were refused. With it the tree is known exactly after every run
(`Namespace.StoreSome`), whatever is refused. An extraction that stops at an item, for whatever reason, leaves the items
before it in place, each with its own loss, has touched none after it, and leaves at the stop's own path at most a part of
the bytes and the attributes it had. Completeness of a listing or an extraction depends on `cut` alone, and only claims
that a call succeeds ask that no call at all was refused.

Of status codes only the sign matters and that the named ones differ.

## Hypotheses

They are `requires` clauses, and `Listing.Describes` and `Catalogue.WellFormed` gather most of them.

- The collection is not "/". Component names contain no "/".
- The target of the round trip is fresh: nothing is at or below it, its parent is a
  collection, and its path is not empty. What an extraction does to any other target is stated without this.
- The catalogue describes the namespace: its rows are exactly the paths, ids and names are keys, one good-replica
  row for each data object, recorded size equal to the content's length and below 2^63, no attribute row twice.
- Contents do not change while a run is under way, and a write that does not fail is complete.
- A container that opens holds its index and then entries of the first items of that index, in order, with any bytes
  (`Archive.Held`): what `construct` writes, whether it comes to its end or is stopped on the way, when the last entry
  may lack data. Any container that does not open is covered.

`Server.ModifyAvu` takes "set" to leave one triple of that name and "add" to join a triple to the others, which is
what iRODS does.

## What was found

- **Attributes round-trip exactly when equal names are adjacent.** The replay sets on every change of name, so a
  name that comes back after another one loses its earlier values (`Attributes.InterruptedNameLoses`). The listing
  query asks for no order, so nothing ensures adjacency. `Attributes.ReplayMeaning` gives the result for
  every list, `Attributes.ReplayExactIffGrouped` and `RoundTrip.RoundTripTree` the exact condition.
- **Two zero statuses do not make a round trip.** The query loops end on any nonzero status
  (`src/msiArchiveCreate.cc:67,274,333`), and reading headers ends on any error (`src/Archive.hh:387`).
  `RoundTrip.CutRun` gives, at a concrete collection, the outcome of each kind of refusal: both statuses are zero and the
  target stays empty.
  `RoundTrip.CreateAndExtract` gives the exact condition: with both statuses zero, what was below the collection is below
  the target, names, kinds and bytes, if and only if no such call was refused. Then the attributes of a row come back if
  and only if its listing has equal names adjacent, its attribute query was not cut short and none of its attribute calls
  was refused; those of all rows if and only if `unlisted` and `unset` did not grow and all listings are so ordered.
  Times do not depend on attributes: all of them come back when `untimed` did not grow.
- **A complete second extraction repairs** what refused calls lost in the first (`ArchiveExtract.SecondExtraction`).
- **A container left by a stopped create opens, and extracts with a zero status**, although the items after the stop are
  missing (`ArchiveExtract.StoppedGoesUnnoticed`). The index lists them all; nothing compares it with what was read.
- **The single-item space check compares bytes, the other one blocks** (`src/msiArchiveExtract.cc:152,183`): an item that
  passes may occupy up to a block more than nine tenths of the space, even more than all of it
  (`ArchiveExtract.SingleItemExceeds`); it is held to its limit in blocks if and only if the limit is a multiple of 8192
  (`ArchiveExtract.SingleItemWithinIff`).
- **The handle prefix is not escaped** (`src/msiRegisterEpicPID.cc:161`). The handle field reads back as meant
  if and only if the configured prefix needs no escaping (`EpicPayload.HandleReadsBackIffPlain`).
- **Adding and removing a value is not always the identity on a document.** `JsonObjOps.AddThenRmDocument` says
  exactly when it is. A missing key and an array value leave the array in place.
- **null is an element like any other**: it is appended once when absent, although the comment at
  `tests/msi_json_arrayops_test.r:24` says that adding it is not supported (`JsonArrayOps.NullIsAddedOnce`).
- **`rm` takes one occurrence**, so a boolean may still be found afterwards: `JsonArrayOps.RmThenFind` says exactly when.
- **`get` on a missing key, or on a number, gives no text** in `msi_json_objops`, where the dump is made without the
  flag that allows such values (`src/msi_json_objops.cc:98`).

## Model

| member | source | states |
|---|---|---|
| `Attributes.ReplayMeaning` | src/msiArchiveExtract.cc:85-95 | for any list over any prior metadata, a listed name ends with exactly the triples of its last contiguous run, and any other name with what it had |
| `Attributes.ReplayIdempotent` | src/msiArchiveExtract.cc:85-95 | replaying a list a second time changes nothing |
| `Attributes.ReplayExactIffGrouped` | src/msiArchiveExtract.cc:85-95 | distinct triples replayed over nothing give exactly the listed set if and only if equal names are adjacent |
| `Attributes.InterruptedNameLoses` | src/msiArchiveExtract.cc:92-93 | a concrete listing in which a name that comes back after another loses its first value |
| `Attributes.ReplayOnlyMeaning` | src/msiArchiveExtract.cc:85-95 | with any calls refused, a triple is there afterwards if and only if it was before and its name is never set, or its own call was made and its name is not set after |
| `Attributes.UnlistedKept` | src/msiArchiveExtract.cc:85-95 | with any calls refused, a name that is not listed keeps exactly what it had |
| `Attributes.ReplayRepairs` | src/msiArchiveExtract.cc:85-95 | a complete replay after one with refused calls gives what it would have given alone |
| `Attributes.ReplayOnlyExactIff` | src/msiArchiveExtract.cc:85-95 | a listing cut anywhere and replayed over nothing with any calls refused gives exactly the row's triples if and only if equal names are adjacent, it was not cut and no call was refused |
| `Blocks.RoundUpIsOccupied` | src/Archive.hh:233 | the masked unsigned 64-bit form is ceiling division to 8192 bytes wherever the addition does not wrap; less than one block is added |
| `Blocks.AndHigh` | src/Archive.hh:233 | a mask with k low zero bits cuts a word down to a multiple of 2^k, for every k |
| `Blocks.SizeSurvives` | src/Archive.hh:167 | a 64-bit size written to the index as a signed 64-bit integer is read back as the same word |
| `Index.TotalBlocksBounds` | src/Archive.hh:233 | the recorded total is a multiple of 8192 between the raw sum and the raw sum plus 8191 for each data object |
| `Index.TotalBlocksMonotone` | src/Archive.hh:233 | no prefix of the items occupies more than all of them, the bound the space guard relies on |
| `Index.ParentIndex` | src/msiArchiveExtract.cc:175-233 | in a parents-first list an item with "/" in its name has its parent's collection item at an earlier position |
| `Catalogue.KidDescends` | src/msiArchiveCreate.cc:372-375 | the rows below a subcollection are strictly fewer than those below its parent: the recursion over the flat catalogue ends |
| `Catalogue.WalkSound` | src/msiArchiveCreate.cc:311-376 | whatever the walk comes upon is a catalogue row below the collection |
| `Catalogue.WalkFinds` | src/msiArchiveCreate.cc:311-376 | every row below the collection is come upon |
| `Catalogue.InsideUnique` | src/msiArchiveCreate.cc:372-375 | what is found inside one subcollection is found in no other, nor is it one of them |
| `Catalogue.WalkComplete` | src/msiArchiveCreate.cc:429-430 | `dirColl` then `dirDataObj` find exactly the rows strictly below the root, each once |
| `Catalogue.PathsDiffer` | src/msiArchiveCreate.cc:341-375 | different rows have different absolute paths |
| `Listing.WalkReached` | src/msiArchiveCreate.cc:333-375 | the walk comes upon a collection before anything in it |
| `Listing.ItemsDistinct` | src/msiArchiveCreate.cc:286-294 | no two listed items have the same name |
| `Listing.FullListingOrder` | src/msiArchiveCreate.cc:311-376 | the index lists parents before children and no name twice |
| `Listing.FullListingHas` | src/msiArchiveCreate.cc:429-430 | every row strictly below the root is listed under its path, except the archive itself, and its item records its creation and modification times, its owner and zone, its size and checksum, all its attributes and access rights in order, each list missing exactly when there are none |
| `Listing.FullListingOnly` | src/Archive.hh:212 | every item is such a row, records it, and the origin, "/" and the item's name spell the row's absolute path |
| `Listing.ItemRecords` | src/Archive.hh:215-230 | whatever was cut, an item records all of its row but for attributes and access rights whose queries were, and of those the first |
| `Listing.ListsRecords` | src/msiArchiveCreate.cc:286-294 | every item of a listing cut anywhere records the row whose path its name spells |
| `Listing.OwnerReads` | src/Archive.hh:221 | an owner text gives back user and zone, for a user without "#" |
| `Listing.AclReads` | src/msiArchiveCreate.cc:172-176 | an access text gives back user, zone and access, for a user without "#" and a zone without ":" |
| `Listing.NameAfterParent` | src/msiArchiveCreate.cc:372-375 | an item's name up to its last "/" is its parent's name relative to the root, and it has no "/" exactly below the root |
| `Listing.ShortenedListing` | src/msiArchiveCreate.cc:274-302 | a listing that was cut anywhere has only rows strictly below the root, under their own paths and no name twice; it has every one of them if and only if it is as long as the full listing, and all their attributes if and only if none was counted as trimmed |
| `Namespace.StoreAllFrame` | src/msiArchiveExtract.cc:175-233 | extraction alters no path the archive does not name, and on any path no attribute name that is not listed for it |
| `Namespace.SomeFrame` | src/msiArchiveExtract.cc:175-233 | the same with any metadata calls refused |
| `Namespace.SomeShape` | src/msiArchiveExtract.cc:210-227 | collections, objects and bytes do not depend on refused metadata |
| `Namespace.StoreAllAt` | src/msiArchiveExtract.cc:204-227 | with distinct names every member ends with its own kind, bytes, modification time and attributes replayed over what the path held |
| `Namespace.SomeAt` | src/msiArchiveExtract.cc:204-227 | the same with each member's own loss: one member's refused calls cost no other member anything |
| `Namespace.ExtractionIdempotent` | src/Archive.hh:400-435 | extracting again finds every path in its kind, and each item leaves everything as it is |
| `Namespace.ExtractedAgain` | src/Archive.hh:400-435 | extracting again, with any losses in either run, finds every path in its kind and changes no collection, object or byte |
| `Namespace.ExtractionRepairs` | src/msiArchiveExtract.cc:175-233 | a second extraction that loses nothing gives what the first would have given had it lost nothing |
| `Namespace.MkdirOnce` | src/msiArchiveExtract.cc:168-170 | after an extraction with any losses, creating the target collection again changes nothing |
| `Namespace.FreshExtractionFits` | src/Archive.hh:400-422 | into a fresh target, a parents-first list never meets a missing parent or a node of another kind |
| `Namespace.MkdirAllMeaning` | src/msiArchiveExtract.cc:198-201 | recursive creation adds only empty collections, each the path itself or an ancestor below the base, and keeps what was there |
| `Namespace.MkdirAllFrame` | src/msiArchiveExtract.cc:198-201 | in any tree, recursive creation adds nothing but empty collections, the path and its ancestors |
| `Namespace.AncestryMeaning` | src/msiArchiveExtract.cc:191-202 | creating an item's ancestors makes only its ancestors, and its parent is then a collection |
| `Namespace.AncestryFrame` | src/msiArchiveExtract.cc:191-202 | in any tree, making an item's ancestors adds nothing but empty collections above it |
| `Namespace.SingleRefinesFull` | src/msiArchiveExtract.cc:181-231 | extracting one name into a fresh target gives there the node a full extraction gives, and else only the target and empty ancestors |
| `Server.Server.GenQuery` | src/msiArchiveCreate.cc:67-88 | a cursor with non-empty pages of any size, 0 as the next index only when the page was the last |
| `LibArchive.LibArchive.NextHeader` | src/Archive.hh:387 | the next header, skipping unread data; not ok at the end or when refused |
| `Archive.Archive.Create` | src/Archive.hh:75-106 | an empty archive for the collection, or nothing when its data object cannot be made |
| `Archive.Archive.Open` | src/Archive.hh:111-178 | opens exactly the containers whose first entry is INDEX.json with a readable index, complete or left by a stopped construct, with cursor and stream in step |
| `Archive.Archive.AddDataObj` | src/Archive.hh:202-235 | lists the object with all its fields and keeps the size equal to the sum of blocks modulo 2^64; the archive itself is left out |
| `Archive.Archive.AddColl` | src/Archive.hh:241-264 | lists the collection and keeps the size |
| `Archive.Archive.Construct` | src/Archive.hh:269-364 | zero means the container is INDEX.json, holding origin, size and list, and one entry per item with the item's name, modification time, kind, recorded size and the bytes of its path; otherwise either no index was written, or the entries before the stop are such and at most that item's own follows, with its header and the first of its bytes |
| `Archive.StoppedHeld` | src/Archive.hh:304-357 | a container whose writing was stopped still opens and holds the first items, all but the last complete, the last with the first of its bytes |
| `Archive.Archive.WriteItems` | src/Archive.hh:304-357 | the loop's whole effect, and that without refusals it stops only at an object that is not there |
| `Archive.Archive.CopyIn` | src/Archive.hh:339-355 | chunks of any size transfer exactly the object's bytes |
| `Archive.Archive.NextItem` | src/Archive.hh:385-393 | the current entry has the name, modification time, kind, size and bytes of the item returned, whatever was extracted or skipped before, whatever objects are called, and also where the container ends before its index; it ends early exactly when a header read was cut |
| `Archive.Archive.ExtractItem` | src/Archive.hh:398-439 | the file becomes the member's collection or bytes, which takes that the path fits; otherwise everything is as it was or its object has the first of its bytes and the attributes it had, and the status is that of a refused call (or stands for a refused read, or follows an open refused as if there were no such path) or the path does not fit |
| `Archive.Archive.Creat` | src/Archive.hh:445-474 | an existing object is emptied keeping its attributes, a missing one created; nothing else changes |
| `Archive.Archive.CopyData` | src/Archive.hh:424-434 | chunks of any size write exactly the entry's bytes, within its blocks; a failure leaves the first of them |
| `ArchiveCreate.Collect` | src/msiArchiveCreate.cc:66-92 | pages of any size give all rows' entries in order, NULL exactly when there are none; a failing query leaves a prefix |
| `ArchiveCreate.AttributeList` | src/msiArchiveCreate.cc:98-142 | the attribute rows of an object or collection in order, NULL when there are none; the first of them if its query was cut short, which is counted exactly when the row is listed and attributes are missing |
| `ArchiveCreate.AclList` | src/msiArchiveCreate.cc:147-194 | the ACL rows as user#zone:access in order, NULL when there are none; the first of them when the query fails part way |
| `ArchiveCreate.RowLists` | src/msiArchiveCreate.cc:286-294 | both lists of a row, each whole or a prefix according to what was refused |
| `ArchiveCreate.DirDataObj` | src/msiArchiveCreate.cc:251-306 | lists the objects of one collection in order whatever the pages, fewer if and only if the query was cut before the last object that is listed |
| `ArchiveCreate.ListColls` | src/msiArchiveCreate.cc:333-363 | lists the subcollections whatever the pages and remembers exactly the listed ones with their ids, fewer if and only if the query was cut |
| `ArchiveCreate.DirColl` | src/msiArchiveCreate.cc:311-376 | terminates; the list grows by items of the walk in order, by all of them if and only if no query was cut anywhere below; parents stay before children |
| `ArchiveCreate.InsideColl` | src/msiArchiveCreate.cc:372-375 | the same for all there is in a collection, subcollections first |
| `ArchiveCreate.CollId` | src/msiArchiveCreate.cc:17-44 | the id of the named collection, not negative exactly when it exists |
| `ArchiveCreate.MsiArchiveCreate` | src/msiArchiveCreate.cc:380-442 | in every run the items are those of the walk in order, parents first, each recording the row its name spells, all if and only if no listing query was cut, exactly as many lacking attributes as had their attribute query cut; zero gives the container of these items with their bytes, a negative status one that does not open or holds the first of them; without refusals zero exactly when the collection exists |
| `ArchiveExtract.ReplayAttributes` | src/msiArchiveExtract.cc:75-96 | in every run the loop carries out exactly the replay without the calls that were refused, counts these, and changes nothing else |
| `ArchiveExtract.SetMetadata` | src/msiArchiveExtract.cc:215-227 | in every run: modification time for objects only, attributes for both, each exactly but for its own refused calls; the content kept |
| `ArchiveExtract.ExtractMember` | src/msiArchiveExtract.cc:204-227 | one item in every run: kind, bytes, time and attributes exactly but for its own refused metadata calls; or a negative status, at most a part of the bytes at that path and no metadata asked for |
| `ArchiveExtract.RestoringStep` | src/msiArchiveExtract.cc:175-233 | storing the next member with its loss extends "the first k members are in place, each with its own loss" to k + 1 |
| `ArchiveExtract.BlocksStep` | src/Archive.hh:233 | each item adds its blocks to the running total, which stays within that of all |
| `ArchiveExtract.HeldBlocks` | src/Archive.hh:233 | what a container holds takes no more blocks than its index records, also when writing it was stopped |
| `ArchiveExtract.ExtractOne` | src/msiArchiveExtract.cc:181-209 | the one wanted item in every run: too big and nothing done, or ancestors, all of them unless a call other than for metadata was refused, and the file exactly but for its own loss |
| `ArchiveExtract.ExtractRound` | src/msiArchiveExtract.cc:180-232 | one round of the loop: the item extracted with its loss, passed over, or the reason to stop |
| `ArchiveExtract.NextRound` | src/msiArchiveExtract.cc:175-233 | the next item read in step and its round done, or none left to read, which a cut alone brings about early |
| `ArchiveExtract.ExtractItems` | src/msiArchiveExtract.cc:165-233 | in every run, full: the first items in place, each with its own loss, all if and only if no header read was cut, or stopped at one that did not fit or whose call was refused, with those before in place and none after touched; single: the first item of that name, or nothing done; the losses add up to what was counted |
| `ArchiveExtract.MsiArchiveExtract` | src/msiArchiveExtract.cc:100-239 | turned away, with the status of the reason, means nothing changed; let through exactly when no resource is named, its free space is unset, or it is known and, for a full extraction, nine tenths of it hold the recorded size; the wanted item is the first of its name and is turned away if and only if it is an object larger than nine tenths of known space, and else extracted exactly when it fits, unless a call was refused; the outcome of the loop for complete and stopped containers, a negative status being that of a refused call unless the item does not fit; for a full extraction ten times the blocks written is at most 9 s + 9 and at least s/10 of the space s is left (the count of blocks never falls during a run), for a single item at most a block more |
| `ArchiveExtract.SingleMeaning` | src/msiArchiveExtract.cc:181-209 | what the outcome for one item says of the item, its space and its status, unknown space never turning it away |
| `ArchiveExtract.FullStatus` | src/msiArchiveExtract.cc:175-233 | with no call refused but for metadata, the status is zero if and only if every item held fits when its turn comes, and then the tree is exactly all of them in order but for their losses |
| `ArchiveExtract.StoppedGoesUnnoticed` | src/msiArchiveExtract.cc:175-233 | what a stopped create left extracts into a fresh target with a zero status, giving exactly the items held and none of the others |
| `ArchiveExtract.SingleFrame` | src/msiArchiveExtract.cc:181-231 | in every single-item run only the file changes and only empty ancestors of it are added; zero with the item found means its kind and bytes are there; an attribute name not listed for it keeps what it had, every name does when it fails |
| `ArchiveExtract.FullFrame` | src/msiArchiveExtract.cc:175-233 | in every full run, stopped or not, no path the archive does not name changes, and on no path an attribute name that is not listed for it |
| `ArchiveExtract.OneExact` | src/msiArchiveExtract.cc:181-231 | with no call refused but for metadata, the status is zero exactly when the item is within the space and fits below its ancestors, and then it is there but for its loss |
| `ArchiveExtract.SingleItemExceeds` | src/msiArchiveExtract.cc:183 | an item of 9000 bytes passes the check for a space of 10000 and occupies 16384, which the full check would turn away |
| `ArchiveExtract.SingleItemWithinIff` | src/msiArchiveExtract.cc:183 | for known space, every item that passes the byte check occupies no more blocks than its limit if and only if the limit is a multiple of the block size |
| `ArchiveExtract.SecondExtraction` | src/msiArchiveExtract.cc:175-233 | a full extraction with any losses run again with any losses: zero means collections, objects and bytes are as they were; everything is as if nothing had been lost when the second run lost nothing; nothing changed when neither did; a stop is always a refusal and disturbs one file |
| `ArchiveExtract.CreatedSizeRecorded` | src/Archive.hh:377-380 | the size a created archive reports after `open` is the total of its blocks |
| `RoundTrip.RestoredNode` | src/msiArchiveExtract.cc:204-227 | every archived row comes back with its kind, bytes and object time, its attributes as replayed |
| `RoundTrip.RoundTripTree` | src/msiArchiveExtract.cc:175-233 | below the fresh target are exactly the archived relative names with the same kinds and bytes; a node is the same altogether if and only if its attribute listing has equal names adjacent; nothing else changes |
| `RoundTrip.RoundTripName` | src/Archive.hh:212 | a relative name is there if and only if it was below the source and is not the archive, with the same kind and bytes |
| `RoundTrip.WholeRestores` | src/msiArchiveExtract.cc:204-227 | when no item is missing every name is restored with kind and bytes, whichever attribute lists were cut |
| `RoundTrip.LossShows` | src/msiArchiveExtract.cc:175-233 | when an item is missing, some archived name is not restored |
| `RoundTrip.RowRestored` | src/msiArchiveExtract.cc:204-227 | a row's attributes come back if and only if its listing is grouped and was not cut and none of its calls was refused; its time if and only if setting it was not refused or that very time was stamped |
| `RoundTrip.AvusExactly` | src/msiArchiveExtract.cc:85-95 | that of every row, and of all together: if and only if all listings are grouped and nothing was trimmed or refused |
| `RoundTrip.RunTied` | src/msiArchiveExtract.cc:175-233 | the two outcomes tie items and losses to the run: rows of the collection in listing order, so many of them trimmed, and the tree exactly what they make with these losses |
| `RoundTrip.TimesRestored` | src/msiArchiveExtract.cc:54-70 | every object has its modification time back when setting none was refused, whatever happened to attributes |
| `RoundTrip.BothZero` | src/msiArchiveExtract.cc:175-233 | from the two outcomes: names, kinds and bytes restored if and only if nothing was cut; then attributes and times row by row and altogether if and only if nothing of theirs was lost and listings are grouped; no other path changes |
| `RoundTrip.CutRun` | src/msiArchiveCreate.cc:333 | a concrete collection whose archive and extraction both end with zero, with the target empty, when a listing query or a header read is cut |
| `RoundTrip.CreateAndExtract` | src/msiArchiveExtract.cc:100-239 | create and then full extract, in every run: with both statuses zero, the tree is exactly what the listed items make of the target, each with its loss, items and losses agreeing with what was counted; names, kinds and bytes are restored if and only if nothing was cut; then each row's attributes and time, and the attributes of all rows, under the exact conditions above, all times when none was refused; the tree is exactly the restored one when nothing was lost; no other path changes; with nothing refused both statuses are zero |
| `Json.Search` | src/msi_json_arrayops.cc:77-84 | the first position of an equal element, or the size |
| `JsonArrayOps.MsiJsonArrayOps` | src/msi_json_arrayops.cc:16-135 | succeeds exactly on arrays, the empty text being an empty one, and for "get" on positions inside; "get" gives the string or the dumped element and its index, "find" the first position or -1, "size", "add" and "rm" the number of elements they leave; "add" appends booleans and what is absent, "rm" takes the first equal element; a failure changes nothing |
| `JsonArrayOps.RunKeepsDeduplicated` | src/msi_json_arrayops.cc:86-92 | from the empty text or any deduplicated array, after every run of calls the text holds a deduplicated array, or one the library does not read back |
| `JsonArrayOps.RunStaysReadable` | src/msi_json_arrayops.cc:51-57 | where any array of certain values reads back, and all that are read or passed in are such values, no run leaves a text that is no array |
| `JsonArrayOps.StepKeepsDeduplicated` | src/msi_json_arrayops.cc:86-126 | each single operation keeps it |
| `JsonArrayOps.AddThenFind` | src/msi_json_arrayops.cc:86-106 | add then find gives the first position of the value, and what was there keeps its place |
| `JsonArrayOps.RmThenFind` | src/msi_json_arrayops.cc:93-106 | rm keeps the other elements in order, and find then gives -1 if and only if there was at most one occurrence |
| `JsonArrayOps.RmThenFindNone` | src/msi_json_arrayops.cc:93-106 | in a deduplicated array a non-boolean removed is no longer found |
| `JsonArrayOps.NullIsAddedOnce` | src/msi_json_arrayops.cc:61-62 | null is appended when absent and not again |
| `JsonArrayOps.AddAndFind` | src/msi_json_arrayops.cc:86-106 | the service called twice through the text in between: add and find give the first position of the value, unless the library does not read back what it dumped |
| `JsonArrayOps.RemoveAndFind` | src/msi_json_arrayops.cc:93-106 | the service called twice: rm and find give -1 if and only if the value was there at most once |
| `JsonObjOps.Apply` | src/msi_json_objops.cc:101-130 | one add, set or rm with its branches on arrays, missing keys and documents that are arrays |
| `JsonObjOps.MsiJsonObjOps` | src/msi_json_objops.cc:16-142 | the document is the fold of the batch; "get" puts in each place the string, the word for null, true or false, the dumped array or object, or no text, and leaves the document, as does anything that is no operation; an unreadable document changes nothing |
| `JsonObjOps.GetChangesNothing` | src/msi_json_objops.cc:81-100 | get leaves the document as it is |
| `JsonObjOps.OneByOne` | src/msi_json_objops.cc:64-131 | a batch does its pairs one after the other, each as if alone |
| `JsonObjOps.SetHoldsLast` | src/msi_json_objops.cc:109-111 | after a "set" batch a key holds the last value given for it, and what it held when none is |
| `JsonObjOps.AddAlone` | src/msi_json_objops.cc:101-108 | "add" appends to an array and otherwise replaces, and changes nothing else |
| `JsonObjOps.RmAlone` | src/msi_json_objops.cc:112-130 | "rm" takes the first equal element out of an array, deletes the key of any other value if and only if it equals the given one, and changes nothing else |
| `JsonObjOps.SetAndGet` | src/msi_json_objops.cc:81-111 | the service called twice through the text in between: after a "set" batch, "get" gives for each key the text of the last value set |
| `JsonObjOps.FoldIsKeyLocal` | src/msi_json_objops.cc:64-131 | the final value at a key is the fold of the pairs with that key alone |
| `JsonObjOps.FoldOrderPerKey` | src/msi_json_objops.cc:64-131 | on any document, batches with the same values per key in the same order give the same document |
| `JsonObjOps.FoldAnyOrder` | src/msi_json_objops.cc:64-131 | on any document, with different keys any permutation gives the same document |
| `JsonObjOps.AddThenRm` | src/msi_json_objops.cc:101-130 | at a key, add then rm is the identity if and only if the key was missing and the value is no array, or the key holds an array with the value only as its tail; an array value otherwise stays in place |
| `JsonObjOps.AddThenRmDocument` | src/msi_json_objops.cc:101-130 | the same on the whole document, which is untouched at every other key and altogether when it is an array |
| `JsonObjOps.AddThenRmElements` | src/msi_json_objops.cc:114-125 | on an array the elements are kept as a multiset, and exactly when the value was absent |
| `JsonObjOps.NotItsOwnElement` | src/msi_json_objops.cc:114-125 | no finite value is among its own elements |
| `EpicPayload.EscapeJson` | src/msiRegisterEpicPID.cc:38-74 | the loop prints the escaped text |
| `EpicPayload.EscapeByteReads` | src/msiRegisterEpicPID.cc:42-71 | each printed byte reads, by section 7 of RFC 8259, as one character standing for that byte, whatever follows |
| `EpicPayload.EscapedReadsBack` | src/msiRegisterEpicPID.cc:38-74 | for every byte string the printed text reads back as it, and the closing quote is found exactly at its end |
| `EpicPayload.EscapedShape` | src/msiRegisterEpicPID.cc:38-74 | no raw control byte, and one to six times the length |
| `EpicPayload.EscapeByteForm` | src/msiRegisterEpicPID.cc:42-71 | which escape each byte gets: a named one of two characters, six in lower-case hexadecimal, or none |
| `EpicPayload.ValueReadsBack` | src/msiRegisterEpicPID.cc:157-161 | the payload's value field reads back as the given value, whatever the prefix |
| `EpicPayload.ReadsBackIffPlain` | src/msiRegisterEpicPID.cc:160-161 | a text put between quotes unescaped reads back if and only if it has no quote, backslash or control byte |
| `EpicPayload.HandleReadsBackIffPlain` | src/msiRegisterEpicPID.cc:160-161 | the handle field reads back as meant if and only if the configured prefix is such a text |
| `EpicDocument.PrintedReads` | src/msiRegisterEpicPID.cc:157-161 | a reader of JSON objects, arrays, strings and numbers reads every printed document back, whatever follows |
| `EpicDocument.PayloadReads` | src/msiRegisterEpicPID.cc:157-161 | the whole payload reads as one object: the URL at index 1 and the administrator at index 100 with handle and permissions, and nothing after, for every value and every prefix that needs no escaping |
| `EpicPayload.Upload.ReadCallback` | src/msiRegisterEpicPID.cc:79-90 | hands over the next bytes, leaves the rest of the buffer, and gives zero for a buffer with room exactly when all was sent |
| `EpicPayload.Transfer` | src/msiRegisterEpicPID.cc:162-165 | whatever the numbers and sizes of elements asked for, the chunks make up exactly the first bytes of the payload that had room, all of it once a buffer with room stays empty, which happens exactly when one is offered after the room for all |

## Left out

- Archive.Archive.Open: a container whose entries do not follow its index, which `construct` never leaves, is not modelled.
- Archive.Archive.Construct: an object whose length differs from its recorded size (which the archive library cuts or pads), and errors when the archive is flushed at its end, whose status the source does not look at. What the library fills the last entry up with after writing stopped is not modelled; extraction is stated for any bytes there.
- LibArchive.LibArchive.NextHeader: pax and zip byte formats, compression filters and entry permissions; a container is a sequence of entries.
- ArchiveCreate.MsiArchiveCreate: the data object of the archive itself is not a node of the namespace; the container is a value. The result is given for a catalogue that describes the namespace throughout the run.
- ArchiveExtract.MsiArchiveExtract: the free-space query is a parameter.
- ArchiveCreate.Collect: the four attribute and ACL loops have the same shape and are one method over the row's format.
- RoundTrip.RoundTripTree: collection modification times, owners, creation times, checksums and ACLs are in the index but never replayed by the extractor, and the root collection's own attributes are not listed.
- Json.Search: array sizes are unbounded; the conversion of a size to `int` is not modelled. JSON reals are exact binary fractions.
- JsonArrayOps.RunKeepsDeduplicated: reading and printing JSON text is a parameter of which only `Json.Jansson.Faithful` is assumed: a dumped document is read back as itself or not at all.
- EpicPayload.Upload.ReadCallback: the multiplication of the two sizes does not wrap.
- EpicDocument.PayloadReads: the reader knows no whitespace, signs, fractions or literal names, which the payload does not have; a prefix that needs escaping is covered for its own field only.
- MAX_NAME_LEN: paths and ACL texts are not cut off.
- Root collection "/".
- SQL condition strings, parameter parsing, plugin factories, logging, permission checks, reference counts and memory lifetimes.
- `src/msiArchiveIndex.cc` and `indexItems`: the stored index as text.
- `src/CredentialsStore.hh`, the HTTP transfer and its codes.
- `src/msi_dir_list.cpp`, `src/msi_file_checksum.cpp`, `src/msi_stat_vault.cpp`: lookups around a library path normaliser that is not part of this model.
- The numeric values of iRODS status codes.
