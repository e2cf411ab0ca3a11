/**
 * The archive library's stream handle, writing or reading a container. Its calls go through the server
 * (the open, read, write and close callbacks), so that each may be refused there.
 */
module LibArchive {
  import opened Wrappers
  import opened Index
  import opened Server

  class LibArchive {
    var entries: seq<Entry>
    var pos: nat    // headers read so far
    var offset: nat // how far the current entry's data was read

    constructor Write()
      ensures entries == [] && pos == 0
    {
      entries, pos, offset := [], 0, 0;
    }

    constructor Read(container: seq<Entry>)
      ensures entries == container && pos == 0
    {
      entries, pos, offset := container, 0, 0;
    }

    /** The current entry is a header just read. */
    ghost predicate AtEntry()
      reads this`entries, this`pos
    {
      0 < pos <= |entries|
    }

    function Current(): Entry
      requires AtEntry()
      reads this`entries, this`pos
    {
      entries[pos - 1]
    }

    /** archive_write_header: a new entry without data. The one before it has to be complete. */
    method WriteHeader(server: Server, header: Entry) returns (status: int)
      requires entries != [] ==> entries[|entries| - 1].Complete()
      modifies this`entries, server`refused, server`codes
      ensures server.Onward()
      ensures status < 0 <==> server.refused > old(server.refused)
      ensures entries == if status < 0 then old(entries) else old(entries) + [header]
    {
      if * {
        status := server.Refuse();
      } else {
        status := 0;
        entries := entries + [header];
      }
    }

    /** archive_write_data of a chunk: appended to the last entry; of a chunk that is refused a part may arrive. */
    method WriteData(server: Server, chunk: seq<byte>) returns (status: int)
      requires entries != [] && entries[|entries| - 1].body.Bytes?
      requires |entries[|entries| - 1].body.bytes| + |chunk| <= entries[|entries| - 1].size
      modifies this`entries, server`refused, server`codes
      ensures server.Onward()
      ensures status < 0 <==> server.refused > old(server.refused)
      ensures |entries| == |old(entries)| && entries[..|entries| - 1] == old(entries)[..|entries| - 1]
      ensures var last, now := old(entries)[|entries| - 1], entries[|entries| - 1].body;
              now.Bytes? && entries[|entries| - 1] == last.(body := now) &&
              last.body.bytes <= now.bytes <= last.body.bytes + chunk &&
              (status >= 0 ==> now.bytes == last.body.bytes + chunk)
    {
      if * {
        status := server.Refuse();
        var n, part := |entries| - 1, 0;
        part :| 0 <= part <= |chunk|;
        entries := entries[n := entries[n].(body := Bytes(entries[n].body.bytes + chunk[..part]))];
      } else {
        status :| status >= 0;
        var n := |entries| - 1;
        entries := entries[n := entries[n].(body := Bytes(entries[n].body.bytes + chunk))];
      }
    }

    /** archive_write_data of the dumped index; a part of it is no index. */
    method WriteText(server: Server, document: Document) returns (status: int)
      requires entries != []
      modifies this`entries, server`refused, server`codes
      ensures server.Onward()
      ensures status < 0 <==> server.refused > old(server.refused)
      ensures |entries| == |old(entries)| && (status < 0 ==> entries == old(entries))
      ensures status >= 0 ==>
                entries == old(entries)[|entries| - 1 := old(entries)[|entries| - 1].(body := Text(document))]
    {
      if * {
        status := server.Refuse();
      } else {
        status :| status >= 0;
        var n := |entries| - 1;
        entries := entries[n := entries[n].(body := Text(document))];
      }
    }

    /** archive_read_next_header: skips what is left of the current entry; not ok at the end or when refused. */
    method NextHeader(server: Server) returns (ok: bool)
      requires pos <= |entries|
      modifies this`pos, this`offset, server`refused, server`codes, server`cut
      ensures server.Onward()
      ensures !ok ==> pos == old(pos) && offset == old(offset)
      ensures !ok ==> (server.cut == old(server.cut) <==> pos == |entries|)
      ensures !ok && server.refused == old(server.refused) ==> pos == |entries|
      ensures ok ==> server.refused == old(server.refused) && pos == old(pos) + 1 <= |entries| && offset == 0
    {
      ok := false;
      if * {
        var _ := server.Refuse();
        if pos < |entries| {
          server.cut := server.cut + 1;
        }
      } else if pos < |entries| {
        ok, pos, offset := true, pos + 1, 0;
      }
    }

    /** archive_read_data: the next bytes of the current entry, none only at its end. */
    method ReadData(server: Server, len: nat) returns (n: int, chunk: seq<byte>)
      requires len > 0 && AtEntry() && Current().body.Bytes? && offset <= |Current().body.bytes|
      modifies this`offset, server`refused, server`codes
      ensures server.Onward()
      ensures n < 0 <==> server.refused > old(server.refused)
      ensures n < 0 ==> offset == old(offset)
      ensures n >= 0 ==> n == |chunk| <= len && offset == old(offset) + n <= |Current().body.bytes|
      ensures n >= 0 ==> chunk == Current().body.bytes[old(offset)..offset]
      ensures n == 0 ==> offset == |Current().body.bytes|
    {
      chunk := [];
      var bytes := Current().body.bytes;
      if * {
        n := server.Refuse();
      } else if offset == |bytes| {
        n := 0;
      } else {
        n :| 1 <= n <= |bytes| - offset && n <= len;
        chunk := bytes[offset..offset + n];
        offset := offset + n;
      }
    }

    /** The index text of the current entry, parsed; nothing when reading is refused or it is no index. */
    method ReadText(server: Server) returns (document: Option<Document>)
      requires AtEntry()
      modifies server`refused, server`codes
      ensures server.Onward()
      ensures document.Some? ==> server.refused == old(server.refused)
      ensures document.Some? ==> Current().body == Text(document.value)
      ensures document == None ==> server.refused > old(server.refused) || !Current().body.Text?
    {
      document := None;
      if * {
        var _ := server.Refuse();
      } else if Current().body.Text? {
        document := Some(Current().body.document);
      }
    }
  }
}
