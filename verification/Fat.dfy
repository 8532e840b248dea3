/** The FAT32 file system: the table edited in place, and files read and written cluster by cluster. */
module Fat {
  import opened Prelude
  import opened FatChain
  import opened FatData
  import opened Pieces

  class FileSystem {
    const g: Geometry
    const table: array<nat>
    var disk: seq<Sector>

    constructor (g: Geometry, table: array<nat>, disk: seq<Sector>)
      ensures this.g == g && this.table == table && this.disk == disk
    {
      this.g, this.table, this.disk := g, table, disk;
    }

    // ── Chains ──────────────────────────────────────────────────────────────

    /** Collects the chain from `start`. The loop ends exactly for clusters whose walk ends. */
    method GetClustersForFile(start: nat) returns (clusters: seq<nat>)
      requires Walk(table[..], start, table.Length).Some?
      ensures clusters == Walk(table[..], start, table.Length).value
    {
      ghost var chain := Walk(table[..], start, table.Length).value;
      WalkIsChain(table[..], start, table.Length);
      clusters := [start];
      var cluster := start;
      assert LinkOk(table[..], chain, 0);
      while table[cluster] < END_MIN
        invariant 0 < |clusters| <= |chain| && clusters == chain[..|clusters|]
        invariant cluster == clusters[|clusters| - 1] && cluster < table.Length
        decreases |chain| - |clusters|
      {
        assert LinkOk(table[..], chain, |clusters| - 1);
        var next := table[cluster];
        clusters := clusters + [next];
        cluster := next;
        assert LinkOk(table[..], chain, |clusters| - 1);
      }
      assert LinkOk(table[..], chain, |clusters| - 1);
    }

    method FindFreeClusters(count: nat) returns (s: seq<nat>)
      ensures s == Taken(table[..], count)
    {
      s := [];
      ghost var fat := table[..];
      var i := 0;
      while i < table.Length && |s| < count + 1
        invariant 0 <= i <= table.Length && |s| <= count + 1 && fat == table[..]
        invariant s + FreeFrom(fat, i) == FreeFrom(fat, 0)
      {
        FreeStep(fat, i, s);
        if table[i] == FREE {
          s := s + [i];
        }
        i := i + 1;
      }
      FreeEnd(fat, count, i, s);
    }

    method AllocateAndLinkClusters(count: nat) returns (r: Option<seq<nat>>)
      requires table.Length <= END_MIN
      modifies table
      ensures r.None? <==> |FreeFrom(old(table[..]), 0)| < count
      ensures r.None? ==> table[..] == old(table[..])
      ensures r.Some? ==>
                && r.value == Taken(old(table[..]), count) && |r.value| >= count
                && (forall k :: 0 <= k < |r.value| ==> r.value[k] < table.Length)
                && table[..] == Linked(old(table[..]), r.value, |r.value|)
    {
      var s := FindFreeClusters(count);
      AllocateLemma(table[..], count);
      if |s| < count {
        return None;
      }
      ghost var fat := table[..];
      for i := 0 to |s|
        invariant table[..] == Linked(fat, s, i)
      {
        table[s[i]] := if i + 1 < |s| then s[i + 1] else END_MARK;
      }
      return Some(s);
    }

    method MarkClustersAsFree(start: nat)
      requires Walk(table[..], start, table.Length).Some?
      modifies table
      ensures table[..] == Cleared(old(table[..]), Walk(old(table[..]), start, table.Length).value)
    {
      ghost var fat := table[..];
      var clusters := GetClustersForFile(start);
      WalkIsChain(fat, start, table.Length);
      for i := 0 to |clusters|
        invariant forall c :: 0 <= c < table.Length ==> table[c] == if c in clusters[..i] then FREE else fat[c]
      {
        assert LinkOk(fat, clusters, i);
        table[clusters[i]] := FREE;
        assert clusters[..i + 1] == clusters[..i] + [clusters[i]];
      }
      assert clusters[..|clusters|] == clusters;
      assert table[..] == Cleared(fat, clusters);
    }

    /** Freeing what was just allocated gives the old table back. */
    method AllocateThenFree(count: nat) returns (ok: bool)
      requires table.Length <= END_MIN
      modifies table
      ensures table[..] == old(table[..])
      ensures ok <==> 0 < |Taken(old(table[..]), count)| && |FreeFrom(old(table[..]), 0)| >= count
    {
      ghost var fat := table[..];
      var r := AllocateAndLinkClusters(count);
      if r.None? || r.value == [] {
        return false;
      }
      AllocateLemma(fat, count);
      WalkEnds(table[..], r.value[0]);
      MarkClustersAsFree(r.value[0]);
      return true;
    }

    // ── Clusters ────────────────────────────────────────────────────────────

    /** Reads a cluster into `buffer` from `at` on, sector by sector. */
    method ReadClusterTo(c: nat, buffer: array<byte>, at: nat)
      requires g.OnDisk(c, disk) && at + g.ClusterSize() <= buffer.Length
      modifies buffer
      ensures buffer[..] == Splice(old(buffer[..]), at, ClusterBytes(g, disk, c))
      ensures RawCluster(g, disk, c, buffer[at..at + g.ClusterSize()])
    {
      ReadSectors(c, buffer, at);
      RawClusterBytes(g, disk, c);
      assert buffer[at..at + g.ClusterSize()] == ClusterBytes(g, disk, c);
    }

    method ReadSectors(c: nat, buffer: array<byte>, at: nat)
      requires g.OnDisk(c, disk) && at + g.ClusterSize() <= buffer.Length
      modifies buffer
      ensures buffer[..] == Splice(old(buffer[..]), at, ClusterBytes(g, disk, c))
    {
      ghost var b, sectors := buffer[..], disk[g.First(c)..g.First(c) + g.sectorsPerCluster];
      SpliceNothing(b, at);
      for i := 0 to g.sectorsPerCluster
        invariant |Concat(sectors[..i])| == i * 512 && buffer[..] == Splice(b, at, Concat(sectors[..i]))
      {
        Copy(disk[g.First(c) + i], buffer, at + i * 512);
        SpliceSplice(b, at, Concat(sectors[..i]), sectors[i], at + i * 512);
        ConcatNext(sectors, i);
      }
      assert sectors[..g.sectorsPerCluster] == sectors;
    }

    method WriteCluster(c: nat, buf: seq<byte>)
      requires g.OnDisk(c, disk) && |buf| == g.ClusterSize()
      modifies `disk
      ensures disk == Written(g, old(disk), c, buf, g.sectorsPerCluster)
      ensures |disk| == |old(disk)| && forall k: nat :: k < |disk| ==> OnlyCluster(g, old(disk), disk, c, buf, k)
    {
      WriteSectors(c, buf);
      forall k: nat | k < |disk| ensures OnlyCluster(g, old(disk), disk, c, buf, k) {
        WrittenSector(g, old(disk), c, buf, k);
      }
    }

    method WriteSectors(c: nat, buf: seq<byte>)
      requires g.OnDisk(c, disk) && |buf| == g.ClusterSize()
      modifies `disk
      ensures disk == Written(g, old(disk), c, buf, g.sectorsPerCluster)
    {
      ghost var d := disk;
      SpliceNothing(d, g.First(c));
      for i := 0 to g.sectorsPerCluster
        invariant disk == Written(g, d, c, buf, i)
      {
        WrittenNext(g, d, c, buf, i);
        disk := disk[g.First(c) + i := buf[i * 512..(i + 1) * 512]];
      }
    }

    // ── Files ───────────────────────────────────────────────────────────────

    /** The file that begins at cluster `start` has a chain that ends, lies on the disk, and covers its size. */
    ghost predicate FileOk(start: nat, fileSize: nat)
      reads this, table
    {
      && g.Valid() && Walk(table[..], start, table.Length).Some?
      && AllOnDisk(g, disk, Chain(start)) && fileSize <= |Bytes(start)|
    }

    ghost function Chain(start: nat): seq<nat>
      requires Walk(table[..], start, table.Length).Some?
      reads this, table
    {
      Walk(table[..], start, table.Length).value
    }

    ghost function Bytes(start: nat): seq<byte>
      requires Walk(table[..], start, table.Length).Some? && AllOnDisk(g, disk, Chain(start))
      reads this, table
    {
      FileBytes(g, disk, Chain(start))
    }

    /** The cluster of a chain that holds a byte of the file, and the place in it. */
    static method Locate(offset: nat, size: nat) returns (k: nat, within: nat)
      requires 0 < size
      ensures offset == Times(k, size) + within && within < size
    {
      k, within := offset / size, offset % size;
      TimesIsProduct(k, size);
    }

    method Copy(s: seq<byte>, buffer: array<byte>, at: nat)
      requires at + |s| <= buffer.Length
      modifies buffer
      ensures buffer[..] == Splice(old(buffer[..]), at, s)
    {
      ghost var b := buffer[..];
      for i := 0 to |s|
        invariant buffer[..] == Splice(b, at, s[..i])
      {
        buffer[at + i] := s[i];
        assert buffer[..] == Splice(b, at, s[..i + 1]);
      }
      assert s[..|s|] == s;
    }

    /** Copies `n` bytes of cluster `c`, from `within` on, into `buffer` at `at`, through a spare cluster if need be. */
    method ReadPiece(c: nat, within: nat, n: nat, buffer: array<byte>, at: nat)
      requires g.OnDisk(c, disk) && within + n <= g.ClusterSize() && at + n <= buffer.Length
      modifies buffer
      ensures buffer[..] == Splice(old(buffer[..]), at, ClusterBytes(g, disk, c)[within..within + n])
    {
      ghost var bytes := ClusterBytes(g, disk, c);
      var size := g.ClusterSize();
      if within == 0 && n == size {
        ReadClusterTo(c, buffer, at);
        assert bytes[0..size] == bytes;
      } else {
        var temp := new byte[size](_ => 0 as byte);
        ReadClusterTo(c, temp, 0);
        assert temp[..] == bytes;
        Copy(temp[within..within + n], buffer, at);
      }
    }

    /** One more piece of the file `clusters` hold, in a buffer filled so far from byte `offset` to byte `pos`. */
    method ReadNext(clusters: seq<nat>, k: nat, within: nat, n: nat, buffer: array<byte>, at: nat, ghost offset: nat,
                    ghost pos: nat)
      requires AllOnDisk(g, disk, clusters) && k < |clusters| && within + n <= g.ClusterSize()
               && at + n <= buffer.Length
      requires pos == offset + at == Times(k, g.ClusterSize()) + within && pos <= |FileBytes(g, disk, clusters)|
      requires buffer[..at] == FileBytes(g, disk, clusters)[offset..pos]
      modifies buffer
      ensures pos + n <= |FileBytes(g, disk, clusters)|
      ensures buffer[..at + n] == FileBytes(g, disk, clusters)[offset..pos + n]
    {
      ghost var piece := ClusterBytes(g, disk, clusters[k])[within..within + n];
      FilePiece(g, disk, clusters, k, within, n, pos);
      NextRead(FileBytes(g, disk, clusters), offset, buffer[..], at, n, pos, piece);
      ReadPiece(clusters[k], within, n, buffer, at);
    }

    /** Fills `buffer` with the bytes of the file from `offset` on. */
    method Read(start: nat, fileSize: nat, offset: nat, buffer: array<byte>) returns (ok: bool)
      requires FileOk(start, fileSize) && 0 < buffer.Length && buffer as object != table
      modifies buffer
      ensures ok <==> offset + buffer.Length <= fileSize
      ensures !ok ==> buffer[..] == old(buffer[..])
      ensures ok ==> buffer[..] == Bytes(start)[offset..offset + buffer.Length]
      ensures var size := g.sectorsPerCluster * 512;
              ok ==> forall i: nat :: i < buffer.Length ==>
                       RawByte(g, disk, Chain(start), (offset + i) / size, (offset + i) % size, buffer[i])
    {
      ok := ReadFile(start, fileSize, offset, buffer);
      ghost var size := g.sectorsPerCluster * 512;
      if ok {
        forall i: nat | i < buffer.Length
          ensures RawByte(g, disk, Chain(start), (offset + i) / size, (offset + i) % size, buffer[i])
        {
          FileByte(g, disk, Chain(start), offset + i, size);
        }
      }
    }

    /** The same, told by the bytes of the file. */
    method ReadFile(start: nat, fileSize: nat, offset: nat, buffer: array<byte>) returns (ok: bool)
      requires FileOk(start, fileSize) && 0 < buffer.Length && buffer as object != table
      modifies buffer
      ensures ok <==> offset + buffer.Length <= fileSize
      ensures !ok ==> buffer[..] == old(buffer[..])
      ensures ok ==> buffer[..] == Bytes(start)[offset..offset + buffer.Length]
    {
      if offset + buffer.Length > fileSize {
        return false;
      }
      var size := g.ClusterSize();
      var k: nat, within: nat := Locate(offset, size);
      var toRead: nat, at: nat := buffer.Length, 0;
      var clusters := GetClustersForFile(start);
      ghost var file, pos := Bytes(start), offset;
      FileLength(g, disk, clusters);
      while k < |clusters| && toRead > 0
        invariant toRead + at == buffer.Length && pos == offset + at
        invariant toRead > 0 ==> pos == Times(k, size) + within && within < size
        invariant buffer[..at] == file[offset..pos]
        decreases |clusters| - k
      {
        var n := if toRead < size - within then toRead else size - within;
        ReadNext(clusters, k, within, n, buffer, at, offset, pos);
        toRead, at, within, k, pos := toRead - n, at + n, 0, k + 1, pos + n;
      }
      if toRead > 0 {
        TimesMonotone(|clusters|, k, size);
      }
      assert at == buffer.Length;
      return true;
    }

    /** Overwrites a piece of cluster `c`, keeping the rest of it. */
    method WritePiece(c: nat, within: nat, b: seq<byte>)
      requires g.OnDisk(c, disk) && within + |b| <= g.ClusterSize()
      modifies `disk
      ensures disk == Written(g, old(disk), c, Splice(ClusterBytes(g, old(disk), c), within, b), g.sectorsPerCluster)
    {
      var size := g.ClusterSize();
      if within == 0 && |b| == size {
        assert Splice(ClusterBytes(g, disk, c), within, b) == b;
        WriteCluster(c, b);
      } else {
        var temp := new byte[size](_ => 0 as byte);
        ReadClusterTo(c, temp, 0);
        assert temp[..] == ClusterBytes(g, disk, c);
        assert temp[..within] + b + temp[within + |b|..] == Splice(temp[..], within, b);
        WriteCluster(c, temp[..within] + b + temp[within + |b|..]);
      }
    }

    /** The bytes of `b` up to `end` go into the file that `clusters` hold, so far those from `offset` up to `pos`. */
    method WriteNext(clusters: seq<nat>, k: nat, within: nat, b: seq<byte>, at: nat, end: nat,
                     ghost pos: nat, ghost file: seq<byte>, ghost offset: nat, ghost disk0: seq<Sector>)
      requires AllOnDisk(g, disk, clusters) && Distinct(clusters) && SectorsKept(g, disk0, disk, clusters)
      requires k < |clusters| && at <= end <= |b| && within + (end - at) <= g.ClusterSize()
      requires pos == offset + at == Times(k, g.ClusterSize()) + within && pos <= |file|
      requires FileBytes(g, disk, clusters) == Splice(file, offset, b[..at])
      modifies `disk
      ensures AllOnDisk(g, disk, clusters) && SectorsKept(g, disk0, disk, clusters)
      ensures offset + end <= |file| && FileBytes(g, disk, clusters) == Splice(file, offset, b[..end])
    {
      var piece := b[at..end];
      ghost var disk1, buf := disk, Splice(ClusterBytes(g, disk, clusters[k]), within, piece);
      WritePiece(clusters[k], within, piece);
      PieceSplice(g, disk1, clusters, k, within, piece, pos, buf, disk);
      SpliceSplice(file, offset, b[..at], piece, pos);
      assert b[..at] + piece == b[..end];
      KeptAfter(g, disk0, disk1, clusters, k, buf);
    }

    /** Writes as much of `b` as the clusters hold, from byte `offset` of the file on. */
    method WriteOver(clusters: seq<nat>, offset: nat, b: seq<byte>) returns (at: nat)
      requires g.Valid() && AllOnDisk(g, disk, clusters) && Distinct(clusters)
               && offset < |FileBytes(g, disk, clusters)|
      modifies `disk
      ensures AllOnDisk(g, disk, clusters) && SectorsKept(g, old(disk), disk, clusters)
      ensures at == Fit(|b|, |old(FileBytes(g, disk, clusters))| - offset)
      ensures FileBytes(g, disk, clusters) == Splice(old(FileBytes(g, disk, clusters)), offset, b[..at])
    {
      var size := g.ClusterSize();
      var k: nat, within: nat := Locate(offset, size);
      var toWrite: nat := |b|;
      at := 0;
      ghost var file, disk0, pos := FileBytes(g, disk, clusters), disk, offset;
      FileLength(g, disk, clusters);
      if |clusters| <= k {
        TimesMonotone(|clusters|, k, size);
      }
      SpliceNothing(file, offset);
      while k < |clusters| && toWrite > 0
        invariant toWrite + at == |b| && pos == offset + at <= |file| && k <= |clusters|
        invariant toWrite > 0 ==> pos == Times(k, size) + within && within < size
        invariant toWrite > 0 && k == |clusters| ==> within == 0
        invariant AllOnDisk(g, disk, clusters) && SectorsKept(g, disk0, disk, clusters)
        invariant FileBytes(g, disk, clusters) == Splice(file, offset, b[..at])
        decreases |clusters| - k
      {
        var n := if toWrite < size - within then toWrite else size - within;
        var end := at + n;
        WriteNext(clusters, k, within, b, at, end, pos, file, offset, disk0);
        TimesNext(k, size);
        toWrite, at, within, k, pos := toWrite - n, end, 0, k + 1, pos + n;
      }
    }

    /** Writes `rest` into the new clusters, a byte less into each than there is room or data for. */
    method WriteAdded(added: seq<nat>, rest: seq<byte>, ghost clusters: seq<nat>)
      requires g.Valid() && AllOnDisk(g, disk, clusters) && AllOnDisk(g, disk, added) && Distinct(clusters + added)
               && 0 < |rest|
      modifies `disk
      ensures AllOnDisk(g, disk, clusters + added) && SectorsKept(g, old(disk), disk, added)
      ensures FileBytes(g, disk, clusters + added)
           == old(FileBytes(g, disk, clusters)) + Added(Blank(g.ClusterSize()), rest, |added|)
    {
      var temp := new byte[g.ClusterSize()](_ => 0 as byte);
      ghost var disk0, total := disk, FileBytes(g, disk, clusters) + Added(Blank(g.ClusterSize()), rest, |added|);
      var at: nat := 0;
      AddedStart(g, disk, clusters, added, temp[..], rest, total);
      for i := 0 to |added|
        invariant at < |rest| && AllOnDisk(g, disk, added) && SectorsKept(g, disk0, disk, added)
        invariant AddedSoFar(g, disk, clusters + added[..i], temp[..], rest[at..], |added| - i, total)
      {
        DistinctSoFar(clusters, added, i);
        at := WriteOneMore(added, i, temp, rest, at, clusters + added[..i], disk0, total);
      }
      AddedEnd(g, disk, clusters, added, temp[..], rest[at..], total);
    }

    method WriteOneMore(added: seq<nat>, i: nat, temp: array<byte>, rest: seq<byte>, at: nat,
                        ghost done: seq<nat>, ghost disk0: seq<Sector>, ghost total: seq<byte>)
      returns (at': nat)
      requires i < |added| && temp.Length == g.ClusterSize() && 0 < temp.Length && at < |rest| && added[i] !in done
      requires AllOnDisk(g, disk, added) && SectorsKept(g, disk0, disk, added)
      requires AddedSoFar(g, disk, done, temp[..], rest[at..], |added| - i, total)
      modifies `disk, temp
      ensures at' < |rest| && AllOnDisk(g, disk, added) && SectorsKept(g, disk0, disk, added)
      ensures AddedSoFar(g, disk, done + [added[i]], temp[..], rest[at'..], |added| - i - 1, total)
    {
      ghost var disk1, was, left := disk, temp[..], rest[at..];
      at' := FillNext(temp, rest, at);
      WriteCluster(added[i], temp[..]);
      AddedOneMore(g, disk1, disk, done, added[i], was, left, temp[..], rest[at'..], |added| - i, total);
      KeptAfter(g, disk0, disk1, added, i, temp[..]);
    }

    /** The share of `rest` from `at` on that goes into one new cluster, over what is in `temp`. */
    method FillNext(temp: array<byte>, rest: seq<byte>, at: nat) returns (at': nat)
      requires 0 < temp.Length && at < |rest|
      modifies temp
      ensures temp[..] == NextCluster(old(temp[..]), rest[at..])
      ensures at' == at + Share(|rest| - at, temp.Length)
              && rest[at'..] == rest[at..][Share(|rest| - at, temp.Length)..]
    {
      var n := Share(|rest| - at, temp.Length);
      NextBySplice(temp[..], rest, at, n);
      Copy(rest[at..at + n], temp, 0);
      at' := at + n;
    }

    /** Every cluster that the table has free lies on the disk. */
    ghost predicate FreeOnDisk()
      reads this, table
    {
      AllOnDisk(g, disk, FreeFrom(table[..], 0))
    }

    /**
     * The directory that has the entry of the file at `start`, from cluster `entry` on, and what its clusters hold once
     * the entry has been rewritten.
     */
    ghost predicate DirectoryOk(start: nat, entry: nat, listing: seq<seq<byte>>)
      requires Walk(table[..], start, table.Length).Some?
      reads this, table
    {
      && Walk(table[..], entry, table.Length).Some? && AllOnDisk(g, disk, Chain(entry))
      && Disjoint(Chain(start), Chain(entry)) && Disjoint(Chain(entry), Chain(start))
      && |listing| == |Chain(entry)| && Uniform(listing, g.ClusterSize())
    }

    /** Rewrites the clusters of the directory. */
    method SaveListing(entry: nat, listing: seq<seq<byte>>)
      requires g.Valid() && Walk(table[..], entry, table.Length).Some? && AllOnDisk(g, disk, Chain(entry))
      requires |listing| == |Chain(entry)| && Uniform(listing, g.ClusterSize())
      modifies `disk
      ensures AllOnDisk(g, disk, Chain(entry)) && SectorsKept(g, old(disk), disk, Chain(entry))
      ensures Bytes(entry) == Concat(listing)
    {
      var dir := GetClustersForFile(entry);
      ghost var disk0 := disk;
      ChainFacts(entry, dir);
      for i := 0 to |dir|
        invariant AllOnDisk(g, disk, dir) && SectorsKept(g, disk0, disk, dir)
        invariant forall j :: 0 <= j < i ==> Clusters(g, disk, dir)[j] == listing[j]
      {
        ghost var disk1 := disk;
        ClusterReplaced(g, disk1, dir, i, listing[i]);
        WriteCluster(dir[i], listing[i]);
        KeptAfter(g, disk0, disk1, dir, i, listing[i]);
      }
      assert Clusters(g, disk, dir) == listing;
    }

    /**
     * Overwrites the bytes of the file from `offset` on with `b`. If the file becomes longer, its entry in the
     * directory is rewritten. What does not fit the clusters of the file goes into new ones.
     */
    method Write(start: nat, fileSize: nat, offset: nat, b: seq<byte>, entry: nat, listing: seq<seq<byte>>)
      returns (r: WriteEnd)
      requires FileOk(start, fileSize) && table.Length <= END_MIN && FreeOnDisk() && DirectoryOk(start, entry, listing)
      modifies `disk, table
      ensures r == EndOf(|old(Bytes(start))|, fileSize, offset, |b|, g.ClusterSize(), |FreeFrom(old(table[..]), 0)|)
      ensures fileSize < offset || |old(Bytes(start))| <= offset ==> disk == old(disk) && table[..] == old(table[..])
      ensures Walk(table[..], start, table.Length).Some? && AllOnDisk(g, disk, Chain(start))
      ensures offset <= fileSize && offset < |old(Bytes(start))| ==>
                && Saved(g, old(disk), disk, Chain(start), old(Chain(entry)), listing, fileSize < offset + |b|)
                && Overwritten(g.ClusterSize(), old(table[..]), table[..], old(Chain(start)), Chain(start),
                               old(Bytes(start)), Bytes(start), offset, b, r.Done?)
    {
      if fileSize < offset {
        return Panicked;
      }
      var k, within := Locate(offset, g.ClusterSize());
      var clusters := GetClustersForFile(start);
      FileLength(g, disk, clusters);
      PastEnd(offset, k, within, |clusters|, g.ClusterSize());
      if |clusters| <= k {
        return Panicked;
      }
      r := WriteChain(start, clusters, fileSize, offset, b, entry, listing);
    }

    /** The part of a write in the clusters that the file has, and in the directory. */
    method WriteInPlace(start: nat, clusters: seq<nat>, fileSize: nat, offset: nat, b: seq<byte>, entry: nat,
                        listing: seq<seq<byte>>)
      returns (at: nat)
      requires g.Valid() && Walk(table[..], start, table.Length) == Some(clusters) && AllOnDisk(g, disk, clusters)
      requires DirectoryOk(start, entry, listing) && offset < |FileBytes(g, disk, clusters)|
      modifies `disk
      ensures AllOnDisk(g, disk, clusters) && |disk| == |old(disk)|
      ensures Saved(g, old(disk), disk, clusters, Chain(entry), listing, fileSize < offset + |b|)
      ensures at == Fit(|b|, |old(FileBytes(g, disk, clusters))| - offset)
      ensures FileBytes(g, disk, clusters) == Splice(old(FileBytes(g, disk, clusters)), offset, b[..at])
    {
      ghost var disk0, dir := disk, Chain(entry);
      ChainFacts(start, clusters);
      at := WriteOver(clusters, offset, b);
      ghost var disk1 := disk;
      KeptFile(g, disk0, disk1, clusters, dir);
      if fileSize < offset + |b| {
        SaveListing(entry, listing);
        KeptFile(g, disk1, disk, dir, clusters);
        KeptMore(g, disk0, disk1, disk, clusters, dir);
      }
    }

    method WriteChain(start: nat, clusters: seq<nat>, fileSize: nat, offset: nat, b: seq<byte>, entry: nat,
                      listing: seq<seq<byte>>)
      returns (r: WriteEnd)
      requires g.Valid() && Walk(table[..], start, table.Length) == Some(clusters) && AllOnDisk(g, disk, clusters)
      requires table.Length <= END_MIN && FreeOnDisk() && DirectoryOk(start, entry, listing)
      requires offset <= fileSize <= |FileBytes(g, disk, clusters)| && offset < |FileBytes(g, disk, clusters)|
      modifies `disk, table
      ensures r == EndOf(|old(Bytes(start))|, fileSize, offset, |b|, g.ClusterSize(), |FreeFrom(old(table[..]), 0)|)
      ensures Walk(table[..], start, table.Length).Some? && AllOnDisk(g, disk, Chain(start))
      ensures Saved(g, old(disk), disk, Chain(start), old(Chain(entry)), listing, fileSize < offset + |b|)
      ensures Overwritten(g.ClusterSize(), old(table[..]), table[..], clusters, Chain(start),
                          old(Bytes(start)), Bytes(start), offset, b, r.Done?)
    {
      ghost var disk0, fat, dir, file := disk, table[..], Chain(entry), Bytes(start);
      ChainInUse(g, disk, table[..], entry, dir);
      var at := WriteInPlace(start, clusters, fileSize, offset, b, entry, listing);
      r := FinishWrite(start, clusters, fileSize, offset, b, at, disk0, fat, file, dir, listing);
    }

    /** Goes on with a write whose first `at` bytes are in the clusters of the file. */
    method FinishWrite(start: nat, clusters: seq<nat>, fileSize: nat, offset: nat, b: seq<byte>, at: nat,
                       ghost disk0: seq<Sector>, ghost fat: seq<nat>, ghost file: seq<byte>, ghost dir: seq<nat>,
                       ghost listing: seq<seq<byte>>)
      returns (r: WriteEnd)
      requires g.Valid() && Walk(table[..], start, table.Length) == Some(clusters) && AllOnDisk(g, disk, clusters)
      requires table.Length <= END_MIN && FreeOnDisk() && InUse(table[..], dir) && AllOnDisk(g, disk0, dir)
      requires Saved(g, disk0, disk, clusters, dir, listing, fileSize < offset + |b|) && table[..] == fat
      requires offset <= fileSize <= |file| && offset < |file| && at == Fit(|b|, |file| - offset)
      requires FileBytes(g, disk, clusters) == Splice(file, offset, b[..at])
      modifies `disk, table
      ensures r == EndOf(|file|, fileSize, offset, |b|, g.ClusterSize(), |FreeFrom(fat, 0)|)
      ensures Walk(table[..], start, table.Length).Some? && AllOnDisk(g, disk, Chain(start))
      ensures Saved(g, disk0, disk, Chain(start), dir, listing, fileSize < offset + |b|)
      ensures Overwritten(g.ClusterSize(), fat, table[..], clusters, Chain(start), file, Bytes(start), offset, b,
                          r.Done?)
    {
      EndByFit(|file|, fileSize, offset, |b|, g.ClusterSize(), |FreeFrom(fat, 0)|, at);
      if at == |b| {
        InPlace(g.ClusterSize(), fat, clusters, file, Bytes(start), offset, b);
        return Done(if fileSize < offset + |b| then offset + |b| else fileSize);
      }
      r := WriteRest(start, clusters, offset, b, at, disk0, fat, file, dir, listing);
    }

    /** The part of a write that does not fit the clusters of the file. */
    method WriteRest(start: nat, clusters: seq<nat>, offset: nat, b: seq<byte>, at: nat, ghost disk0: seq<Sector>,
                     ghost fat: seq<nat>, ghost file: seq<byte>, ghost dir: seq<nat>, ghost listing: seq<seq<byte>>)
      returns (r: WriteEnd)
      requires g.Valid() && Walk(table[..], start, table.Length) == Some(clusters) && AllOnDisk(g, disk, clusters)
      requires table.Length <= END_MIN && FreeOnDisk() && InUse(table[..], dir) && AllOnDisk(g, disk0, dir)
      requires Saved(g, disk0, disk, clusters, dir, listing, true) && table[..] == fat
      requires offset < |file| && at == |file| - offset < |b|
               && FileBytes(g, disk, clusters) == Splice(file, offset, b[..at])
      modifies `disk, table
      ensures r == GrowEnd(|FreeFrom(fat, 0)|, Needed(|b| - at, g.ClusterSize()), offset + |b|)
      ensures Walk(table[..], start, table.Length).Some? && AllOnDisk(g, disk, Chain(start))
      ensures Saved(g, disk0, disk, Chain(start), dir, listing, true)
      ensures Overwritten(g.ClusterSize(), fat, table[..], clusters, Chain(start), file, Bytes(start), offset, b,
                          r.Done?)
    {
      ghost var disk1 := disk;
      r := Grow(start, clusters, b[at..], offset + |b|);
      if r.Done? {
        SavedGrown(g, disk0, disk1, disk, fat, clusters, dir, listing, Needed(|b| - at, g.ClusterSize()));
      }
    }

    /** Hangs new clusters behind the last one and writes `rest` into them. */
    method Grow(start: nat, clusters: seq<nat>, rest: seq<byte>, newSize: nat) returns (r: WriteEnd)
      requires g.Valid() && Walk(table[..], start, table.Length) == Some(clusters) && AllOnDisk(g, disk, clusters)
               && 0 < |rest|
      requires table.Length <= END_MIN && FreeOnDisk()
      modifies `disk, table
      ensures Walk(table[..], start, table.Length).Some? && AllOnDisk(g, disk, Chain(start))
      ensures r == GrowEnd(|FreeFrom(old(table[..]), 0)|, Needed(|rest|, g.ClusterSize()), newSize)
      ensures !r.Done? ==> disk == old(disk) && table[..] == old(table[..])
      ensures r.Done? ==>
                && SectorsKept(g, old(disk), disk, Taken(old(table[..]), Needed(|rest|, g.ClusterSize())))
                && Grown(g.ClusterSize(), old(table[..]), table[..], clusters, Chain(start), old(Bytes(start)),
                         Bytes(start), rest)
    {
      ghost var fat := table[..];
      var needed := |rest| / g.ClusterSize();
      NeededIsQuotient(|rest|, g.ClusterSize());
      ChainInUse(g, disk, fat, start, clusters);
      var taken := AllocateAndLinkClusters(needed);
      if taken.None? {
        return NoFreeClusters(newSize);
      }
      var added := taken.value;
      if added == [] {
        assert table[..] == fat;
        return Panicked;
      }
      ExtendLemma(fat, clusters, needed);
      table[clusters[|clusters| - 1]] := added[0];
      assert AllOnDisk(g, disk, added);
      WriteAdded(added, rest, clusters);
      return Done(newSize);
    }

    lemma {:induction false} ChainFacts(start: nat, clusters: seq<nat>)
      requires Walk(table[..], start, table.Length) == Some(clusters)
      ensures Distinct(clusters)
    {
      WalkIsChain(table[..], start, table.Length);
      forall i, j | 0 <= i < j < |clusters| ensures clusters[i] != clusters[j] {
        ChainDistinct(table[..], clusters, i, j);
      }
    }

    /** What was written is read back, whatever it is, exactly if it fits the clusters the file has: else a byte
        of it reads as zero. */
    method WriteThenRead(start: nat, fileSize: nat, offset: nat, b: seq<byte>, entry: nat, listing: seq<seq<byte>>,
                         buffer: array<byte>)
      returns (r: WriteEnd, ok: bool)
      requires FileOk(start, fileSize) && table.Length <= END_MIN && FreeOnDisk() && DirectoryOk(start, entry, listing)
               && 0 < |b|
      requires buffer as object != table && buffer.Length == |b|
      modifies `disk, table, buffer
      ensures ok ==> r.Done?
      ensures offset <= fileSize && offset + |b| <= |old(Bytes(start))| ==> ok && buffer[..] == b
      ensures ok && |old(Bytes(start))| < offset + |b| ==>
                var fit := |old(Bytes(start))| - offset;
                0 <= fit < |b| && buffer[fit + Share(|b| - fit, g.ClusterSize())] == 0
    {
      ghost var fat, chain, file := table[..], Chain(start), Bytes(start);
      r := WriteNoted(start, fileSize, offset, b, entry, listing, fat, chain, file);
      if !r.Done? {
        return r, false;
      }
      ok := ReadOver(start, r.size, offset, b, buffer, fat, chain, file);
    }

    /** Writes, and says how it went in terms of the table and the file before. */
    method WriteNoted(start: nat, fileSize: nat, offset: nat, b: seq<byte>, entry: nat, listing: seq<seq<byte>>,
                      ghost fat: seq<nat>, ghost chain: seq<nat>, ghost file: seq<byte>)
      returns (r: WriteEnd)
      requires FileOk(start, fileSize) && table.Length <= END_MIN && FreeOnDisk() && DirectoryOk(start, entry, listing)
      requires 0 < |b| && fat == table[..] && chain == Chain(start) && file == Bytes(start)
      modifies `disk, table
      ensures Walk(table[..], start, table.Length).Some? && AllOnDisk(g, disk, Chain(start)) && chain != []
      ensures r.Done? ==> offset < |file|
      ensures r.Done? ==>
                Overwritten(g.ClusterSize(), fat, table[..], chain, Chain(start), file, Bytes(start), offset, b, true)
      ensures offset <= fileSize && offset + |b| <= |file| ==> r.Done? && offset + |b| <= r.size <= |file|
    {
      EndDone(|file|, fileSize, offset, |b|, g.ClusterSize(), |FreeFrom(fat, 0)|);
      r := Write(start, fileSize, offset, b, entry, listing);
    }

    /** Reads as many bytes as were written over the file, from where they were written. */
    method ReadOver(start: nat, fileSize: nat, offset: nat, ghost b: seq<byte>, buffer: array<byte>,
                    ghost fat: seq<nat>, ghost chain: seq<nat>, ghost file: seq<byte>)
      returns (ok: bool)
      requires g.Valid() && Walk(table[..], start, table.Length).Some? && AllOnDisk(g, disk, Chain(start))
      requires 0 < buffer.Length == |b| && buffer as object != table && offset < |file| && chain != []
      requires Overwritten(g.ClusterSize(), fat, table[..], chain, Chain(start), file, Bytes(start), offset, b, true)
      modifies buffer
      ensures ok <==> offset + |b| <= fileSize <= |Bytes(start)|
      ensures offset + |b| <= |file| ==> |Bytes(start)| == |file|
      ensures ok && offset + |b| <= |file| ==> buffer[..] == b
      ensures ok && |file| < offset + |b| ==>
                var fit := |file| - offset;
                fit < |b| && buffer[fit + Share(|b| - fit, g.ClusterSize())] == 0
    {
      ok := ReadCovered(start, fileSize, offset, buffer);
      if ok {
        ReadAfter(g.ClusterSize(), fat, table[..], chain, Chain(start), file, Bytes(start), offset, b, buffer[..]);
      }
    }

    /** Reads, unless the clusters of the file fall short of its size. */
    method ReadCovered(start: nat, fileSize: nat, offset: nat, buffer: array<byte>) returns (ok: bool)
      requires g.Valid() && Walk(table[..], start, table.Length).Some? && AllOnDisk(g, disk, Chain(start))
      requires 0 < buffer.Length && buffer as object != table
      modifies buffer
      ensures ok <==> offset + buffer.Length <= fileSize <= |Bytes(start)|
      ensures ok ==> buffer[..] == Bytes(start)[offset..offset + buffer.Length]
    {
      var clusters := GetClustersForFile(start);
      FileLength(g, disk, clusters);
      if Times(|clusters|, g.ClusterSize()) < fileSize {
        return false;
      }
      ok := Read(start, fileSize, offset, buffer);
    }
  }

  /**
   * What a write leaves as it was: all sectors outside the clusters of the file, and those of the directory too if its
   * entry is rewritten. The directory then holds the new listing.
   */
  ghost predicate Saved(g: Geometry, disk: seq<Sector>, disk': seq<Sector>, chain: seq<nat>, dir: seq<nat>,
                        listing: seq<seq<byte>>, longer: bool)
    requires AllOnDisk(g, disk, dir)
  {
    && SectorsKept(g, disk, disk', if longer then chain + dir else chain) && AllOnDisk(g, disk', dir)
    && FileBytes(g, disk', dir) == if longer then Concat(listing) else FileBytes(g, disk, dir)
  }

  /** New clusters are not the directory's. */
  lemma {:induction false} SavedGrown(g: Geometry, disk0: seq<Sector>, disk1: seq<Sector>, disk2: seq<Sector>,
                                      fat: seq<nat>, chain: seq<nat>, dir: seq<nat>, listing: seq<seq<byte>>,
                                      count: nat)
    requires |fat| <= END_MIN && InUse(fat, dir) && AllOnDisk(g, disk0, dir)
    requires Saved(g, disk0, disk1, chain, dir, listing, true) && SectorsKept(g, disk1, disk2, Taken(fat, count))
    ensures Saved(g, disk0, disk2, chain + Taken(fat, count), dir, listing, true)
  {
    var added := Taken(fat, count);
    AllocateLemma(fat, count);
    KeptFile(g, disk1, disk2, added, dir);
    KeptMore(g, disk0, disk1, disk2, chain + dir, added);
    KeptWider(g, disk0, disk2, chain + dir + added, chain + added + dir);
  }

  /** The bytes of the clusters `done` and those of the `n` new clusters to come make up `total`. */
  ghost predicate AddedSoFar(g: Geometry, disk: seq<Sector>, done: seq<nat>, temp: seq<byte>, left: seq<byte>, n: nat,
                             total: seq<byte>)
    requires 0 < |left| && 0 < |temp|
  {
    AllOnDisk(g, disk, done) && FileBytes(g, disk, done) + Added(temp, left, n) == total
  }

  lemma {:induction false} AddedStart(g: Geometry, disk: seq<Sector>, clusters: seq<nat>, added: seq<nat>,
                                      temp: seq<byte>, rest: seq<byte>, total: seq<byte>)
    requires AllOnDisk(g, disk, clusters) && 0 < |rest| && 0 < |temp| && temp == Blank(|temp|)
    requires total == FileBytes(g, disk, clusters) + Added(Blank(|temp|), rest, |added|)
    ensures AddedSoFar(g, disk, clusters + added[..0], temp, rest[0..], |added|, total)
  {
    assert rest[0..] == rest && clusters + added[..0] == clusters;
  }

  lemma {:induction false} AddedEnd(g: Geometry, disk: seq<Sector>, clusters: seq<nat>, added: seq<nat>,
                                    temp: seq<byte>, left: seq<byte>, total: seq<byte>)
    requires 0 < |left| && 0 < |temp| && AddedSoFar(g, disk, clusters + added[..|added|], temp, left, 0, total)
    ensures AllOnDisk(g, disk, clusters + added) && FileBytes(g, disk, clusters + added) == total
  {
    assert clusters + added[..|added|] == clusters + added;
  }

  lemma {:induction false} AddedOneMore(g: Geometry, disk: seq<Sector>, disk': seq<Sector>, done: seq<nat>, c: nat,
                                        temp: seq<byte>, left: seq<byte>, temp': seq<byte>, left': seq<byte>, n: nat,
                                        total: seq<byte>)
    requires 0 < n && 0 < |left| && 0 < |temp| == g.ClusterSize() && c !in done && g.OnDisk(c, disk)
    requires AddedSoFar(g, disk, done, temp, left, n, total)
    requires temp' == NextCluster(temp, left) && left' == left[Share(|left|, |temp|)..]
    requires disk' == Written(g, disk, c, temp', g.sectorsPerCluster)
    ensures AddedSoFar(g, disk', done + [c], temp', left', n - 1, total)
  {
    AddedStep(g, disk, disk', done, c, temp');
    AddedNext(FileBytes(g, disk, done), temp, left, n);
  }

  /** The table, the chain and the bytes of a file that has been given new clusters with `rest` in them. */
  ghost predicate Grown(size: nat, fat: seq<nat>, fat': seq<nat>, chain: seq<nat>, chain': seq<nat>,
                        file: seq<byte>, file': seq<byte>, rest: seq<byte>)
    requires 0 < size && 0 < |rest| && chain != []
  {
    var added := Taken(fat, Needed(|rest|, size));
    added != [] && chain' == chain + added && file' == file + Added(Blank(size), rest, |added|)
      && OthersKept(fat, fat', chain)
  }

  /** The table, the chain and the bytes of a file after a write; `grew` if what did not fit went into new clusters. */
  ghost predicate Overwritten(size: nat, fat: seq<nat>, fat': seq<nat>, chain: seq<nat>, chain': seq<nat>,
                              file: seq<byte>, file': seq<byte>, offset: nat, b: seq<byte>, grew: bool)
    requires 0 < size && offset < |file| && chain != []
  {
    var fit := Fit(|b|, |file| - offset);
    var over := Splice(file, offset, b[..fit]);
    if fit < |b| && grew then Grown(size, fat, fat', chain, chain', over, file', b[fit..])
    else fat' == fat && chain' == chain && file' == over
  }

  /** A write that fits the clusters of the file. */
  lemma {:induction false} InPlace(size: nat, fat: seq<nat>, chain: seq<nat>, file: seq<byte>, file': seq<byte>,
                                   offset: nat, b: seq<byte>)
    requires 0 < size && offset < |file| && chain != [] && offset + |b| <= |file| && file' == Splice(file, offset, b)
    ensures Overwritten(size, fat, fat, chain, chain, file, file', offset, b, true)
  {
    assert b[..|b|] == b;
  }

  /** The bytes of a file after a write that found the clusters it needed. */
  function FileAfter(size: nat, fat: seq<nat>, file: seq<byte>, offset: nat, b: seq<byte>): seq<byte>
    requires 0 < size && offset < |file|
  {
    var fit := Fit(|b|, |file| - offset);
    Splice(file, offset, b[..fit]) +
    (if fit < |b| then Added(Blank(size), b[fit..], |Taken(fat, Needed(|b| - fit, size))|) else [])
  }

  predicate ReadsBack(size: nat, fat: seq<nat>, file: seq<byte>, offset: nat, b: seq<byte>)
    requires 0 < size && offset < |file|
  {
    var f := FileAfter(size, fat, file, offset, b);
    offset + |b| <= |f| && f[offset..offset + |b|] == b
  }

  /** What a read finds where a write has been. */
  lemma {:induction false} ReadBack(size: nat, fat: seq<nat>, file: seq<byte>, offset: nat, b: seq<byte>)
    requires 0 < size && offset < |file| && offset + |b| <= |FileAfter(size, fat, file, offset, b)|
    ensures offset + |b| <= |file| ==> ReadsBack(size, fat, file, offset, b)
    ensures |file| < offset + |b| ==>
              var fit := |file| - offset;
              fit < |b| && FileAfter(size, fat, file, offset, b)[offset..offset + |b|][fit + Share(|b| - fit, size)]
                == 0
  {
    var fit := Fit(|b|, |file| - offset);
    if fit < |b| {
      AddedHole(Blank(size), b[fit..], |Taken(fat, Needed(|b| - fit, size))|);
    } else {
      assert b[..fit] == b;
    }
  }

  lemma {:induction false} ReadAfter(size: nat, fat: seq<nat>, fat': seq<nat>, chain: seq<nat>, chain': seq<nat>,
                                     file: seq<byte>, file': seq<byte>, offset: nat, b: seq<byte>, read: seq<byte>)
    requires 0 < size && offset < |file| && chain != []
             && Overwritten(size, fat, fat', chain, chain', file, file', offset, b, true)
    requires offset + |b| <= |file'| && read == file'[offset..offset + |b|]
    ensures offset + |b| <= |file| ==> read == b
    ensures |file| < offset + |b| ==> var fit := |file| - offset; fit < |b| && read[fit + Share(|b| - fit, size)] == 0
  {
    assert file' == FileAfter(size, fat, file, offset, b);
    ReadBack(size, fat, file, offset, b);
  }

  /** Writes of `n` bytes are read back, whatever the bytes, exactly if they fit the clusters that the file has. */
  lemma {:induction false} ReadsBackExactly(size: nat, fat: seq<nat>, file: seq<byte>, offset: nat, n: nat)
    requires 0 < size && offset < |file|
    ensures (forall b: seq<byte> :: |b| == n ==> ReadsBack(size, fat, file, offset, b)) <==> offset + n <= |file|
  {
    if offset + n <= |file| {
      forall b: seq<byte> | |b| == n ensures ReadsBack(size, fat, file, offset, b) {
        ReadBack(size, fat, file, offset, b);
      }
    } else {
      var ones: seq<byte> := seq(n, _ => 1 as byte);
      var fit := |file| - offset;
      if offset + n <= |FileAfter(size, fat, file, offset, ones)| {
        ReadBack(size, fat, file, offset, ones);
        assert ones[fit + Share(n - fit, size)] == 1;
      }
      assert !ReadsBack(size, fat, file, offset, ones);
    }
  }

  lemma {:induction false} KeptAfter(g: Geometry, disk0: seq<Sector>, disk1: seq<Sector>, chain: seq<nat>, k: nat,
                                     buf: seq<byte>)
    requires k < |chain| && AllOnDisk(g, disk1, chain) && |buf| == g.ClusterSize()
             && SectorsKept(g, disk0, disk1, chain)
    ensures SectorsKept(g, disk0, Written(g, disk1, chain[k], buf, g.sectorsPerCluster), chain)
  {
    var disk2 := Written(g, disk1, chain[k], buf, g.sectorsPerCluster);
    forall j: nat | j < |disk0| ensures SectorKept(g, disk0, disk2, chain, j) {
      assert SectorKept(g, disk0, disk1, chain, j);
    }
  }

  /** Clusters that lie on the disk are linked to by entries in use. */
  lemma {:induction false} ChainInUse(g: Geometry, disk: seq<Sector>, fat: seq<nat>, start: nat, chain: seq<nat>)
    requires Walk(fat, start, |fat|) == Some(chain) && AllOnDisk(g, disk, chain)
    ensures InUse(fat, chain) && chain[0] == start
  {
    WalkIsChain(fat, start, |fat|);
    forall i | 0 <= i < |chain| ensures chain[i] < |fat| && fat[chain[i]] != FREE {
      assert LinkOk(fat, chain, i);
      assert i + 1 < |chain| ==> g.OnDisk(chain[i + 1], disk);
    }
  }
}
