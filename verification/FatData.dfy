/** Clusters on the disk, and the bytes of a file spread over a chain of them. */
module FatData {
  import opened Arithmetic
  import opened Pieces
  import opened Prelude

  type Sector = s: seq<byte> | |s| == 512 witness seq(512, _ => 0 as byte)

  /** Byte `offset`, in cluster `k` of a file, is past the end of a file of `n` clusters exactly if `k` is. */
  lemma {:induction false} PastEnd(offset: nat, k: nat, within: nat, n: nat, size: nat)
    requires offset == Times(k, size) + within && within < size
    ensures n <= k <==> Times(n, size) <= offset
  {
    if n <= k {
      TimesMonotone(n, k, size);
    } else {
      TimesMonotone(k + 1, n, size);
    }
  }

  /** Where cluster 2 begins, and how many sectors a cluster has. */
  datatype Geometry = Geometry(dataStart: nat, sectorsPerCluster: nat) {
    predicate Valid() { 0 < sectorsPerCluster < 128 }

    function ClusterSize(): nat { sectorsPerCluster * 512 }

    /** The first sector of a cluster; clusters are numbered from 2. */
    function First(c: nat): nat
      requires 2 <= c
    {
      Times(c - 2, sectorsPerCluster) + dataStart
    }

    predicate OnDisk(c: nat, disk: seq<Sector>) {
      2 <= c && First(c) + sectorsPerCluster <= |disk|
    }
  }

  /** The sectors of a cluster one after the other. */
  function ClusterBytes(g: Geometry, disk: seq<Sector>, c: nat): (r: seq<byte>)
    requires g.OnDisk(c, disk)
    ensures |r| == g.ClusterSize()
  {
    var sectors := disk[g.First(c)..g.First(c) + g.sectorsPerCluster];
    UniformLength(sectors, 512);
    TimesIsProduct(g.sectorsPerCluster, 512);
    Concat(sectors)
  }

  /** The bytes of `n` sectors, cut into them. */
  function Sectors(buf: seq<byte>, n: nat): (r: seq<Sector>)
    requires |buf| == n * 512
    ensures |r| == n
    decreases n
  {
    if n == 0 then [] else [buf[..512]] + Sectors(buf[512..], n - 1)
  }

  lemma {:induction false} SectorsConcat(buf: seq<byte>, n: nat)
    requires |buf| == n * 512
    ensures Concat(Sectors(buf, n)) == buf
    decreases n
  {
    if n > 0 {
      SectorsConcat(buf[512..], n - 1);
      assert Sectors(buf, n)[1..] == Sectors(buf[512..], n - 1);
    }
  }

  lemma {:induction false} SectorAt(buf: seq<byte>, n: nat, i: nat)
    requires |buf| == n * 512 && i < n
    ensures Sectors(buf, n)[i] == buf[i * 512..(i + 1) * 512]
    decreases n
  {
    if i > 0 {
      SectorAt(buf[512..], n - 1, i - 1);
    }
  }

  /** The disk with the first `n` sectors of cluster `c` overwritten from `buf`. */
  function Written(g: Geometry, disk: seq<Sector>, c: nat, buf: seq<byte>, n: nat): (r: seq<Sector>)
    requires g.OnDisk(c, disk) && |buf| == g.ClusterSize() && n <= g.sectorsPerCluster
    ensures |r| == |disk|
  {
    Splice(disk, g.First(c), Sectors(buf, g.sectorsPerCluster)[..n])
  }

  lemma {:induction false} WrittenNext(g: Geometry, disk: seq<Sector>, c: nat, buf: seq<byte>, n: nat)
    requires g.OnDisk(c, disk) && |buf| == g.ClusterSize() && n < g.sectorsPerCluster
    ensures Written(g, disk, c, buf, n + 1)
              == Written(g, disk, c, buf, n)[g.First(c) + n := buf[n * 512..(n + 1) * 512]]
  {
    SectorAt(buf, g.sectorsPerCluster, n);
  }

  /** Different clusters lie in different sectors. */
  lemma {:induction false} ClustersApart(g: Geometry, c: nat, d: nat)
    requires 2 <= c && 2 <= d && c != d
    ensures g.First(c) + g.sectorsPerCluster <= g.First(d) || g.First(d) + g.sectorsPerCluster <= g.First(c)
  {
    if c < d {
      TimesMonotone(c - 1, d - 2, g.sectorsPerCluster);
    } else {
      TimesMonotone(d - 1, c - 2, g.sectorsPerCluster);
    }
  }

  /** Writing a cluster changes its bytes and those of no other cluster. */
  lemma {:induction false} WrittenCluster(g: Geometry, disk: seq<Sector>, c: nat, buf: seq<byte>, d: nat)
    requires g.OnDisk(c, disk) && g.OnDisk(d, disk) && |buf| == g.ClusterSize()
    ensures ClusterBytes(g, Written(g, disk, c, buf, g.sectorsPerCluster), d)
         == if c == d then buf else ClusterBytes(g, disk, d)
  {
    var n, sectors := g.sectorsPerCluster, Sectors(buf, g.sectorsPerCluster);
    var disk' := Written(g, disk, c, buf, n);
    if c == d {
      assert sectors[..n] == sectors;
      SpliceSlices(disk, g.First(c), sectors, 0, 0);
      SectorsConcat(buf, n);
    } else {
      ClustersApart(g, c, d);
      SpliceSlices(disk, g.First(c), sectors[..n], g.First(d), g.First(d) + n);
    }
  }

  // ── Files ─────────────────────────────────────────────────────────────────

  predicate AllOnDisk(g: Geometry, disk: seq<Sector>, chain: seq<nat>) {
    forall i :: 0 <= i < |chain| ==> g.OnDisk(chain[i], disk)
  }

  function Clusters(g: Geometry, disk: seq<Sector>, chain: seq<nat>): (r: seq<seq<byte>>)
    requires AllOnDisk(g, disk, chain)
    ensures |r| == |chain| && Uniform(r, g.ClusterSize())
  {
    seq(|chain|, i requires 0 <= i < |chain| => ClusterBytes(g, disk, chain[i]))
  }

  /** The clusters of a chain one after the other. */
  function FileBytes(g: Geometry, disk: seq<Sector>, chain: seq<nat>): (r: seq<byte>)
    requires AllOnDisk(g, disk, chain)
  {
    Concat(Clusters(g, disk, chain))
  }

  lemma {:induction false} FileLength(g: Geometry, disk: seq<Sector>, chain: seq<nat>)
    requires AllOnDisk(g, disk, chain)
    ensures |FileBytes(g, disk, chain)| == Times(|chain|, g.ClusterSize())
  {
    UniformLength(Clusters(g, disk, chain), g.ClusterSize());
  }

  /** A piece inside cluster `k`, at byte `at` of the file, seen from the file and from the cluster. */
  lemma {:induction false} FilePiece(g: Geometry, disk: seq<Sector>, chain: seq<nat>, k: nat, o: nat, n: nat, at: nat)
    requires AllOnDisk(g, disk, chain) && k < |chain| && o + n <= g.ClusterSize()
    requires at == Times(k, g.ClusterSize()) + o
    ensures at + n <= |FileBytes(g, disk, chain)|
    ensures FileBytes(g, disk, chain)[at..at + n] == ClusterBytes(g, disk, chain[k])[o..o + n]
  {
    PieceInWhole(Clusters(g, disk, chain), g.ClusterSize(), k, o, n, at);
  }

  // ── Bytes on the raw disk ─────────────────────────────────────────────────

  /** Byte `o` of cluster `k` of a chain is `x`, in the sector and at the place where the disk has it. */
  predicate RawByte(g: Geometry, disk: seq<Sector>, chain: seq<nat>, k: int, o: int, x: byte) {
    && 0 <= k < |chain|
    && var sector := g.dataStart + (chain[k] - 2) * g.sectorsPerCluster + o / 512;
       0 <= sector < |disk| && x == disk[sector][o % 512]
  }

  lemma {:induction false} FirstSector(g: Geometry, c: nat)
    requires 2 <= c
    ensures g.First(c) == g.dataStart + (c - 2) * g.sectorsPerCluster
  {
    TimesIsProduct(c - 2, g.sectorsPerCluster);
  }

  /** Byte `o` of a cluster lies in one of its sectors. */
  lemma {:induction false} ClusterByte(g: Geometry, disk: seq<Sector>, c: nat, o: nat)
    requires g.OnDisk(c, disk) && o < g.ClusterSize()
    ensures o / 512 < g.sectorsPerCluster && g.First(c) + o / 512 < |disk|
    ensures ClusterBytes(g, disk, c)[o] == disk[g.First(c) + o / 512][o % 512]
  {
    var sectors := disk[g.First(c)..g.First(c) + g.sectorsPerCluster];
    TimesIsProduct(o / 512, 512);
    PieceInWhole(sectors, 512, o / 512, o % 512, 1, o);
    assert Concat(sectors)[o..o + 1][0] == sectors[o / 512][o % 512..o % 512 + 1][0];
  }

  /** `s` is what the sectors of cluster `c` hold. */
  ghost predicate RawCluster(g: Geometry, disk: seq<Sector>, c: nat, s: seq<byte>) {
    |s| == g.sectorsPerCluster * 512 && forall o :: 0 <= o < |s| ==> RawByte(g, disk, [c], 0, o, s[o])
  }

  lemma {:induction false} RawClusterBytes(g: Geometry, disk: seq<Sector>, c: nat)
    requires g.OnDisk(c, disk)
    ensures RawCluster(g, disk, c, ClusterBytes(g, disk, c))
  {
    var s := ClusterBytes(g, disk, c);
    FirstSector(g, c);
    forall o | 0 <= o < |s| ensures RawByte(g, disk, [c], 0, o, s[o]) {
      ClusterByte(g, disk, c, o);
    }
  }

  /** The bytes of a file on the raw disk. */
  lemma {:induction false} FileByte(g: Geometry, disk: seq<Sector>, chain: seq<nat>, p: nat, size: nat)
    requires AllOnDisk(g, disk, chain) && p < |FileBytes(g, disk, chain)| && 0 < size == g.sectorsPerCluster * 512
    ensures RawByte(g, disk, chain, p / size, p % size, FileBytes(g, disk, chain)[p])
  {
    FileLength(g, disk, chain);
    TimesIsProduct(|chain|, size);
    var k, o := Divide(p, |chain|, size);
    PlacedByte(g, disk, chain, p, k, o, size);
  }

  lemma {:induction false} Divide(p: nat, n: nat, d: nat) returns (k: nat, o: nat)
    requires 0 < d && p < n * d
    ensures k == p / d < n && o == p % d < d && p == k * d + o
  {
    DivBounds(p, d);
    if p / d < 0 {
      MultiplesApart(d, p / d, 0);
    } else if n <= p / d {
      MultiplesApart(d, n - 1, p / d);
    }
    k, o := p / d, p % d;
  }

  lemma {:induction false} PlacedByte(g: Geometry, disk: seq<Sector>, chain: seq<nat>, p: nat, k: nat, o: nat,
                                      size: nat)
    requires AllOnDisk(g, disk, chain) && p < |FileBytes(g, disk, chain)| && size == g.ClusterSize()
    requires k < |chain| && o < size && p == k * size + o
    ensures RawByte(g, disk, chain, k, o, FileBytes(g, disk, chain)[p])
  {
    TimesIsProduct(k, size);
    FilePiece(g, disk, chain, k, o, 1, p);
    assert FileBytes(g, disk, chain)[p..p + 1][0] == ClusterBytes(g, disk, chain[k])[o..o + 1][0];
    ClusterByte(g, disk, chain[k], o);
    FirstSector(g, chain[k]);
  }

  /** Sector `k` holds its part of `buf` if it is one of cluster `c`, and else what it held. */
  predicate OnlyCluster(g: Geometry, disk: seq<Sector>, disk': seq<Sector>, c: nat, buf: seq<byte>, k: nat)
    requires |buf| == g.ClusterSize() && k < |disk| == |disk'|
  {
    var i := k - (g.dataStart + (c - 2) * g.sectorsPerCluster);
    disk'[k] == if 0 <= i < g.sectorsPerCluster then buf[i * 512..(i + 1) * 512] else disk[k]
  }

  /** Sector `k` once cluster `c` has been overwritten. */
  lemma {:induction false} WrittenSector(g: Geometry, disk: seq<Sector>, c: nat, buf: seq<byte>, k: nat)
    requires g.OnDisk(c, disk) && |buf| == g.ClusterSize() && k < |disk|
    ensures OnlyCluster(g, disk, Written(g, disk, c, buf, g.sectorsPerCluster), c, buf, k)
  {
    FirstSector(g, c);
    var i := k - g.First(c);
    if 0 <= i < g.sectorsPerCluster {
      SectorAt(buf, g.sectorsPerCluster, i);
    }
  }

  /** The next piece of a buffer being filled from a file. */
  lemma {:induction false} NextRead(file: seq<byte>, offset: nat, buffer: seq<byte>, at: nat, n: nat, pos: nat,
                                    piece: seq<byte>)
    requires pos == offset + at && pos + n <= |file| && at + n <= |buffer|
    requires buffer[..at] == file[offset..pos] && piece == file[pos..pos + n]
    ensures Splice(buffer, at, piece)[..at + n] == file[offset..pos + n]
  {
    var r := Splice(buffer, at, piece);
    assert r[..at + n] == buffer[..at] + piece;
    assert file[offset..pos + n] == file[offset..pos] + file[pos..pos + n];
  }

  lemma {:induction false} OtherClustersKept(g: Geometry, disk: seq<Sector>, chain: seq<nat>, c: nat, buf: seq<byte>)
    requires g.OnDisk(c, disk) && |buf| == g.ClusterSize() && AllOnDisk(g, disk, chain) && c !in chain
    ensures AllOnDisk(g, Written(g, disk, c, buf, g.sectorsPerCluster), chain)
    ensures FileBytes(g, Written(g, disk, c, buf, g.sectorsPerCluster), chain) == FileBytes(g, disk, chain)
  {
    var disk' := Written(g, disk, c, buf, g.sectorsPerCluster);
    forall i | 0 <= i < |chain| ensures Clusters(g, disk', chain)[i] == Clusters(g, disk, chain)[i] {
      WrittenCluster(g, disk, c, buf, chain[i]);
    }
    assert Clusters(g, disk', chain) == Clusters(g, disk, chain);
  }

  lemma {:induction false} ClusterReplaced(g: Geometry, disk: seq<Sector>, chain: seq<nat>, k: nat, buf: seq<byte>)
    requires AllOnDisk(g, disk, chain) && Distinct(chain) && k < |chain| && |buf| == g.ClusterSize()
    ensures AllOnDisk(g, Written(g, disk, chain[k], buf, g.sectorsPerCluster), chain)
    ensures Clusters(g, Written(g, disk, chain[k], buf, g.sectorsPerCluster), chain)
              == Clusters(g, disk, chain)[k := buf]
  {
    var disk' := Written(g, disk, chain[k], buf, g.sectorsPerCluster);
    forall i | 0 <= i < |chain| ensures Clusters(g, disk', chain)[i] == Clusters(g, disk, chain)[k := buf][i] {
      WrittenCluster(g, disk, chain[k], buf, chain[i]);
    }
    assert Clusters(g, disk', chain) == Clusters(g, disk, chain)[k := buf];
  }

  /** Overwriting a piece of cluster `k` of a chain replaces that piece in the file. */
  lemma {:induction false} PieceSplice(g: Geometry, disk: seq<Sector>, chain: seq<nat>, k: nat, o: nat, b: seq<byte>,
                                       at: nat, buf: seq<byte>, disk': seq<Sector>)
    requires AllOnDisk(g, disk, chain) && Distinct(chain) && k < |chain| && o + |b| <= g.ClusterSize()
    requires at == Times(k, g.ClusterSize()) + o && buf == Splice(ClusterBytes(g, disk, chain[k]), o, b)
    requires disk' == Written(g, disk, chain[k], buf, g.sectorsPerCluster)
    ensures AllOnDisk(g, disk', chain)
    ensures at + |b| <= |FileBytes(g, disk, chain)|
    ensures FileBytes(g, disk', chain) == Splice(FileBytes(g, disk, chain), at, b)
  {
    ClusterReplaced(g, disk, chain, k, buf);
    SpliceInWhole(Clusters(g, disk, chain), g.ClusterSize(), k, o, b, at);
  }

  /** Sectors outside the clusters of a chain. */
  ghost predicate SectorsKept(g: Geometry, disk: seq<Sector>, disk': seq<Sector>, chain: seq<nat>) {
    |disk'| == |disk| && forall k: nat :: k < |disk| ==> SectorKept(g, disk, disk', chain, k)
  }

  ghost predicate SectorKept(g: Geometry, disk: seq<Sector>, disk': seq<Sector>, chain: seq<nat>, k: nat)
    requires k < |disk| == |disk'|
  {
    Outside(g, chain, k) ==> disk'[k] == disk[k]
  }

  ghost predicate Outside(g: Geometry, chain: seq<nat>, k: nat) {
    forall i :: 0 <= i < |chain| && 2 <= chain[i] ==>
      !(g.First(chain[i]) <= k < g.First(chain[i]) + g.sectorsPerCluster)
  }

  lemma {:induction false} FileAppend(g: Geometry, disk: seq<Sector>, a: seq<nat>, b: seq<nat>)
    requires AllOnDisk(g, disk, a) && AllOnDisk(g, disk, b)
    ensures AllOnDisk(g, disk, a + b) && FileBytes(g, disk, a + b) == FileBytes(g, disk, a) + FileBytes(g, disk, b)
  {
    assert Clusters(g, disk, a + b) == Clusters(g, disk, a) + Clusters(g, disk, b);
    ConcatAppend(Clusters(g, disk, a), Clusters(g, disk, b));
  }

  // ── Growth ────────────────────────────────────────────────────────────────

  /** How a write ends, with the size that the file then has on record. */
  datatype WriteEnd = Done(size: nat) | NoFreeClusters(size: nat) | Panicked

  function Fit(n: nat, room: nat): nat {
    if n < room then n else room
  }

  /** `n / size`, by subtraction: the number of clusters that a write which is `n` bytes over asks for. */
  function Needed(n: nat, size: nat): nat
    requires 0 < size
  {
    if n < size then 0 else 1 + Needed(n - size, size)
  }

  lemma {:induction false} NeededIsQuotient(n: nat, size: nat)
    requires 0 < size
    ensures n / size == Needed(n, size)
  {
    if n >= size {
      NeededIsQuotient(n - size, size);
      var m := n - size;
      DivBounds(m, size);
      QuotientUnique(n, size, m / size + 1, m - m / size * size);
    } else {
      QuotientUnique(n, size, 0, n);
    }
  }

  /** How a write of `n` bytes at `offset` ends, for a file with `room` bytes in its clusters. */
  function EndOf(room: nat, fileSize: nat, offset: nat, n: nat, size: nat, free: nat): WriteEnd
    requires 0 < size
  {
    if fileSize < offset || room <= offset then Panicked
    else if offset + n <= room then Done(if fileSize < offset + n then offset + n else fileSize)
    else GrowEnd(free, Needed(offset + n - room, size), offset + n)
  }

  function GrowEnd(free: nat, needed: nat, newSize: nat): WriteEnd {
    if free < needed then NoFreeClusters(newSize) else if free == 0 then Panicked else Done(newSize)
  }

  /** How it ends, told by how much of it fits. */
  lemma {:induction false} EndByFit(room: nat, fileSize: nat, offset: nat, n: nat, size: nat, free: nat, at: nat)
    requires 0 < size && offset <= fileSize <= room && offset < room && at == Fit(n, room - offset)
    ensures EndOf(room, fileSize, offset, n, size, free)
         == if at == n then Done(if fileSize < offset + n then offset + n else fileSize)
            else GrowEnd(free, Needed(n - at, size), offset + n)
    ensures at < n ==> fileSize < offset + n && at == room - offset
  {
  }

  /** A write that ends well began in the file, and one that fits its clusters ends well. */
  lemma {:induction false} EndDone(room: nat, fileSize: nat, offset: nat, n: nat, size: nat, free: nat)
    requires 0 < size && 0 < n && fileSize <= room
    ensures var r := EndOf(room, fileSize, offset, n, size, free);
            && (r.Done? ==> offset <= fileSize && offset < room)
            && (offset <= fileSize && offset + n <= room ==> r.Done? && offset + n <= r.size <= room)
  {
  }

  function Blank(size: nat): seq<byte> {
    seq(size, _ => 0 as byte)
  }

  /** How many of the `n` bytes still to be written go into one new cluster. */
  function Share(n: nat, size: nat): (k: nat)
    requires 0 < n && 0 < size
    ensures k < n && k < size
  {
    (if n < size then n else size) - 1
  }

  /** What the next new cluster is given: its share of the data over whatever the last one was given. */
  function NextCluster(temp: seq<byte>, rest: seq<byte>): (r: seq<byte>)
    requires 0 < |rest| && 0 < |temp|
    ensures |r| == |temp|
  {
    var k := Share(|rest|, |temp|);
    rest[..k] + temp[k..]
  }

  lemma {:induction false} NextBySplice(temp: seq<byte>, rest: seq<byte>, at: nat, n: nat)
    requires at < |rest| && 0 < |temp| && n == Share(|rest| - at, |temp|)
    ensures Splice(temp, 0, rest[at..at + n]) == NextCluster(temp, rest[at..]) && rest[at..][n..] == rest[at + n..]
  {
    assert rest[at..][..n] == rest[at..at + n];
  }

  /** The bytes of `n` new clusters. */
  function Added(temp: seq<byte>, rest: seq<byte>, n: nat): (r: seq<byte>)
    requires 0 < |rest| && 0 < |temp|
    decreases n
  {
    if n == 0 then []
    else
      var t := NextCluster(temp, rest);
      t + Added(t, rest[Share(|rest|, |temp|)..], n - 1)
  }

  /** The byte at the end of the first share is not written. */
  lemma {:induction false} AddedHole(temp: seq<byte>, rest: seq<byte>, n: nat)
    requires 0 < |rest| && 0 < |temp| && 0 < n
    ensures var k := Share(|rest|, |temp|); k < |Added(temp, rest, n)| && Added(temp, rest, n)[k] == temp[k]
  {
  }

  /** How many of `n` bytes go into the first `j` new clusters: all but one byte of each, and never the last. */
  function Sent(n: nat, size: nat, j: nat): nat
    requires 0 < n && 0 < size
  {
    Fit(Times(j, size - 1), n - 1)
  }

  /** The new clusters one by one. */
  function NewClusters(temp: seq<byte>, rest: seq<byte>, n: nat): (r: seq<seq<byte>>)
    requires 0 < |rest| && 0 < |temp|
    ensures |r| == n && Uniform(r, |temp|)
    decreases n
  {
    if n == 0 then []
    else
      var t := NextCluster(temp, rest);
      [t] + NewClusters(t, rest[Share(|rest|, |temp|)..], n - 1)
  }

  lemma {:induction false} AddedConcat(temp: seq<byte>, rest: seq<byte>, n: nat)
    requires 0 < |rest| && 0 < |temp|
    ensures Concat(NewClusters(temp, rest, n)) == Added(temp, rest, n)
    decreases n
  {
    if n > 0 {
      var t, left := NextCluster(temp, rest), rest[Share(|rest|, |temp|)..];
      AddedConcat(t, left, n - 1);
      assert NewClusters(temp, rest, n)[1..] == NewClusters(t, left, n - 1);
    }
  }

  lemma {:induction false} NewClustersNext(temp: seq<byte>, rest: seq<byte>, n: nat)
    requires 0 < |rest| && 0 < |temp| && 0 < n
    ensures var t, left := NextCluster(temp, rest), rest[Share(|rest|, |temp|)..];
            NewClusters(temp, rest, n) == [t] + NewClusters(t, left, n - 1)
  {
  }

  /** Byte `i` of new cluster `j`: data as far as its share goes, and behind that what the cluster before it holds. */
  lemma {:induction false} NewClusterByte(temp: seq<byte>, rest: seq<byte>, n: nat, j: nat, i: nat, s: nat, s': nat)
    requires 0 < |rest| && 0 < |temp| && j < n && i < |temp|
    requires s == Sent(|rest|, |temp|, j) && s' == Sent(|rest|, |temp|, j + 1)
    ensures var r := NewClusters(temp, rest, n);
            r[j][i] == if s + i < s' then rest[s + i] else if j == 0 then temp[i] else r[j - 1][i]
    decreases n
  {
    SentNext(|rest|, |temp|, j);
    if j == 0 {
      NewClustersNext(temp, rest, n);
      NextClusterByte(temp, rest, i);
    } else {
      var k, t := Share(|rest|, |temp|), NextCluster(temp, rest);
      var left := rest[k..];
      SentNext(|rest|, |temp|, j - 1);
      NewClusterByte(t, left, n - 1, j - 1, i, s - k, s' - k);
      NewClustersNext(temp, rest, n);
      ByteBehind(t, NewClusters(t, left, n - 1), rest, left, k, j - 1, i, s - k, s' - k);
    }
  }

  lemma {:induction false} NextClusterByte(temp: seq<byte>, rest: seq<byte>, i: nat)
    requires 0 < |rest| && i < |temp|
    ensures NextCluster(temp, rest)[i] == if i < Share(|rest|, |temp|) then rest[i] else temp[i]
  {
  }

  lemma {:induction false} ByteBehind(t: seq<byte>, r: seq<seq<byte>>, rest: seq<byte>, left: seq<byte>, k: nat,
                                      j: nat, i: nat, s: nat, s': nat)
    requires k <= |rest| && left == rest[k..] && s' <= |left| && j < |r| && Uniform(r, |t|) && i < |t|
    requires r[j][i] == if s + i < s' then left[s + i] else if j == 0 then t[i] else r[j - 1][i]
    ensures var all := [t] + r;
            all[j + 1][i] == if s + k + i < s' + k then rest[s + k + i] else all[j][i]
  {
  }

  lemma {:induction false} SentNext(n: nat, size: nat, j: nat)
    requires 0 < n && 0 < size
    ensures Sent(n, size, j + 1) == Share(n, size) + Sent(n - Share(n, size), size, j)
  {
  }

  /** What each byte of the new clusters is: `size - 1` bytes of the data in each, and behind the data what the cluster
      before holds. The last byte of the data and the last byte of every cluster are never written. */
  lemma {:induction false} NewClusterHolds(rest: seq<byte>, size: nat, n: nat, j: nat, i: nat, p: nat)
    requires 0 < |rest| && 0 < size && j < n && i < size && p == j * (size - 1) + i
    ensures var r := NewClusters(Blank(size), rest, n);
            r[j][i] == if i == size - 1 then 0
                       else if p < |rest| - 1 then rest[p]
                       else if j == 0 then 0
                       else r[j - 1][i]
    decreases j
  {
    TimesIsProduct(j, size - 1);
    TimesNext(j, size - 1);
    NewClusterByte(Blank(size), rest, n, j, i, Sent(|rest|, size, j), Sent(|rest|, size, j + 1));
    if j > 0 && i == size - 1 {
      TimesIsProduct(j - 1, size - 1);
      NewClusterHolds(rest, size, n, j - 1, i, Times(j - 1, size - 1) + i);
    }
  }

  /** The same, told by the bytes behind the old end of the file. */
  lemma {:induction false} AddedPlaces(rest: seq<byte>, size: nat, n: nat, j: nat, i: nat, at: nat, p: nat)
    requires 0 < |rest| && 0 < size && j < n && i < size && at == j * size + i && p == j * (size - 1) + i
    ensures var r := Added(Blank(size), rest, n);
            && at < |r| == n * size
            && r[at] == if i == size - 1 then 0
                        else if p < |rest| - 1 then rest[p]
                        else if at < size then 0
                        else r[at - size]
  {
    TimesIsProduct(n, size);
    OneLessCluster(size, j, i, at);
    AddedConcat(Blank(size), rest, n);
    NewClusterHolds(rest, size, n, j, i, p);
    AddedByte(rest, size, n, j, i, at);
    if 0 < j {
      AddedByte(rest, size, n, j - 1, i, at - size);
    }
  }

  lemma {:induction false} OneLessCluster(size: nat, j: nat, i: nat, at: nat)
    requires i < size && at == j * size + i
    ensures at == Times(j, size) + i && (j == 0 <==> at < size) && (0 < j ==> at - size == Times(j - 1, size) + i)
  {
    TimesIsProduct(j, size);
  }

  lemma {:induction false} AddedByte(rest: seq<byte>, size: nat, n: nat, j: nat, i: nat, at: nat)
    requires 0 < |rest| && 0 < size && j < n && i < size && at == Times(j, size) + i
    ensures var r := NewClusters(Blank(size), rest, n);
            at < |Concat(r)| == Times(n, size) && Concat(r)[at] == r[j][i]
  {
    var clusters := NewClusters(Blank(size), rest, n);
    UniformLength(clusters, size);
    PieceInWhole(clusters, size, j, i, 1, at);
    assert Concat(clusters)[at..at + 1][0] == clusters[j][i..i + 1][0];
  }

  lemma {:induction false} AddedNext(done: seq<byte>, temp: seq<byte>, rest: seq<byte>, n: nat)
    requires 0 < |rest| && 0 < |temp| && 0 < n
    ensures var t := NextCluster(temp, rest);
            (done + t) + Added(t, rest[Share(|rest|, |temp|)..], n - 1) == done + Added(temp, rest, n)
  {
  }

  /** One more new cluster written, behind those written so far. */
  lemma {:induction false} AddedStep(g: Geometry, disk: seq<Sector>, disk': seq<Sector>, done: seq<nat>, c: nat,
                                     buf: seq<byte>)
    requires AllOnDisk(g, disk, done) && g.OnDisk(c, disk) && c !in done && |buf| == g.ClusterSize()
    requires disk' == Written(g, disk, c, buf, g.sectorsPerCluster)
    ensures AllOnDisk(g, disk', done + [c]) && FileBytes(g, disk', done + [c]) == FileBytes(g, disk, done) + buf
  {
    OtherClustersKept(g, disk, done, c, buf);
    WrittenCluster(g, disk, c, buf, c);
    FileAppend(g, disk', done, [c]);
    assert Clusters(g, disk', [c]) == [buf];
    ConcatOne(buf);
  }

  lemma {:induction false} DistinctSoFar(a: seq<nat>, b: seq<nat>, i: nat)
    requires Distinct(a + b) && i < |b|
    ensures b[i] !in a + b[..i] && a + b[..i] + [b[i]] == a + b[..i + 1]
  {
    var all := a + b;
    assert all[|a| + i] == b[i];
    forall j | 0 <= j < |a| + i ensures (a + b[..i])[j] != b[i] {
      assert (a + b[..i])[j] == all[j];
    }
  }

  lemma {:induction false} KeptMore(g: Geometry, disk0: seq<Sector>, disk1: seq<Sector>, disk2: seq<Sector>,
                                    a: seq<nat>, b: seq<nat>)
    requires SectorsKept(g, disk0, disk1, a) && SectorsKept(g, disk1, disk2, b)
    ensures SectorsKept(g, disk0, disk2, a + b)
  {
    forall k: nat | k < |disk0| ensures SectorKept(g, disk0, disk2, a + b, k) {
      assert SectorKept(g, disk0, disk1, a, k) && SectorKept(g, disk1, disk2, b, k);
      assert forall i :: 0 <= i < |a| ==> a[i] == (a + b)[i];
      assert forall i :: 0 <= i < |b| ==> b[i] == (a + b)[|a| + i];
    }
  }

  lemma {:induction false} KeptWider(g: Geometry, disk: seq<Sector>, disk': seq<Sector>, a: seq<nat>, b: seq<nat>)
    requires SectorsKept(g, disk, disk', a) && forall c :: c in a ==> c in b
    ensures SectorsKept(g, disk, disk', b)
  {
    forall k: nat | k < |disk| ensures SectorKept(g, disk, disk', b, k) {
      assert SectorKept(g, disk, disk', a, k);
      forall i | 0 <= i < |a| && 2 <= a[i] && Outside(g, b, k)
        ensures !(g.First(a[i]) <= k < g.First(a[i]) + g.sectorsPerCluster)
      {
        assert a[i] in a;
        var j :| 0 <= j < |b| && b[j] == a[i];
      }
    }
  }

  ghost predicate Disjoint(a: seq<nat>, b: seq<nat>) {
    forall i :: 0 <= i < |a| ==> a[i] !in b
  }

  /** Files in other clusters than those written keep their bytes. */
  lemma {:induction false} KeptFile(g: Geometry, disk: seq<Sector>, disk': seq<Sector>, a: seq<nat>, chain: seq<nat>)
    requires SectorsKept(g, disk, disk', a) && AllOnDisk(g, disk, chain) && Disjoint(chain, a)
    ensures AllOnDisk(g, disk', chain) && FileBytes(g, disk', chain) == FileBytes(g, disk, chain)
  {
    forall i | 0 <= i < |chain| ensures Clusters(g, disk', chain)[i] == Clusters(g, disk, chain)[i] {
      KeptCluster(g, disk, disk', a, chain[i]);
    }
    assert Clusters(g, disk', chain) == Clusters(g, disk, chain);
  }

  lemma {:induction false} KeptCluster(g: Geometry, disk: seq<Sector>, disk': seq<Sector>, a: seq<nat>, c: nat)
    requires SectorsKept(g, disk, disk', a) && g.OnDisk(c, disk) && c !in a
    ensures ClusterBytes(g, disk', c) == ClusterBytes(g, disk, c)
  {
    var lo, hi := g.First(c), g.First(c) + g.sectorsPerCluster;
    forall k: nat | lo <= k < hi ensures disk'[k] == disk[k] {
      forall i | 0 <= i < |a| && 2 <= a[i] ensures !(g.First(a[i]) <= k < g.First(a[i]) + g.sectorsPerCluster) {
        ClustersApart(g, c, a[i]);
      }
      assert SectorKept(g, disk, disk', a, k);
    }
    assert disk'[lo..hi] == disk[lo..hi];
  }
}
