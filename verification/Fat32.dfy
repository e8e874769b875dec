// kernel/src/disk/fat32.c: the one-sector write-back cache, the file allocation table, and
// reading files. On-disk structures are those of Microsoft's FAT32 File System Specification,
// section "FAT Data Structure". Sectors have 512 bytes.
module Fat32 {
  import opened Octets

  // A disk: the contents of the sectors it has.
  type Disk = map<nat, seq<Octet>>

  const SECTOR: nat := 512
  const PER_SECTOR: nat := 128  // table entries in a sector

  ghost predicate Formatted(d: Disk) { forall lba :: lba in d ==> |d[lba]| == SECTOR }

  // ---------- little-endian words ----------

  function Load32(b: seq<Octet>, off: nat): U32
    requires off + 4 <= |b|
  {
    Word(b[off], b[off + 1], b[off + 2], b[off + 3])
  }

  function Bytes32(v: U32): seq<Octet> {
    [v % 0x100, v / 0x100 % 0x100, v / 0x1_0000 % 0x100, v / 0x100_0000]
  }

  ghost function Store32(b: seq<Octet>, off: nat, v: U32): seq<Octet>
    requires off + 4 <= |b|
  {
    b[..off] + Bytes32(v) + b[off + 4..]
  }

  // A word that is stored is loaded again, and words beside it are not disturbed.
  lemma LoadStore(b: seq<Octet>, off: nat, v: U32, at: nat)
    requires off + 4 <= |b| && at + 4 <= |b| && (at == off || at + 4 <= off || off + 4 <= at)
    ensures |Store32(b, off, v)| == |b|
    ensures Load32(Store32(b, off, v), at) == if at == off then v else Load32(b, at)
  {
    WordDigits(v);
    var s := Store32(b, off, v);
    assert forall i :: 0 <= i < |b| ==> s[i] == if off <= i < off + 4 then Bytes32(v)[i - off] else b[i];
  }

  // ---------- clusters and sectors ----------

  // Where things are on the volume.
  datatype Geometry = Geometry(fatLba: nat, dataLba: nat, clusterSize: nat)

  ghost predicate Sane(g: Geometry) {
    0 < g.fatLba <= 0xFE00_0000 && 0 < g.dataLba < 0x1_0000_0000 && 0 < g.clusterSize < 0x100
  }

  // Sector addresses are 32-bit words.
  function Wrap(x: int): U32 { x % 0x1_0000_0000 }

  // A data cluster: its sectors have addresses that do not wrap around.
  ghost predicate DataCluster(g: Geometry, c: nat) {
    2 <= c && (c - 2) * g.clusterSize + g.dataLba + g.clusterSize < 0x1_0000_0000
  }

  function ClustToSect(g: Geometry, c: nat): U32 { Wrap((c - 2) * g.clusterSize + g.dataLba) }

  // Sector number k of a cluster.
  function SectorOf(g: Geometry, c: nat, k: nat): nat { ClustToSect(g, c) + k }

  lemma NoWrap(g: Geometry, c: nat)
    requires DataCluster(g, c)
    ensures ClustToSect(g, c) == (c - 2) * g.clusterSize + g.dataLba
    ensures g.dataLba <= ClustToSect(g, c) && ClustToSect(g, c) + g.clusterSize < 0x1_0000_0000
  {
    Product(c - 2, g.clusterSize);
    Small((c - 2) * g.clusterSize + g.dataLba);
  }

  lemma Product(a: nat, b: nat)
    ensures a * b >= 0
  {
  }

  lemma Small(x: int)
    requires 0 <= x < 0x1_0000_0000
    ensures Wrap(x) == x
  {
  }

  function SectToClust(g: Geometry, sect: nat): U32
    requires g.clusterSize > 0
  {
    Wrap(Wrap(sect - g.dataLba) / g.clusterSize + 2)
  }

  lemma DivMod(q: nat, d: nat, r: nat)
    requires r < d
    ensures (q * d + r) / d == q && (q * d + r) % d == r
  {
    DivUnique(q, d, r, (q * d + r) / d, (q * d + r) % d);
  }

  lemma Apart(q: nat, p: nat, d: nat)
    requires q < p
    ensures p * d >= q * d + d
  {
    Distribute(q, p - q, d);
    Distribute(1, p - q - 1, d);
    Product(p - q - 1, d);
  }

  lemma Distribute(a: nat, b: nat, d: nat)
    ensures (a + b) * d == a * d + b * d
  {
  }

  lemma DivUnique(q: nat, d: nat, r: nat, q': nat, r': nat)
    requires r < d && r' < d && q * d + r == q' * d + r'
    ensures q == q' && r == r'
  {
    if q < q' {
      Apart(q, q', d);
    } else if q' < q {
      Apart(q', q, d);
    }
  }

  // Every sector of a data cluster leads back to the cluster.
  lemma SectorsOfCluster(g: Geometry, c: nat, k: nat)
    requires Sane(g) && DataCluster(g, c) && k < g.clusterSize
    ensures SectToClust(g, SectorOf(g, c, k)) == c
  {
    NoWrap(g, c);
    DivMod(c - 2, g.clusterSize, k);
    Small(SectorOf(g, c, k) - g.dataLba);
    Apart(0, g.clusterSize, c - 2);
    Small(c);
  }

  // Different clusters have different sectors.
  lemma ClustersDisjoint(g: Geometry, c: nat, d: nat, k: nat, l: nat)
    requires Sane(g) && DataCluster(g, c) && DataCluster(g, d) && k < g.clusterSize && l < g.clusterSize
    ensures SectorOf(g, c, k) == SectorOf(g, d, l) <==> c == d && k == l
  {
    SectorsOfCluster(g, c, k);
    SectorsOfCluster(g, d, l);
  }

  // Clusters are numbered from 2: the data area starts with cluster 2, and the others follow.
  lemma ClustersFollow(g: Geometry, c: nat)
    requires Sane(g) && DataCluster(g, c + 1)
    ensures ClustToSect(g, 2) == g.dataLba
    ensures c >= 2 ==> ClustToSect(g, c + 1) == ClustToSect(g, c) + g.clusterSize
  {
    Small(g.dataLba);
    if c >= 2 {
      Distribute(c - 2, 1, g.clusterSize);
      NoWrap(g, c);
      NoWrap(g, c + 1);
    }
  }

  // ---------- the file allocation table ----------

  function EntrySector(g: Geometry, c: nat): nat { g.fatLba + c / PER_SECTOR }

  function EntryOffset(c: nat): (off: nat)
    ensures off + 4 <= SECTOR
  {
    c % PER_SECTOR * 4
  }

  ghost predicate HasEntry(d: Disk, g: Geometry, c: nat) { EntrySector(g, c) in d && |d[EntrySector(g, c)]| == SECTOR }

  ghost function Entry(d: Disk, g: Geometry, c: nat): U32
    requires HasEntry(d, g, c)
  {
    Load32(d[EntrySector(g, c)], EntryOffset(c))
  }

  ghost function WithEntry(d: Disk, g: Geometry, c: nat, v: U32): Disk
    requires HasEntry(d, g, c)
  {
    d[EntrySector(g, c) := Store32(d[EntrySector(g, c)], EntryOffset(c), v)]
  }

  // The table is a map from clusters to entries: setting one is a map update.
  lemma TableIsMap(d: Disk, g: Geometry, c: nat, v: U32, e: nat)
    requires HasEntry(d, g, c) && HasEntry(d, g, e)
    ensures HasEntry(WithEntry(d, g, c, v), g, e)
    ensures Entry(WithEntry(d, g, c, v), g, e) == if e == c then v else Entry(d, g, e)
  {
    if EntrySector(g, c) == EntrySector(g, e) {
      LoadStore(d[EntrySector(g, c)], EntryOffset(c), v, EntryOffset(e));
      if c % PER_SECTOR == e % PER_SECTOR {
        DivUnique(c / PER_SECTOR, PER_SECTOR, c % PER_SECTOR, e / PER_SECTOR, e % PER_SECTOR);
      }
    } else {
      LoadStore(d[EntrySector(g, c)], EntryOffset(c), v, EntryOffset(c));
    }
  }

  // The entry of cluster c is the word number c of the table.
  lemma EntryAddress(g: Geometry, c: nat)
    ensures EntrySector(g, c) * 512 + EntryOffset(c) == g.fatLba * 512 + 4 * c
  {
  }

  // Entries whose low 28 bits are 0x0FFFFFF8 and up end a chain.
  predicate EndOfChain(v: U32) { v % 0x1000_0000 >= 0xFFF_FFF8 }

  // Eight values end a chain, whatever the four bits above them are; the mark of a bad cluster and
  // the number of a cluster do not.
  lemma EndsOfChain(high: nat, low: nat)
    requires high < 0x10 && low < 0x1000_0000
    ensures EndOfChain(high * 0x1000_0000 + low)
            <==> low in {0x0FFFFFF8, 0x0FFFFFF9, 0x0FFFFFFA, 0x0FFFFFFB, 0x0FFFFFFC, 0x0FFFFFFD, 0x0FFFFFFE, 0x0FFFFFFF}
    ensures !EndOfChain(high * 0x1000_0000 + 0x0FFFFFF7)
  {
  }

  // ---------- what a file is ----------

  function Stride(g: Geometry): nat { g.clusterSize * SECTOR }

  ghost predicate HasCluster(d: Disk, g: Geometry, c: nat) {
    && DataCluster(g, c)
    && forall k :: 0 <= k < g.clusterSize ==> SectorOf(g, c, k) in d
  }

  // The table names a cluster after this one.
  ghost predicate Continues(d: Disk, g: Geometry, c: nat) {
    HasEntry(d, g, c) && !EndOfChain(Entry(d, g, c))
  }

  // A whole chain of clusters: each entry names the next cluster, and the last one ends it.
  ghost predicate IsChain(d: Disk, g: Geometry, chain: seq<nat>) {
    && |chain| > 0
    && (forall i :: 0 <= i < |chain| ==> HasCluster(d, g, chain[i]) && HasEntry(d, g, chain[i]))
    && (forall i, j :: 0 <= i && j == i + 1 && j < |chain| ==>
          Continues(d, g, chain[i]) && Entry(d, g, chain[i]) == chain[j])
    && EndOfChain(Entry(d, g, chain[|chain| - 1]))
  }

  // The first n sectors of a cluster.
  ghost function SectorBytes(d: Disk, g: Geometry, c: nat, n: nat): (b: seq<Octet>)
    requires Formatted(d) && HasCluster(d, g, c) && n <= g.clusterSize
    ensures |b| == n * SECTOR
  {
    if n == 0 then [] else SectorBytes(d, g, c, n - 1) + d[SectorOf(g, c, n - 1)]
  }

  // The bytes of a file: its clusters, one after the other.
  ghost function FileBytes(d: Disk, g: Geometry, chain: seq<nat>): (b: seq<Octet>)
    requires Formatted(d) && forall c :: c in chain ==> HasCluster(d, g, c)
    ensures |b| == |chain| * Stride(g)
  {
    if chain == [] then []
    else FileBytes(d, g, chain[..|chain| - 1]) + SectorBytes(d, g, chain[|chain| - 1], g.clusterSize)
  }

  lemma {:induction false} SectorByte(d: Disk, g: Geometry, c: nat, n: nat, so: nat, rw: nat)
    requires Formatted(d) && HasCluster(d, g, c) && so < n <= g.clusterSize && rw < SECTOR
    ensures so * SECTOR + rw < n * SECTOR
    ensures SectorBytes(d, g, c, n)[so * SECTOR + rw] == d[SectorOf(g, c, so)][rw]
  {
    if so < n - 1 { SectorByte(d, g, c, n - 1, so, rw); }
  }

  lemma InStride(g: Geometry, so: nat, rw: nat)
    requires so < g.clusterSize && rw <= SECTOR
    ensures so * SECTOR + rw <= Stride(g) && (rw < SECTOR ==> so * SECTOR + rw < Stride(g))
  {
    Apart(so, g.clusterSize, SECTOR);
  }

  // Where byte k of a file is: cluster number ci of the chain, sector so, byte rw.
  lemma {:induction false} FileByte(d: Disk, g: Geometry, chain: seq<nat>, ci: nat, so: nat, rw: nat)
    requires Formatted(d) && forall c :: c in chain ==> HasCluster(d, g, c)
    requires ci < |chain| && so < g.clusterSize && rw < SECTOR
    ensures ci * Stride(g) + so * SECTOR + rw < |chain| * Stride(g)
    ensures HasCluster(d, g, chain[ci]) && SectorOf(g, chain[ci], so) in d
    ensures FileBytes(d, g, chain)[ci * Stride(g) + so * SECTOR + rw] == d[SectorOf(g, chain[ci], so)][rw]
  {
    var init := chain[..|chain| - 1];
    InStride(g, so, rw);
    Apart(ci, |chain|, Stride(g));
    if ci < |chain| - 1 {
      FileByte(d, g, init, ci, so, rw);
    } else {
      SectorByte(d, g, chain[ci], g.clusterSize, so, rw);
    }
  }

  // ---------- the file cursor ----------

  datatype Cursor = Cursor(sector: nat, cluster: nat, rw: nat, glob: nat)

  // The cursor stands at sector so of cluster number ci. It may rest behind the last byte of
  // a sector: the step to the next one is taken only when there is more to read.
  ghost predicate At(g: Geometry, chain: seq<nat>, f: Cursor, ci: nat, so: nat) {
    && ci < |chain| && so < g.clusterSize && f.rw <= SECTOR && f.cluster == chain[ci]
    && f.sector == SectorOf(g, f.cluster, so)
    && f.glob == ci * Stride(g) + so * SECTOR + f.rw
  }

  ghost predicate OnFile(g: Geometry, chain: seq<nat>, f: Cursor) {
    exists ci: nat, so: nat :: At(g, chain, f, ci, so)
  }

  // Moving on from the end of a sector
  lemma NextSector(g: Geometry, chain: seq<nat>, f: Cursor, ci: nat, so: nat)
    requires Sane(g) && At(g, chain, f, ci, so) && f.rw == SECTOR && so + 1 < g.clusterSize
    ensures At(g, chain, f.(sector := f.sector + 1, rw := 0), ci, so + 1)
  {
  }

  lemma NextCluster(g: Geometry, chain: seq<nat>, f: Cursor, ci: nat, so: nat)
    requires Sane(g) && At(g, chain, f, ci, so) && f.rw == SECTOR && so + 1 == g.clusterSize
    requires f.glob < |chain| * Stride(g)
    ensures f.glob == (ci + 1) * Stride(g) && ci + 1 < |chain|
    ensures At(g, chain, f.(cluster := chain[ci + 1], sector := ClustToSect(g, chain[ci + 1]), rw := 0), ci + 1, 0)
  {
    assert so * SECTOR + SECTOR == Stride(g);
    assert (ci + 1) * Stride(g) == ci * Stride(g) + Stride(g);
    assert ci + 1 != |chain|;
  }

  // The cluster of the chain, and the sector of that cluster, in which an offset lies.
  function ClusterIndex(g: Geometry, offset: nat): nat
    requires g.clusterSize > 0
  {
    offset / SECTOR / g.clusterSize
  }

  function SectorIndex(g: Geometry, offset: nat): (so: nat)
    requires g.clusterSize > 0
    ensures so < g.clusterSize
  {
    offset / SECTOR % g.clusterSize
  }

  // An offset is made of its cluster, its sector and its place there.
  lemma Split(g: Geometry, offset: nat)
    requires Sane(g)
    ensures offset == ClusterIndex(g, offset) * Stride(g) + SectorIndex(g, offset) * SECTOR + offset % SECTOR
  {
    var s := offset / SECTOR;
    var q, r := ClusterIndex(g, offset), SectorIndex(g, offset);
    assert s == q * g.clusterSize + r;
    assert s * SECTOR == q * g.clusterSize * SECTOR + r * SECTOR;
    assert q * g.clusterSize * SECTOR == q * (g.clusterSize * SECTOR);
  }

  lemma UniquePlace(g: Geometry, ci: nat, so: nat, rw: nat, ci': nat, so': nat, rw': nat)
    requires Sane(g) && so < g.clusterSize && so' < g.clusterSize && rw < SECTOR && rw' < SECTOR
    requires ci * Stride(g) + so * SECTOR + rw == ci' * Stride(g) + so' * SECTOR + rw'
    ensures ci == ci' && so == so' && rw == rw'
  {
    InStride(g, so, rw);
    InStride(g, so', rw');
    DivUnique(ci, Stride(g), so * SECTOR + rw, ci', so' * SECTOR + rw');
    DivUnique(so, SECTOR, rw, so', rw');
  }
}
