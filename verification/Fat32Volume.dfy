// The volume and file objects of kernel/src/disk/fat32.c.
//
// `Logical` is the disk as the file system means it: the device overlaid with the cached
// sector when that is dirty. Nothing but fat_table_set changes it.
module FatVolume {
  import opened Fat32
  import opened Octets

  class Volume {
    const g: Geometry
    const reliable: bool      // whether every transfer to an existing sector succeeds
    const buffer: array<Octet>
    var bufferLba: nat
    var bufferDirty: bool
    var disk: Disk            // what the device holds

    // No sector is cached to begin with: buffer_lba is zero, and no request has that address.
    constructor (g: Geometry, disk: Disk, reliable: bool)
      requires Sane(g) && Formatted(disk)
      ensures Valid() && Logical() == disk && this.g == g && this.reliable == reliable && fresh(buffer)
    {
      this.g, this.disk, this.reliable := g, disk, reliable;
      buffer := new Octet[SECTOR](_ => 0);
      bufferLba, bufferDirty := 0, false;
    }

    ghost predicate Valid()
      reads this, buffer
    {
      && Sane(g) && Formatted(disk) && buffer.Length == SECTOR
      && (bufferDirty ==> bufferLba != 0)
      && (bufferLba != 0 ==> bufferLba in disk)
      && (bufferLba != 0 && !bufferDirty ==> disk[bufferLba] == buffer[..])
    }

    ghost function Logical(): Disk
      reads this, buffer
    {
      if bufferDirty then disk[bufferLba := buffer[..]] else disk
    }

    // A cached sector is what the logical disk holds there.
    lemma Cached()
      requires Valid() && bufferLba != 0
      ensures Formatted(Logical()) && bufferLba in Logical() && Logical()[bufferLba] == buffer[..]
    {
    }

    // disk_write. A failed transfer may leave anything in the sector.
    method DiskWrite() returns (ok: bool)
      requires Valid() && bufferDirty
      modifies this`disk
      ensures Valid() && Logical() == old(Logical())
      ensures ok ==> disk == Logical()
      ensures reliable ==> ok
    {
      var fault: bool := *;
      if fault && !reliable {
        var rest: seq<Octet> :| |rest| == SECTOR by { assert |buffer[..]| == SECTOR; }
        disk := disk[bufferLba := rest];
        assert disk[bufferLba := buffer[..]] == old(disk)[bufferLba := buffer[..]];
        return false;
      }
      disk := disk[bufferLba := buffer[..]];
      assert disk[bufferLba := buffer[..]] == disk;
      ok := true;
    }

    // disk_read. A failed transfer leaves the buffer as it is.
    method DiskRead(lba: nat) returns (ok: bool)
      requires Valid() && !bufferDirty
      modifies buffer
      ensures ok ==> lba in disk && buffer[..] == disk[lba]
      ensures !ok ==> buffer[..] == old(buffer[..])
      ensures reliable && lba in disk ==> ok
    {
      var fault: bool := *;
      if (fault && !reliable) || lba !in disk {
        return false;
      }
      var i := 0;
      while i < SECTOR
        invariant 0 <= i <= SECTOR && forall j :: 0 <= j < i ==> buffer[j] == disk[lba][j]
      {
        buffer[i] := disk[lba][i];
        i := i + 1;
      }
      ok := true;
    }

    method FatFlush() returns (ok: bool)
      requires Valid()
      modifies this`disk, this`bufferDirty
      ensures Valid() && Logical() == old(Logical())
      ensures ok ==> !bufferDirty && disk == Logical()
      ensures reliable ==> ok
    {
      if bufferDirty {
        var written := DiskWrite();
        if !written {
          return false;
        }
        bufferDirty := false;
      }
      ok := true;
    }

    // The cache is invisible: whatever is evicted, the logical disk stays as it is. Sector zero
    // counts as cached before anything has been read.
    method FatRead(lba: nat) returns (ok: bool)
      requires Valid()
      modifies this, buffer
      ensures Valid() && Logical() == old(Logical())
      ensures lba == 0 && old(bufferLba) == 0 ==> ok && buffer[..] == old(buffer[..])
      ensures ok && lba != 0 ==> bufferLba == lba && lba in Logical() && buffer[..] == Logical()[lba]
      ensures reliable && lba in old(Logical()) ==> ok
    {
      if bufferLba != lba {
        var flushed := FatFlush();
        if !flushed {
          return false;
        }
        var fetched := DiskRead(lba);
        if !fetched {
          return false;
        }
        bufferLba := lba;
      }
      if lba != 0 { Cached(); }
      ok := true;
    }

    // fat_load32 from the cached sector
    method Load(off: nat) returns (v: U32)
      requires Valid() && off + 4 <= SECTOR
      ensures v == Load32(buffer[..], off)
    {
      var value: int := buffer[off];
      value := value + buffer[off + 1] as int * 0x100;
      value := value + buffer[off + 2] as int * 0x1_0000;
      v := value + buffer[off + 3] as int * 0x100_0000;
    }

    // fat_store32 to the cached sector
    method Store(off: nat, v: U32)
      requires buffer.Length == SECTOR && off + 4 <= SECTOR
      modifies buffer
      ensures buffer[..] == Store32(old(buffer[..]), off, v)
    {
      var value := v;
      buffer[off] := value % 0x100;
      value := value / 0x100;
      buffer[off + 1] := value % 0x100;
      value := value / 0x100;
      buffer[off + 2] := value % 0x100;
      value := value / 0x100;
      buffer[off + 3] := value % 0x100;
    }

    method FatTableGet(c: nat) returns (ok: bool, entry: U32)
      requires Valid()
      modifies this, buffer
      ensures Valid() && Logical() == old(Logical())
      ensures ok ==> HasEntry(Logical(), g, c) && entry == Entry(Logical(), g, c)
      ensures reliable && HasEntry(old(Logical()), g, c) ==> ok
    {
      ok := FatRead(EntrySector(g, c));
      entry := 0;
      if ok {
        entry := Load(EntryOffset(c));
      }
    }

    // The entry is set even when the flush at the end fails: the buffer then stays dirty.
    method FatTableSet(c: nat, v: U32) returns (ok: bool)
      requires Valid()
      modifies this, buffer
      ensures Valid()
      ensures ok ==> HasEntry(old(Logical()), g, c) && Logical() == WithEntry(old(Logical()), g, c, v)
      ensures !ok ==> Logical() == old(Logical())
      ensures reliable && HasEntry(old(Logical()), g, c) ==> ok && disk == Logical()
    {
      ok := FatRead(EntrySector(g, c));
      if !ok {
        return;
      }
      ghost var before := Logical();
      Store(EntryOffset(c), v);
      bufferDirty := true;
      assert Logical() == WithEntry(before, g, c, v);
      var _ := FatFlush();
    }
  }

  class File {
    const vol: Volume
    const size: nat
    const startSect: nat
    var sector: U32
    var cluster: U32
    var rwOffset: nat
    var globOffset: nat

    // fat_file_open, once the directory entry has been found
    constructor (vol: Volume, cluster: U32, size: nat)
      ensures this.vol == vol && this.size == size && startSect == ClustToSect(vol.g, cluster)
      ensures Position() == Cursor(ClustToSect(vol.g, cluster), cluster, 0, 0)
    {
      this.vol, this.size, startSect := vol, size, ClustToSect(vol.g, cluster);
      sector, this.cluster, rwOffset, globOffset := ClustToSect(vol.g, cluster), cluster, 0, 0;
    }

    ghost function Position(): Cursor
      reads this
    {
      Cursor(sector, cluster, rwOffset, globOffset)
    }

    // The file is the chain of clusters from its first sector on, and the chain is long enough.
    ghost predicate Stored(chain: seq<nat>)
      reads vol, vol.buffer
    {
      && vol.Valid() && Formatted(vol.Logical()) && IsChain(vol.Logical(), vol.g, chain)
      && startSect == ClustToSect(vol.g, chain[0])
      && size <= |chain| * Stride(vol.g)
    }

    // The cluster test of fat_file_addr_resolve, and the step to the next cluster
    method ResolveCluster() returns (ok: bool)
      requires vol.Valid()
      modifies this`cluster, this`sector, vol, vol.buffer
      ensures vol.Valid() && vol.Logical() == old(vol.Logical())
      ensures !ok ==> sector == old(sector) && cluster == old(cluster)
      ensures var c, crossed := old(cluster), old(sector) >= Wrap(ClustToSect(vol.g, old(cluster)) + vol.g.clusterSize);
              && (!crossed ==> ok && cluster == c && sector == old(sector))
              && (crossed && ok ==> HasEntry(vol.Logical(), vol.g, c) && cluster == Entry(vol.Logical(), vol.g, c)
                                    && !EndOfChain(cluster) && sector == ClustToSect(vol.g, cluster))
              && (vol.reliable && Continues(old(vol.Logical()), vol.g, c) ==> ok)
    {
      if sector >= Wrap(ClustToSect(vol.g, cluster) + vol.g.clusterSize) {
        var got, next := vol.FatTableGet(cluster);
        if !got || EndOfChain(next) {
          return false;
        }
        cluster := next;
        sector := ClustToSect(vol.g, cluster);
      }
      ok := true;
    }

    method AddrResolve() returns (ok: bool)
      requires vol.Valid()
      modifies this`rwOffset, this`cluster, this`sector, vol, vol.buffer
      ensures vol.Valid() && vol.Logical() == old(vol.Logical())
      ensures rwOffset == if old(rwOffset) >= SECTOR then old(rwOffset) - SECTOR else old(rwOffset)
      ensures old(rwOffset) < SECTOR ==> ok && cluster == old(cluster) && sector == old(sector)
      // A step that fails has left the sector all the same.
      ensures !ok ==> cluster == old(cluster) && sector == Wrap(old(sector) + 1)
      ensures var c, next := old(cluster), Wrap(old(sector) + 1);
              var crossed := next >= Wrap(ClustToSect(vol.g, c) + vol.g.clusterSize);
              old(rwOffset) >= SECTOR ==>
                && (!crossed ==> ok && cluster == c && sector == next)
                && (crossed && ok ==> HasEntry(vol.Logical(), vol.g, c) && cluster == Entry(vol.Logical(), vol.g, c)
                                      && !EndOfChain(cluster) && sector == ClustToSect(vol.g, cluster))
                && (vol.reliable && Continues(old(vol.Logical()), vol.g, c) ==> ok)
    {
      ok := true;
      if rwOffset >= SECTOR {
        rwOffset := rwOffset - SECTOR;
        sector := Wrap(sector + 1);
        ok := ResolveCluster();
      }
    }

    // A step that is due: it goes on to the next sector, to the first sector of the cluster the
    // table names, or, when the table lookup misses, to the sector behind.
    method StepOn(ghost chain: seq<nat>) returns (ghost missed: bool)
      requires vol.Valid() && rwOffset == SECTOR && globOffset < size
      requires vol.reliable ==> Stored(chain) && OnFile(vol.g, chain, Position())
      modifies this`rwOffset, this`cluster, this`sector, vol, vol.buffer
      ensures vol.Valid() && vol.Logical() == old(vol.Logical()) && rwOffset == 0
      ensures Step(vol.Logical(), vol.g, old(Position()), Position(), missed)
      ensures vol.reliable ==> !missed && OnFile(vol.g, chain, Position())
    {
      hide At, OnFile, IsChain, HasEntry, Entry, ClustToSect, DataCluster, EndOfChain;
      if vol.reliable { CrossingOnFile(vol.Logical(), vol.g, chain, Position(), size); }
      var found := AddrResolve();
      missed := !found;
    }

    // The sector the cursor stands in is the cached one. Sector zero is never fetched.
    ghost predicate Loaded()
      reads this, vol, vol.buffer
    {
      vol.Valid()
      && (sector != 0 ==>
            vol.bufferLba == sector && sector in vol.Logical() && vol.buffer[..] == vol.Logical()[sector])
    }

    // fat_read of the cursor's sector
    method Fetch(ghost chain: seq<nat>) returns (ok: bool)
      requires vol.Valid() && (vol.reliable ==> Stored(chain) && OnFile(vol.g, chain, Position()))
      modifies vol, vol.buffer
      ensures vol.Valid() && vol.Logical() == old(vol.Logical())
      ensures ok ==> Loaded()
      ensures vol.reliable ==> ok
    {
      hide IsChain, At;
      if vol.reliable { OnSector(vol.Logical(), vol.g, chain, Position()); }
      ok := vol.FatRead(sector);
    }

    // The body of the loop of fat_file_read. `at` is the place the byte comes from.
    method NextByte(ghost chain: seq<nat>) returns (ok: bool, b: Octet, ghost at: Cursor, ghost missed: bool)
      requires vol.Valid() && globOffset < size && rwOffset <= SECTOR && Loaded()
      requires vol.reliable ==> Stored(chain) && OnFile(vol.g, chain, Position())
      modifies this`sector, this`cluster, this`rwOffset, this`globOffset, vol, vol.buffer
      ensures vol.Valid() && vol.Logical() == old(vol.Logical()) && rwOffset <= SECTOR
      ensures globOffset == if ok then old(globOffset) + 1 else old(globOffset)
      ensures ok ==> Step(vol.Logical(), vol.g, old(Position()), at, missed) && Position() == Past(at)
      ensures ok ==> Loaded() && Holds(vol.Logical(), at, b)
      ensures vol.reliable ==> ok && !missed && Stored(chain) && OnFile(vol.g, chain, Position())
    {
      hide IsChain, OnFile, At, FileBytes;
      missed := false;
      if rwOffset >= SECTOR {
        missed := StepOn(chain);
        ok := Fetch(chain);
        if !ok {
          return false, 0, Position(), missed;
        }
      }
      if vol.reliable { ByteHere(vol.Logical(), vol.g, chain, Position()); }
      at := Position();
      b := vol.buffer[rwOffset];
      rwOffset := rwOffset + 1;
      globOffset := globOffset + 1;
      ok := true;
    }

    ghost function Content(chain: seq<nat>): seq<Octet>
      reads vol, vol.buffer
      requires Stored(chain)
    {
      ChainClusters(vol.Logical(), vol.g, chain);
      FileBytes(vol.Logical(), vol.g, chain)
    }

    // The loop of fat_file_read, from a fetched sector on: the bytes come from the places of a
    // walk, whatever fails.
    method ReadLoop(out: array<Octet>, count: nat, ghost chain: seq<nat>)
      returns (status: FStatus, n: nat, ghost walk: seq<Cursor>, ghost missed: seq<bool>)
      requires vol.Valid() && globOffset < size && rwOffset <= SECTOR && out != vol.buffer && Loaded()
      requires Least(count, size - globOffset) <= out.Length
      requires vol.reliable ==> Stored(chain) && OnFile(vol.g, chain, Position())
      modifies this`sector, this`cluster, this`rwOffset, this`globOffset, vol, vol.buffer, out
      ensures vol.Valid() && vol.Logical() == old(vol.Logical()) && rwOffset <= SECTOR
      ensures n <= Least(count, size - old(globOffset)) && globOffset == old(globOffset) + n
      ensures forall i :: n <= i < out.Length ==> out[i] == old(out[i])
      ensures |walk| == n && Walked(vol.Logical(), vol.g, old(Position()), walk, missed)
      ensures forall k :: 0 <= k < n ==> Holds(vol.Logical(), walk[k], out[k])
      ensures status == Ok ==> n == Least(count, size - old(globOffset)) && Position() == After(old(Position()), walk)
      ensures vol.reliable ==> status == Ok && NoneMissed(missed)
    {
      hide IsChain, OnFile, At, FileBytes, Step, Holds, Walked, After;
      n, walk, missed := 0, [], [];
      ghost var start := Position();
      NoWalk(vol.Logical(), vol.g, start);
      var left := count;
      while left > 0
        invariant vol.Valid() && vol.Logical() == old(vol.Logical()) && rwOffset <= SECTOR && Loaded()
        invariant n + left == count && globOffset == start.glob + n && (globOffset < size || left == 0)
        invariant n <= Least(count, size - start.glob)
        invariant forall i :: n <= i < out.Length ==> out[i] == old(out[i])
        invariant |walk| == n && Walked(vol.Logical(), vol.g, start, walk, missed) && Position() == After(start, walk)
        invariant forall k :: 0 <= k < n ==> Holds(vol.Logical(), walk[k], out[k])
        invariant vol.reliable ==> Stored(chain) && OnFile(vol.g, chain, Position())
        invariant vol.reliable ==> NoneMissed(missed)
      {
        left := left - 1;
        var ok, b, at, miss := NextByte(chain);
        if !ok {
          return Error, n, walk, missed;
        }
        WalkOn(vol.Logical(), vol.g, start, walk, missed, at, miss);
        out[n] := b;
        n, walk, missed := n + 1, walk + [at], missed + [miss];
        if globOffset >= size {
          break;
        }
      }
      status := Ok;
    }

    // fat_file_read: from offset g on it delivers the bytes g up to min(g + count, size) of the
    // file, unless a lookup misses. Every byte comes from a place of the walk.
    method Read(out: array<Octet>, count: nat, ghost chain: seq<nat>)
      returns (status: FStatus, n: nat, ghost walk: seq<Cursor>, ghost missed: seq<bool>)
      requires vol.Valid() && globOffset < size && rwOffset <= SECTOR && out != vol.buffer
      requires Least(count, size - globOffset) <= out.Length
      requires vol.reliable ==> Stored(chain) && OnFile(vol.g, chain, Position())
      modifies this`sector, this`cluster, this`rwOffset, this`globOffset, vol, vol.buffer, out
      ensures vol.Valid() && vol.Logical() == old(vol.Logical()) && rwOffset <= SECTOR
      ensures n <= Least(count, size - old(globOffset)) && globOffset == old(globOffset) + n
      ensures forall i :: n <= i < out.Length ==> out[i] == old(out[i])
      ensures |walk| == n && Walked(vol.Logical(), vol.g, old(Position()), walk, missed)
      ensures forall k :: 0 <= k < n ==> Holds(vol.Logical(), walk[k], out[k])
      ensures status == Ok ==> n == Least(count, size - old(globOffset))
      ensures vol.reliable ==> status == Ok && NoneMissed(missed)
      ensures old(Stored(chain) && OnFile(vol.g, chain, Position())) && NoneMissed(missed) ==>
                && Stored(chain) && globOffset <= |Content(chain)|
                && (status == Ok ==> OnFile(vol.g, chain, Position()))
                && out[..n] == Content(chain)[old(globOffset)..old(globOffset) + n]
    {
      hide IsChain, OnFile, At, FileBytes, Step, Holds, Walked, After;
      n, walk, missed := 0, [], [];
      ghost var start, d := Position(), vol.Logical();
      NoWalk(d, vol.g, start);
      ghost var sound := Stored(chain) && OnFile(vol.g, chain, start);
      if sound { InContent(d, vol.g, chain, size); }
      var fetched := Fetch(chain);
      if !fetched {
        return Error, n, walk, missed;
      }
      status, n, walk, missed := ReadLoop(out, count, chain);
      if sound && NoneMissed(missed) {
        WalkOnFile(d, vol.g, chain, start, walk, missed, size);
        forall k | 0 <= k < n
          ensures out[k] == FileBytes(d, vol.g, chain)[start.glob + k]
        {
          HeldByte(d, vol.g, chain, walk[k], out[k]);
        }
      }
    }

    // The loop of fat_file_jump: `steps` entries down the chain from `from`
    method Follow(steps: nat, ghost chain: seq<nat>) returns (status: FStatus, found: bool)
      requires vol.Valid() && (vol.reliable ==> Stored(chain) && |chain| > 0 && cluster == chain[0])
      modifies this`cluster, vol, vol.buffer
      ensures vol.Valid() && vol.Logical() == old(vol.Logical())
      ensures vol.reliable ==> status == Ok && (found <==> steps < |chain|)
      ensures vol.reliable ==> cluster == if found then chain[steps] else chain[|chain| - 1]
    {
      hide IsChain, HasEntry;
      var left := steps;
      ghost var k := 0;
      while left > 0
        invariant 0 <= left && k + left == steps
        invariant vol.Valid() && vol.Logical() == old(vol.Logical())
        invariant vol.reliable ==> k < |chain| && cluster == chain[k]
      {
        if vol.reliable { ChainStep(vol.Logical(), vol.g, chain, k); }
        var got, next := vol.FatTableGet(cluster);
        if !got {
          return Error, false;
        }
        if EndOfChain(next) {
          return Ok, false;
        }
        cluster := next;
        left := left - 1;
        k := k + 1;
      }
      return Ok, true;
    }

    // The offsets a jump computes first
    method Offsets(offset: nat) returns (steps: nat, sectorOffset: nat)
      requires vol.g.clusterSize > 0
      ensures steps == ClusterIndex(vol.g, offset) && sectorOffset == SectorIndex(vol.g, offset)
    {
      sectorOffset := offset / SECTOR;
      steps := sectorOffset / vol.g.clusterSize;
      sectorOffset := sectorOffset % vol.g.clusterSize;
    }

    // fat_file_jump. An offset beyond the chain is not refused: the call reports success, but
    // it has moved the cluster and nothing else, and the cursor is not where it was asked to be.
    method Jump(offset: nat, ghost chain: seq<nat>) returns (status: FStatus)
      requires vol.Valid() && (vol.reliable ==> Stored(chain))
      modifies this`sector, this`cluster, this`rwOffset, this`globOffset, vol, vol.buffer
      ensures vol.Valid() && vol.Logical() == old(vol.Logical())
      ensures vol.reliable ==> status == Ok && Stored(chain)
      ensures vol.reliable ==>
                (offset < |chain| * Stride(vol.g)
                 <==> OnFile(vol.g, chain, Position()) && globOffset == offset && rwOffset < SECTOR)
      ensures vol.reliable && offset >= |chain| * Stride(vol.g) ==>
                Position() == old(Position()).(cluster := chain[|chain| - 1])
    {
      hide IsChain, OnFile, At, ClusterIndex, SectorIndex;
      if vol.reliable { ChainHead(vol.Logical(), vol.g, chain); }
      cluster := SectToClust(vol.g, startSect);
      var steps, sectorOffset := Offsets(offset);
      var found;
      status, found := Follow(steps, chain);
      if !found {
        if vol.reliable { Beyond(vol.g, chain, offset, Position()); }
        return;
      }
      sector := Wrap(ClustToSect(vol.g, cluster) + sectorOffset);
      rwOffset := offset % SECTOR;
      globOffset := offset;
      if vol.reliable { Landed(vol.Logical(), vol.g, chain, offset, Position()); }
    }

    // A jump and a read deliver the file from the offset on, as reading up to there would have.
    method JumpThenRead(offset: nat, out: array<Octet>, count: nat, ghost chain: seq<nat>)
      returns (status: FStatus, n: nat)
      requires Stored(chain) && vol.reliable && offset < size && out != vol.buffer
      requires Least(count, size - offset) <= out.Length
      modifies this`sector, this`cluster, this`rwOffset, this`globOffset, vol, vol.buffer, out
      ensures Stored(chain) && vol.Logical() == old(vol.Logical()) && status == Ok && n == Least(count, size - offset)
      ensures offset + n <= |Content(chain)| && out[..n] == Content(chain)[offset..offset + n]
    {
      hide IsChain, OnFile, At, FileBytes;
      var _ := Jump(offset, chain);
      ghost var walk, missed;
      status, n, walk, missed := Read(out, count, chain);
    }
  }

  datatype FStatus = Ok | Error

  // ---------- the walk of a reader ----------

  // How the cursor gets to the place of the next byte; `missed` says that a lookup in the table
  // was due and failed.
  ghost predicate Step(d: Disk, g: Geometry, f: Cursor, f': Cursor, missed: bool) {
    if f.rw < SECTOR then f' == f && !missed
    else
      var next := Wrap(f.sector + 1);
      var crossed := next >= Wrap(ClustToSect(g, f.cluster) + g.clusterSize);
      && f'.rw == f.rw - SECTOR && f'.glob == f.glob && (missed ==> crossed)
      && (crossed && !missed ==> HasEntry(d, g, f.cluster) && f'.cluster == Entry(d, g, f.cluster)
                                 && !EndOfChain(f'.cluster) && f'.sector == ClustToSect(g, f'.cluster))
      && (!crossed || missed ==> f'.cluster == f.cluster && f'.sector == next)
  }

  // The cursor when the byte at f has been read
  function Past(f: Cursor): Cursor { f.(rw := f.rw + 1, glob := f.glob + 1) }

  function After(f: Cursor, walk: seq<Cursor>): Cursor {
    if walk == [] then f else Past(walk[|walk| - 1])
  }

  ghost predicate Walked(d: Disk, g: Geometry, f: Cursor, walk: seq<Cursor>, missed: seq<bool>) {
    |missed| == |walk| && forall k :: 0 <= k < |walk| ==> Step(d, g, After(f, walk[..k]), walk[k], missed[k])
  }

  ghost predicate NoneMissed(missed: seq<bool>) { forall k :: 0 <= k < |missed| ==> !missed[k] }

  // Sector zero counts as cached from the start, and what is in the buffer then is delivered.
  ghost predicate Holds(d: Disk, f: Cursor, b: Octet) {
    f.sector != 0 ==> f.sector in d && f.rw < |d[f.sector]| && b == d[f.sector][f.rw]
  }

  lemma NoWalk(d: Disk, g: Geometry, f: Cursor)
    ensures Walked(d, g, f, [], []) && After(f, []) == f
  {
  }

  lemma WalkOn(d: Disk, g: Geometry, f: Cursor, walk: seq<Cursor>, missed: seq<bool>, at: Cursor, miss: bool)
    requires Walked(d, g, f, walk, missed) && Step(d, g, After(f, walk), at, miss)
    ensures Walked(d, g, f, walk + [at], missed + [miss]) && After(f, walk + [at]) == Past(at)
  {
    hide Step;
    var longer := walk + [at];
    forall k | 0 <= k < |longer|
      ensures Step(d, g, After(f, longer[..k]), longer[k], (missed + [miss])[k])
    {
      assert longer[..k] == walk[..k];
      if k == |walk| { assert walk[..k] == walk; }
    }
  }

  // A step from a place on the file leads to a place on the file, unless a lookup misses: then
  // the cursor is off the file.
  lemma StepOnFile(d: Disk, g: Geometry, chain: seq<nat>, f: Cursor, f': Cursor, missed: bool, size: nat)
    requires Sane(g) && IsChain(d, g, chain) && OnFile(g, chain, f) && Step(d, g, f, f', missed)
    requires f.glob < size <= |chain| * Stride(g)
    ensures OnFile(g, chain, f') <==> !missed
    ensures OnFile(g, chain, f') ==> f'.rw < SECTOR && f'.glob == f.glob
  {
    hide IsChain, At;
    if f.rw >= SECTOR {
      var ci: nat, so: nat :| At(g, chain, f, ci, so);
      AtSector(g, chain, f, ci, so);
      Crossing(d, g, chain, f, ci, so, size);
      if missed { OffFile(d, g, chain, f, f', ci, so); }
    }
  }

  lemma AtSector(g: Geometry, chain: seq<nat>, f: Cursor, ci: nat, so: nat)
    requires At(g, chain, f, ci, so)
    ensures f.rw <= SECTOR
  {
  }

  lemma OffFile(d: Disk, g: Geometry, chain: seq<nat>, f: Cursor, f': Cursor, ci: nat, so: nat)
    requires Sane(g) && IsChain(d, g, chain) && At(g, chain, f, ci, so) && f.rw == SECTOR && Step(d, g, f, f', true)
    ensures so + 1 == g.clusterSize && f'.sector == SectorOf(g, chain[ci], g.clusterSize) && f'.cluster == chain[ci]
    ensures f'.sector == f.sector + 1 == Wrap(SectorOf(g, chain[ci], g.clusterSize - 1) + 1)
    ensures !OnFile(g, chain, f')
  {
    InChain(d, g, chain, ci);
    hide IsChain, Wrap, ClustToSect, Sane;
    ClusterTest(g, chain[ci], so);
  }

  // A walk without a missed lookup stays on the file, byte by byte.
  lemma {:induction false} WalkOnFile(d: Disk, g: Geometry, chain: seq<nat>, f: Cursor, walk: seq<Cursor>,
                                      missed: seq<bool>, size: nat)
    requires Sane(g) && IsChain(d, g, chain) && OnFile(g, chain, f) && Walked(d, g, f, walk, missed)
    requires f.glob + |walk| <= size <= |chain| * Stride(g) && NoneMissed(missed)
    ensures OnFile(g, chain, After(f, walk)) && After(f, walk).glob == f.glob + |walk|
    ensures forall k :: 0 <= k < |walk| ==>
              OnFile(g, chain, walk[k]) && walk[k].rw < SECTOR && walk[k].glob == f.glob + k
  {
    hide IsChain, OnFile, Step, Stride;
    if walk != [] {
      var n := |walk| - 1;
      var init := walk[..n];
      assert forall k :: 0 <= k < n ==> init[..k] == walk[..k];
      WalkOnFile(d, g, chain, f, init, missed[..n], size);
      StepOnFile(d, g, chain, After(f, init), walk[n], missed[n], size);
      PastOnFile(g, chain, walk[n]);
    }
  }

  lemma PastOnFile(g: Geometry, chain: seq<nat>, f: Cursor)
    requires OnFile(g, chain, f) && f.rw < SECTOR
    ensures OnFile(g, chain, Past(f))
  {
    var ci: nat, so: nat :| At(g, chain, f, ci, so);
    assert At(g, chain, Past(f), ci, so);
  }

  // What is read at a place on the file is the file's byte.
  lemma HeldByte(d: Disk, g: Geometry, chain: seq<nat>, f: Cursor, b: Octet)
    requires Sane(g) && Formatted(d) && IsChain(d, g, chain) && OnFile(g, chain, f) && f.rw < SECTOR && Holds(d, f, b)
    ensures (forall c :: c in chain ==> HasCluster(d, g, c)) && f.glob < |FileBytes(d, g, chain)|
    ensures b == FileBytes(d, g, chain)[f.glob]
  {
    hide IsChain, OnFile, FileBytes;
    OnSector(d, g, chain, f);
    ByteHere(d, g, chain, f);
  }

  function Least(a: int, b: int): int { if a <= b then a else b }

  lemma InContent(d: Disk, g: Geometry, chain: seq<nat>, size: nat)
    requires Formatted(d) && IsChain(d, g, chain) && size <= |chain| * Stride(g)
    ensures (forall c :: c in chain ==> HasCluster(d, g, c)) && size <= |FileBytes(d, g, chain)|
  {
    ChainClusters(d, g, chain);
  }

  // The test for the end of the cluster
  lemma ClusterTest(g: Geometry, c: nat, so: nat)
    requires DataCluster(g, c) && so < g.clusterSize
    ensures Wrap(SectorOf(g, c, so) + 1) == SectorOf(g, c, so) + 1
    ensures SectorOf(g, c, so) + 1 >= Wrap(ClustToSect(g, c) + g.clusterSize) <==> so + 1 == g.clusterSize
  {
    NoWrap(g, c);
    Small(SectorOf(g, c, so) + 1);
    Small(ClustToSect(g, c) + g.clusterSize);
  }

  lemma ChainGoesOn(d: Disk, g: Geometry, chain: seq<nat>, ci: nat)
    requires IsChain(d, g, chain) && ci + 1 < |chain|
    ensures Continues(d, g, chain[ci]) && Entry(d, g, chain[ci]) == chain[ci + 1]
  {
    var c, e := chain[ci], chain[ci + 1];
    assert HasEntry(d, g, c);
  }

  // A step out of a cluster leads to the first sector of the next one,
  lemma CrossingOut(d: Disk, g: Geometry, chain: seq<nat>, f: Cursor, ci: nat, so: nat)
    requires Sane(g) && IsChain(d, g, chain) && At(g, chain, f, ci, so) && f.rw == SECTOR && so + 1 == g.clusterSize
    requires f.glob < |chain| * Stride(g)
    ensures Continues(d, g, f.cluster)
    ensures var c := Entry(d, g, f.cluster); OnFile(g, chain, f.(cluster := c, sector := ClustToSect(g, c), rw := 0))
  {
    hide IsChain, DataCluster, Sane, ClustToSect, Stride, EndOfChain, SectorOf, HasEntry, Entry;
    NextCluster(g, chain, f, ci, so);
    ChainGoesOn(d, g, chain, ci);
    var c := chain[ci + 1];
    LandsOn(g, chain, f.(cluster := c, sector := ClustToSect(g, c), rw := 0), ci + 1, 0);
  }

  // and a step inside a cluster to the sector behind.
  lemma StayingIn(g: Geometry, chain: seq<nat>, f: Cursor, ci: nat, so: nat)
    requires Sane(g) && At(g, chain, f, ci, so) && f.rw == SECTOR && so + 1 < g.clusterSize
    ensures OnFile(g, chain, f.(sector := f.sector + 1, rw := 0))
  {
    hide At, Sane;
    NextSector(g, chain, f, ci, so);
    LandsOn(g, chain, f.(sector := f.sector + 1, rw := 0), ci, so + 1);
  }

  // Whether a step leaves the cluster, and where it leads.
  lemma Crossing(d: Disk, g: Geometry, chain: seq<nat>, f: Cursor, ci: nat, so: nat, size: nat)
    requires Sane(g) && IsChain(d, g, chain) && At(g, chain, f, ci, so) && f.rw == SECTOR
    requires f.glob < size <= |chain| * Stride(g)
    ensures var next := Wrap(f.sector + 1);
            if next >= Wrap(ClustToSect(g, f.cluster) + g.clusterSize)
            then Continues(d, g, f.cluster)
                 && var c := Entry(d, g, f.cluster);
                    OnFile(g, chain, f.(cluster := c, sector := ClustToSect(g, c), rw := 0))
            else OnFile(g, chain, f.(sector := next, rw := 0))
  {
    hide IsChain, DataCluster, Sane, Wrap, ClustToSect, Stride, SectorOf, EndOfChain, Entry, HasEntry, OnFile, At;
    Standing(g, chain, f, ci, so);
    InChain(d, g, chain, ci);
    assert DataCluster(g, chain[ci]);
    ClusterTest(g, chain[ci], so);
    if so + 1 == g.clusterSize {
      CrossingOut(d, g, chain, f, ci, so);
    } else {
      StayingIn(g, chain, f, ci, so);
    }
  }

  lemma CrossingOnFile(d: Disk, g: Geometry, chain: seq<nat>, f: Cursor, size: nat)
    requires Sane(g) && IsChain(d, g, chain) && OnFile(g, chain, f) && f.rw == SECTOR
    requires f.glob < size <= |chain| * Stride(g)
    ensures var next := Wrap(f.sector + 1);
            if next >= Wrap(ClustToSect(g, f.cluster) + g.clusterSize)
            then Continues(d, g, f.cluster)
                 && var c := Entry(d, g, f.cluster);
                    OnFile(g, chain, f.(cluster := c, sector := ClustToSect(g, c), rw := 0))
            else OnFile(g, chain, f.(sector := next, rw := 0))
  {
    hide IsChain, At, DataCluster, Wrap, ClustToSect, Stride, EndOfChain, Entry, HasEntry;
    var ci: nat, so: nat :| At(g, chain, f, ci, so);
    Crossing(d, g, chain, f, ci, so, size);
  }

  lemma Standing(g: Geometry, chain: seq<nat>, f: Cursor, ci: nat, so: nat)
    requires At(g, chain, f, ci, so)
    ensures ci < |chain| && so < g.clusterSize && f.cluster == chain[ci] && f.sector == SectorOf(g, f.cluster, so)
  {
  }

  lemma LandsOn(g: Geometry, chain: seq<nat>, f: Cursor, ci: nat, so: nat)
    requires At(g, chain, f, ci, so)
    ensures OnFile(g, chain, f)
  {
  }

  lemma ChainClusters(d: Disk, g: Geometry, chain: seq<nat>)
    requires IsChain(d, g, chain)
    ensures forall c :: c in chain ==> HasCluster(d, g, c)
  {
  }

  // The cursor's sector is one of the disk's.
  lemma OnSector(d: Disk, g: Geometry, chain: seq<nat>, f: Cursor)
    requires Sane(g) && IsChain(d, g, chain) && OnFile(g, chain, f)
    ensures f.sector in d && f.sector != 0
  {
    hide IsChain;
    var ci: nat, so: nat :| At(g, chain, f, ci, so);
    InChain(d, g, chain, ci);
    assert SectorOf(g, chain[ci], so) in d;
    NoWrap(g, chain[ci]);
  }

  lemma InChain(d: Disk, g: Geometry, chain: seq<nat>, ci: nat)
    requires IsChain(d, g, chain) && ci < |chain|
    ensures HasCluster(d, g, chain[ci])
  {
  }

  // The byte at the cursor is the file's, and the cursor may move past it.
  lemma ByteHere(d: Disk, g: Geometry, chain: seq<nat>, f: Cursor)
    requires Sane(g) && Formatted(d) && IsChain(d, g, chain) && OnFile(g, chain, f) && f.rw < SECTOR
    ensures f.sector in d && (forall c :: c in chain ==> HasCluster(d, g, c))
    ensures f.glob < |FileBytes(d, g, chain)| && FileBytes(d, g, chain)[f.glob] == d[f.sector][f.rw]
    ensures OnFile(g, chain, f.(rw := f.rw + 1, glob := f.glob + 1))
  {
    ChainClusters(d, g, chain);
    hide IsChain;
    var ci: nat, so: nat :| At(g, chain, f, ci, so);
    FileByte(d, g, chain, ci, so, f.rw);
    assert At(g, chain, f.(rw := f.rw + 1, glob := f.glob + 1), ci, so);
  }

  lemma ChainHead(d: Disk, g: Geometry, chain: seq<nat>)
    requires Sane(g) && IsChain(d, g, chain)
    ensures |chain| > 0 && SectToClust(g, ClustToSect(g, chain[0])) == chain[0]
  {
    InChain(d, g, chain, 0);
    SectorsOfCluster(g, chain[0], 0);
  }

  // What the table says at cluster number k of a chain
  lemma ChainStep(d: Disk, g: Geometry, chain: seq<nat>, k: nat)
    requires IsChain(d, g, chain) && k < |chain|
    ensures HasEntry(d, g, chain[k])
    ensures EndOfChain(Entry(d, g, chain[k])) <==> k + 1 == |chain|
    ensures k + 1 < |chain| ==> Entry(d, g, chain[k]) == chain[k + 1]
  {
    if k + 1 < |chain| { ChainGoesOn(d, g, chain, k); }
  }

  // The cursor of a successful jump
  lemma Landed(d: Disk, g: Geometry, chain: seq<nat>, offset: nat, f: Cursor)
    requires Sane(g) && IsChain(d, g, chain) && ClusterIndex(g, offset) < |chain|
    requires f.cluster == chain[ClusterIndex(g, offset)] && f.rw == offset % SECTOR && f.glob == offset
    requires f.sector == Wrap(ClustToSect(g, f.cluster) + SectorIndex(g, offset))
    ensures OnFile(g, chain, f) && offset < |chain| * Stride(g)
  {
    hide IsChain, ClusterIndex, SectorIndex, Stride, Wrap;
    var ci, so := ClusterIndex(g, offset), SectorIndex(g, offset);
    InChain(d, g, chain, ci);
    NoWrap(g, chain[ci]);
    Small(ClustToSect(g, f.cluster) + so);
    Split(g, offset);
    InStride(g, so, f.rw);
    Apart(ci, |chain|, Stride(g));
    assert At(g, chain, f, ci, so);
  }

  // No cursor on the file stands at an offset beyond the chain.
  lemma Beyond(g: Geometry, chain: seq<nat>, offset: nat, f: Cursor)
    requires Sane(g) && ClusterIndex(g, offset) >= |chain|
    ensures offset >= |chain| * Stride(g)
    ensures !(OnFile(g, chain, f) && f.glob == offset && f.rw < SECTOR)
  {
    hide ClusterIndex, SectorIndex, Stride;
    var q := ClusterIndex(g, offset);
    Split(g, offset);
    Product(q, Stride(g));
    if q > |chain| { Apart(|chain|, q, Stride(g)); }
    if OnFile(g, chain, f) && f.rw < SECTOR {
      var ci: nat, so: nat :| At(g, chain, f, ci, so);
      InStride(g, so, f.rw);
      Apart(ci, |chain|, Stride(g));
    }
  }

  // Two cursors at one offset are the same, unless one rests behind the end of a sector: a
  // jump puts the cursor where reading up to there puts it.
  lemma CursorsAgree(g: Geometry, chain: seq<nat>, f: Cursor, f': Cursor)
    requires Sane(g) && OnFile(g, chain, f) && OnFile(g, chain, f') && f.glob == f'.glob
    ensures f.rw < SECTOR && f'.rw < SECTOR ==> f == f'
    ensures f.rw == SECTOR && f'.rw < SECTOR ==> f'.rw == 0
  {
    var ci: nat, so: nat :| At(g, chain, f, ci, so);
    var ci': nat, so': nat :| At(g, chain, f', ci', so');
    if f.rw < SECTOR && f'.rw < SECTOR {
      UniquePlace(g, ci, so, f.rw, ci', so', f'.rw);
    } else if f'.rw < SECTOR {
      SectorMultiple(g, ci, so, ci', so', f'.rw);
    }
  }

  lemma SectorMultiple(g: Geometry, ci: nat, so: nat, ci': nat, so': nat, rw: nat)
    requires Sane(g) && rw < SECTOR
    requires ci * Stride(g) + so * SECTOR + SECTOR == ci' * Stride(g) + so' * SECTOR + rw
    ensures rw == 0
  {
    assert ci * Stride(g) == ci * g.clusterSize * SECTOR && ci' * Stride(g) == ci' * g.clusterSize * SECTOR;
    DivUnique(ci * g.clusterSize + so + 1, SECTOR, 0, ci' * g.clusterSize + so', rw);
  }

  // fat_file_read ignores a step that fails. At the end of a cluster the cursor then stands in
  // the sector behind it, which is the file's next sector only if the clusters are neighbours.
  lemma FailedStep(d: Disk, g: Geometry, chain: seq<nat>, ci: nat)
    requires Sane(g) && IsChain(d, g, chain) && ci + 1 < |chain|
    ensures Wrap(SectorOf(g, chain[ci], g.clusterSize - 1) + 1) == ClustToSect(g, chain[ci + 1])
            <==> chain[ci + 1] == chain[ci] + 1
  {
    var c, e := chain[ci], chain[ci + 1];
    InChain(d, g, chain, ci);
    InChain(d, g, chain, ci + 1);
    NoWrap(g, c);
    NoWrap(g, e);
    hide IsChain, Wrap;
    Small(SectorOf(g, c, g.clusterSize - 1) + 1);
    Neighbours(c - 2, e - 2, g.clusterSize);
  }

  // One missed lookup makes the reader a sector late: it goes through the sector behind the
  // cluster, looks the same cluster up again, and is then at the start of the next cluster with
  // an offset that is a sector further on.
  lemma LateReader(d: Disk, g: Geometry, chain: seq<nat>, f: Cursor, ci: nat, so: nat, f1: Cursor, f2: Cursor)
    requires Sane(g) && Formatted(d) && IsChain(d, g, chain) && At(g, chain, f, ci, so) && f.rw == SECTOR
    requires ci + 1 < |chain| && f.sector + 2 < 0x1_0000_0000
    requires Step(d, g, f, f1, true) && Step(d, g, f1.(rw := SECTOR, glob := f1.glob + SECTOR), f2, false)
    ensures f1.sector == ClustToSect(g, chain[ci + 1]) <==> chain[ci + 1] == chain[ci] + 1
    ensures f2.sector in d && f2.rw == 0 && f2.glob == f.glob + SECTOR && forall c :: c in chain ==> HasCluster(d, g, c)
    ensures f.glob + SECTOR <= |FileBytes(d, g, chain)|
    ensures d[f2.sector] == FileBytes(d, g, chain)[f.glob..f.glob + SECTOR]
  {
    hide IsChain, FileBytes, Stride, DataCluster, Step, At, Entry, HasEntry, SectorOf, Wrap;
    OffFile(d, g, chain, f, f1, ci, so);
    FailedStep(d, g, chain, ci);
    Late(d, g, chain, f, ci, so, f1, f2);
    AtEdge(g, chain, f, ci, so);
    ClusterStart(d, g, chain, ci + 1, f.glob);
  }

  lemma Late(d: Disk, g: Geometry, chain: seq<nat>, f: Cursor, ci: nat, so: nat, f1: Cursor, f2: Cursor)
    requires Sane(g) && IsChain(d, g, chain) && At(g, chain, f, ci, so) && f.rw == SECTOR && ci + 1 < |chain|
    requires f.sector + 2 < 0x1_0000_0000 && f1.sector == f.sector + 1 == SectorOf(g, chain[ci], g.clusterSize)
    requires Step(d, g, f, f1, true) && Step(d, g, f1.(rw := SECTOR, glob := f1.glob + SECTOR), f2, false)
    ensures f1.glob == f.glob && f2.rw == 0 && f2.glob == f.glob + SECTOR && f2.sector == ClustToSect(g, chain[ci + 1])
  {
    hide IsChain, Stride, Entry, HasEntry, DataCluster, EndOfChain;
    InChain(d, g, chain, ci);
    NoWrap(g, chain[ci]);
    Small(ClustToSect(g, chain[ci]) + g.clusterSize);
    Small(f1.sector + 1);
    ChainGoesOn(d, g, chain, ci);
  }

  // The first sector of a cluster of the chain holds the bytes from the cluster's start on.
  lemma ClusterStart(d: Disk, g: Geometry, chain: seq<nat>, ci: nat, at: nat)
    requires Sane(g) && Formatted(d) && IsChain(d, g, chain) && ci < |chain| && at == ci * Stride(g)
    ensures ClustToSect(g, chain[ci]) in d && forall c :: c in chain ==> HasCluster(d, g, c)
    ensures at + SECTOR <= |FileBytes(d, g, chain)|
    ensures d[ClustToSect(g, chain[ci])] == FileBytes(d, g, chain)[at..at + SECTOR]
  {
    hide IsChain, HasCluster, FileBytes, Stride, ClustToSect;
    ChainClusters(d, g, chain);
    StartByte(d, g, chain, ci, at, SECTOR - 1);
    var b := FileBytes(d, g, chain);
    forall j | 0 <= j < SECTOR
      ensures d[ClustToSect(g, chain[ci])][j] == b[at + j]
    {
      StartByte(d, g, chain, ci, at, j);
    }
    Window(d[ClustToSect(g, chain[ci])], b, at);
  }

  lemma Window(a: seq<Octet>, b: seq<Octet>, at: nat)
    requires at + |a| <= |b| && forall j :: 0 <= j < |a| ==> a[j] == b[at + j]
    ensures a == b[at..at + |a|]
  {
  }

  lemma StartByte(d: Disk, g: Geometry, chain: seq<nat>, ci: nat, at: nat, j: nat)
    requires Sane(g) && Formatted(d) && ci < |chain| && j < SECTOR && forall c :: c in chain ==> HasCluster(d, g, c)
    requires at == ci * Stride(g)
    ensures ClustToSect(g, chain[ci]) in d && at + j < |FileBytes(d, g, chain)|
    ensures d[ClustToSect(g, chain[ci])][j] == FileBytes(d, g, chain)[at + j]
  {
    hide FileBytes, Stride, HasCluster, ClustToSect;
    FileByte(d, g, chain, ci, 0, j);
  }

  lemma AtEdge(g: Geometry, chain: seq<nat>, f: Cursor, ci: nat, so: nat)
    requires At(g, chain, f, ci, so) && f.rw == SECTOR && so + 1 == g.clusterSize
    ensures f.glob == (ci + 1) * Stride(g)
  {
    Distribute(ci, 1, Stride(g));
  }

  lemma Neighbours(a: nat, b: nat, d: nat)
    requires d > 0
    ensures a * d + d == b * d <==> b == a + 1
  {
    assert (a + 1) * d == a * d + d;
    if b < a + 1 {
      Apart(b, a + 1, d);
    } else if b > a + 1 {
      Apart(a + 1, b, d);
    }
  }

  // ---------- a file of one cluster ----------

  // One sector of table and one of data; cluster 2 is a whole chain, ended by the least value
  // that ends one.
  const SMALL: Geometry := Geometry(1, 2, 1)

  function SmallTable(): seq<Octet> {
    seq(SECTOR, i => if i == 8 then 0xF8 else if 8 < i < 11 then 0xFF else if i == 11 then 0x0F else 0)
  }

  function SmallDisk(): Disk { map[1 := SmallTable(), 2 := seq(SECTOR, _ => 0)] }

  lemma SmallChain()
    ensures Sane(SMALL) && Formatted(SmallDisk()) && IsChain(SmallDisk(), SMALL, [2]) && Stride(SMALL) == SECTOR
  {
    var d := SmallDisk();
    assert EntrySector(SMALL, 2) == 1 && EntryOffset(2) == 8;
    assert Entry(d, SMALL, 2) == 0x0FFF_FFF8;
    assert HasCluster(d, SMALL, 2);
  }

  // A jump to the end of that file reports success, and the cursor is still at the beginning.
  method JumpToEnd() returns (status: FStatus, asked: nat, reached: nat)
    ensures status == Ok && asked == 512 && reached == 0
  {
    hide IsChain, OnFile, At, SmallDisk, Formatted;
    SmallChain();
    var vol := new Volume(SMALL, SmallDisk(), true);
    var f := new File(vol, 2, SECTOR);
    asked := SECTOR;
    status := f.Jump(asked, [2]);
    reached := f.globOffset;
  }

  // ---------- a file of two clusters ----------

  // Cluster 5 follows cluster 2; cluster 3 between them is not the file's.
  function PairTable(): seq<Octet> {
    seq(SECTOR, i => if i == 8 then 5 else if 20 <= i < 23 then 0xFF else if i == 23 then 0x0F else 0)
  }

  function Filled(b: Octet): seq<Octet> { seq(SECTOR, _ => b) }

  function PairDisk(): Disk { map[1 := PairTable(), 2 := Filled(0), 3 := Filled(1), 5 := Filled(2)] }

  lemma PairChain()
    ensures Sane(SMALL) && Formatted(PairDisk()) && IsChain(PairDisk(), SMALL, [2, 5]) && Stride(SMALL) == SECTOR
  {
    hide PairDisk, Load32, Entry, HasEntry, HasCluster;
    PairEntries();
    PairClusters();
  }

  lemma PairClusters()
    ensures HasCluster(PairDisk(), SMALL, 2) && HasCluster(PairDisk(), SMALL, 5) && Formatted(PairDisk())
  {
  }

  lemma PairEntries()
    ensures HasEntry(PairDisk(), SMALL, 2) && HasEntry(PairDisk(), SMALL, 5)
    ensures Entry(PairDisk(), SMALL, 2) == 5 && Entry(PairDisk(), SMALL, 5) == 0x0FFF_FFFF
  {
    assert EntrySector(SMALL, 2) == 1 && EntryOffset(2) == 8 && EntrySector(SMALL, 5) == 1 && EntryOffset(5) == 20;
  }

  // The lookup that is due at f misses, and the read takes byte b at f': it is not the file's.
  ghost predicate WrongByte(d: Disk, g: Geometry, chain: seq<nat>, f: Cursor, f': Cursor, b: Octet) {
    && Sane(g) && Formatted(d) && IsChain(d, g, chain) && OnFile(g, chain, f) && Step(d, g, f, f', true)
    && f'.sector != 0 && Holds(d, f', b)
    && (ChainClusters(d, g, chain);
        f'.glob < |FileBytes(d, g, chain)| && FileBytes(d, g, chain)[f'.glob] != b)
  }

  // The file's byte, if it is at the start of a cluster
  lemma Wrong(d: Disk, g: Geometry, chain: seq<nat>, f: Cursor, f': Cursor, b: Octet, ci: nat)
    requires Sane(g) && Formatted(d) && IsChain(d, g, chain) && OnFile(g, chain, f) && Step(d, g, f, f', true)
    requires f'.sector != 0 && Holds(d, f', b) && ci < |chain| && f'.glob == ci * Stride(g)
    requires var at := ClustToSect(g, chain[ci]); at in d && |d[at]| == SECTOR && d[at][0] != b
    ensures WrongByte(d, g, chain, f, f', b)
  {
    hide IsChain, Formatted, OnFile, Step, FileBytes, HasCluster, Stride, ClustToSect;
    ChainClusters(d, g, chain);
    StartByte(d, g, chain, ci, f'.glob, 0);
  }

  lemma PairSectors()
    ensures 3 in PairDisk() && PairDisk()[3] == Filled(1) && 5 in PairDisk() && PairDisk()[5] == Filled(2)
    ensures Filled(1)[0] == 1 && Filled(2)[0] == 2 && |Filled(1)| == |Filled(2)| == SECTOR
  {
  }

  // When the lookup at the end of cluster 2 misses, the read goes on in cluster 3, and delivers
  // its byte for byte 512 of the file.
  lemma MissedLookup()
    ensures WrongByte(PairDisk(), SMALL, [2, 5], Cursor(2, 2, SECTOR, SECTOR), Cursor(3, 2, 0, SECTOR), 1)
  {
    hide IsChain, PairDisk, Filled, FileBytes, HasCluster, Formatted, Step, At, WrongByte, OnFile;
    var f, f' := Cursor(2, 2, SECTOR, SECTOR), Cursor(3, 2, 0, SECTOR);
    PairChain();
    PairSectors();
    PairStep(PairDisk(), f, f');
    LandsOn(SMALL, [2, 5], f, 0, 0);
    assert ClustToSect(SMALL, 5) == 5;
    Wrong(PairDisk(), SMALL, [2, 5], f, f', 1, 1);
  }

  lemma PairStep(d: Disk, f: Cursor, f': Cursor)
    requires f == Cursor(2, 2, SECTOR, SECTOR)
    ensures At(SMALL, [2, 5], f, 0, 0)
    ensures Step(d, SMALL, f, f', true) <==> f' == Cursor(3, 2, 0, SECTOR)
  {
    hide Entry, HasEntry, EndOfChain;
    assert Stride(SMALL) == SECTOR;
  }
}
