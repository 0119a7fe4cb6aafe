/** The one-sector write-back cache in front of a disk (kernel/fs/basefs/io_x86.c). On the legacy ATA
    branch, reading and writing bytes through it is reading and writing one flat array, whichever
    sectors get swapped in and out. On the AHCI branch it is not, and FlushAndFetchAhci says when. */
module SectorCache {
  import opened Basics

  const SECTOR: nat := 512
  const NO_FRAME: nat := 0xFFFF_FFFF

  /** The disk: whole sectors only. A request past the end is refused. */
  class Disk {
    var sectors: seq<seq<byte>>

    ghost predicate Valid()
      reads this
    {
      |sectors| < NO_FRAME && forall i :: 0 <= i < |sectors| ==> |sectors[i]| == SECTOR
    }

    constructor (sectors: seq<seq<byte>>)
      requires |sectors| < NO_FRAME && forall i :: 0 <= i < |sectors| ==> |sectors[i]| == SECTOR
      ensures Valid() && this.sectors == sectors
    {
      this.sectors := sectors;
    }

    method WriteSector(n: nat, data: array<byte>) returns (ok: bool)
      requires Valid() && data.Length == SECTOR
      modifies this
      ensures Valid() && ok == (n < |old(sectors)|)
      ensures sectors == if ok then old(sectors)[n := data[..]] else old(sectors)
    {
      if n >= |sectors| { return false; }
      sectors := sectors[n := data[..]];
      return true;
    }

    method ReadSector(n: nat, data: array<byte>) returns (ok: bool)
      requires Valid() && data.Length == SECTOR
      modifies data
      ensures ok == (n < |sectors|)
      ensures data[..] == if ok then sectors[n] else old(data[..])
    {
      if n >= |sectors| { return false; }
      forall i | 0 <= i < SECTOR { data[i] := sectors[n][i]; }
      assert data[..] == sectors[n];
      return true;
    }
  }

  class SectorCache {
    const disk: Disk
    const window: array<byte>
    var sectorFrame: nat
    var dirty: bool

    /** The window holds a sector of the disk, and if it is clean, that sector as it is. */
    ghost predicate Valid()
      reads this, disk, window
    {
      && disk.Valid()
      && window.Length == SECTOR
      && (sectorFrame != NO_FRAME ==> sectorFrame < |disk.sectors|)
      && (sectorFrame != NO_FRAME && !dirty ==> window[..] == disk.sectors[sectorFrame])
      && (sectorFrame == NO_FRAME ==> !dirty)
    }

    /** What the device looks like through the cache, sector by sector. */
    ghost function Sectors(): (s: seq<seq<byte>>)
      requires Valid()
      reads this, disk, window
      ensures |s| == |disk.sectors| && forall i :: 0 <= i < |s| ==> |s[i]| == SECTOR
    {
      if sectorFrame == NO_FRAME then disk.sectors else disk.sectors[sectorFrame := window[..]]
    }

    /** ... and as one flat array. */
    ghost function Flat(): (f: seq<byte>)
      requires Valid()
      reads this, disk, window
      ensures |f| == |disk.sectors| * SECTOR
    {
      Flatten(Sectors())
    }

    /** A cache just opened on a disk: no sector is loaded yet. */
    constructor (disk: Disk, window: array<byte>)
      requires disk.Valid() && window.Length == SECTOR
      ensures this.disk == disk && this.window == window
      ensures Valid() && !dirty && Flat() == Flatten(disk.sectors)
    {
      this.disk, this.window := disk, window;
      sectorFrame, dirty := NO_FRAME, false;
    }

    /** fs_cache_flush_and_fetch: make target the loaded sector, writing the old one back first. */
    method FlushAndFetch(target: nat) returns (ok: bool)
      requires Valid() && target < NO_FRAME
      modifies this, disk, window
      ensures Valid() && Sectors() == old(Sectors())
      ensures ok == (target < |disk.sectors|)
      ensures ok ==> sectorFrame == target
      ensures !old(dirty) ==> !dirty && disk.sectors == old(disk.sectors)
    {
      if sectorFrame == target { return true; }
      ghost var was := Sectors();
      if dirty && sectorFrame != NO_FRAME {
        var written := disk.WriteSector(sectorFrame, window);
        if !written { return false; }
        dirty := false;
      }
      assert disk.sectors == was;
      var read := disk.ReadSector(target, window);
      if !read {
        assert Sectors() == was;
        return false;
      }
      sectorFrame := target;
      assert Sectors() == was;
      return true;
    }

    /** A swap on the AHCI branch does no harm: there is none, the window is clean, or the sector it
        came from and the one asked for both hold what is in it. */
    ghost predicate SafeSwap(target: nat)
      requires Valid()
      reads this, disk, window
    {
      || target >= |disk.sectors| || sectorFrame == target || !dirty
      || (disk.sectors[sectorFrame] == window[..] && disk.sectors[target] == window[..])
    }

    /** fs_cache_flush_and_fetch, AHCI branch: a dirty window is written over the sector about to be
        loaded instead of the one it came from. */
    method FlushAndFetchAhci(target: nat) returns (ok: bool)
      requires Valid() && target < NO_FRAME
      modifies this, disk, window
      ensures Valid() && ok == (target < |disk.sectors|) && (ok ==> sectorFrame == target)
      ensures Flat() == old(Flat()) <==> old(SafeSwap(target))
      ensures disk.sectors == if ok && old(dirty && sectorFrame != target) then old(disk.sectors)[target := old(window[..])] else old(disk.sectors)
    {
      if sectorFrame == target { return true; }
      ghost var was, held, frame := Sectors(), window[..], sectorFrame;
      if dirty && sectorFrame != NO_FRAME {
        var written := disk.WriteSector(target, window);
        if !written { return false; }
        dirty := false;
      }
      var read := disk.ReadSector(target, window);
      if !read {
        assert Sectors() == was;
        return false;
      }
      sectorFrame := target;
      assert Sectors() == disk.sectors;
      FlattenInjective(was, Sectors());
      if old(dirty) { assert was[frame] == held && Sectors()[target] == held && was[target] == old(disk.sectors)[target]; }
      return true;
    }

    /** fs_readb */
    method ReadByte(address: nat) returns (b: byte)
      requires Valid() && address < U32
      modifies this, disk, window
      ensures Valid() && Flat() == old(Flat())
      ensures b == At(Flat(), address)
      ensures !old(dirty) ==> !dirty && disk.sectors == old(disk.sectors)
    {
      var ok := FlushAndFetch(address / SECTOR);
      if !ok { return 0; }
      return window[address % SECTOR];
    }

    /** fs_writeb; a byte past the end of the disk goes nowhere. */
    method WriteByte(address: nat, b: byte)
      requires Valid() && address < U32
      modifies this, disk, window
      ensures Valid() && Flat() == Put(old(Flat()), address, b)
    {
      var ok := FlushAndFetch(address / SECTOR);
      if !ok { return; }
      ghost var was := Sectors();
      window[address % SECTOR] := b;
      dirty := true;
      assert Sectors() == was[address / SECTOR := Put(was[address / SECTOR], address % SECTOR, b)];
      PutInSector(was, address, b);
    }

    /** fs_mem_read */
    method MemRead(address: nat, size: nat) returns (data: seq<byte>)
      requires Valid() && address + size <= U32
      modifies this, disk, window
      ensures Valid() && Flat() == old(Flat())
      ensures data == ReadRange(Flat(), address, size)
      ensures !old(dirty) ==> !dirty && disk.sectors == old(disk.sectors)
    {
      data := [];
      for i := 0 to size
        invariant Valid() && Flat() == old(Flat())
        invariant data == ReadRange(Flat(), address, i)
        invariant !old(dirty) ==> !dirty && disk.sectors == old(disk.sectors)
      {
        var b := ReadByte(address + i);
        data := data + [b];
      }
    }

    /** fs_mem_write */
    method MemWrite(address: nat, data: seq<byte>)
      requires Valid() && address + |data| <= U32
      modifies this, disk, window
      ensures Valid() && Flat() == WriteRange(old(Flat()), address, data)
    {
      assert data[..0] == [];
      assert WriteRange(Flat(), address, []) == Flat();
      for i := 0 to |data|
        invariant Valid() && Flat() == WriteRange(old(Flat()), address, data[..i])
      {
        assert data[..i + 1] == data[..i] + [data[i]];
        WriteRangeStep(old(Flat()), address, data[..i], data[i]);
        WriteByte(address + i, data[i]);
      }
      assert data[..|data|] == data;
    }

    /** fs_cache_sync: afterwards the disk itself is the flat array. */
    method Sync()
      requires Valid()
      modifies this, disk
      ensures Valid() && !dirty
      ensures Flat() == old(Flat()) && Flatten(disk.sectors) == Flat()
    {
      if dirty && sectorFrame != NO_FRAME {
        ghost var was := Sectors();
        var _ := disk.WriteSector(sectorFrame, window);
        dirty := false;
        assert disk.sectors == was;
      }
      assert disk.sectors == Sectors();
    }
  }

  function Flatten(s: seq<seq<byte>>): (f: seq<byte>)
    requires forall i :: 0 <= i < |s| ==> |s[i]| == SECTOR
    ensures |f| == |s| * SECTOR
  {
    seq<byte>(|s| * SECTOR, a requires 0 <= a < |s| * SECTOR => s[a / SECTOR][a % SECTOR])
  }

  lemma FlattenInjective(s: seq<seq<byte>>, t: seq<seq<byte>>)
    requires |s| == |t| && forall i :: 0 <= i < |s| ==> |s[i]| == SECTOR && |t[i]| == SECTOR
    ensures Flatten(s) == Flatten(t) <==> s == t
  {
    if Flatten(s) == Flatten(t) {
      forall i | 0 <= i < |s| ensures s[i] == t[i] {
        forall k | 0 <= k < SECTOR ensures s[i][k] == t[i][k] {
          var a := i * SECTOR + k;
          assert a / SECTOR == i && a % SECTOR == k;
          assert Flatten(s)[a] == Flatten(t)[a];
        }
      }
    }
  }

  // What reads and writes mean on the flat array; outside it, reads give 0 and writes are lost.

  function At(f: seq<byte>, a: nat): byte {
    if a < |f| then f[a] else 0
  }

  function Put(f: seq<byte>, a: nat, b: byte): seq<byte> {
    if a < |f| then f[a := b] else f
  }

  function ReadRange(f: seq<byte>, a: nat, n: nat): (d: seq<byte>)
    ensures |d| == n
  {
    seq<byte>(n, i requires 0 <= i => At(f, a + i))
  }

  function WriteRange(f: seq<byte>, a: nat, data: seq<byte>): (g: seq<byte>)
    ensures |g| == |f|
  {
    seq<byte>(|f|, i requires 0 <= i < |f| => if a <= i < a + |data| then data[i - a] else f[i])
  }

  lemma PutInSector(s: seq<seq<byte>>, a: nat, b: byte)
    requires (forall i :: 0 <= i < |s| ==> |s[i]| == SECTOR) && a < |s| * SECTOR
    ensures var s' := s[a / SECTOR := Put(s[a / SECTOR], a % SECTOR, b)];
            (forall i :: 0 <= i < |s'| ==> |s'[i]| == SECTOR) && Flatten(s') == Put(Flatten(s), a, b)
  {
  }

  lemma WriteRangeStep(f: seq<byte>, a: nat, data: seq<byte>, b: byte)
    ensures WriteRange(f, a, data + [b]) == Put(WriteRange(f, a, data), a + |data|, b)
  {
  }

  lemma WritesCommute(f: seq<byte>, a: nat, x: seq<byte>, b: nat, y: seq<byte>)
    requires a + |x| <= b || b + |y| <= a
    ensures WriteRange(WriteRange(f, a, x), b, y) == WriteRange(WriteRange(f, b, y), a, x)
  {
  }

  lemma AtOfWrite(f: seq<byte>, a: nat, data: seq<byte>, x: nat)
    ensures At(WriteRange(f, a, data), x) == if x < |f| && a <= x < a + |data| then data[x - a] else At(f, x)
  {
  }

  lemma ReadAside(f: seq<byte>, a: nat, data: seq<byte>, c: nat, n: nat)
    requires c + n <= a || a + |data| <= c
    ensures ReadRange(WriteRange(f, a, data), c, n) == ReadRange(f, c, n)
  {
    forall i | 0 <= i < n ensures ReadRange(WriteRange(f, a, data), c, n)[i] == ReadRange(f, c, n)[i] {
      assert At(WriteRange(f, a, data), c + i) == At(f, c + i);
    }
  }

  /** Writing a range back as it was read changes nothing. */
  lemma WriteBack(f: seq<byte>, a: nat, n: nat)
    ensures WriteRange(f, a, ReadRange(f, a, n)) == f
  {
    forall i | 0 <= i < |f| ensures WriteRange(f, a, ReadRange(f, a, n))[i] == f[i] {
      if a <= i < a + n { assert ReadRange(f, a, n)[i - a] == At(f, a + (i - a)); }
    }
  }

  /** Reading back a written range inside the array gives the data, and bytes outside it are as before. */
  lemma ReadAfterWrite(f: seq<byte>, a: nat, data: seq<byte>, c: nat, n: nat)
    requires a + |data| <= |f|
    ensures ReadRange(WriteRange(f, a, data), a, |data|) == data
    ensures c + n <= a || a + |data| <= c ==> ReadRange(WriteRange(f, a, data), c, n) == ReadRange(f, c, n)
  {
    forall i | 0 <= i < |data| ensures ReadRange(WriteRange(f, a, data), a, |data|)[i] == data[i] {
      assert At(WriteRange(f, a, data), a + i) == data[i];
    }
    if c + n <= a || a + |data| <= c { ReadAside(f, a, data, c, n); }
  }
}
