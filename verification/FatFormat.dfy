/** Making a file system and mounting it. */
module FatFormat {
  import opened Bytes
  import opened FatChains
  import opened FatLayout
  import opened FatDisk
  import opened FatSteps
  import opened FatVolume
  import opened FatDirectory

  function Blank(): Sector {
    Zeros(512)
  }

  // ---- mounting ----

  /** The checks of try_mount_at on the boot sector. */
  predicate Mountable(s: Sector) {
    Le16(s, 11) == 512 && Le32(s, 36) != 0 && 1 <= s[13] <= 64
  }

  function GeometryOf(s: Sector, lba: nat): Geometry
    requires Mountable(s)
  {
    var numFats: nat := if s[16] == 0 then 2 else s[16];
    var spc: nat := s[13];
    var dataStart := Le16(s, 14) + Times(numFats, Le32(s, 36));
    var total := if Le16(s, 19) != 0 then Le16(s, 19) else Le32(s, 32);
    Geometry(lba, Le16(s, 14), dataStart, if Le32(s, 44) == 0 then 2 else Le32(s, 44), spc, Le32(s, 36), numFats,
             if total > dataStart then (total - dataStart) / spc else 0x10000)
  }

  /** g is what the boot sector s says: where table and data start, how large they are, where the root is. */
  ghost predicate Geometric(s: Sector, g: Geometry) {
    && g.spc == s[13]
    && g.fatStart == Le16(s, 14)
    && g.numFats == (if s[16] == 0 then 2 else s[16])
    && g.fatSize == Le32(s, 36)
    && g.dataStart == g.fatStart + g.numFats * g.fatSize
    && g.root == (if Le32(s, 44) == 0 then 2 else Le32(s, 44))
    && (var total := if Le16(s, 19) != 0 then Le16(s, 19) else Le32(s, 32);
        if total <= g.dataStart then g.clusters == 0x1_0000
        else g.spc != 0 && g.clusters == (total - g.dataStart) / g.spc)
  }

  lemma GeometryIs(s: Sector, lba: nat)
    requires Mountable(s)
    ensures Geometric(s, GeometryOf(s, lba))
  {
    TimesProduct(if s[16] == 0 then 2 else s[16], Le32(s, 36));
  }

  /** try_mount_at: takes the geometry from the boot sector. */
  method Mount(vol: Volume, lba: nat) returns (ok: bool)
    requires lba < |vol.disk|
    modifies vol
    ensures vol.disk == old(vol.disk)
    ensures ok <==> Mountable(vol.disk[lba])
    ensures ok <==> var s := vol.disk[lba];
              && s[11] == 0 && s[12] == 2 && 1 <= s[13] <= 64
              && !(s[36] == 0 && s[37] == 0 && s[38] == 0 && s[39] == 0)
    ensures ok ==> vol.mounted && vol.g == GeometryOf(vol.disk[lba], lba)
    ensures ok ==> vol.g.base == lba && Geometric(vol.disk[lba], vol.g)
    ensures !ok ==> !vol.mounted
    ensures ok && GeoOk(vol.g, |vol.disk|) ==>
              vol.Ready() && vol.view == ViewOf(vol.disk, vol.g) && vol.origin == vol.disk
  {
    vol.mounted := false;
    var s := vol.disk[lba];
    if Le16(s, 11) != 512 || Le32(s, 36) == 0 {
      return false;
    }
    if s[13] == 0 || s[13] > 64 {
      return false;
    }
    vol.g := GeometryOf(s, lba);
    GeometryIs(s, lba);
    vol.mounted := true;
    ok := true;
    if GeoOk(vol.g, |vol.disk|) {
      vol.view, vol.origin := ViewOf(vol.disk, vol.g), vol.disk;
      ShowsView(vol.disk, vol.g, vol.view);
    }
  }

  // ---- formatting ----

  /** The size mkfs goes by, and the sectors it gives each copy of the table. */
  function SizeOf(size: nat): nat {
    if size < 2048 then 65536 else size
  }

  /** The first estimate of the sectors a table needs, made as if there were no tables. */
  function Rough(size: nat): nat
    requires size < 0x1_0000_0000
  {
    ((SizeOf(size) - 32) / 8 * 4 + 511) / 512
  }

  /** The second one, which is used: that of the space the first one leaves. */
  function FatSectors(size: nat): (n: nat)
    requires size < 0x1_0000_0000
    ensures 2 <= n && 32 + 2 * n + 8 <= SizeOf(size)
  {
    ((SizeOf(size) - 32 - 2 * Rough(size)) / 8 * 4 + 511) / 512
  }

  /** The jump and the name of the formatter. */
  const BOOT_JUMP: seq<byte> := [0xEB, 0x58, 0x90, 0x4D, 0x53, 0x57, 0x49, 0x4E, 0x34, 0x2E, 0x31]

  /** Sectors of 512 bytes, clusters of 8, 32 reserved ones, 2 tables; no root entries and no short size. */
  const BOOT_SHAPE: seq<byte> := [0, 2, 8, 32, 0, 2, 0, 0, 0, 0]

  /** The media byte, no short table size, 63 sectors and 255 heads. */
  const BOOT_MEDIA: seq<byte> := [0xF8, 0, 0, 63, 0, 255, 0]

  /** Flags, version and the root's cluster. */
  const BOOT_ROOT: seq<byte> := [0, 0, 0, 0, 2, 0, 0, 0]

  /** FSInfo at 1, backup at 6, drive, signature, volume id, label and type. */
  const BOOT_TAIL: seq<byte> :=
    [1, 0, 6, 0, 0, 0, 0, 0, 0, 0, 0, 0, 0, 0, 0, 0, 0x80, 0, 0x29, 0x78, 0x56, 0x34, 0x12,
     0x4D, 0x59, 0x4B, 0x45, 0x52, 0x4E, 0x45, 0x4C, 0x20, 0x20, 0x20, 0x46, 0x41, 0x54, 0x33, 0x32, 0x20, 0x20, 0x20]

  function BootSector(part: nat, size: nat, fatSectors: nat): Sector
    requires part < 0x1_0000_0000 && size < 0x1_0000_0000 && fatSectors < 0x1_0000_0000
  {
    BOOT_JUMP + BOOT_SHAPE + BOOT_MEDIA + Put32(part) + Put32(size) + Put32(fatSectors) + BOOT_ROOT + BOOT_TAIL
    + Zeros(420) + [0x55, 0xAA]
  }

  /** The FSInfo sector: its signatures, an unknown number of free clusters and 2 as the place to look for one. */
  function FsInfo(): Sector {
    [0x52, 0x52, 0x61, 0x41] + Zeros(480) + [0x72, 0x72, 0x41, 0x61, 0xFF, 0xFF, 0xFF, 0xFF, 2] + Zeros(17)
      + [0x55, 0xAA]
  }

  /** The first sector of a table: the media entry, and end marks for cluster 1 and the root. */
  function Headed(s: Sector): Sector {
    [0xF8, 0xFF, 0xFF, 0x0F, 0xFF, 0xFF, 0xFF, 0x0F, 0xFF, 0xFF, 0xFF, 0x0F] + s[12..]
  }

  /** The tables mkfs has written after f rounds. The second is filled with the first sector of the first one. */
  ghost predicate Tables(d: Disk, lba: nat, n: nat, f: nat) {
    && lba + 2 * n <= |d|
    && (f >= 1 ==> forall i :: lba <= i < lba + n ==> d[i] == if i == lba then Headed(Blank()) else Blank())
    && (f >= 2 ==> forall i :: lba + n <= i < lba + 2 * n ==> d[i] == Headed(Blank()))
  }

  /** What mkfs leaves on the disk. */
  ghost predicate Formatted(d: Disk, part: nat, size: nat)
    requires part < 0x1_0000_0000 && size < 0x1_0000_0000 && part + SizeOf(size) <= |d|
  {
    var n := FatSectors(size);
    && d[part] == BootSector(part, SizeOf(size), n)
    && d[part + 1] == FsInfo()
    && Tables(d, part + 32, n, 2)
    && (forall i :: part + 32 + 2 * n <= i < part + 32 + 2 * n + 8 ==> d[i] == Blank())
  }

  /** fat32_mkfs. */
  method Format(vol: Volume, part: nat, sizeSectors: nat)
    requires part < 0x1_0000_0000 && sizeSectors < 0x1_0000_0000 && part + SizeOf(sizeSectors) <= |vol.disk|
    modifies vol
    ensures |vol.disk| == |old(vol.disk)| && !vol.mounted
    ensures Formatted(vol.disk, part, sizeSectors)
    ensures forall i :: 0 <= i < |vol.disk| && !(part <= i < part + 2)
                        && !(part + 32 <= i < part + 32 + 2 * FatSectors(sizeSectors) + 8) ==>
              vol.disk[i] == old(vol.disk)[i]
  {
    var size := SizeOf(sizeSectors);
    var n := FatSectors(sizeSectors);
    vol.disk := vol.disk[part := BootSector(part, size, n)][part + 1 := FsInfo()];
    ghost var booted := vol.disk;
    WriteTables(vol, part + 32, n);
    ghost var tabled := vol.disk;
    Fill(vol, part + 32 + 2 * n, 8, Blank());
    FormatDone(booted, tabled, vol.disk, part, sizeSectors);
    vol.mounted := false;
  }

  lemma FormatDone(booted: Disk, tabled: Disk, d: Disk, part: nat, size: nat)
    requires part < 0x1_0000_0000 && size < 0x1_0000_0000 && part + SizeOf(size) <= |booted| == |tabled| == |d|
    requires booted[part] == BootSector(part, SizeOf(size), FatSectors(size)) && booted[part + 1] == FsInfo()
    requires Tables(tabled, part + 32, FatSectors(size), 2)
    requires var n := FatSectors(size);
             && (forall i :: 0 <= i < |d| && !(part + 32 <= i < part + 32 + 2 * n) ==> tabled[i] == booted[i])
             && (forall i :: 0 <= i < |d| ==>
                   d[i] == if part + 32 + 2 * n <= i < part + 32 + 2 * n + 8 then Blank() else tabled[i])
    ensures Formatted(d, part, size)
  {
  }

  /** Both copies of the table, one after the other, out of the same sector buffer. */
  method WriteTables(vol: Volume, lba: nat, n: nat)
    requires n > 0 && lba + 2 * n <= |vol.disk|
    modifies vol`disk
    ensures |vol.disk| == |old(vol.disk)| && Tables(vol.disk, lba, n, 2)
    ensures forall i :: 0 <= i < |vol.disk| && !(lba <= i < lba + 2 * n) ==> vol.disk[i] == old(vol.disk)[i]
  {
    var sectorBuf := Blank();
    HeadedTwice();
    var f := 0;
    while f < 2
      invariant 0 <= f <= 2 && |vol.disk| == |old(vol.disk)|
      invariant sectorBuf == if f == 0 then Blank() else Headed(Blank())
      invariant Tables(vol.disk, lba, n, f)
      invariant forall i :: 0 <= i < |vol.disk| && !(lba <= i < lba + 2 * n) ==> vol.disk[i] == old(vol.disk)[i]
    {
      sectorBuf := WriteTable(vol, lba + (if f == 0 then 0 else n), n, sectorBuf);
      f := f + 1;
    }
  }

  lemma HeadedTwice()
    ensures Headed(Headed(Blank())) == Headed(Blank())
  {
  }

  method WriteTable(vol: Volume, lba: nat, n: nat, s: Sector) returns (s': Sector)
    requires n > 0 && lba + n <= |vol.disk|
    modifies vol`disk
    ensures |vol.disk| == |old(vol.disk)| && s' == Headed(s)
    ensures forall i :: 0 <= i < |vol.disk| ==>
              vol.disk[i] == if i == lba then s' else if lba <= i < lba + n then s else old(vol.disk)[i]
  {
    Fill(vol, lba, n, s);
    s' := Headed(vol.disk[lba]);
    vol.disk := vol.disk[lba := s'];
  }

  method Fill(vol: Volume, lba: nat, n: nat, s: Sector)
    requires lba + n <= |vol.disk|
    modifies vol`disk
    ensures |vol.disk| == |old(vol.disk)|
    ensures forall i :: 0 <= i < |vol.disk| ==> vol.disk[i] == if lba <= i < lba + n then s else old(vol.disk)[i]
  {
    var k := 0;
    while k < n
      invariant 0 <= k <= n && |vol.disk| == |old(vol.disk)|
      invariant forall i :: 0 <= i < |vol.disk| ==> vol.disk[i] == if lba <= i < lba + k then s else old(vol.disk)[i]
    {
      vol.disk := vol.disk[lba + k := s];
      k := k + 1;
    }
  }

  // ---- what has been formatted mounts as an empty volume ----

  function NewGeometry(part: nat, size: nat): Geometry
    requires size < 0x1_0000_0000
  {
    var n := FatSectors(size);
    Geometry(part, 32, 32 + 2 * n, 2, 8, n, 2, (SizeOf(size) - (32 + 2 * n)) / 8)
  }

  /**
    The sizes whose table has an entry for every cluster. The 1026 sizes from 1026 * k + 24 on need more than k
    sectors, and mkfs gives the first of them no more than k: 16, because it forgets the two reserved entries,
    and two more for each sector by which its first estimate exceeds k.
   */
  predicate RoomForEntries(size: nat)
    requires size < 0x1_0000_0000
  {
    var s := SizeOf(size) - 24;
    s % 1026 >= 16 + 2 * (Rough(size) - s / 1026)
  }

  lemma BootFields(part: nat, size: nat, n: nat)
    requires part < 0x1_0000_0000 && size < 0x1_0000_0000 && n < 0x1_0000_0000
    ensures var s := BootSector(part, size, n);
            && Le16(s, 11) == 512 && s[13] == 8 && Le16(s, 14) == 32 && s[16] == 2 && Le16(s, 19) == 0
            && Le32(s, 32) == size && Le32(s, 36) == n && Le32(s, 44) == 2
  {
    var s := BootSector(part, size, n);
    var a, b := Put32(size), Put32(n);
    assert s[11] == 0 && s[12] == 2 && s[13] == 8 && s[14] == 32 && s[15] == 0 && s[16] == 2;
    assert s[19] == 0 && s[20] == 0;
    assert s[32] == a[0] && s[33] == a[1] && s[34] == a[2] && s[35] == a[3];
    assert s[36] == b[0] && s[37] == b[1] && s[38] == b[2] && s[39] == b[3];
    assert s[44] == 2 && s[45] == 0 && s[46] == 0 && s[47] == 0;
    Read32(s, 32, size);
    Read32(s, 36, n);
  }

  /** The fields that mounting does not read, before the two sizes. */
  lemma BootFront(part: nat, size: nat, n: nat)
    requires part < 0x1_0000_0000 && size < 0x1_0000_0000 && n < 0x1_0000_0000
    ensures var s := BootSector(part, size, n);
            && s[0] == 0xEB && s[1] == 0x58 && s[2] == 0x90 && s[21] == 0xF8
            && Le16(s, 17) == 0 && Le16(s, 22) == 0 && Le16(s, 24) == 63 && Le16(s, 26) == 255 && Le32(s, 28) == part
  {
    var s := BootSector(part, size, n);
    var a := Put32(part);
    assert s[0] == 0xEB && s[1] == 0x58 && s[2] == 0x90 && s[17] == 0 && s[18] == 0;
    assert s[21] == 0xF8 && s[22] == 0 && s[23] == 0 && s[24] == 63 && s[25] == 0 && s[26] == 255 && s[27] == 0;
    assert s[28] == a[0] && s[29] == a[1] && s[30] == a[2] && s[31] == a[3];
    Read32(s, 28, part);
  }

  /** And after them. */
  lemma BootBack(part: nat, size: nat, n: nat)
    requires part < 0x1_0000_0000 && size < 0x1_0000_0000 && n < 0x1_0000_0000
    ensures var s := BootSector(part, size, n);
            && Le32(s, 40) == 0 && Le16(s, 48) == 1 && Le16(s, 50) == 6 && (forall i :: 52 <= i < 64 ==> s[i] == 0)
            && s[64] == 0x80 && s[66] == 0x29 && Le32(s, 67) == 0x1234_5678 && s[510] == 0x55 && s[511] == 0xAA
  {
    var s := BootSector(part, size, n);
    assert s[40..48] == BOOT_ROOT && s[48..90] == BOOT_TAIL;
    assert forall i :: 0 <= i < 8 ==> s[40 + i] == BOOT_ROOT[i];
    assert forall i :: 0 <= i < 42 ==> s[48 + i] == BOOT_TAIL[i];
    TailBytes();
  }

  lemma TailBytes()
    ensures Le16(BOOT_TAIL, 0) == 1 && Le16(BOOT_TAIL, 2) == 6 && (forall i :: 4 <= i < 16 ==> BOOT_TAIL[i] == 0)
    ensures BOOT_TAIL[16] == 0x80 && BOOT_TAIL[18] == 0x29 && Le32(BOOT_TAIL, 19) == 0x1234_5678
  {
    var t: seq<byte> := BOOT_TAIL;
    assert t[0] == 1 && t[1] == 0 && t[2] == 6 && t[3] == 0 && t[16] == 0x80 && t[18] == 0x29;
    assert t[19] == 0x78 && t[20] == 0x56 && t[21] == 0x34 && t[22] == 0x12;
    forall i | 4 <= i < 16
      ensures t[i] == 0
    {
      assert i in [4, 5, 6, 7, 8, 9, 10, 11, 12, 13, 14, 15];
    }
  }

  /** The names in the boot sector. */
  lemma BootNames(part: nat, size: nat, n: nat, i: nat)
    requires part < 0x1_0000_0000 && size < 0x1_0000_0000 && n < 0x1_0000_0000 && i < 11
    ensures var s := BootSector(part, size, n);
            && (i < 8 ==> s[3 + i] == "MSWIN4.1"[i] as int && s[82 + i] == "FAT32   "[i] as int)
            && s[71 + i] == "MYKERNEL   "[i] as int
  {
    var s := BootSector(part, size, n);
    assert i in [0, 1, 2, 3, 4, 5, 6, 7, 8, 9, 10];
    assert s[71 + i] == BOOT_TAIL[23 + i];
    if i < 8 {
      assert s[3 + i] == BOOT_JUMP[3 + i] && s[82 + i] == BOOT_TAIL[34 + i];
    }
  }

  /** The FSInfo sector: two signatures, no free count, the first place to look for a free cluster, nothing else. */
  lemma InfoBytes(i: nat)
    requires i < 512
    ensures var s := FsInfo();
            && (i < 4 ==> s[i] == "RRaA"[i] as int) && (484 <= i < 488 ==> s[i] == "rrAa"[i - 484] as int)
            && (488 <= i < 492 ==> s[i] == 0xFF) && s[492] == 2 && s[510] == 0x55 && s[511] == 0xAA
            && (4 <= i < 484 || 493 <= i < 510 ==> s[i] == 0)
  {
    assert i < 4 ==> i in [0, 1, 2, 3];
    assert 484 <= i < 492 ==> i - 484 in [0, 1, 2, 3, 4, 5, 6, 7];
  }

  lemma BootGeometry(part: nat, size: nat)
    requires part < 0x1_0000_0000 && size < 0x1_0000_0000
    ensures var s := BootSector(part, SizeOf(size), FatSectors(size));
            Mountable(s) && GeometryOf(s, part) == NewGeometry(part, size)
  {
    BootFields(part, SizeOf(size), FatSectors(size));
    TimesProduct(2, FatSectors(size));
  }

  /** The geometry of a new volume fits the disk exactly when the table has room for every cluster. */
  lemma FormatFits(part: nat, size: nat, n: nat)
    requires size < 0x1_0000_0000 && part + SizeOf(size) <= n
    ensures GeoOk(NewGeometry(part, size), n) <==> RoomForEntries(size)
  {
    var g := NewGeometry(part, size);
    TimesProduct(2, g.fatSize);
    TimesProduct(g.clusters, 8);
    Room(SizeOf(size), g.fatSize);
    TableRoom(size);
    if RoomForEntries(size) {
      TableCounts(size);
    }
  }

  lemma Room(s: nat, n: nat)
    requires 32 + 2 * n + 8 <= s
    ensures (s - (32 + 2 * n)) / 8 + 2 <= 128 * n <==> s < 1026 * n + 24
    ensures (s - (32 + 2 * n)) / 8 + 2 < EOC <==> s < 2 * n + 8 * EOC + 16
  {
  }

  /** Every cluster has an entry exactly for the sizes RoomForEntries names. */
  lemma TableRoom(size: nat)
    requires size < 0x1_0000_0000
    ensures SizeOf(size) < 1026 * FatSectors(size) + 24 <==> RoomForEntries(size)
  {
    var s, r, n := SizeOf(size), Rough(size), FatSectors(size);
    var k := (s - 24) / 1026;
    assert s - 24 == 1026 * k + (s - 24) % 1026;
    var c := (s - 32 - 2 * r) / 8;
    assert n == (c + 127) / 128;
    assert RoomForEntries(size) <==> s >= 1024 * k + 2 * r + 40;
    assert s >= 1024 * k + 2 * r + 40 <==> c >= 128 * k + 1;
    assert c >= 128 * k + 1 <==> n >= k + 1;
  }

  /** Where the table is long enough there are not too many clusters to number either. */
  lemma TableCounts(size: nat)
    requires size < 0x1_0000_0000 && RoomForEntries(size)
    ensures SizeOf(size) < 2 * FatSectors(size) + 8 * EOC + 16
  {
    if size > LARGEST {
      FormatTooLarge(size);
    }
  }

  /** Which sizes get a table that is too short, said by the number of sectors in it. */
  lemma FormatTooSmall(size: nat)
    requires 2048 <= size < 0x1_0000_0000
    ensures !RoomForEntries(size) <==> exists k :: 1026 * k + 24 <= size < 1024 * k + 2 * Rough(size) + 40
  {
    var k := (size - 24) / 1026;
    assert size - 24 == 1026 * k + (size - 24) % 1026;
    if !RoomForEntries(size) {
      assert 1026 * k + 24 <= size < 1024 * k + 2 * Rough(size) + 40;
    }
    if j :| 1026 * j + 24 <= size < 1024 * j + 2 * Rough(size) + 40 {
      assert j <= k;
    }
  }

  lemma Stretch(s: nat, k: nat, r: nat)
    requires s == 1026 * k + r && r < 1026
    ensures s / 1026 == k && s % 1026 == r
  {
  }

  lemma RoughAtLeast(size: nat, n: nat)
    requires 2048 <= size < 0x1_0000_0000 && size >= 1024 * n - 984
    ensures Rough(size) >= n
  {
    var c := (size - 32) / 8;
    assert c >= 128 * n - 127;
    assert c * 4 + 511 >= 512 * n;
  }

  /** There are such sizes in every stretch: the first 18 at least. */
  lemma StretchFails(size: nat, k: nat)
    requires 2 <= k && 1026 * k + 24 <= size < 1026 * k + 42 && size < 0x1_0000_0000
    ensures !RoomForEntries(size)
  {
    var r := size - (1026 * k + 24);
    Stretch(size - 24, k, r);
    RoughAtLeast(size, if r < 16 then k else k + 1);
  }

  /** The largest size with room, just under 126 gibibytes. */
  const LARGEST := 264_240_167

  /** From some size on the first estimate is so far off that no table is long enough. */
  lemma FormatTooLarge(size: nat)
    requires LARGEST <= size < 0x1_0000_0000
    ensures RoomForEntries(size) <==> size == LARGEST
  {
    var k, r := (size - 24) / 1026, Rough(size);
    assert r == ((size - 32) / 8 + 127) / 128;
    assert size - 24 == 1026 * k + (size - 24) % 1026;
    assert 1024 * r >= size - 39;
  }

  /** The size that stands in for one that is too small has room. */
  lemma DefaultFits(size: nat)
    requires size < 2048
    ensures RoomForEntries(size) && NewGeometry(0, size).clusters == 8172 && FatSectors(size) == 64
  {
    assert Rough(size) == 64;
  }

  lemma HeadEntries(c: nat)
    requires c < 128
    ensures Le32(Headed(Blank()), c * 4) == (if c == 0 then 0x0FFF_FFF8 else if c <= 2 then END_MARK else 0)
  {
    var h := Headed(Blank());
    if c == 0 {
      assert h[0] == 0xF8 && h[1] == 0xFF && h[2] == 0xFF && h[3] == 0x0F;
    } else if c == 1 {
      assert h[4] == 0xFF && h[5] == 0xFF && h[6] == 0xFF && h[7] == 0x0F;
    } else if c == 2 {
      assert h[8] == 0xFF && h[9] == 0xFF && h[10] == 0xFF && h[11] == 0x0F;
    } else {
      assert h[c * 4] == 0 && h[c * 4 + 1] == 0 && h[c * 4 + 2] == 0 && h[c * 4 + 3] == 0;
    }
  }

  lemma NewEntry(d: Disk, part: nat, size: nat, c: nat)
    requires part < 0x1_0000_0000 && size < 0x1_0000_0000 && part + SizeOf(size) <= |d| && Formatted(d, part, size)
    requires GeoOk(NewGeometry(part, size), |d|) && 2 <= c < NewGeometry(part, size).clusters + 2
    ensures RawEntry(d, NewGeometry(part, size), 0, c) == if c == 2 then END_MARK else 0
  {
    var g := NewGeometry(part, size);
    var s := c * 4 / 512;
    EntryOffset(c);
    assert s < g.fatSize && EntrySector(g, 0, c) == part + 32 + s;
    NewSector(d, part, size, s);
    if s == 0 {
      assert c < 128 && c * 4 % 512 == c * 4;
      HeadEntries(c);
    } else {
      BlankEntry(c * 4 % 512);
    }
  }

  lemma NewSector(d: Disk, part: nat, size: nat, s: nat)
    requires part < 0x1_0000_0000 && size < 0x1_0000_0000 && part + SizeOf(size) <= |d| && Formatted(d, part, size)
    requires s < FatSectors(size)
    ensures d[part + 32 + s] == if s == 0 then Headed(Blank()) else Blank()
  {
  }

  lemma BlankEntry(off: nat)
    requires off <= 508
    ensures Le32(Blank(), off) == 0
  {
  }

  lemma NewRoot(d: Disk, part: nat, size: nat)
    requires part < 0x1_0000_0000 && size < 0x1_0000_0000 && part + SizeOf(size) <= |d| && Formatted(d, part, size)
    requires GeoOk(NewGeometry(part, size), |d|)
    ensures NewGeometry(part, size).clusters >= 1
    ensures Cluster(d, NewGeometry(part, size), 2) == Zeros(4096)
  {
    var lba := part + 32 + 2 * FatSectors(size);
    BlankRun(d, lba, 8);
  }

  lemma {:induction false} BlankRun(d: Disk, lba: nat, n: nat)
    requires lba + n <= |d| && forall i :: lba <= i < lba + n ==> d[i] == Blank()
    ensures ReadN(d, lba, n) == Zeros(512 * n)
    decreases n
  {
    if n > 0 {
      BlankRun(d, lba + 1, n - 1);
    }
  }

  const NEW_LAYOUT := Layout([2], seq(128, _ => []))

  /** A new volume has nothing in it and every cluster but the root's is free. */
  lemma NewVolume(d: Disk, part: nat, size: nat)
    requires part < 0x1_0000_0000 && size < 0x1_0000_0000 && part + SizeOf(size) <= |d| && Formatted(d, part, size)
    requires RoomForEntries(size)
    ensures GeoOk(NewGeometry(part, size), |d|)
    ensures var v := ViewOf(d, NewGeometry(part, size));
            && Lays(v, 2, NEW_LAYOUT) && Files(v, 2, NEW_LAYOUT) == map[]
            && Foreign(v, NEW_LAYOUT) == {}
            && forall c: nat :: 3 <= c < |v.fat| ==> v.fat[c] == 0
  {
    FormatFits(part, size, |d|);
    NewView(d, part, size);
    NewLays(ViewOf(d, NewGeometry(part, size)));
  }

  lemma NewView(d: Disk, part: nat, size: nat)
    requires part < 0x1_0000_0000 && size < 0x1_0000_0000 && part + SizeOf(size) <= |d| && Formatted(d, part, size)
    requires GeoOk(NewGeometry(part, size), |d|)
    ensures var v := ViewOf(d, NewGeometry(part, size));
            && 3 <= |v.fat| == |v.data| && v.data[2] == Zeros(4096)
            && forall c: nat :: 2 <= c < |v.fat| ==> v.fat[c] == if c == 2 then END_MARK else 0
  {
    var v := ViewOf(d, NewGeometry(part, size));
    forall c: nat | 2 <= c < |v.fat|
      ensures v.fat[c] == if c == 2 then END_MARK else 0
    {
      NewEntry(d, part, size, c);
    }
    NewRoot(d, part, size);
  }

  lemma NewLays(v: View)
    requires 3 <= |v.fat| == |v.data| && v.data[2] == Zeros(4096)
    requires forall c: nat :: 2 <= c < |v.fat| ==> v.fat[c] == if c == 2 then END_MARK else 0
    ensures Lays(v, 2, NEW_LAYOUT) && Files(v, 2, NEW_LAYOUT) == map[] && Foreign(v, NEW_LAYOUT) == {}
  {
    var L := NEW_LAYOUT;
    assert IsChain(v.fat, 2, [2]);
    assert Slots(v.data, [2]) == Split(Zeros(4096)) + Slots(v.data, [2][1..]);
    ZeroSlots(4096);
    assert Lays(v, 2, L);
    assert 2 in L.root && Owned(L, 2);
    NoNames(v, 2, L);
  }

  lemma NoNames(v: View, root: nat, L: Layout)
    requires Lays(v, root, L) && InData(v.data, L.root)
    requires forall i :: 0 <= i < |Slots(v.data, L.root)| ==> !Live(Slots(v.data, L.root)[i])
    ensures Files(v, root, L) == map[]
  {
    assert Names(Slots(v.data, L.root), -1) == {};
  }

  /** The two copies of the table never agree on a new volume, because the second is not zeroed. */
  lemma NeverMirrored(d: Disk, part: nat, size: nat)
    requires part < 0x1_0000_0000 && size < 0x1_0000_0000 && part + SizeOf(size) <= |d| && Formatted(d, part, size)
    requires GeoOk(NewGeometry(part, size), |d|)
    ensures !Mirrored(d, NewGeometry(part, size))
  {
    var g := NewGeometry(part, size);
    assert CopySector(g, 1, 1) == part + 33 + g.fatSize by {
      TimesProduct(1, g.fatSize);
    }
    assert CopySector(g, 0, 1) == part + 33;
    assert Headed(Blank())[0] != Blank()[0];
  }

  method FormatAndMount(vol: Volume, part: nat, size: nat)
    requires part < 0x1_0000_0000 && size < 0x1_0000_0000 && part + SizeOf(size) <= |vol.disk|
    modifies vol
    ensures vol.mounted && vol.g == NewGeometry(part, size)
    ensures RoomForEntries(size) ==> Good(vol, NEW_LAYOUT) && FilesOf(vol, NEW_LAYOUT) == map[]
    ensures RoomForEntries(size) ==> Foreign(vol.view, NEW_LAYOUT) == {}
  {
    Format(vol, part, size);
    BootGeometry(part, size);
    FormatFits(part, size, |vol.disk|);
    var ok := Mount(vol, part);
    if RoomForEntries(size) {
      NewVolume(vol.disk, part, size);
    }
  }
}
