/** The table of supported LPC devices and the searches over it. */
module LpcDevices {
  import opened Bytes

  datatype Device = Device(prefix: string, checksumAddr: nat, ramStart: nat, sectors: nat, sectorTable: seq<nat>)

  const PREFIX_SIZE: nat := 5
  const SMALL: nat := 4096
  const LARGE: nat := 32768

  const LPC21 := Device("lpc21", 0x14, 0x40000000, 0, [])
  const LPC13 := Device("lpc13", 0x1C, 0x10000000, 8, Repeat(SMALL, 8))
  const LPC17 := Device("lpc17", 0x1C, 0x10000000, 30, Repeat(SMALL, 16) + Repeat(LARGE, 16))

  const DEVICES: seq<Device> := [LPC21, LPC13, LPC17]

  /** strncmp over the five characters of a prefix. */
  predicate Named(dev: string, d: Device) {
    PREFIX_SIZE <= |dev| && dev[..PREFIX_SIZE] == d.prefix
  }

  /** The first table row from i on whose prefix the name has. */
  function Search(dev: string, i: nat): (r: int)
    requires i <= |DEVICES|
    ensures r == -1 || (i <= r < |DEVICES| && Named(dev, DEVICES[r]))
    ensures r == -1 ==> forall k :: i <= k < |DEVICES| ==> !Named(dev, DEVICES[k])
    decreases |DEVICES| - i
  {
    if i == |DEVICES| then -1 else if Named(dev, DEVICES[i]) then i else Search(dev, i + 1)
  }

  /** A device whose sector sizes are in the table. */
  predicate HasSectors(d: Device) {
    1 <= d.sectors <= |d.sectorTable|
    && forall k :: 0 <= k < d.sectors ==> d.sectorTable[k] > 0 && d.sectorTable[k] % 512 == 0
  }

  function SectorStart(d: Device, k: nat): (a: nat)
    requires k <= |d.sectorTable|
  {
    if k == 0 then 0 else SectorStart(d, k - 1) + d.sectorTable[k - 1]
  }

  lemma {:induction false} SectorsAscend(d: Device, j: nat, k: nat)
    requires HasSectors(d) && j <= k <= d.sectors
    ensures SectorStart(d, j) <= SectorStart(d, k)
    ensures j < k ==> SectorStart(d, j) < SectorStart(d, k)
  {
    if j < k {
      SectorsAscend(d, j, k - 1);
    }
  }

  lemma {:induction false} SectorsAligned(d: Device, k: nat)
    requires HasSectors(d) && k <= d.sectors
    ensures SectorStart(d, k) % 512 == 0
  {
    if k > 0 {
      SectorsAligned(d, k - 1);
      Multiples(SectorStart(d, k - 1), d.sectorTable[k - 1]);
    }
  }

  lemma Multiples(a: nat, b: nat)
    requires a % 512 == 0 && b % 512 == 0
    ensures (a + b) % 512 == 0
  {
  }

  /** No two sectors share an address, so the sector of an address is unique. */
  lemma SectorUnique(d: Device, j: nat, k: nat, addr: nat)
    requires HasSectors(d) && j < d.sectors && k < d.sectors
    requires SectorStart(d, j) <= addr < SectorStart(d, j + 1)
    requires SectorStart(d, k) <= addr < SectorStart(d, k + 1)
    ensures j == k
  {
    if j < k {
      SectorsAscend(d, j + 1, k);
    } else if k < j {
      SectorsAscend(d, k + 1, j);
    }
  }

  lemma {:induction false} EqualSectors(d: Device, from: nat, n: nat, size: nat)
    requires from + n <= |d.sectorTable| && forall k :: from <= k < from + n ==> d.sectorTable[k] == size
    ensures SectorStart(d, from + n) == SectorStart(d, from) + n * size
  {
    if n > 0 {
      EqualSectors(d, from, n - 1, size);
      assert n * size == (n - 1) * size + size;
    }
  }

  /** Both families with a sector table are usable, and their flash is 32 and 512 kilobytes, the latter in sixteen
      sectors of 4 and fourteen of 32 kilobytes. */
  lemma TableFacts()
    ensures HasSectors(LPC13) && HasSectors(LPC17) && !HasSectors(LPC21)
    ensures SectorStart(LPC13, LPC13.sectors) == 32 * 1024
    ensures SectorStart(LPC17, 16) == 64 * 1024 && SectorStart(LPC17, LPC17.sectors) == 512 * 1024
  {
    EqualSectors(LPC13, 0, 8, SMALL);
    EqualSectors(LPC17, 0, 16, SMALL);
    EqualSectors(LPC17, 16, 14, LARGE);
    assert forall k :: 0 <= k < 30 ==> LPC17.sectorTable[k] == SMALL || LPC17.sectorTable[k] == LARGE;
    assert SMALL % 512 == 0 && LARGE % 512 == 0;
  }

  method GetChecksumAddr(dev: string) returns (addr: int)
    ensures addr == if Search(dev, 0) == -1 then -1 else DEVICES[Search(dev, 0)].checksumAddr
  {
    for i := 0 to |DEVICES|
      invariant Search(dev, 0) == Search(dev, i)
    {
      if Named(dev, DEVICES[i]) {
        return DEVICES[i].checksumAddr;
      }
    }
    addr := -1;
  }

  method GetRamStart(dev: string) returns (addr: int)
    ensures addr == if Search(dev, 0) == -1 then -1 else DEVICES[Search(dev, 0)].ramStart
  {
    for i := 0 to |DEVICES|
      invariant Search(dev, 0) == Search(dev, i)
    {
      if Named(dev, DEVICES[i]) {
        return DEVICES[i].ramStart;
      }
    }
    addr := -1;
  }

  /** lpc_device_lookup_sector_by_dev: the sector that holds addr; past the end, the last sector. */
  method LookupSector(d: Device, addr: nat) returns (sector: nat)
    requires HasSectors(d)
    ensures sector < d.sectors && SectorStart(d, sector) <= addr
    ensures addr < SectorStart(d, d.sectors) ==> SectorStart(d, sector) <= addr < SectorStart(d, sector + 1)
    ensures addr >= SectorStart(d, d.sectors) ==> sector == d.sectors - 1
  {
    var tmp, i := 0, 0;
    var more := true;
    while more
      invariant 0 <= i <= d.sectors && tmp == SectorStart(d, i)
      invariant more ==> i < d.sectors && tmp <= addr
      invariant !more ==> 1 <= i && SectorStart(d, i - 1) <= addr && (addr < tmp || i == d.sectors)
      decreases d.sectors - i, more
    {
      tmp := tmp + d.sectorTable[i];
      i := i + 1;
      more := i != d.sectors && tmp <= addr;
    }
    SectorsAscend(d, i, d.sectors);
    sector := i - 1;
  }

  method GetSectorNumber(dev: string, addr: nat) returns (sector: int)
    requires forall k :: 0 <= k < |DEVICES| && Named(dev, DEVICES[k]) ==> HasSectors(DEVICES[k])
    ensures Search(dev, 0) == -1 ==> sector == -1
    ensures Search(dev, 0) != -1 ==>
      var d := DEVICES[Search(dev, 0)];
      && 0 <= sector < d.sectors
      && (addr < SectorStart(d, d.sectors) ==> SectorStart(d, sector) <= addr < SectorStart(d, sector + 1))
      && (addr >= SectorStart(d, d.sectors) ==> sector == d.sectors - 1)
  {
    for i := 0 to |DEVICES|
      invariant Search(dev, 0) == Search(dev, i)
    {
      if Named(dev, DEVICES[i]) {
        sector := LookupSector(DEVICES[i], addr);
        return;
      }
    }
    sector := -1;
  }
}
