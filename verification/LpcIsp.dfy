/** Programming an LPC device through its serial bootloader.

    The device is RAM, flash and a set of prepared sectors. Each command either is obeyed, under the
    conditions the part's user manual sets, or is lost and reports an error. Data reaches RAM through the
    block transfer of LpcTransfer, under any pattern of acknowledgements.
 */
module LpcIsp {
  import opened Bytes
  import opened FlashCells
  import opened LpcDevices
  import opened LpcTransfer
  import opened VectorChecksum

  const PAGE: nat := 512
  const RAM_BUFFER: nat := 0x300
  const COPY_ALIGNMENT: nat := 256
  const REFUSED: int := 1

  /** One RAM-to-flash copy, asked for or carried out, with the sectors that were prepared for it. */
  datatype Copy = Copy(at: nat, size: nat, prepared: set<int>)

  /** The sector numbers a to b. */
  function Sectors(a: int, b: int): (s: set<int>)
    ensures forall k :: k in s <==> a <= k <= b
    decreases b - a
  {
    if b < a then {} else {a} + Sectors(a + 1, b)
  }

  predicate Overlaps(d: Device, k: nat, at: nat, size: nat)
    requires k < |d.sectorTable|
  {
    SectorStart(d, k) < at + size && at < SectorStart(d, k + 1)
  }

  /** A copy lies wholly inside one sector, and that sector is the only one prepared. */
  ghost predicate Confined(d: Device, c: Copy) {
    exists k: nat :: k < |d.sectorTable| && c.prepared == {k}
      && SectorStart(d, k) <= c.at && c.at + c.size <= SectorStart(d, k + 1)
  }

  function Overwrite(ram: seq<byte>, at: nat, data: seq<byte>): (after: seq<byte>)
    requires at + |data| <= |ram|
    ensures |after| == |ram| && after[at..at + |data|] == data
  {
    ram[..at] + data + ram[at + |data|..]
  }

  // ---------------------------------------------------------------- the device

  class Target {
    const layout: Device
    /** The number of sectors this part really has. */
    const count: nat
    /** Whether the i-th command is obeyed, and what happens to the exchanges of the t-th transfer. */
    const obeys: nat -> bool
    const lines: nat -> (nat -> Outcome)
    var commands: nat
    var transfers: nat
    var ram: seq<byte>
    var flash: seq<byte>
    var prepared: set<int>
    /** Every copy the host has asked for, and those of them that the device has carried out. */
    ghost var requests: seq<Copy>
    ghost var copies: seq<Copy>

    ghost predicate Valid()
      reads this
    {
      HasSectors(layout) && 1 <= count <= layout.sectors && |flash| == SectorStart(layout, count)
    }

    /** Every command is obeyed and every transfer goes through. */
    ghost predicate Obedient() {
      (forall i: nat :: obeys(i)) && forall t: nat, i: nat :: lines(t)(i) == Good
    }

    predicate InRam(addr: int, size: nat)
      reads this`ram
    {
      layout.ramStart <= addr && addr + size <= layout.ramStart + |ram|
    }

    function RamAt(addr: int, size: nat): seq<byte>
      requires InRam(addr, size)
      reads this`ram
    {
      ram[addr - layout.ramStart..addr - layout.ramStart + size]
    }

    method Accept() returns (ok: bool)
      modifies this`commands
      ensures Obedient() ==> ok
    {
      ok := obeys(commands);
      commands := commands + 1;
    }

    /** P: prepares sectors a to b for an erase or a write. */
    method PrepSector(a: int, b: int) returns (ret: int)
      modifies this`commands, this`prepared
      ensures ret == 0 ==> 0 <= a <= b < count
      ensures Obedient() && 0 <= a <= b < count ==> ret == 0
      ensures prepared == if ret == 0 then old(prepared) + Sectors(a, b) else old(prepared)
    {
      var ok := Accept();
      if !ok || !(0 <= a <= b < count) {
        return REFUSED;
      }
      prepared := prepared + Sectors(a, b);
      ret := 0;
    }

    /** E: erases sectors a to b, which must be prepared. */
    method EraseSector(a: int, b: int) returns (ret: int)
      requires Valid()
      modifies this`commands, this`prepared, this`flash
      ensures Valid()
      ensures ret == 0 ==> 0 <= a <= b < count && Sectors(a, b) <= old(prepared)
      ensures Obedient() && 0 <= a <= b < count && Sectors(a, b) <= old(prepared) ==> ret == 0
      ensures ret == 0 ==> prepared == {}
      ensures ret == 0 ==> flash == Erase(old(flash), SectorStart(layout, a), SectorStart(layout, b + 1))
      ensures ret != 0 ==> flash == old(flash)
    {
      var ok := Accept();
      if !ok || !(0 <= a <= b < count) || !(Sectors(a, b) <= prepared) {
        return REFUSED;
      }
      flash := Erase(flash, SectorStart(layout, a), SectorStart(layout, b + 1));
      prepared := {};
      ret := 0;
    }

    /** I: the result of a blank check is unsigned, and the host only looks for a negative one. */
    method BlankCheckSector(a: int, b: int) returns (ret: nat)
      modifies this`commands
    {
      var ok := Accept();
      ret := if ok then 0 else REFUSED;
    }

    /** W: one block transfer into RAM (LpcPhy::wr_ram). */
    method WriteRam(addr: int, data: seq<byte>) returns (ret: int)
      requires Valid() && |data| == PAGE
      modifies this`commands, this`transfers, this`ram
      ensures |ram| == |old(ram)|
      ensures ret == 0 ==> InRam(addr, PAGE) && RamAt(addr, PAGE) == data
      ensures Obedient() && old(InRam(addr, PAGE)) ==> ret == 0
    {
      var ok := Accept();
      if !ok || !InRam(addr, |data|) {
        return REFUSED;
      }
      var session := new Session(lines(transfers));
      transfers := transfers + 1;
      var sent := WriteData(session, data);
      CoveredIffChecked(PAGE);
      ram := Overwrite(ram, addr - layout.ramStart, session.memory);
      if sent != |data| {
        return -1;
      }
      ret := 0;
    }

    /** C: copies RAM to flash. The range must be aligned and every sector it touches prepared; the sectors
        are locked again afterwards. */
    method CopyRamToFlash(at: nat, addr: int, size: nat) returns (ret: int)
      requires Valid()
      modifies this`commands, this`prepared, this`flash, this`copies, this`requests
      ensures Valid()
      ensures ret == 0 ==> Copyable(at, addr, size, old(prepared))
      ensures Obedient() && old(Copyable(at, addr, size, prepared)) ==> ret == 0
      ensures ret == 0 ==> prepared == {} && flash == Burn(old(flash), at, RamAt(addr, size))
      ensures ret == 0 ==> copies == old(copies) + [Copy(at, size, old(prepared))]
      ensures ret != 0 ==> flash == old(flash) && copies == old(copies)
      ensures requests == old(requests) + [Copy(at, size, old(prepared))]
    {
      requests := requests + [Copy(at, size, prepared)];
      var ok := Accept();
      if !ok || !Copyable(at, addr, size, prepared) {
        return REFUSED;
      }
      copies := copies + [Copy(at, size, prepared)];
      flash := Burn(flash, at, RamAt(addr, size));
      prepared := {};
      ret := 0;
    }

    predicate Copyable(at: nat, addr: int, size: nat, ready: set<int>)
      requires HasSectors(layout) && count <= layout.sectors
      reads this`ram, this`flash
    {
      && at % COPY_ALIGNMENT == 0 && size in {256, 512, 1024, 4096}
      && at + size <= |flash| && InRam(addr, size)
      && forall k: nat :: k < count && Overlaps(layout, k, at, size) ==> k in ready
    }

    /** M: compares RAM with flash. */
    method Compare(addr: int, at: nat, size: nat) returns (ret: int)
      requires Valid()
      modifies this`commands
      ensures ret == 0 ==> Equal(addr, at, size)
      ensures Obedient() && Equal(addr, at, size) ==> ret == 0
    {
      var ok := Accept();
      ret := if ok && Equal(addr, at, size) then 0 else REFUSED;
    }

    predicate Equal(addr: int, at: nat, size: nat)
      reads this`ram, this`flash
    {
      InRam(addr, size) && at + size <= |flash| && RamAt(addr, size) == flash[at..at + size]
    }
  }

  // ---------------------------------------------------------------- sectors and pages

  /** The sector that holds an address. */
  lemma {:induction false} FindSector(d: Device, addr: nat, n: nat) returns (k: nat)
    requires HasSectors(d) && n <= d.sectors && addr < SectorStart(d, n)
    ensures k < n && SectorStart(d, k) <= addr < SectorStart(d, k + 1)
  {
    if SectorStart(d, n - 1) <= addr {
      k := n - 1;
    } else {
      k := FindSector(d, addr, n - 1);
    }
  }

  /** A copy the device accepts with one sector prepared stays inside that sector. */
  lemma AcceptedIsConfined(d: Device, count: nat, at: nat, size: nat, sector: nat)
    requires HasSectors(d) && count <= d.sectors && sector < count && size > 0 && at + size <= SectorStart(d, count)
    requires forall k: nat :: k < count && Overlaps(d, k, at, size) ==> k in {sector as int}
    ensures Confined(d, Copy(at, size, {sector}))
  {
    var first := FindSector(d, at, count);
    var last := FindSector(d, at + size - 1, count);
    assert Overlaps(d, first, at, size) && Overlaps(d, last, at, size);
    assert first == sector && last == sector;
  }

  lemma PageMultiple(n: nat)
    ensures PAGE * n % PAGE == 0
  {
  }

  lemma AlignedPage(at: nat, end: nat)
    requires at % PAGE == 0 && end % PAGE == 0 && at < end
    ensures at + PAGE <= end && at % COPY_ALIGNMENT == 0
  {
    var p, q := at / PAGE, end / PAGE;
    assert at == PAGE * p && end == PAGE * q;
    Below(PAGE, p, q);
    Twice(p);
  }

  lemma Twice(p: nat)
    ensures PAGE * p % COPY_ALIGNMENT == 0
  {
    assert PAGE * p == COPY_ALIGNMENT * (2 * p);
  }

  /** An aligned page starting in a sector ends in it, so preparing that sector is enough. */
  lemma PageInSector(d: Device, count: nat, at: nat, sector: nat)
    requires HasSectors(d) && sector < count <= d.sectors && at % PAGE == 0
    requires SectorStart(d, sector) <= at < SectorStart(d, sector + 1)
    ensures at % COPY_ALIGNMENT == 0
    ensures at + PAGE <= SectorStart(d, sector + 1) <= SectorStart(d, count)
    ensures forall k: nat :: k < count && Overlaps(d, k, at, PAGE) ==> k == sector
  {
    SectorsAligned(d, sector + 1);
    AlignedPage(at, SectorStart(d, sector + 1));
    SectorsAscend(d, sector + 1, count);
    forall k: nat | k < count && Overlaps(d, k, at, PAGE)
      ensures k == sector
    {
      if k < sector {
        SectorsAscend(d, k + 1, sector);
      } else if sector < k {
        SectorsAscend(d, sector + 1, k);
      }
    }
  }

  function Pages(n: nat): nat { (n + PAGE - 1) / PAGE }

  /** The contents of page p of an image; the last page is padded with 0xFF. */
  function PageOf(image: seq<byte>, p: nat): (s: seq<byte>)
    ensures |s| == PAGE
  {
    seq<byte>(PAGE, i requires 0 <= i < PAGE => ImageAt(image, PAGE * p + i))
  }

  /** Flash after the first n pages of an image have been dealt with: blank pages are left alone. */
  function Written(base: seq<byte>, image: seq<byte>, n: nat): (flash: seq<byte>)
    ensures |flash| == |base|
  {
    seq(|base|, a requires 0 <= a < |base| =>
      if a < PAGE * n && PageOf(image, a / PAGE) != Blank(PAGE) then ImageAt(image, a) else base[a])
  }

  /** No page that the device has no room for needed programming. */
  ghost predicate FitsPages(size: nat, image: seq<byte>, n: nat) {
    forall p: nat :: p < n && PageOf(image, p) != Blank(PAGE) ==> PAGE * p + PAGE <= size
  }

  lemma PageByte(image: seq<byte>, a: nat)
    ensures PageOf(image, a / PAGE)[a % PAGE] == ImageAt(image, a)
  {
  }

  /** A skipped page changes nothing. */
  lemma SkipPage(base: seq<byte>, image: seq<byte>, n: nat)
    requires PageOf(image, n) == Blank(PAGE)
    ensures Written(base, image, n + 1) == Written(base, image, n)
  {
    forall a | 0 <= a < |base|
      ensures Written(base, image, n + 1)[a] == Written(base, image, n)[a]
    {
      if PAGE * n <= a < PAGE * n + PAGE { assert a / PAGE == n; }
    }
  }

  /** A programmed page holds its contents, because it was erased or because it compared equal. */
  lemma WritePage(base: seq<byte>, image: seq<byte>, n: nat, after: seq<byte>)
    requires PAGE * n + PAGE <= |base| && PageOf(image, n) != Blank(PAGE)
    requires after == Burn(Written(base, image, n), PAGE * n, PageOf(image, n))
    requires IsBlank(base[PAGE * n..PAGE * n + PAGE]) || after[PAGE * n..PAGE * n + PAGE] == PageOf(image, n)
    ensures after == Written(base, image, n + 1)
  {
    forall a | 0 <= a < |base|
      ensures after[a] == Written(base, image, n + 1)[a]
    {
      if PAGE * n <= a < PAGE * n + PAGE {
        WritePageByte(base, image, n, after, a);
        assert a / PAGE == n;
      } else {
        WriteElsewhere(base, image, n, a);
      }
    }
  }

  lemma WriteElsewhere(base: seq<byte>, image: seq<byte>, n: nat, a: nat)
    requires PAGE * n + PAGE <= |base| && a < |base| && !(PAGE * n <= a < PAGE * n + PAGE)
    ensures Burn(Written(base, image, n), PAGE * n, PageOf(image, n))[a] == Written(base, image, n + 1)[a]
  {
    BurnAt(Written(base, image, n), PAGE * n, PageOf(image, n), a);
    assert a < PAGE * n <==> a < PAGE * (n + 1);
  }

  lemma WritePageByte(base: seq<byte>, image: seq<byte>, n: nat, after: seq<byte>, a: nat)
    requires PAGE * n + PAGE <= |base| && PAGE * n <= a < PAGE * n + PAGE
    requires after == Burn(Written(base, image, n), PAGE * n, PageOf(image, n))
    requires IsBlank(base[PAGE * n..PAGE * n + PAGE]) || after[PAGE * n..PAGE * n + PAGE] == PageOf(image, n)
    ensures after[a] == ImageAt(image, a)
  {
    var i := a - PAGE * n;
    assert a / PAGE == n && a % PAGE == i;
    PageByte(image, a);
    if IsBlank(base[PAGE * n..PAGE * n + PAGE]) {
      assert base[a] == base[PAGE * n..PAGE * n + PAGE][i];
      BurnAt(Written(base, image, n), PAGE * n, PageOf(image, n), a);
    } else {
      assert after[a] == after[PAGE * n..PAGE * n + PAGE][i];
    }
  }

  // ---------------------------------------------------------------- the source's operations

  /** LpcIsp::erase_dev: counts the sectors by preparing ever longer ranges until the device refuses, then
      erases them. The number found can fall short of the real one only if a command was lost. */
  method EraseDev(t: Target) returns (ret: int, sectors: int)
    requires t.Valid() && t.prepared == {}
    modifies t
    ensures t.Valid() && t.ram == old(t.ram) && t.copies == old(t.copies) && t.requests == old(t.requests)
    ensures ret == 0 ==> 1 <= sectors <= t.count && t.prepared == {}
    ensures ret == 0 ==> t.flash == Erase(old(t.flash), 0, SectorStart(t.layout, sectors))
    ensures t.Obedient() ==> ret == 0 && sectors == t.count
  {
    sectors := 0;
    ret := 0;
    while ret == 0
      invariant t.Valid() && t.ram == old(t.ram) && t.flash == old(t.flash)
      invariant t.copies == old(t.copies) && t.requests == old(t.requests)
      invariant 0 <= sectors <= t.count && t.prepared == Sectors(0, sectors - 1)
      invariant t.Obedient() && ret != 0 ==> sectors == t.count
      decreases t.count - sectors, ret == 0
    {
      ret := t.PrepSector(0, sectors);
      if ret == 0 {
        sectors := sectors + 1;
      }
    }
    ret := t.EraseSector(0, sectors - 1);
    if ret != 0 {
      return -1, sectors;
    }
    var _ := t.BlankCheckSector(1, sectors - 1);
    ret := 0;
  }

  /** LpcPhy::writemem for at most one page: RAM, prepare, copy, RAM again, compare. Sector 0 is not
      compared, because the boot loader is mapped over it. */
  method WriteMem(t: Target, ramBuffer: int, loc: nat, data: seq<byte>, sector: nat) returns (written: nat)
    requires t.Valid() && t.prepared == {} && 1 <= |data| <= PAGE
    modifies t
    ensures t.Valid() && |t.ram| == |old(t.ram)|
    ensures written == |data| || written == 0
    ensures written == |data| ==> t.prepared == {} && loc + PAGE <= |t.flash|
    ensures written == |data| ==> t.flash == Burn(old(t.flash), loc, PageOf(data, 0))
    ensures written == |data| && sector != 0 ==> t.flash[loc..loc + PAGE] == PageOf(data, 0)
    ensures t.copies == old(t.copies) || exists c :: Confined(t.layout, c) && t.copies == old(t.copies) + [c]
    ensures t.requests == old(t.requests) || t.requests == old(t.requests) + [Copy(loc, PAGE, {sector})]
    ensures t.Obedient() && old(Ready(t, ramBuffer, loc, sector)) ==> written == |data|
  {
    var page := PageBuffer(data);
    var ok := ProgramPage(t, ramBuffer, loc, page, sector);
    if !ok {
      return 0;
    }
    ok := CheckPage(t, ramBuffer, loc, page, sector);
    written := if ok then |data| else 0;
  }

  /** The first half of writemem: the page goes to RAM, its sector is prepared, and RAM is copied to flash. */
  method ProgramPage(t: Target, ramBuffer: int, loc: nat, page: seq<byte>, sector: nat) returns (ok: bool)
    requires t.Valid() && t.prepared == {} && |page| == PAGE
    modifies t
    ensures t.Valid() && |t.ram| == |old(t.ram)|
    ensures ok ==> t.prepared == {} && loc + PAGE <= |t.flash| && t.flash == Burn(old(t.flash), loc, page)
    ensures ok ==> exists c :: Confined(t.layout, c) && t.copies == old(t.copies) + [c]
    ensures !ok ==> t.copies == old(t.copies)
    ensures t.requests == old(t.requests) || t.requests == old(t.requests) + [Copy(loc, PAGE, {sector})]
    ensures t.Obedient() && old(Ready(t, ramBuffer, loc, sector)) ==> ok && t.flash[loc..loc + PAGE] == page
  {
    ghost var ready := Ready(t, ramBuffer, loc, sector);
    if ready {
      PageInSector(t.layout, t.count, loc, sector);
      BurnBlank(t.flash, loc, page);
    }
    var ret := t.WriteRam(ramBuffer, page);
    if ret != 0 {
      return false;
    }
    ret := t.PrepSector(sector, sector);
    if ret != 0 {
      return false;
    }
    assert t.prepared == {sector as int};
    assert ready ==> t.Copyable(loc, ramBuffer, PAGE, t.prepared);
    ret := t.CopyRamToFlash(loc, ramBuffer, PAGE);
    if ret != 0 {
      return false;
    }
    AcceptedIsConfined(t.layout, t.count, loc, PAGE, sector);
    ok := true;
  }

  /** The second half: the page goes to RAM again and, except in sector 0, is compared with flash. */
  method CheckPage(t: Target, ramBuffer: int, loc: nat, page: seq<byte>, sector: nat) returns (ok: bool)
    requires t.Valid() && |page| == PAGE && loc + PAGE <= |t.flash|
    modifies t`ram, t`commands, t`transfers
    ensures t.Valid() && |t.ram| == |old(t.ram)|
    ensures ok && sector != 0 ==> t.flash[loc..loc + PAGE] == page
    ensures t.Obedient() && old(t.InRam(ramBuffer, PAGE)) && t.flash[loc..loc + PAGE] == page ==> ok
  {
    var ret := t.WriteRam(ramBuffer, page);
    if ret != 0 {
      return false;
    }
    if sector != 0 {
      ret := t.Compare(ramBuffer, loc, PAGE);
    }
    ok := ret == 0;
  }

  /** What an obedient device needs to take a page: room in RAM, the right sector, and erased cells. */
  ghost predicate Ready(t: Target, ramBuffer: int, loc: nat, sector: nat)
    requires t.Valid()
    reads t
  {
    && t.InRam(ramBuffer, PAGE) && loc % PAGE == 0 && sector < t.count
    && SectorStart(t.layout, sector) <= loc < SectorStart(t.layout, sector + 1)
    && loc + PAGE <= |t.flash| && IsBlank(t.flash[loc..loc + PAGE])
  }

  /** The page buffer: memset to 0xFF, then memcpy. */
  method PageBuffer(data: seq<byte>) returns (page: seq<byte>)
    requires |data| <= PAGE
    ensures page == PageOf(data, 0)
  {
    page := data + Blank(PAGE - |data|);
    forall i | 0 <= i < PAGE
      ensures page[i] == PageOf(data, 0)[i]
    {
      assert page[i] == ImageAt(data, i);
    }
  }

  /** The scan that decides whether a page needs programming. */
  method NeedsProgramming(data: seq<byte>) returns (needed: bool)
    ensures needed <==> !IsBlank(data)
  {
    var j := 0;
    while j < |data| && data[j] == ERASED
      invariant j <= |data| && forall k :: 0 <= k < j ==> data[k] == ERASED
    {
      j := j + 1;
    }
    needed := j < |data|;
  }

  lemma BlankPage(image: seq<byte>, p: nat, size: nat)
    requires size == Min(PAGE, |image| - PAGE * p) && 0 <= size
    ensures IsBlank(image[PAGE * p..PAGE * p + size]) <==> PageOf(image, p) == Blank(PAGE)
    ensures PageOf(image[PAGE * p..PAGE * p + size], 0) == PageOf(image, p)
  {
    var data, page := image[PAGE * p..PAGE * p + size], PageOf(image, p);
    forall i | 0 <= i < PAGE
      ensures PageOf(data, 0)[i] == page[i]
      ensures i < size ==> page[i] == data[i]
      ensures i >= size ==> page[i] == ERASED
    {
      assert page[i] == ImageAt(image, PAGE * p + i);
      assert PageOf(data, 0)[i] == ImageAt(data, i);
    }
    if page == Blank(PAGE) {
      forall i | 0 <= i < size ensures data[i] == ERASED {
        assert page[i] == Blank(PAGE)[i];
      }
    }
  }

  /** What the page loop keeps: flash is the base with the first n pages dealt with, nothing that needed
      programming was out of reach, and every copy so far was confined to its prepared sector. */
  ghost predicate Progress(t: Target, base: seq<byte>, image: seq<byte>, n: nat)
    requires t.Valid()
    reads t
  {
    t.prepared == {} && t.flash == Written(base, image, n) && FitsPages(|base|, image, n) && AllConfined(t)
  }

  ghost predicate AllConfined(t: Target)
    reads t`copies
  {
    forall c :: c in t.copies ==> Confined(t.layout, c)
  }

  /** A copy the host asks for: below the end of the sector table it lies wholly inside one sector, which is the
      only one prepared; past the end, where the table has no sector, the last one is prepared. */
  ghost predicate Aimed(d: Device, c: Copy)
    requires HasSectors(d)
  {
    if c.at < SectorStart(d, d.sectors) then Confined(d, c) else c.prepared == {d.sectors - 1}
  }

  ghost predicate AllAimed(t: Target)
    requires HasSectors(t.layout)
    reads t`requests
  {
    forall c :: c in t.requests ==> Aimed(t.layout, c)
  }

  /** Preparing the sector that the lookup finds is right, on every device of the family, whatever the device
      itself checks. */
  lemma LookupAims(d: Device, at: nat, sector: nat)
    requires HasSectors(d) && at % PAGE == 0 && sector < d.sectors
    requires at < SectorStart(d, d.sectors) ==> SectorStart(d, sector) <= at < SectorStart(d, sector + 1)
    requires at >= SectorStart(d, d.sectors) ==> sector == d.sectors - 1
    ensures Aimed(d, Copy(at, PAGE, {sector}))
  {
    if at < SectorStart(d, d.sectors) {
      PageInSector(d, d.sectors, at, sector);
    }
  }

  /** The first sector of a base is erased. */
  ghost predicate FirstSectorErased(d: Device, base: seq<byte>)
    requires HasSectors(d)
  {
    forall a :: 0 <= a < SectorStart(d, 1) && a < |base| ==> base[a] == ERASED
  }

  /** A page that writemem reports as written is stored: outside sector 0 it compared equal, and sector 0 was
      erased before. */
  lemma PageStored(d: Device, base: seq<byte>, image: seq<byte>, n: nat, after: seq<byte>, sector: nat)
    requires HasSectors(d) && FirstSectorErased(d, base) && sector < d.sectors
    requires PAGE * n + PAGE <= |base| && PageOf(image, n) != Blank(PAGE)
    requires SectorStart(d, sector) <= PAGE * n < SectorStart(d, sector + 1)
    requires after == Burn(Written(base, image, n), PAGE * n, PageOf(image, n))
    requires sector != 0 ==> after[PAGE * n..PAGE * n + PAGE] == PageOf(image, n)
    ensures after == Written(base, image, n + 1)
  {
    if sector == 0 {
      SectorsAligned(d, 1);
      PageMultiple(n);
      AlignedPage(PAGE * n, SectorStart(d, 1));
    }
    WritePage(base, image, n, after);
  }

  /** One page of the loop in write_progmem. */
  method PutPage(t: Target, dev: string, ramBuffer: int, ghost base: seq<byte>, image: seq<byte>, ghost n: nat,
      done: nat, size: nat)
      returns (ok: bool)
    requires t.Valid() && SameDevice(t, dev) && done == PAGE * n && size == Min(PAGE, |image| - done) && 0 < size
    requires FirstSectorErased(t.layout, base) && Progress(t, base, image, n) && AllAimed(t)
    modifies t
    ensures t.Valid() && |t.ram| == |old(t.ram)|
    ensures AllConfined(t) && AllAimed(t)
    ensures ok ==> Progress(t, base, image, n + 1)
    ensures t.Obedient() && IsBlank(base) && done + PAGE <= |base| && old(t.InRam(ramBuffer, PAGE)) ==> ok
  {
    BlankPage(image, n, size);
    var data := image[done..done + size];
    var needed := NeedsProgramming(data);
    if needed {
      ok := StorePage(t, dev, ramBuffer, base, image, n, done, size);
    } else {
      SkipKeepsProgress(t, base, image, n);
      ok := true;
    }
  }

  lemma SkipKeepsProgress(t: Target, base: seq<byte>, image: seq<byte>, n: nat)
    requires t.Valid() && Progress(t, base, image, n) && PageOf(image, n) == Blank(PAGE)
    ensures Progress(t, base, image, n + 1)
  {
    SkipPage(base, image, n);
  }

  method StorePage(t: Target, dev: string, ramBuffer: int, ghost base: seq<byte>, image: seq<byte>, ghost n: nat,
      done: nat, size: nat)
      returns (ok: bool)
    requires t.Valid() && SameDevice(t, dev) && done == PAGE * n && size == Min(PAGE, |image| - done) && 0 < size
    requires PageOf(image, n) != Blank(PAGE)
    requires FirstSectorErased(t.layout, base) && Progress(t, base, image, n) && AllAimed(t)
    modifies t
    ensures t.Valid() && |t.ram| == |old(t.ram)|
    ensures AllConfined(t) && AllAimed(t)
    ensures ok ==> Progress(t, base, image, n + 1)
    ensures t.Obedient() && IsBlank(base) && done + PAGE <= |base| && old(t.InRam(ramBuffer, PAGE)) ==> ok
  {
    var sector := GetSectorNumber(dev, done);
    SectorsAscend(t.layout, t.count, t.layout.sectors);
    if IsBlank(base) && done + PAGE <= |base| {
      UntouchedPage(base, image, n);
      SectorExists(t.layout, t.count, done, sector);
    }
    PageMultiple(n);
    LookupAims(t.layout, done, sector);
    var data := image[done..done + size];
    assert PageOf(data, 0) == PageOf(image, n) by {
      BlankPage(image, n, size);
    }
    var written := WriteMem(t, ramBuffer, done, data, sector);
    ok := written == size;
    if ok {
      PageStored(t.layout, base, image, n, t.flash, sector);
    }
  }

  lemma UntouchedPage(base: seq<byte>, image: seq<byte>, n: nat)
    requires IsBlank(base) && PAGE * n + PAGE <= |base|
    ensures IsBlank(Written(base, image, n)[PAGE * n..PAGE * n + PAGE])
  {
  }

  lemma SectorExists(d: Device, count: nat, addr: nat, sector: nat)
    requires HasSectors(d) && count <= d.sectors && sector < d.sectors
    requires SectorStart(d, sector) <= addr < SectorStart(d, count)
    ensures sector < count
  {
    if count <= sector {
      SectorsAscend(d, count, sector);
    }
  }

  /** The device programmed is the one that was named, and its family has a sector table. */
  ghost predicate SameDevice(t: Target, dev: string) {
    Search(dev, 0) != -1 && t.layout == DEVICES[Search(dev, 0)] && HasSectors(t.layout)
    && forall k :: 0 <= k < |DEVICES| && Named(dev, DEVICES[k]) ==> HasSectors(DEVICES[k])
  }

  /** How much of an image has been dealt with after n pages. */
  function Dealt(image: seq<byte>, n: nat): nat {
    if PAGE * n < |image| then PAGE * n else |image|
  }

  /** The progress callback lets the first n pages pass. */
  ghost predicate NotStopped(stop: nat -> bool, image: seq<byte>, n: nat) {
    forall k: nat :: 1 <= k <= n ==> !stop(Dealt(image, k))
  }

  lemma SameStops(stop: nat -> bool, image: seq<byte>, file: seq<byte>, n: nat)
    requires |image| == |file|
    ensures NotStopped(stop, image, n) <==> NotStopped(stop, file, n)
  {
    assert forall k: nat :: Dealt(image, k) == Dealt(file, k);
  }

  /** LpcIsp::write_progmem: the image page by page. A progress callback may ask to stop. */
  method WriteProgmem(t: Target, dev: string, ramBuffer: int, image: seq<byte>, stop: nat -> bool)
      returns (written: nat)
    requires t.Valid() && SameDevice(t, dev) && image != [] && t.prepared == {} && AllConfined(t) && AllAimed(t)
    requires FirstSectorErased(t.layout, t.flash)
    modifies t
    ensures t.Valid() && AllConfined(t) && AllAimed(t)
    ensures written == |image| || written == 0
    ensures written == |image| ==> Progress(t, old(t.flash), image, Pages(|image|))
    ensures written == |image| ==> NotStopped(stop, image, Pages(|image|))
    ensures t.Obedient() && IsBlank(old(t.flash)) && |image| <= |old(t.flash)| && old(t.InRam(ramBuffer, PAGE)) ==>
      (written == |image| <==> NotStopped(stop, image, Pages(|image|)))
  {
    ghost var base, pages := t.flash, 0;
    FlashAligned(t);
    StartsUnwritten(base, image);
    written := 0;
    while written < |image|
      invariant t.Valid() && |t.ram| == |old(t.ram)| && Progress(t, base, image, pages) && AllAimed(t)
      invariant written == Dealt(image, pages) && pages <= Pages(|image|) && NotStopped(stop, image, pages)
      decreases |image| - written
    {
      var size := if |image| - written > PAGE then PAGE else |image| - written;
      PageBounds(|image|, |base|, pages);
      var ok := PutPage(t, dev, ramBuffer, base, image, pages, written, size);
      if !ok {
        return 0;
      }
      pages := pages + 1;
      written := written + size;
      assert written == Dealt(image, pages);
      if stop(written) {
        return 0;
      }
    }
    assert pages == Pages(|image|);
  }

  lemma FlashAligned(t: Target)
    requires t.Valid()
    ensures |t.flash| % PAGE == 0
  {
    SectorsAligned(t.layout, t.count);
  }

  lemma StartsUnwritten(base: seq<byte>, image: seq<byte>)
    ensures Written(base, image, 0) == base
  {
  }

  lemma PageBounds(size: nat, room: nat, n: nat)
    requires PAGE * n < size && room % PAGE == 0
    ensures n + 1 <= Pages(size) && (size <= PAGE * n + PAGE ==> n + 1 == Pages(size))
    ensures size <= room ==> PAGE * n + PAGE <= room
  {
    PageMultiple(n);
    AlignedPage(PAGE * n, if PAGE * n < room then room else PAGE * n + PAGE);
  }

  /** Flash holds an image: its bytes from the start, 0xFF after it, and nothing of it left out. */
  ghost predicate Holds(flash: seq<byte>, image: seq<byte>) {
    && (forall a :: 0 <= a < |flash| ==> flash[a] == ImageAt(image, a))
    && (forall a :: |flash| <= a < |image| ==> image[a] == ERASED)
  }

  /** Where the result of programming can differ from the image: in a skipped page the base is still there. */
  ghost predicate Skipped(image: seq<byte>, a: nat) {
    a >= PAGE * Pages(|image|) || PageOf(image, a / PAGE) == Blank(PAGE)
  }

  /** After all pages, flash holds the image exactly when the base was erased wherever nothing was written;
      an erased base is always enough. */
  lemma HoldsIffErased(base: seq<byte>, image: seq<byte>)
    requires |base| % PAGE == 0 && FitsPages(|base|, image, Pages(|image|))
    ensures Holds(Written(base, image, Pages(|image|)), image)
      <==> forall a: nat :: a < |base| && Skipped(image, a) ==> base[a] == ERASED
    ensures IsBlank(base) ==> Holds(Written(base, image, Pages(|image|)), image)
  {
    var flash := Written(base, image, Pages(|image|));
    forall a: nat | a < |base|
      ensures Skipped(image, a) ==> flash[a] == base[a] && ImageAt(image, a) == ERASED
      ensures !Skipped(image, a) ==> flash[a] == ImageAt(image, a)
    {
      if Skipped(image, a) {
        SkippedByte(image, a);
      }
    }
    forall a: nat | |base| <= a < |image|
      ensures image[a] == ERASED
    {
      BeyondFlash(|base|, image, a);
    }
  }

  lemma SkippedByte(image: seq<byte>, a: nat)
    requires Skipped(image, a)
    ensures ImageAt(image, a) == ERASED
  {
    if a < PAGE * Pages(|image|) {
      PageByte(image, a);
    }
  }

  lemma BeyondFlash(room: nat, image: seq<byte>, a: nat)
    requires room % PAGE == 0 && FitsPages(room, image, Pages(|image|)) && room <= a < |image|
    ensures image[a] == ERASED
  {
    var p := a / PAGE;
    assert PAGE * p + PAGE > room && p < Pages(|image|);
    PageByte(image, a);
  }

  /** The image a device is given: the file with its vector checksum filled in. */
  function PatchedFor(dev: string, file: seq<byte>): seq<byte>
    requires Search(dev, 0) != -1 && TABLE_SIZE <= |file|
  {
    SlotsInTable(dev);
    Patch(file, DEVICES[Search(dev, 0)].checksumAddr)
  }

  /** LpcIsp::program once the interface is up. The device is erased before the file is opened, and a file
      that cannot be read is None. On success flash is the erased flash with every page of the patched file
      that is not blank; see HoldsIffErased for what that means. */
  method Program(t: Target, dev: string, file: Option<seq<byte>>, stop: nat -> bool) returns (ret: int, sectors: int)
    requires t.Valid() && t.prepared == {} && t.copies == [] && t.requests == []
    requires Search(dev, 0) != -1 ==> SameDevice(t, dev)
    requires file.Some? ==> |file.value| == 0 || TABLE_SIZE <= |file.value|
    modifies t
    ensures t.Valid() && AllConfined(t) && AllAimed(t)
    ensures ret == 0 ==> file.Some? && TABLE_SIZE <= |file.value| && Search(dev, 0) != -1 && 1 <= sectors <= t.count
    ensures ret == 0 ==>
      var image := PatchedFor(dev, file.value);
      Progress(t, Erase(old(t.flash), 0, SectorStart(t.layout, sectors)), image, Pages(|image|))
    ensures ret == 0 && sectors == t.count ==> Holds(t.flash, PatchedFor(dev, file.value))
    ensures ret == 0 ==> NotStopped(stop, file.value, Pages(|file.value|))
    ensures ret == 0 || ret == -1 || (ret == -2 && file == Some([]))
    ensures
      t.Obedient() && Search(dev, 0) != -1
      && file.Some? && TABLE_SIZE <= |file.value| <= |old(t.flash)| && |old(t.ram)| >= RAM_BUFFER + PAGE
      ==> (ret == 0 <==> NotStopped(stop, file.value, Pages(|file.value|))) && sectors == t.count
  {
    ret, sectors := EraseDev(t);
    if ret != 0 {
      return -1, sectors;
    }
    if file.None? {
      return -1, sectors;
    }
    if |file.value| == 0 {
      return -2, sectors;
    }
    var buffer := new byte[|file.value|](i requires 0 <= i < |file.value| => file.value[i]);
    assert buffer[..] == file.value;
    ret := WriteVectorChecksum(buffer, dev);
    if ret != 0 {
      return -1, sectors;
    }
    var ramStart := GetRamStart(dev);
    var image := buffer[..];
    ghost var base := t.flash;
    ErasedBase(t, old(t.flash), sectors);
    var written := WriteProgmem(t, dev, ramStart + RAM_BUFFER, image, stop);
    SameStops(stop, image, file.value, Pages(|image|));
    if written == 0 {
      return -1, sectors;
    }
    FlashAligned(t);
    HoldsIffErased(base, image);
    ret := 0;
  }

  lemma ErasedBase(t: Target, before: seq<byte>, sectors: int)
    requires t.Valid() && 1 <= sectors <= t.count
    requires t.flash == Erase(before, 0, SectorStart(t.layout, sectors))
    ensures FirstSectorErased(t.layout, t.flash)
    ensures sectors == t.count ==> IsBlank(t.flash)
  {
    SectorsAscend(t.layout, 1, sectors);
  }
}
