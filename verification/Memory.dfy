// RAM and MMIO access (memory.cpp, internal/memory.hpp): what an access does,
// on values; the class at the end performs it in place.
module Memory {
  import opened Arith
  import opened Endian
  import opened Errors

  /** One call out of the VM into host code. */
  datatype HostCall =
    | SysCall(id: Cell, arg0: Cell, arg1: Cell, arg2: Cell)
    | MmioRead(window: nat, at: U32)
    | MmioWrite(window: nat, at: U32, val: U32)

  /** A device callback may depend on everything the host was asked before.
      None is a null callback: the direction is forbidden. */
  datatype Window = Window(
    base: U32,
    size: U32,
    read32: Option<(seq<HostCall>, U32) -> (int, U32)>,
    write32: Option<(seq<HostCall>, U32, U32) -> int>)

  /** mem_size is a 32-bit number. */
  type Ram = s: seq<Byte> | |s| < 0x1_0000_0000

  /** RAM (None is a null pointer) and the calls made to the host so far. */
  datatype Mem = Mem(ram: Option<Ram>, io: seq<HostCall>)

  datatype ReadResult = ReadResult(err: int, val: U32, mem: Mem)
  datatype WriteResult = WriteResult(err: int, mem: Mem)

  const MAX_MMIO := 16

  // ------------------------------------------------------------ windows

  /** The address interval [base, base + size), as integers. */
  predicate Covers(w: Window, addr: U32)
  {
    w.base <= addr < w.base as int + w.size
  }

  /** The first window that covers addr. */
  function FirstWindow(ws: seq<Window>, addr: U32): (r: Option<nat>)
    ensures r.Some? ==> r.value < |ws| && Covers(ws[r.value], addr)
    ensures r.Some? ==> forall i :: 0 <= i < r.value ==> !Covers(ws[i], addr)
    ensures r.None? ==> forall i :: 0 <= i < |ws| ==> !Covers(ws[i], addr)
  {
    if ws == [] then None
    else if Covers(ws[0], addr) then Some(0)
    else
      assert forall i :: 1 <= i < |ws| ==> ws[i] == ws[1..][i - 1];
      match FirstWindow(ws[1..], addr)
      case None => None
      case Some(i) => Some(i + 1)
  }

  /** vm_register_mmio: append as many windows as fit. */
  function Register(ws: seq<Window>, more: seq<Window>): (r: seq<Window>)
    requires |ws| <= MAX_MMIO
    ensures |r| <= MAX_MMIO && ws <= r
  {
    ws + if |more| <= MAX_MMIO - |ws| then more else more[..MAX_MMIO - |ws|]
  }

  function RegisterAll(ws: seq<Window>, batches: seq<seq<Window>>): (r: seq<Window>)
    requires |ws| <= MAX_MMIO
    ensures |r| <= MAX_MMIO
    decreases batches
  {
    if batches == [] then ws
    else RegisterAll(Register(ws, batches[0]), batches[1..])
  }

  /** Appending windows leaves every covered address where it went, and only
      gives the uncovered ones a chance to be found among the new windows. */
  lemma FirstWindowOfAppend(ws: seq<Window>, more: seq<Window>, addr: U32)
    ensures FirstWindow(ws + more, addr) ==
      match FirstWindow(ws, addr)
      case Some(i) => Some(i)
      case None =>
        match FirstWindow(more, addr)
        case Some(j) => Some(|ws| + j)
        case None => None
  {
    hide Covers, FirstWindow;
    var all := ws + more;
    var i, j := FirstWindow(ws, addr), FirstWindow(more, addr);
    assert forall k :: 0 <= k < |ws| ==> all[k] == ws[k];
    assert forall k :: |ws| <= k < |all| ==> all[k] == more[k - |ws|];
    if i.Some? {
      FirstWindowIs(all, addr, i.value);
    } else if j.Some? {
      FirstWindowIs(all, addr, |ws| + j.value);
    } else {
      NoWindow(all, addr);
    }
  }

  lemma FirstWindowIs(ws: seq<Window>, addr: U32, i: nat)
    requires i < |ws| && Covers(ws[i], addr) && forall j :: 0 <= j < i ==> !Covers(ws[j], addr)
    ensures FirstWindow(ws, addr) == Some(i)
  {
    hide Covers;
  }

  lemma NoWindow(ws: seq<Window>, addr: U32)
    requires forall j :: 0 <= j < |ws| ==> !Covers(ws[j], addr)
    ensures FirstWindow(ws, addr) == None
  {
    hide Covers;
  }

  function Concat(batches: seq<seq<Window>>): seq<Window>
  {
    if batches == [] then [] else batches[0] + Concat(batches[1..])
  }

  /** Any history of registrations leaves the windows in the order they were given,
      as many as fit. */
  lemma {:induction false} RegistrationsInOrder(ws: seq<Window>, batches: seq<seq<Window>>)
    requires |ws| <= 16
    ensures var all := ws + Concat(batches);
      RegisterAll(ws, batches) == if |all| <= 16 then all else all[..16]
    decreases batches
  {
    if batches != [] {
      var more, rest := batches[0], Concat(batches[1..]);
      var now := Register(ws, more);
      RegistrationsInOrder(now, batches[1..]);
      assert ws + (more + rest) == ws + more + rest;
      if |ws + more| > 16 {
        assert now == (ws + more + rest)[..16];
        assert now + rest == now || (now + rest)[..16] == now;
      } else {
        assert now == ws + more;
      }
    } else {
      assert ws + [] == ws;
    }
  }

  /** No history of registrations, complete or cut short at capacity, moves an
      address that is already covered; another goes to the first of the new windows
      that covers it, if that one fits. */
  lemma RegistrationKeepsRoutes(ws: seq<Window>, batches: seq<seq<Window>>, addr: U32)
    requires |ws| <= 16
    ensures FirstWindow(RegisterAll(ws, batches), addr) ==
      match FirstWindow(ws, addr)
      case Some(i) => Some(i)
      case None =>
        match FirstWindow(Concat(batches), addr)
        case Some(j) => if |ws| + j < 16 then Some(|ws| + j) else None
        case None => None
  {
    hide FirstWindow, RegisterAll;
    var all := ws + Concat(batches);
    RegistrationsInOrder(ws, batches);
    FirstWindowOfAppend(ws, Concat(batches), addr);
    if |all| > 16 {
      assert all == all[..16] + all[16..];
      FirstWindowOfAppend(all[..16], all[16..], addr);
    }
  }

  // ------------------------------------------------------------ accesses

  /** Why a RAM access of `width` bytes at addr fails, or 0. The range check
      comes before the alignment check, and only 32-bit accesses are aligned. */
  function RamError(ram: Option<Ram>, addr: U32, width: nat): int
  {
    if ram.None? || addr + width > |ram.value| then OOB_MEMORY
    else if width == 4 && addr % 4 != 0 then UNALIGNED
    else OK
  }

  function Load(ram: Ram, addr: nat, width: nat): nat
    requires addr + width <= |ram|
  {
    FromLittleEndian(ram[addr..addr + width])
  }

  function Store(ram: Ram, addr: nat, width: nat, val: nat): (r: Ram)
    requires addr + width <= |ram|
    ensures |r| == |ram|
  {
    ram[..addr] + LittleEndian(val, width) + ram[addr + width..]
  }

  /** The window a `width`-byte access goes to: only 32-bit accesses look. */
  function Route(ws: seq<Window>, addr: U32, width: nat): (r: Option<nat>)
    ensures r.Some? ==> r.value < |ws| && width == 4
  {
    if width == 4 then FirstWindow(ws, addr) else None
  }

  function Read(ws: seq<Window>, m: Mem, addr: U32, width: nat): (r: ReadResult)
    requires width in {1, 2, 4}
    ensures r.mem.ram == m.ram
  {
    match Route(ws, addr, width)
    case Some(i) =>
      if addr % 4 != 0 then ReadResult(UNALIGNED, 0, m)
      else
        (match ws[i].read32
         case None => ReadResult(OOB_MEMORY, 0, m)
         case Some(f) => ReadResult(f(m.io, addr).0, f(m.io, addr).1, m.(io := m.io + [MmioRead(i, addr)])))
    case None =>
      var e := RamError(m.ram, addr, width);
      if e != OK then ReadResult(e, 0, m)
      else
        assert width == 1 ==> Modulus(1) == M8;
        LoadIsLittleEndian(m.ram.value[addr..addr + width]);
        ReadResult(OK, Load(m.ram.value, addr, width), m)
  }

  function Write(ws: seq<Window>, m: Mem, addr: U32, width: nat, val: U32): (r: WriteResult)
    requires width in {1, 2, 4}
    ensures r.mem.ram.Some? == m.ram.Some?
  {
    match Route(ws, addr, width)
    case Some(i) =>
      if addr % 4 != 0 then WriteResult(UNALIGNED, m)
      else
        (match ws[i].write32
         case None => WriteResult(OOB_MEMORY, m)
         case Some(f) => WriteResult(f(m.io, addr, val), m.(io := m.io + [MmioWrite(i, addr, val)])))
    case None =>
      var e := RamError(m.ram, addr, width);
      if e != OK then WriteResult(e, m)
      else WriteResult(OK, m.(ram := Some(Store(m.ram.value, addr, width, val))))
  }

  // ------------------------------------------------------------ RAM laws

  /** Load after store gives the stored value cut to the width of the access. */
  lemma StoreThenLoad(ws: seq<Window>, m: Mem, addr: U32, width: nat, val: U32)
    requires width in {1, 2, 4} && Route(ws, addr, width).None?
    requires Write(ws, m, addr, width, val).err == OK
    ensures var r := Read(ws, Write(ws, m, addr, width, val).mem, addr, width);
      r.err == OK && r.val == val % Modulus(width)
  {
    var ram' := Store(m.ram.value, addr, width, val);
    assert ram'[addr..addr + width] == LittleEndian(val, width);
    LittleEndianTruncates(val, width);
  }

  /** Storing back what was loaded changes nothing. */
  lemma LoadThenStore(ws: seq<Window>, m: Mem, addr: U32, width: nat)
    requires width in {1, 2, 4} && Route(ws, addr, width).None?
    requires Read(ws, m, addr, width).err == OK
    ensures Write(ws, m, addr, width, Read(ws, m, addr, width).val) == WriteResult(OK, m)
  {
    var bs := m.ram.value[addr..addr + width];
    BytesRoundTrip(bs);
    assert Store(m.ram.value, addr, width, FromLittleEndian(bs)) == m.ram.value;
  }

  /** A wide read is the little-endian combination of the narrower reads it covers. */
  lemma WideReadsAreNarrowReads(ws: seq<Window>, m: Mem, addr: U32, width: nat)
    requires width in {2, 4} && Route(ws, addr, width).None?
    requires Read(ws, m, addr, width).err == OK
    ensures var half := width / 2;
      && addr + half < M32
      && var lo, hi := Read(ws, m, addr, half), Read(ws, m, addr + half, half);
      && lo.err == hi.err == OK
      && Read(ws, m, addr, width).val == lo.val + Modulus(half) * hi.val
  {
    var bs := m.ram.value[addr..addr + width];
    var half := width / 2;
    assert m.ram.value[addr..addr + half] == bs[..half];
    assert m.ram.value[addr + half..addr + width] == bs[half..];
    FromLittleEndianDigits(bs);
    FromLittleEndianDigits(bs[..half]);
    FromLittleEndianDigits(bs[half..]);
    LoadIsLittleEndian([]);
  }

  // ------------------------------------------------------------ histories

  datatype Access =
    | ReadAt(addr: U32, width: nat)
    | WriteAt(addr: U32, width: nat, val: U32)

  predicate IsAccess(a: Access) { a.width in {1, 2, 4} }

  /** Memory after a history of accesses, oldest first. */
  ghost function Replay(ws: seq<Window>, m: Mem, h: seq<Access>): Mem
    requires forall a :: a in h ==> IsAccess(a)
  {
    if h == [] then m
    else
      var before := Replay(ws, m, h[..|h| - 1]);
      assert IsAccess(h[|h| - 1]);
      match h[|h| - 1]
      case ReadAt(addr, width) => Read(ws, before, addr, width).mem
      case WriteAt(addr, width, val) => Write(ws, before, addr, width, val).mem
  }

  /** The accesses that put a byte at i: writes that lie inside a RAM of `size`
      bytes and cover i; a 32-bit one must also be aligned and hit no window. */
  ghost predicate WritesByte(ws: seq<Window>, size: nat, a: Access, i: nat)
  {
    && a.WriteAt?
    && a.addr <= i < a.addr + a.width <= size
    && (a.width == 4 ==> a.addr % 4 == 0 && forall w :: w in ws ==> !Covers(w, a.addr))
  }

  /** Byte i of RAM, read off the history alone: the matching digit of the
      last write that covers it, or the initial byte. */
  ghost function LastByte(ws: seq<Window>, initial: Ram, h: seq<Access>, i: nat): int
    requires i < |initial|
  {
    if h == [] then initial[i]
    else
      var a := h[|h| - 1];
      if WritesByte(ws, |initial|, a, i) then (a.val / Modulus(i - a.addr)) % M8
      else LastByte(ws, initial, h[..|h| - 1], i)
  }

  /** RAM is a byte map: after any history of 8-, 16- and 32-bit accesses, failed
      ones and device accesses included, each byte is the one from the last
      successful write that covers it. */
  lemma {:induction false} RamIsByteMap(ws: seq<Window>, m: Mem, h: seq<Access>)
    requires forall a :: a in h ==> IsAccess(a)
    ensures m.ram.None? ==> Replay(ws, m, h).ram.None?
    ensures m.ram.Some? ==>
      && Replay(ws, m, h).ram.Some?
      && |Replay(ws, m, h).ram.value| == |m.ram.value|
      && forall i :: 0 <= i < |m.ram.value| ==>
        Replay(ws, m, h).ram.value[i] == LastByte(ws, m.ram.value, h, i)
    decreases |h|
  {
    if h != [] {
      RamIsByteMap(ws, m, h[..|h| - 1]);
      AccessEffect(ws, Replay(ws, m, h[..|h| - 1]), h[|h| - 1]);
    }
  }

  /** One access: the bytes it writes, and that nothing else changes. */
  lemma AccessEffect(ws: seq<Window>, m: Mem, a: Access)
    requires IsAccess(a)
    ensures var m' := if a.ReadAt? then Read(ws, m, a.addr, a.width).mem
        else Write(ws, m, a.addr, a.width, a.val).mem;
      && m'.ram.Some? == m.ram.Some?
      && (m.ram.Some? ==>
        && |m'.ram.value| == |m.ram.value|
        && (forall i :: 0 <= i < |m.ram.value| ==>
          m'.ram.value[i] == if WritesByte(ws, |m.ram.value|, a, i)
            then (a.val / Modulus(i - a.addr)) % M8 else m.ram.value[i]))
  {
    if a.WriteAt? && m.ram.Some? {
      var ram := m.ram.value;
      if Route(ws, a.addr, a.width).None? && RamError(m.ram, a.addr, a.width) == OK {
        forall i | a.addr <= i < a.addr + a.width
          ensures Store(ram, a.addr, a.width, a.val)[i] == (a.val / Modulus(i - a.addr)) % M8
        {
          LittleEndianDigit(a.val, a.width, i - a.addr);
        }
      }
    }
  }

  /** An access that reports an error left RAM as it was, and outside the device
      windows it left the host alone too. */
  lemma FailedAccessChangesNothing(ws: seq<Window>, m: Mem, addr: U32, width: nat, val: U32)
    requires width in {1, 2, 4}
    ensures Read(ws, m, addr, width).mem.ram == m.ram
    ensures Write(ws, m, addr, width, val).err != OK ==> Write(ws, m, addr, width, val).mem.ram == m.ram
    ensures Route(ws, addr, width).None? && Write(ws, m, addr, width, val).err != OK ==>
      Write(ws, m, addr, width, val).mem == m
    ensures Route(ws, addr, width).None? ==>
      (Write(ws, m, addr, width, val).err == OK <==>
        m.ram.Some? && addr + width <= |m.ram.value| && (width == 4 ==> addr % 4 == 0))
  {}

  /** RAM accesses, byte by byte: the error in the order null or out of range, then
      unaligned (32 bits only); a read that succeeds gives the bytes little-endian
      and a write that fails changes nothing, in RAM or at the host. */
  lemma RamAccess(ws: seq<Window>, m: Mem, addr: U32, width: nat, val: U32)
    requires width in {1, 2, 4}
    requires width == 4 ==> forall w :: w in ws ==> !(w.base <= addr < w.base as int + w.size)
    ensures var e := if m.ram.None? || addr + width > |m.ram.value| then -13
        else if width == 4 && addr % 4 != 0 then -12 else 0;
      var r, w := Read(ws, m, addr, width), Write(ws, m, addr, width, val);
      && r.err == e && w.err == e && r.mem == m && w.mem.io == m.io
      && (e != 0 ==> r.val == 0 && w.mem == m)
      && (e == 0 ==>
        var ram := m.ram.value;
        r.val == ram[addr] + (if width >= 2 then M8 * ram[addr + 1] else 0)
                 + (if width == 4 then M16 * ram[addr + 2] + M24 * ram[addr + 3] else 0))
  {
    if m.ram.Some? && addr + width <= |m.ram.value| {
      BytesToNumber(m.ram.value[addr..addr + width]);
    }
  }

  /** An access routed to a device never touches RAM, even where RAM has that
      address too. It goes to the first window whose interval holds the address.
      Aligned and allowed, it is exactly one host call there, and the error and the
      value are the device's; unaligned it is refused before a forbidden direction
      is, and then the host is not called. */
  lemma DeviceAccess(ws: seq<Window>, m: Mem, addr: U32, val: U32, i: nat)
    requires i < |ws| && ws[i].base <= addr < ws[i].base as int + ws[i].size
    requires forall j :: 0 <= j < i ==> !(ws[j].base <= addr < ws[j].base as int + ws[j].size)
    ensures var r := Read(ws, m, addr, 4);
      && r.mem.ram == m.ram
      && if addr % 4 != 0 then r == ReadResult(-12, 0, m)
         else match ws[i].read32
           case None => r == ReadResult(-13, 0, m)
           case Some(f) => (r.err, r.val) == f(m.io, addr) && r.mem.io == m.io + [MmioRead(i, addr)]
    ensures var w := Write(ws, m, addr, 4, val);
      && w.mem.ram == m.ram
      && if addr % 4 != 0 then w == WriteResult(-12, m)
         else match ws[i].write32
           case None => w == WriteResult(-13, m)
           case Some(f) => w.err == f(m.io, addr, val) && w.mem.io == m.io + [MmioWrite(i, addr, val)]
  {
    FirstWindowIs(ws, addr, i);
  }

  // ------------------------------------------------------------ in place

  class MemoryUnit {
    const mem: array?<Byte>
    var mmio: seq<Window>
    var io: seq<HostCall>

    ghost predicate Valid()
      reads this
    {
      |mmio| <= MAX_MMIO && (mem != null ==> mem.Length < M32)
    }

    ghost function Contents(): (m: Mem)
      requires Valid()
      reads this, mem
    {
      Mem(if mem == null then None else Some(mem[..]), io)
    }

    /** vm_create's part: at most MAX_MMIO of the configured windows are kept. */
    constructor (buffer: array?<Byte>, windows: seq<Window>)
      requires buffer != null ==> buffer.Length < M32
      ensures Valid() && mem == buffer && mmio == Register([], windows) && io == []
    {
      mem := buffer;
      mmio := if |windows| <= MAX_MMIO then windows else windows[..MAX_MMIO];
      io := [];
    }

    method FindMmio(addr: U32) returns (found: int)
      requires Valid()
      ensures found == match FirstWindow(mmio, addr) case Some(i) => i case None => -1
    {
      var i := 0;
      while i < |mmio|
        invariant 0 <= i <= |mmio|
        invariant forall j :: 0 <= j < i ==> !Covers(mmio[j], addr)
      {
        var base, size := mmio[i].base, mmio[i].size;
        if addr >= base && addr - base < size {
          return i;
        }
        i := i + 1;
      }
      return -1;
    }

    method IsInRam(addr: U32, bytes: nat) returns (e: int)
      requires Valid()
      ensures e == if mem == null || addr + bytes > mem.Length then OOB_MEMORY else OK
    {
      e := if mem != null && addr + bytes <= mem.Length then OK else OOB_MEMORY;
    }

    method Read32(addr: U32) returns (e: int, val: U32)
      requires Valid()
      modifies `io
      ensures Valid() && ReadResult(e, val, Contents()) == Read(mmio, old(Contents()), addr, 4)
    {
      val := 0;
      var mi := FindMmio(addr);
      if mi >= 0 {
        if addr % 4 != 0 { return UNALIGNED, 0; }
        match mmio[mi].read32 {
          case None => return OOB_MEMORY, 0;
          case Some(f) =>
            e, val := f(io, addr).0, f(io, addr).1;
            io := io + [MmioRead(mi, addr)];
            return;
        }
      }
      e := IsInRam(addr, 4);
      if e != OK { return; }
      if addr % 4 != 0 { return UNALIGNED, 0; }
      LoadIsLittleEndian(mem[addr..addr + 4]);
      val := LdLe32(mem[addr], mem[addr + 1], mem[addr + 2], mem[addr + 3]);
      assert mem[addr..addr + 4] == mem[..][addr..addr + 4];
    }

    method Read16(addr: U32) returns (e: int, val: U32)
      requires Valid()
      ensures ReadResult(e, val, Contents()) == Read(mmio, Contents(), addr, 2)
    {
      val := 0;
      e := IsInRam(addr, 2);
      if e != OK { return; }
      LoadIsLittleEndian(mem[addr..addr + 2]);
      val := LdLe16(mem[addr], mem[addr + 1]);
      assert mem[addr..addr + 2] == mem[..][addr..addr + 2];
    }

    method Read8(addr: U32) returns (e: int, val: U32)
      requires Valid()
      ensures ReadResult(e, val, Contents()) == Read(mmio, Contents(), addr, 1)
    {
      val := 0;
      e := IsInRam(addr, 1);
      if e != OK { return; }
      val := mem[addr];
      assert mem[..][addr..addr + 1] == [mem[addr]];
    }

    method Write32(addr: U32, val: U32) returns (e: int)
      requires Valid()
      modifies `io, mem
      ensures Valid() && WriteResult(e, Contents()) == Write(mmio, old(Contents()), addr, 4, val)
    {
      hide LittleEndian, LowByte, FirstWindow, Modulus;
      var mi := FindMmio(addr);
      if mi >= 0 {
        if addr % 4 != 0 { return UNALIGNED; }
        match mmio[mi].write32 {
          case None => return OOB_MEMORY;
          case Some(f) =>
            e := f(io, addr, val);
            io := io + [MmioWrite(mi, addr, val)];
            return;
        }
      }
      e := IsInRam(addr, 4);
      if e != OK { return; }
      if addr % 4 != 0 { return UNALIGNED; }
      StoreIsLittleEndian(val);
      mem[addr] := LowByte(val);
      mem[addr + 1] := LowByte(val / M8);
      mem[addr + 2] := LowByte(val / M16);
      mem[addr + 3] := LowByte(val / M24);
      assert mem[..] == Store(old(mem[..]), addr, 4, val);
    }

    method Write16(addr: U32, val: U32) returns (e: int)
      requires Valid()
      modifies mem
      ensures Valid() && WriteResult(e, Contents()) == Write(mmio, old(Contents()), addr, 2, val)
    {
      hide LittleEndian, LowByte, FirstWindow, Modulus;
      e := IsInRam(addr, 2);
      if e != OK { return; }
      StoreIsLittleEndian(val);
      mem[addr] := LowByte(val);
      mem[addr + 1] := LowByte(val / M8);
      assert mem[..] == Store(old(mem[..]), addr, 2, val);
    }

    method Write8(addr: U32, val: U32) returns (e: int)
      requires Valid()
      modifies mem
      ensures Valid() && WriteResult(e, Contents()) == Write(mmio, old(Contents()), addr, 1, val)
    {
      hide LittleEndian, LowByte, FirstWindow, Modulus;
      e := IsInRam(addr, 1);
      if e != OK { return; }
      StoreIsLittleEndian(val);
      mem[addr] := LowByte(val);
      assert mem[..] == Store(old(mem[..]), addr, 1, val);
    }

    method RegisterMmio(list: seq<Window>) returns (e: int)
      requires Valid()
      modifies `mmio
      ensures Valid() && unchanged(`io)
      ensures list == [] ==> e == INVALID_ARG && mmio == old(mmio)
      ensures mmio == Register(old(mmio), list)
      ensures e == OK <==> list != [] && mmio == old(mmio) + list
      ensures e != OK ==> e == INVALID_ARG
    {
      if list == [] { return INVALID_ARG; }
      var appended := 0;
      while appended < |list| && |mmio| < MAX_MMIO
        invariant 0 <= appended <= |list| && |mmio| <= MAX_MMIO
        invariant mmio == old(mmio) + list[..appended]
      {
        mmio := mmio + [list[appended]];
        appended := appended + 1;
      }
      assert appended == |list| ==> list[..appended] == list;
      assert appended < |list| ==> |mmio| != |old(mmio) + list|;
      e := if appended == |list| then OK else INVALID_ARG;
    }
  }
}
