// The bump allocator (arena.cpp), with size_t arithmetic modulo 2^width.
module Arena {
  import opened Arith
  import opened Bits

  datatype Request = Request(bytes: nat, align: nat)
  datatype Block = Block(offset: nat, size: nat, align: nat)

  predicate IsMultiple(x: nat, a: nat)
    requires a > 0
  {
    x % a == 0
  }

  /** The least multiple of a at or after x. */
  function RoundUp(x: nat, a: nat): (r: nat)
    requires a > 0
    ensures IsMultiple(r, a) && x <= r < x + a
  {
    var y := x + a - 1;
    Division(y, a);
    DivModUnique(y - y % a, a, y / a, 0);
    y - y % a
  }

  lemma MultiplesAreApart(m: nat, r: nat, a: nat)
    requires a > 0 && IsMultiple(m, a) && IsMultiple(r, a) && m < r
    ensures m + a <= r
  {
    Division(m, a);
    Division(r, a);
    var d := r / a - m / a;
    assert d * a == r - m && (1 - d) * a == a - d * a;
    if d >= 1 {
      AtLeastFactor(d, a);
    } else {
      AtLeastFactor(1 - d, a);
      assert false;
    }
  }

  lemma RoundUpIsLeast(x: nat, a: nat, m: nat)
    requires a > 0 && IsMultiple(m, a) && x <= m
    ensures RoundUp(x, a) <= m
  {
    if m < RoundUp(x, a) { MultiplesAreApart(m, RoundUp(x, a), a); }
  }

  lemma ModSmall(x: nat, w: nat)
    requires w > 0
    ensures x < w ==> x % w == x
    ensures w <= x < 2 * w ==> x % w == x - w
  {
    if x < w { DivModUnique(x, w, 0, x); }
    if w <= x < 2 * w { DivModUnique(x, w, 1, x - w); }
  }

  predicate Acceptable(q: Request)
  {
    q.bytes > 0 && q.align > 0 && And(q.align, q.align - 1) == 0
  }

  /** The allocator without size_t wrap-around: the block at the least aligned
      offset, if it ends inside the buffer. */
  function Intended(size: nat, used: nat, q: Request): Option<nat>
  {
    if !Acceptable(q) then None
    else
      var at := RoundUp(used, q.align);
      if at + q.bytes <= size then Some(at) else None
  }

  /** v4_arena_alloc: the offset returned and the new `used`. */
  function Alloc(width: nat, size: nat, used: nat, q: Request): (Option<nat>, nat)
  {
    if !Acceptable(q) then (None, used)
    else
      var at := RoundUp(used, q.align) % Pow2(width);
      var end := (at + q.bytes) % Pow2(width);
      if end > size then (None, used) else (Some(at), end)
  }

  predicate SizeT(width: nat, x: nat) { x < Pow2(width) }

  /** A power of two that is a size_t divides 2^width, so rounding a size_t up
      gives at most 2^width. */
  lemma {:induction false} PowerDivides(k: nat, width: nat)
    requires k <= width
    ensures Pow2(width) % Pow2(k) == 0
  {
    if k < width {
      PowerDivides(k, width - 1);
      var p, q := Pow2(k), Pow2(width - 1);
      Division(q, p);
      assert 2 * q == (2 * (q / p)) * p + 0;
      DivModUnique(2 * q, p, 2 * (q / p), 0);
    } else {
      assert Pow2(width) % Pow2(width) == 0;
    }
  }

  lemma Exponent(width: nat, align: nat) returns (k: nat)
    requires align > 0 && SizeT(width, align) && And(align, align - 1) == 0
    ensures k < width && align == Pow2(k)
  {
    PowerOfTwoTest(align);
    k :| align == Pow2(k);
    if width <= k { Pow2Monotone(width, k); }
  }

  lemma RoundUpFits(width: nat, used: nat, align: nat)
    requires align > 0 && SizeT(width, align) && SizeT(width, used) && And(align, align - 1) == 0
    ensures RoundUp(used, align) <= Pow2(width)
  {
    var k := Exponent(width, align);
    PowerDivides(k, width);
    RoundUpIsLeast(used, align, Pow2(width));
  }

  /** The size_t expression ((used + align - 1) & ~(align - 1)) rounds up,
      modulo 2^width. */
  lemma MaskRoundsUp(width: nat, used: nat, align: nat)
    requires align > 0 && SizeT(width, align) && SizeT(width, used) && And(align, align - 1) == 0
    ensures And((used + align - 1) % Pow2(width), Not(align - 1, width)) == RoundUp(used, align) % Pow2(width)
  {
    hide And, Not, Pow2;
    var k := Exponent(width, align);
    var y, w := used + align - 1, Pow2(width);
    var x := y % w;
    MaskRoundsDown(x, k, width);
    ModSmall(y, w);
    if y < w {
      assert RoundUp(used, align) == y - y % align;
      ModSmall(y - y % align, w);
    } else {
      RoundUpPastEnd(width, used, align, k);
      ModSmall(x, align);
    }
  }

  lemma RoundUpPastEnd(width: nat, used: nat, align: nat, k: nat)
    requires k < width && align == Pow2(k) && SizeT(width, used) && SizeT(width, align)
    requires used + align - 1 >= Pow2(width)
    ensures RoundUp(used, align) == Pow2(width)
    ensures Pow2(width) % Pow2(width) == 0
  {
    var w := Pow2(width);
    ModSmall(w, w);
    PowerDivides(k, width);
    RoundUpIsLeast(used, align, w);
    if RoundUp(used, align) < w { MultiplesAreApart(RoundUp(used, align), w, align); }
  }

  /** The end of the aligned block wraps around size_t into the buffer. */
  predicate Misfires(width: nat, size: nat, used: nat, q: Request)
  {
    Acceptable(q) && 0 <= RoundUp(used, q.align) + q.bytes - Pow2(width) <= size
  }

  /** The code does what is intended exactly when the request does not misfire. */
  lemma AllocExact(width: nat, size: nat, used: nat, q: Request)
    requires SizeT(width, size) && used <= size && SizeT(width, q.bytes) && SizeT(width, q.align)
    ensures Alloc(width, size, used, q).0 == Intended(size, used, q) <==> !Misfires(width, size, used, q)
  {
    if Acceptable(q) {
      var up, w := RoundUp(used, q.align), Pow2(width);
      RoundUpFits(width, used, q.align);
      AllocOffset(width, size, used, q);
    }
  }

  /** A request that does not misfire is granted exactly when it asks for at least
      one byte at a power-of-two alignment and some multiple of it at or after
      `used` has room for it before the end of the buffer; the block is at the
      least such multiple, and `used` moves to its end. Otherwise `used` stays. */
  lemma AllocGrants(width: nat, size: nat, used: nat, q: Request)
    requires SizeT(width, size) && used <= size && SizeT(width, q.bytes) && SizeT(width, q.align)
    requires !Misfires(width, size, used, q)
    ensures var (r, used') := Alloc(width, size, used, q);
      && (r.Some? <==> q.bytes > 0 && IsPow2(q.align) && (exists m: nat :: HasRoom(size, used, q, m)))
      && (r.Some? ==>
        && HasRoom(size, used, q, r.value) && used' == r.value + q.bytes
        && forall m: nat :: HasRoom(size, used, q, m) ==> r.value <= m)
      && (r.None? ==> used' == used)
  {
    hide And, Pow2, IsPow2;
    if q.bytes > 0 && q.align > 0 {
      PowerOfTwoTest(q.align);
      forall m: nat | HasRoom(size, used, q, m)
        ensures RoundUp(used, q.align) <= m
      {
        RoundUpIsLeast(used, q.align, m);
      }
      if Acceptable(q) {
        RoundUpFits(width, used, q.align);
        AllocOffset(width, size, used, q);
        assert RoundUp(used, q.align) + q.bytes <= size ==> HasRoom(size, used, q, RoundUp(used, q.align));
      }
    }
  }

  predicate HasRoom(size: nat, used: nat, q: Request, m: nat)
  {
    q.align > 0 && m % q.align == 0 && used <= m && m + q.bytes <= size
  }

  /** A request that misfires is granted, and `used` moves to where its end wraps. */
  lemma AllocMisfires(width: nat, size: nat, used: nat, q: Request)
    requires SizeT(width, size) && used <= size && SizeT(width, q.bytes) && SizeT(width, q.align)
    requires Misfires(width, size, used, q)
    ensures var up, w := RoundUp(used, q.align), Pow2(width);
      Alloc(width, size, used, q) == (Some(if up == w then 0 else up), up + q.bytes - w)
  {
    RoundUpFits(width, used, q.align);
    AllocOffset(width, size, used, q);
  }

  /** The offset and the end the code computes, without the modulo. */
  lemma AllocOffset(width: nat, size: nat, used: nat, q: Request)
    requires Acceptable(q) && SizeT(width, q.bytes) && RoundUp(used, q.align) <= Pow2(width)
    ensures var up, w := RoundUp(used, q.align), Pow2(width);
      var at := up % w;
      && at == (if up == w then 0 else up)
      && (at + q.bytes) % w == if up + q.bytes < w then up + q.bytes else up + q.bytes - w
  {
    var up, w := RoundUp(used, q.align), Pow2(width);
    ModSmall(up, w);
    ModSmall(up % w + q.bytes, w);
  }

  /** A request that wraps: in a size_t of any width that can tell 106 bytes, with
      16 of 100 bytes used, asking for all but 6 of 2^width bytes succeeds and
      moves `used` back to 10. */
  lemma WrapWitness(width: nat)
    requires SizeT(width, 106)
    ensures var q := Request(Pow2(width) - 6, 1);
      && SizeT(width, q.bytes) && Alloc(width, 100, 16, q) == (Some(16), 10)
      && Intended(100, 16, q) == None && Misfires(width, 100, 16, q)
  {
    assert And(1, 0) == 0;
    assert RoundUp(16, 1) == 16;
    hide Pow2, And, RoundUp;
    AllocOffset(width, 100, 16, Request(Pow2(width) - 6, 1));
  }

  // ------------------------------------------------------------ histories

  /** Blocks handed out and `used` after a history of requests since a reset. */
  ghost function Blocks(width: nat, size: nat, h: seq<Request>): (seq<Block>, nat)
  {
    if h == [] then ([], 0)
    else
      var (bs, used) := Blocks(width, size, h[..|h| - 1]);
      var q := h[|h| - 1];
      match Alloc(width, size, used, q)
      case (Some(at), used') => (bs + [Block(at, q.bytes, q.align)], used')
      case (None, used') => (bs, used')
  }

  /** The requests of a history are made of size_t values. */
  predicate Requests(width: nat, h: seq<Request>)
  {
    forall i :: 0 <= i < |h| ==> SizeT(width, h[i].bytes) && SizeT(width, h[i].align)
  }

  /** No request of the history misfires. */
  ghost predicate NoMisfire(width: nat, size: nat, h: seq<Request>)
  {
    h != [] ==>
      && NoMisfire(width, size, h[..|h| - 1])
      && !Misfires(width, size, Blocks(width, size, h[..|h| - 1]).1, h[|h| - 1])
  }

  /** What a user of the arena relies on: blocks inside the buffer, no two of which
      overlap. */
  predicate Separate(bs: seq<Block>, size: nat)
  {
    && (forall i :: 0 <= i < |bs| ==> bs[i].offset + bs[i].size <= size)
    && (forall i, j :: 0 <= i < j < |bs| ==>
      bs[i].offset + bs[i].size <= bs[j].offset || bs[j].offset + bs[j].size <= bs[i].offset)
  }

  /** Aligned blocks in the order handed out, from the start of the buffer to `used`. */
  ghost predicate Stacked(bs: seq<Block>, used: nat)
  {
    && (forall i :: 0 <= i < |bs| ==>
      && bs[i].align > 0 && IsPow2(bs[i].align) && IsMultiple(bs[i].offset, bs[i].align)
      && bs[i].size > 0 && bs[i].offset + bs[i].size <= used)
    && (forall i, j :: 0 <= i < j < |bs| ==> bs[i].offset + bs[i].size <= bs[j].offset)
    && (used > 0 ==> bs != [] && bs[0].offset == 0)
  }

  /** One request after blocks that are stacked: they stay stacked, or it misfires
      and gets a block past the buffer's end or over the first block. */
  lemma StackStep(width: nat, size: nat, bs: seq<Block>, used: nat, q: Request)
    requires SizeT(width, size) && SizeT(width, q.bytes) && SizeT(width, q.align)
    requires used <= size && Stacked(bs, used)
    ensures var (r, used') := Alloc(width, size, used, q);
      var bs' := if r.Some? then bs + [Block(r.value, q.bytes, q.align)] else bs;
      if Misfires(width, size, used, q) then !Separate(bs', size)
      else used' <= size && Stacked(bs', used')
  {
    if Acceptable(q) {
      PowerOfTwoTest(q.align);
      RoundUpFits(width, used, q.align);
      AllocOffset(width, size, used, q);
      hide Pow2, And, IsPow2;
      var up, w := RoundUp(used, q.align), Pow2(width);
      var (r, used') := Alloc(width, size, used, q);
      if Misfires(width, size, used, q) {
        var bs' := bs + [Block(r.value, q.bytes, q.align)];
        if up == w {
          FirstBlock(width, used, q.align);
          assert bs'[0] == bs[0] && bs'[|bs|].offset == 0;
        } else {
          assert bs'[|bs|].offset + bs'[|bs|].size > size;
        }
      } else if used == 0 {
        RoundUpIsLeast(0, q.align, 0);
        assert bs == [];
      }
    }
  }

  /** Only a `used` above 0 is rounded up to 2^width. */
  lemma FirstBlock(width: nat, used: nat, align: nat)
    requires align > 0 && RoundUp(used, align) == Pow2(width) && Pow2(width) > 0
    ensures used > 0
  {
    if used == 0 { RoundUpIsLeast(0, align, 0); }
  }

  /** Over any history since a reset, blocks lie inside the buffer and none overlaps
      another exactly when no request misfires; and then `used` stays in the
      buffer and the blocks, each at a multiple of its alignment, lie in the order
      handed out. */
  lemma {:induction false} ArenaHistory(width: nat, size: nat, h: seq<Request>)
    requires SizeT(width, size) && Requests(width, h)
    ensures var (bs, used) := Blocks(width, size, h);
      && (Separate(bs, size) <==> NoMisfire(width, size, h))
      && (NoMisfire(width, size, h) ==> used <= size && Stacked(bs, used))
    decreases |h|
  {
    if h != [] {
      hide Alloc, Misfires, Stacked;
      var h', q := h[..|h| - 1], h[|h| - 1];
      ArenaHistory(width, size, h');
      var (bs', used') := Blocks(width, size, h');
      var (bs, used) := Blocks(width, size, h);
      SeparatePrefix(bs', bs, size);
      if NoMisfire(width, size, h') {
        StackStep(width, size, bs', used', q);
        if !Misfires(width, size, used', q) { StackedSeparate(bs, used, size); }
      }
    }
  }

  lemma SeparatePrefix(a: seq<Block>, b: seq<Block>, size: nat)
    requires a <= b
    ensures Separate(b, size) ==> Separate(a, size)
  {
    assert forall i :: 0 <= i < |a| ==> a[i] == b[i];
  }

  lemma StackedSeparate(bs: seq<Block>, used: nat, size: nat)
    requires Stacked(bs, used) && used <= size
    ensures Separate(bs, size)
  {}

  // ------------------------------------------------------------ in place

  lemma AllocRejects(width: nat, size: nat, used: nat, bytes: nat, align: nat)
    ensures bytes == 0 || align == 0 || And(align, align - 1) != 0 ==>
      Alloc(width, size, used, Request(bytes, align)) == (None, used)
  {}

  lemma AllocByMask(width: nat, size: nat, used: nat, bytes: nat, align: nat)
    requires bytes > 0 && align > 0 && And(align, align - 1) == 0
    requires SizeT(width, align) && SizeT(width, used)
    ensures var at := And((used + align - 1) % Pow2(width), Not(align - 1, width));
      var end := (at + bytes) % Pow2(width);
      Alloc(width, size, used, Request(bytes, align)) == if end > size then (None, used) else (Some(at), end)
  {
    hide And, Not, Pow2, RoundUp;
    MaskRoundsUp(width, used, align);
  }

  class BumpArena {
    const width: nat
    const hasBuffer: bool
    const size: nat
    var used: nat

    ghost predicate Valid()
      reads this
    {
      SizeT(width, size) && used <= size
    }

    constructor (width: nat, hasBuffer: bool, size: nat)
      requires SizeT(width, size)
      ensures Valid() && used == 0 && this.width == width && this.hasBuffer == hasBuffer && this.size == size
    {
      this.width := width;
      this.hasBuffer := hasBuffer;
      this.size := size;
      used := 0;
    }

    /** Returns the offset of the block in the buffer. */
    method Allocate(bytes: nat, align: nat) returns (r: Option<nat>)
      requires Valid() && SizeT(width, bytes) && SizeT(width, align)
      modifies `used
      ensures Valid()
      ensures (r, used) == if hasBuffer then Alloc(width, size, old(used), Request(bytes, align)) else (None, old(used))
    {
      hide And, Not, Pow2, RoundUp, Alloc;
      AllocRejects(width, size, used, bytes, align);
      if !hasBuffer || bytes == 0 { return None; }
      if align == 0 || And(align, align - 1) != 0 { return None; }
      AllocByMask(width, size, used, bytes, align);
      var aligned := And((used + align - 1) % Pow2(width), Not(align - 1, width));
      var end := (aligned + bytes) % Pow2(width);
      if end > size { return None; }
      used := end;
      return Some(aligned);
    }

    method Reset()
      requires Valid()
      modifies `used
      ensures Valid() && used == 0
    {
      used := 0;
    }

    method Available() returns (n: nat)
      requires Valid()
      ensures n + used == size
    {
      n := size - used;
    }
  }
}
