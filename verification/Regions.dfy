/** Memory regions: bounds checks and the translation of guest addresses, with or without gaps. */
module Regions {
  import opened Options
  import opened Words

  datatype AccessType = Load | Store

  /** `gapShift` is the exponent of the gap size; 63 means that the region has no gaps. */
  datatype Region = Region(hostAddr: u64, vmAddr: u64, len: u64, gapShift: nat, writable: bool, payload: Option<nat>)

  const NO_GAPS: nat := 63

  /** Guest addresses are laid out in slots of 4 GiB; the third one holds the stack. */
  const SLOT: int := 0x1_0000_0000
  const STACK_START: int := 0x2_0000_0000

  /** The position of the highest set bit, which is 63 minus the number of leading zeros. */
  function HighestBit(x: nat): nat {
    if x <= 1 then 0 else 1 + HighestBit(x / 2)
  }

  function NewRegion(hostAddr: u64, len: u64, vmAddr: u64, gapSize: u64, writable: bool): Region {
    Region(hostAddr, vmAddr, len, if gapSize > 0 then HighestBit(gapSize) else NO_GAPS, writable, None)
  }

  /** The end of the guest address range, which is twice as long with gaps. */
  function VmEnd(r: Region): u64 {
    if r.gapShift == NO_GAPS then SaturatingAdd(r.vmAddr, r.len)
    else SaturatingAdd(r.vmAddr, SaturatingDouble(r.len))
  }

  function ShiftRight(x: nat, s: nat): nat {
    if s < 64 then
      QuotientIsNat(x, Pow2(s));
      x / Pow2(s)
    else 0
  }

  /** `-1 << s` as an unsigned word. */
  function GapMask(s: nat): u64
    requires s < 64
  {
    Pow2Is64();
    Pow2Grows(s, 64);
    WORD - Pow2(s)
  }

  function VmToHost(r: Region, access: AccessType, vmAddr: u64, len: u64): Option<u64> {
    if access == Store && !r.writable then None
    else if vmAddr < r.vmAddr then None
    else
      var begin := SaturatingSub(vmAddr, r.vmAddr);
      if r.gapShift == NO_GAPS then
        if begin + len <= MAX && begin + len <= r.len then Some(SaturatingAdd(r.hostAddr, begin)) else None
      else
        var inGap := BitAnd(ShiftRight(begin, r.gapShift), 1) == 1;
        var mask := if r.gapShift < 64 then GapMask(r.gapShift) else 0;
        var gapped := BitOr(BitAnd(begin, mask) / 2, BitAnd(begin, BitNot(mask)));
        if gapped + len <= MAX && gapped + len <= r.len && !inGap then Some(SaturatingAdd(r.hostAddr, gapped)) else None
  }

  // ---------------------------------------------------------------- what the translation means

  /** The guest sees frames and gaps of the same size alternate. */
  ghost predicate InGap(o: nat, s: nat) {
    (o / Pow2(s)) % 2 == 1
  }

  /** Leaving out the gaps. */
  function HostOffset(o: nat, s: nat): nat {
    (o / (2 * Pow2(s))) * Pow2(s) + o % Pow2(s)
  }

  /** Putting the gaps in. */
  function GuestOffset(h: nat, s: nat): nat {
    (h / Pow2(s)) * (2 * Pow2(s)) + h % Pow2(s)
  }

  /** An offset outside of the gaps, in terms of its frame number and its position in the frame. */
  lemma OutsideGap(o: nat, s: nat) returns (k: nat, l: nat)
    requires !InGap(o, s)
    ensures l < Pow2(s) && o == k * (2 * Pow2(s)) + l && HostOffset(o, s) == k * Pow2(s) + l
    ensures o - o % Pow2(s) == 2 * (k * Pow2(s)) && o % Pow2(s) == l
  {
    hide Pow2;
    var g := Pow2(s);
    var q := o / g;
    k, l := q / 2, o % g;
    assert o == q * g + l && q == 2 * k;
    assert q * g == k * (2 * g) by { Double(k, g); }
    DivModUnique(2 * g, k, l);
    Double(k, g);
  }

  lemma Double(k: nat, g: nat)
    ensures (2 * k) * g == k * (2 * g) == 2 * (k * g)
  {
  }

  /** The bit operations compute exactly this. */
  lemma GapBits(o: u64, s: nat)
    requires s < NO_GAPS
    ensures BitAnd(ShiftRight(o, s), 1) == 1 <==> InGap(o, s)
    ensures !InGap(o, s) ==> BitOr(BitAnd(o, GapMask(s)) / 2, BitAnd(o, BitNot(GapMask(s)))) == HostOffset(o, s)
  {
    hide BitAnd, BitOr, Pow2, HostOffset;
    var x := ShiftRight(o, s);
    Pow2One();
    AndLow(x, 1);
    if !InGap(o, s) {
      var k, l := OutsideGap(o, s);
      Pow2Is64();
      AndHigh(o, s, 64);
      AndLow(o, s);
      OrDisjoint(k, l, s);
    }
  }

  lemma Pow2One()
    ensures Pow2(1) == 2
  {
    assert Pow2(0) == 1;
  }

  /** Leaving the gaps out and putting them in are inverse to each other. */
  lemma GapsRoundTrip(h: nat, s: nat)
    ensures !InGap(GuestOffset(h, s), s) && HostOffset(GuestOffset(h, s), s) == h
  {
    hide Pow2;
    var g := Pow2(s);
    var k, l := h / g, h % g;
    var o := GuestOffset(h, s);
    DivModUnique(2 * g, k, l);
    Double(k, g);
    DivModUnique(g, 2 * k, l);
  }

  lemma FramesRoundTrip(o: nat, s: nat)
    requires !InGap(o, s)
    ensures GuestOffset(HostOffset(o, s), s) == o
  {
    hide Pow2;
    var k, l := OutsideGap(o, s);
    DivModUnique(Pow2(s), k, l);
  }

  /** Whether and where a guest offset is mapped. */
  ghost predicate Mapped(r: Region, o: nat) {
    r.gapShift == NO_GAPS || !InGap(o, r.gapShift)
  }

  function Offset(r: Region, o: nat): nat {
    if r.gapShift == NO_GAPS then o else HostOffset(o, r.gapShift)
  }

  /** The translation succeeds exactly for permitted accesses whose first byte is mapped and whose length fits. */
  lemma TranslationIsExact(r: Region, access: AccessType, vmAddr: u64, len: u64)
    requires r.gapShift <= NO_GAPS
    ensures VmToHost(r, access, vmAddr, len) ==
      if (access == Store ==> r.writable) && r.vmAddr <= vmAddr && Mapped(r, vmAddr - r.vmAddr)
         && Offset(r, vmAddr - r.vmAddr) + len <= r.len
      then Some(SaturatingAdd(r.hostAddr, Offset(r, vmAddr - r.vmAddr))) else None
  {
    hide BitAnd, BitOr, HostOffset, InGap, Pow2, GapMask, ShiftRight;
    if r.gapShift < NO_GAPS && r.vmAddr <= vmAddr {
      GapBits(vmAddr - r.vmAddr, r.gapShift);
    }
  }

  /** Any accepted access, of any length, stays inside the host buffer. */
  lemma AccessIsContained(r: Region, access: AccessType, vmAddr: u64, len: u64)
    requires r.gapShift <= NO_GAPS && r.hostAddr + r.len <= MAX
    ensures var h := VmToHost(r, access, vmAddr, len);
      h.Some? ==> r.hostAddr <= h.value && h.value + len <= r.hostAddr + r.len
  {
    hide VmToHost, HostOffset, InGap;
    TranslationIsExact(r, access, vmAddr, len);
  }

  /**
   Single-byte translation is a bijection: every byte of the host buffer is reached from one guest address,
   and from no other.
   */
  lemma ByteIsReachedOnce(r: Region, access: AccessType, h: nat, vmAddr: u64)
    requires r.gapShift <= NO_GAPS && h < r.len && (access == Store ==> r.writable)
    requires r.vmAddr + Span(r) <= MAX && r.hostAddr + r.len <= MAX
    ensures var guest := if r.gapShift == NO_GAPS then h else GuestOffset(h, r.gapShift);
      VmToHost(r, access, vmAddr, 1) == Some(r.hostAddr + h) <==> vmAddr == r.vmAddr + guest
  {
    hide VmToHost, HostOffset, InGap, GuestOffset;
    TranslationIsExact(r, access, vmAddr, 1);
    if r.gapShift < NO_GAPS {
      GapsRoundTrip(h, r.gapShift);
      if r.vmAddr <= vmAddr && Mapped(r, vmAddr - r.vmAddr) {
        FramesRoundTrip(vmAddr - r.vmAddr, r.gapShift);
      }
    }
  }

  /** The guest address of every host byte lies in the guest range of the region. */
  lemma GuestRange(r: Region, h: nat)
    requires r.gapShift <= NO_GAPS && h < r.len && r.vmAddr + Span(r) <= MAX
    ensures r.vmAddr + (if r.gapShift == NO_GAPS then h else GuestOffset(h, r.gapShift)) < VmEnd(r)
  {
    hide Pow2;
    var g := Pow2(r.gapShift);
    assert h == (h / g) * g + h % g;
    Double(h / g, g);
  }

  /** The number of guest addresses that a region takes. */
  function Span(r: Region): nat {
    if r.gapShift == NO_GAPS then r.len else 2 * r.len
  }

  /** Behind its guest range a region accepts no access. */
  lemma BehindRange(r: Region, access: AccessType, vmAddr: u64, len: u64)
    requires r.gapShift <= NO_GAPS && len >= 1 && r.vmAddr + Span(r) <= vmAddr
    ensures VmToHost(r, access, vmAddr, len) == None
  {
    hide VmToHost, InGap, Pow2;
    TranslationIsExact(r, access, vmAddr, len);
    if r.gapShift < NO_GAPS && Mapped(r, vmAddr - r.vmAddr) {
      var k, l := OutsideGap(vmAddr - r.vmAddr, r.gapShift);
      Double(k, Pow2(r.gapShift));
    }
  }

  /** A gap size that is a power of two below 2^63 is stored as its exponent. */
  lemma {:induction false} GapShiftIsExponent(s: nat)
    ensures HighestBit(Pow2(s)) == s
  {
    if s > 0 {
      GapShiftIsExponent(s - 1);
      assert Pow2(s) / 2 == Pow2(s - 1);
    }
  }

  /** A new region without gaps maps its bytes one by one, and stores only if it is writable. */
  lemma NewRegionTranslates(hostAddr: u64, len: u64, vmAddr: u64, writable: bool, access: AccessType, address: u64,
                            n: u64)
    requires hostAddr + len <= MAX
    ensures VmToHost(NewRegion(hostAddr, len, vmAddr, 0, writable), access, address, n) ==
      if (access == Store ==> writable) && vmAddr <= address && address + n <= vmAddr + len
      then Some(hostAddr + (address - vmAddr)) else None
  {
    hide VmToHost;
    TranslationIsExact(NewRegion(hostAddr, len, vmAddr, 0, writable), access, address, n);
  }

  /** A new region with gaps maps every byte of its buffer behind as many gaps as frames lie before it. */
  lemma NewGappedRegionTranslates(hostAddr: u64, len: u64, vmAddr: u64, s: nat, writable: bool, access: AccessType,
                                  h: nat)
    requires s < NO_GAPS && h < len && vmAddr + 2 * len <= MAX && hostAddr + len <= MAX && Pow2(s) <= MAX
    ensures vmAddr + GuestOffset(h, s) <= MAX
    ensures VmToHost(NewRegion(hostAddr, len, vmAddr, Pow2(s), writable), access, vmAddr + GuestOffset(h, s), 1) ==
      if access == Store ==> writable then Some(hostAddr + h) else None
  {
    hide VmToHost, GuestOffset, HighestBit, Pow2, VmEnd, HostOffset, InGap;
    GapShiftIsExponent(s);
    var r := NewRegion(hostAddr, len, vmAddr, Pow2(s), writable);
    GuestRange(r, h);
    if access == Store ==> writable {
      ByteIsReachedOnce(r, access, h, vmAddr + GuestOffset(h, s));
    } else {
      TranslationIsExact(r, access, vmAddr + GuestOffset(h, s), 1);
    }
  }
}
