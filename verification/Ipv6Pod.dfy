/**
 * The IPv6 pod CIDR of a node (getIPv6PodCIDR and the tail of allocateIPv6CIDR in
 * cloud/nodeipam/ipam/cloud_allocator.go).  The instance and interface lookups that
 * find the node's IPv6 range are calls to the Linode API; the model starts from the
 * parsed range.
 */
module Ipv6Pod {
  import opened Wrappers
  import opened Shifts
  import opened Cidr

  const POD_MASK := 112

  type Byte = b: nat | b < 256

  /** A 16-byte address in network byte order. */
  type Bytes = s: seq<Byte> | |s| == 16 witness seq(16, _ => 0)

  function Value(s: seq<Byte>): nat {
    if s == [] then 0 else Value(s[..|s| - 1]) * 256 + s[|s| - 1]
  }

  lemma {:induction false} ShlByte(a: nat)
    ensures Shl(a, 8) == 256 * a
  {
    assert Shl(a, 1) == 2 * a;
    assert Shl(a, 2) == 4 * a;
    assert Shl(a, 3) == 8 * a;
    assert Shl(a, 4) == 16 * a;
    assert Shl(a, 5) == 32 * a;
    assert Shl(a, 6) == 64 * a;
    assert Shl(a, 7) == 128 * a;
  }

  lemma {:induction false} ValueConcat(s: seq<Byte>, t: seq<Byte>)
    ensures Value(s + t) == Shl(Value(s), 8 * |t|) + Value(t)
  {
    if t == [] {
      assert s + t == s;
    } else {
      var front := t[..|t| - 1];
      ValueConcat(s, front);
      assert (s + t)[..|s + t| - 1] == s + front;
      ShlByte(Shl(Value(s), 8 * |front|));
      ShlShl(Value(s), 8 * |front|, 8);
    }
  }

  lemma {:induction false} ValueBound(s: seq<Byte>)
    ensures Value(s) < Pow2(8 * |s|)
  {
    if s != [] {
      var front := s[..|s| - 1];
      ValueBound(front);
      ShlOne(8 * |front|);
      ShlOne(8 * |s|);
      ShlShl(1, 8 * |front|, 8);
      ShlByte(Pow2(8 * |front|));
    }
  }

  /** The subprefix :0:c::/112 under the /64 an address belongs to. */
  function StablePod(a: nat): Prefix {
    Network(IPv6, MaskValue(a, 64) + Shl(12, 32), POD_MASK)
  }

  lemma {:induction false} ZeroBytes(s: seq<Byte>)
    requires forall i :: 0 <= i < |s| ==> s[i] == 0
    ensures Value(s) == 0
  {
    if s != [] {
      ZeroBytes(s[..|s| - 1]);
    }
  }

  predicate IsMnemonic(mid: seq<Byte>) {
    |mid| == 6 && mid[0] == mid[1] == mid[2] == 0 && mid[3] == 12 && mid[4] == mid[5] == 0
  }

  lemma {:induction false} MnemonicValue(mid: seq<Byte>)
    requires IsMnemonic(mid)
    ensures Shl(Value(mid), 16) == Shl(12, 32)
  {
    var front := mid[..4];
    ZeroBytes(front[..3]);
    assert Value(front) == 12;
    ZeroBytes(mid[4..]);
    ValueConcat(front, mid[4..]);
    assert mid == front + mid[4..];
    ShlShl(Value(front), 16, 16);
  }

  /** Clearing the last two bytes leaves the value of the bytes before them. */
  lemma {:induction false} ClearTail(front: seq<Byte>, tail: seq<Byte>)
    requires |tail| == 2
    ensures MaskValue(Value(front + tail), 16) == Shl(Value(front), 16)
  {
    ValueConcat(front, tail);
    ValueBound(tail);
    ShrBracket(Value(front + tail), 16, Value(front));
  }

  /** The first eight bytes are the upper half of the address. */
  lemma {:induction false} UpperHalf(high: seq<Byte>, low: seq<Byte>)
    requires |low| == 8
    ensures MaskValue(Value(high + low), 64) == Shl(Value(high), 64)
  {
    ValueConcat(high, low);
    ValueBound(low);
    ShrBracket(Value(high + low), 64, Value(high));
  }

  /**
   * getIPv6PodCIDR: rewrites bytes 8 to 13 of a copy and masks the result.  The pair is
   * the CIDR and whether the stable subprefix applies; without it the caller falls back.
   */
  method GetIPv6PodCIDR(ip: Option<Bytes>, desiredMask: nat) returns (pod: Option<Prefix>)
    ensures pod == if ip.Some? && desiredMask == POD_MASK then Some(StablePod(Value(ip.value))) else None
    ensures pod.Some? <==> ip.Some? && desiredMask == 112
    ensures pod.Some? ==>
      && pod.value.family == IPv6 && pod.value.bits == 112
      && pod.value.ip == Value(ip.value[..8] + [0, 0, 0, 12, 0, 0, 0, 0])
  {
    if ip.None? || desiredMask != POD_MASK {
      return None;
    }
    var s := ip.value;
    var copy := new Byte[16](i requires 0 <= i < 16 => s[i]);
    copy[8], copy[9] := 0, 0;
    copy[10], copy[11] := 0, 12;
    copy[12], copy[13] := 0, 0;
    ghost var t := copy[..];
    assert t == s[..8] + t[8..14] + t[14..];
    assert s == s[..8] + s[8..];
    RewrittenValue(s[..8], t[8..14], t[14..], s[8..]);
    RewrittenBytes(s[..8], t[8..14], t[14..]);
    return Some(Network(IPv6, MaskValue(Value(copy[..]), 128 - desiredMask), desiredMask));
  }

  lemma {:induction false} ShiftSum(high: nat, mid: nat)
    ensures Shl(Shl(high, 48) + mid, 16) == Shl(high, 64) + Shl(mid, 16)
  {
    ShlAdd(Shl(high, 48), mid, 16);
    ShlShl(high, 48, 16);
  }

  lemma {:induction false} SixBytes(s: seq<Byte>, t: seq<Byte>)
    requires |t| == 6
    ensures Value(s + t) == Shl(Value(s), 48) + Value(t)
  {
    ValueConcat(s, t);
  }

  lemma {:induction false} KeptAndMnemonic(high: seq<Byte>, mid: seq<Byte>)
    requires IsMnemonic(mid)
    ensures Shl(Value(high + mid), 16) == Shl(Value(high), 64) + Shl(12, 32)
  {
    SixBytes(high, mid);
    ShiftSum(Value(high), Value(mid));
    MnemonicValue(mid);
  }

  lemma {:induction false} RewrittenValue(high: seq<Byte>, mid: seq<Byte>, tail: seq<Byte>, rest: seq<Byte>)
    requires IsMnemonic(mid) && |tail| == 2 && |rest| == 8
    ensures MaskValue(Value(high + mid + tail), 16) == MaskValue(Value(high + rest), 64) + Shl(12, 32)
  {
    UpperHalf(high, rest);
    ClearTail(high + mid, tail);
    KeptAndMnemonic(high, mid);
  }

  lemma {:induction false} RewrittenBytes(high: seq<Byte>, mid: seq<Byte>, tail: seq<Byte>)
    requires IsMnemonic(mid) && |tail| == 2
    ensures MaskValue(Value(high + mid + tail), 16) == Value(high + [0, 0, 0, 12, 0, 0, 0, 0])
  {
    ClearTail(high + mid, tail);
    ClearTail(high + mid, [0, 0]);
    ValueConcat(high + mid, [0, 0]);
    ZeroBytes([0, 0]);
    assert high + [0, 0, 0, 12, 0, 0, 0, 0] == high + mid + [0, 0];
  }

  /** The end of allocateIPv6CIDR: `base` is the node's range with the address as written. */
  function AllocateIPv6CIDR(base: Prefix, maskSize: nat): Option<Prefix>
    requires base.family == IPv6 && maskSize <= 128
  {
    if maskSize == POD_MASK then
      var pod := StablePod(base.ip);
      if Contains(base, Some(IP(pod))) then Some(pod) else None
    else
      Some(Network(IPv6, MaskValue(base.ip, 128 - maskSize), maskSize))
  }

  lemma {:induction false} SubprefixFits(k: nat)
    requires k >= 4
    ensures Shl(12, k) < Pow2(k + k)
  {
    Pow2Monotone(4, k);
    assert Pow2(4) == 16;
    ShlStrict(12, Pow2(k), k);
    ShlOne(k);
    ShlShl(1, k, k);
    ShlOne(k + k);
  }

  lemma StablePodKeepsHalf(a: nat)
    ensures MaskValue(StablePod(a).ip, 64) == MaskValue(a, 64)
  {
    SubprefixFits(32);
    ShrBracket(StablePod(a).ip, 64, Shr(a, 64));
  }

  /** For a range of /64 or shorter the containment check never fails. */
  lemma ShortRangeAlwaysServed(base: Prefix, maskSize: nat)
    requires base.family == IPv6 && maskSize <= 128
    requires base.bits <= 64
    ensures AllocateIPv6CIDR(base, maskSize).Some?
  {
    StablePodKeepsHalf(base.ip);
    MaskCoarser(base.ip, 64, HostBits(base));
    MaskCoarser(StablePod(base.ip).ip, 64, HostBits(base));
  }

  lemma {:induction false} SumStaysAligned(q: nat, c: nat, fine: nat, middle: nat, coarse: nat)
    requires fine <= middle && fine <= coarse
    ensures MaskValue(Shl(q, coarse) + Shl(c, middle), fine) == Shl(q, coarse) + Shl(c, middle)
  {
    ShlShl(c, middle - fine, fine);
    AlignedSum(q, Shl(c, middle - fine), fine, coarse);
  }

  lemma StablePodStart(a: nat)
    ensures StablePod(a).ip == First(StablePod(a)) == Shl(Shr(a, 64), 64) + Shl(12, 32)
  {
    SumStaysAligned(Shr(a, 64), 12, 16, 32, 64);
  }

  /** With mask 112 the subprefix :0:c::/112 under the node's /64 is given, if the node's range holds it. */
  lemma StableExact(base: Prefix)
    requires base.family == IPv6
    ensures var start := Shl(Shr(base.ip, 64), 64) + Shl(12, 32);
            AllocateIPv6CIDR(base, 112) ==
            if InRange(base, Address(IPv6, start)) then Some(Network(IPv6, start, 112)) else None
  {
    StablePodStart(base.ip);
    ContainsIsInRange(base, IP(StablePod(base.ip)));
  }

  /** Any other mask is served, with the aligned block of that length that holds the node's own address. */
  lemma OtherExact(base: Prefix, maskSize: nat)
    requires base.family == IPv6 && maskSize <= 128 && maskSize != 112
    ensures AllocateIPv6CIDR(base, maskSize).Some?
    ensures var pod := AllocateIPv6CIDR(base, maskSize).value;
            pod.family == IPv6 && pod.bits == maskSize && pod.ip == First(pod) && InRange(pod, Address(IPv6, base.ip))
  {
    var pod := AllocateIPv6CIDR(base, maskSize).value;
    MaskCoarser(base.ip, 128 - maskSize, 128 - maskSize);
    ContainsIsInRange(pod, Address(IPv6, base.ip));
  }

  /** A returned pod CIDR lies wholly inside the node's range exactly when the mask is no shorter than the range. */
  lemma PodInsideRange(base: Prefix, maskSize: nat)
    requires base.family == IPv6 && maskSize <= 128
    requires AllocateIPv6CIDR(base, maskSize).Some?
    ensures Within(AllocateIPv6CIDR(base, maskSize).value, base) <==> base.bits <= maskSize
  {
    var pod := AllocateIPv6CIDR(base, maskSize).value;
    if base.bits <= maskSize {
      SharesIffShorterContains(base, pod);
      MaskCoarser(base.ip, 128 - maskSize, HostBits(base));
    } else {
      WithinNeedsLonger(base, pod);
    }
  }

  /** With mask 48 a node with a /64 range is given a CIDR that reaches out of it: 2001:db8::/48 for 2001:db8::/64. */
  lemma PodOutsideRange()
    ensures var base := Network(IPv6, Shl(0x2001_0db8, 96), 64);
            AllocateIPv6CIDR(base, 48).Some? && !Within(AllocateIPv6CIDR(base, 48).value, base)
  {
    PodInsideRange(Network(IPv6, Shl(0x2001_0db8, 96), 64), 48);
  }

  /** Nodes whose ranges are disjoint get disjoint pod CIDRs. */
  lemma DisjointRangesDisjointPods(base1: Prefix, base2: Prefix, maskSize: nat)
    requires base1.family == base2.family == IPv6 && maskSize <= 128
    requires base1.bits <= maskSize && base2.bits <= maskSize
    requires AllocateIPv6CIDR(base1, maskSize).Some? && AllocateIPv6CIDR(base2, maskSize).Some?
    requires !SharesAddress(base1, base2)
    ensures !SharesAddress(AllocateIPv6CIDR(base1, maskSize).value, AllocateIPv6CIDR(base2, maskSize).value)
  {
    PodInsideRange(base1, maskSize);
    PodInsideRange(base2, maskSize);
  }
}
