/** IPv4 addresses as the host and the configuration parser see them: the four
    bytes of `IPAddress.GetAddressBytes()`, their dotted-decimal text, the
    address filter of Function.CheckIfNewIpIsValid.cs and the subnet-mask
    check of Class.NetworkConfiguration.cs. */
module Ipv4 {

  import opened Text

  newtype uint8 = x: int | 0 <= x < 256

  /** An IPv4 address, bytes in network order. */
  datatype Ip4 = Ip4(b0: uint8, b1: uint8, b2: uint8, b3: uint8)
  {
    function Bytes(): seq<uint8>
    {
      [b0, b1, b2, b3]
    }
  }

  /** `IPAddress.None`: 255.255.255.255, the default of every address field. */
  const NoneAddress := Ip4(255, 255, 255, 255)

  /** `IPAddress.ToString()` for an IPv4 address: four decimal numbers joined
      by dots. */
  function FormatIp(a: Ip4): (r: string)
    ensures |r| > 0 && IsDigit(r[0]) && IsDigit(r[|r| - 1])
    ensures forall i :: 0 <= i < |r| ==> r[i] == '.' || IsDigit(r[i])
  {
    NatToString(a.b0 as nat) + "." + NatToString(a.b1 as nat) + "."
      + NatToString(a.b2 as nat) + "." + NatToString(a.b3 as nat)
  }

  /** The four bytes as decimal numbers, each free of dots. */
  function DecimalFields(a: Ip4): (fields: seq<string>)
    ensures |fields| == 4
    ensures forall i :: 0 <= i < 4 ==> '.' !in fields[i]
  {
    var fields := [NatToString(a.b0 as nat), NatToString(a.b1 as nat),
                   NatToString(a.b2 as nat), NatToString(a.b3 as nat)];
    assert forall i :: 0 <= i < 4 ==> forall j :: 0 <= j < |fields[i]| ==> IsDigit(fields[i][j]);
    fields
  }

  lemma FormatIpIsJoin(a: Ip4)
    ensures FormatIp(a) == Join(DecimalFields(a), '.')
  {
    var fields := DecimalFields(a);
    assert fields[1..][1..][1..] == [fields[3]];
    assert Join(fields[2..], '.') == fields[2] + "." + fields[3];
    assert Join(fields[1..], '.') == fields[1] + "." + fields[2] + "." + fields[3];
  }

  /** The dotted text splits into four decimal fields that read back as the
      four bytes, so `FormatIp` loses nothing. */
  lemma FormatIpReadsBack(a: Ip4)
    ensures |Split(FormatIp(a), '.')| == 4
    ensures forall i :: 0 <= i < 4 ==>
      var field := Split(FormatIp(a), '.')[i];
      (forall j :: 0 <= j < |field| ==> IsDigit(field[j])) && DecimalValue(field) == a.Bytes()[i] as int
  {
    FormatIpIsJoin(a);
    SplitJoin(DecimalFields(a), '.');
    DecimalRoundTrip(a.b0 as nat);
    DecimalRoundTrip(a.b1 as nat);
    DecimalRoundTrip(a.b2 as nat);
    DecimalRoundTrip(a.b3 as nat);
  }

  /** Function.CheckIfNewIpIsValid.cs: the conjunction of ten exact byte
      comparisons, kept in the source's order and with its names. */
  predicate CheckIfNewIpIsValid(a: Ip4)
  {
    var noEmptyAddress := a.b0 != 0 || a.b1 != 0 || a.b2 != 0 || a.b3 != 0;
    var noLoopback := a.b0 != 127;
    var noLinkLocal := a.b0 != 169 || a.b1 != 254;
    var noTestNet1 := a.b0 != 192 || a.b1 != 0;
    var noIpv6Relay := a.b0 != 192 || a.b1 != 88 || a.b2 != 99;
    var noTestNet2 := a.b0 != 198;
    var noTestNet3 := a.b0 != 203;
    var noMulticast := a.b0 != 224;
    var noReserved := a.b0 != 240;
    var noBroadcast := a.b0 != 255 || a.b1 != 255 || a.b2 != 255 || a.b3 != 255;
    noEmptyAddress && noLoopback && noLinkLocal && noTestNet1 && noIpv6Relay
      && noTestNet2 && noTestNet3 && noMulticast && noReserved && noBroadcast
  }

  /** The ranges the filter refuses, each as the leading bytes an address must
      start with to fall in it: 0.0.0.0, 127/8, 169.254/16, 192.0/16,
      192.88.99/24, 198/8, 203/8, 224/8, 240/8 and 255.255.255.255. */
  const BlockedPrefixes: seq<seq<uint8>> :=
    [[0, 0, 0, 0], [127], [169, 254], [192, 0], [192, 88, 99],
     [198], [203], [224], [240], [255, 255, 255, 255]]

  /** The address falls in one of the blocked ranges. */
  predicate IsBlocked(a: Ip4)
  {
    exists i :: 0 <= i < |BlockedPrefixes| && BlockedPrefixes[i] <= a.Bytes()
  }

  /** The filter accepts an address exactly when it falls in none of the
      blocked ranges. */
  lemma CheckIfNewIpIsValidIffUnblocked(a: Ip4)
    ensures CheckIfNewIpIsValid(a) <==> !IsBlocked(a)
  {
    var bytes := a.Bytes();
    assert bytes[..1] == [a.b0];
    assert bytes[..2] == [a.b0, a.b1];
    assert bytes[..3] == [a.b0, a.b1, a.b2];
    assert bytes[..4] == bytes;
    if IsBlocked(a) {
      var i :| 0 <= i < |BlockedPrefixes| && BlockedPrefixes[i] <= bytes;
      var p := BlockedPrefixes[i];
      assert bytes[..|p|] == p;
      assert forall j :: 0 <= j < |p| ==> bytes[j] == bytes[..|p|][j];
    }
    if !CheckIfNewIpIsValid(a) {
      var i :=
        if bytes == [0, 0, 0, 0] then 0
        else if a.b0 == 127 then 1
        else if a.b0 == 169 && a.b1 == 254 then 2
        else if a.b0 == 192 && a.b1 == 0 then 3
        else if a.b0 == 192 && a.b1 == 88 && a.b2 == 99 then 4
        else if a.b0 == 198 then 5
        else if a.b0 == 203 then 6
        else if a.b0 == 224 then 7
        else if a.b0 == 240 then 8
        else 9;
      assert BlockedPrefixes[i] <= bytes;
    }
  }

  /** The edges of the ranges, as the source writes them: only the exact
      first bytes 224 and 240 are refused, 0.0.0.0 and 255.255.255.255 only
      as whole addresses, and the whole of 192.0/16, 198/8 and 203/8. */
  lemma FilterEdges()
    ensures CheckIfNewIpIsValid(Ip4(0, 1, 2, 3)) && !CheckIfNewIpIsValid(Ip4(0, 0, 0, 0))
    ensures CheckIfNewIpIsValid(Ip4(239, 1, 1, 1)) && CheckIfNewIpIsValid(Ip4(241, 0, 0, 1))
    ensures !CheckIfNewIpIsValid(Ip4(224, 0, 0, 1)) && !CheckIfNewIpIsValid(Ip4(240, 9, 9, 9))
    ensures CheckIfNewIpIsValid(Ip4(255, 0, 0, 1)) && !CheckIfNewIpIsValid(NoneAddress)
    ensures !CheckIfNewIpIsValid(Ip4(192, 0, 200, 1)) && CheckIfNewIpIsValid(Ip4(192, 1, 0, 1))
    ensures !CheckIfNewIpIsValid(Ip4(198, 200, 0, 1)) && !CheckIfNewIpIsValid(Ip4(203, 1, 1, 1))
    ensures !CheckIfNewIpIsValid(Ip4(127, 0, 0, 1)) && !CheckIfNewIpIsValid(Ip4(169, 254, 3, 4))
    ensures CheckIfNewIpIsValid(Ip4(192, 168, 1, 50)) && CheckIfNewIpIsValid(Ip4(10, 0, 0, 5))
  {}

  // ---------------------------------------------------------------------
  // The subnet mask as a 32-bit value

  function Pow2(n: nat): (p: nat)
    ensures p >= 1
  {
    if n == 0 then 1 else 2 * Pow2(n - 1)
  }

  /** The unsigned number a bit string denotes, most significant bit first. */
  function Value(bits: seq<bool>): nat
  {
    if bits == [] then 0
    else (if bits[0] then Pow2(|bits| - 1) else 0) + Value(bits[1..])
  }

  lemma {:induction false} ValueBound(bits: seq<bool>)
    ensures Value(bits) < Pow2(|bits|)
  {
    if bits != [] {
      ValueBound(bits[1..]);
    }
  }

  /** The `width`-bit binary form of `v`, most significant bit first; it
      denotes `v` again. */
  function NatBits(v: nat, width: nat): (r: seq<bool>)
    requires v < Pow2(width)
    ensures |r| == width
    ensures Value(r) == v
  {
    if width == 0 then []
    else
      var high := v >= Pow2(width - 1);
      var rest := NatBits(if high then v - Pow2(width - 1) else v, width - 1);
      assert ([high] + rest)[1..] == rest;
      [high] + rest
  }

  lemma {:induction false} Pow2Add(m: nat, n: nat)
    ensures Pow2(m + n) == Pow2(m) * Pow2(n)
  {
    if m > 0 {
      Pow2Add(m - 1, n);
      assert Pow2(m + n) == 2 * Pow2(m - 1 + n);
    }
  }

  lemma Distribute(a: int, b: int, c: int)
    ensures a * c + b * c == (a + b) * c
  {}

  lemma {:induction false} ValueAppend(x: seq<bool>, y: seq<bool>)
    ensures Value(x + y) == Value(x) * Pow2(|y|) + Value(y)
  {
    if x == [] {
      assert x + y == y;
    } else {
      var rest := x[1..];
      assert (x + y)[1..] == rest + y;
      ValueAppend(rest, y);
      Pow2Add(|x| - 1, |y|);
      var high := if x[0] then Pow2(|x| - 1) else 0;
      assert Value(x) == high + Value(rest);
      assert Value(x + y) == high * Pow2(|y|) + Value(rest + y);
      Distribute(high, Value(rest), Pow2(|y|));
    }
  }

  /** The value `BitConverter.ToUInt32` reads from the reversed address bytes
      on a little-endian machine: the big-endian reading of the address. */
  function BigEndianValue(a: Ip4): nat
  {
    ((a.b0 as nat * 256 + a.b1 as nat) * 256 + a.b2 as nat) * 256 + a.b3 as nat
  }

  /** The eight bits of one byte. */
  function ByteBits(b: uint8): (r: seq<bool>)
    ensures |r| == 8 && Value(r) == b as nat
  {
    assert Pow2(8) == 256;
    NatBits(b as nat, 8)
  }

  /** The 32 bits of the mask value, most significant first: the `uint` the
      mask check shifts. */
  function Bits(a: Ip4): (r: seq<bool>)
    ensures |r| == 32
  {
    ByteBits(a.b0) + ByteBits(a.b1) + ByteBits(a.b2) + ByteBits(a.b3)
  }

  /** `Bits` denotes the big-endian value of the address. */
  lemma BitsValue(a: Ip4)
    ensures Value(Bits(a)) == BigEndianValue(a)
  {
    var x0, x1, x2, x3 := ByteBits(a.b0), ByteBits(a.b1), ByteBits(a.b2), ByteBits(a.b3);
    assert Pow2(8) == 256;
    assert Value(x0 + x1) == a.b0 as nat * 256 + a.b1 as nat by {
      ValueAppend(x0, x1);
    }
    assert Value(x0 + x1 + x2) == (a.b0 as nat * 256 + a.b1 as nat) * 256 + a.b2 as nat by {
      ValueAppend(x0 + x1, x2);
    }
    assert Value(x0 + x1 + x2 + x3) == BigEndianValue(a) by {
      ValueAppend(x0 + x1 + x2, x3);
    }
  }

  /** The first bit is set exactly when `(value & 0x80000000) == 0x80000000`,
      that is, when the value is at least half the range. */
  lemma TopBitIsHighHalf(bits: seq<bool>)
    requires |bits| >= 1
    ensures bits[0] <==> Value(bits) >= Pow2(|bits| - 1)
  {
    ValueBound(bits[1..]);
  }

  lemma {:induction false} ValueAppendClear(bits: seq<bool>)
    ensures Value(bits + [false]) == 2 * Value(bits)
  {
    if bits != [] {
      assert (bits + [false])[1..] == bits[1..] + [false];
      ValueAppendClear(bits[1..]);
    }
  }

  /** Dropping the first bit and appending a clear one is `value <<= 1` on
      an unsigned value of that many bits: the value doubles, and the bit
      shifted out of the top is lost. */
  lemma ShiftLeftIsDoubling(bits: seq<bool>)
    requires |bits| >= 1
    ensures Value(bits[1..] + [false])
      == if bits[0] then 2 * Value(bits) - Pow2(|bits|) else 2 * Value(bits)
  {
    ValueAppendClear(bits[1..]);
  }

  /** The mask with `ones` leading set bits and the rest clear. */
  function PrefixBits(ones: nat): (r: seq<bool>)
    requires ones <= 32
    ensures |r| == 32
  {
    seq(32, i => i < ones)
  }

  /** One of the 33 contiguous subnet masks, /0 to /32. */
  ghost predicate IsPrefixMask(bits: seq<bool>)
  {
    exists ones: nat :: ones <= 32 && bits == PrefixBits(ones)
  }

  /** The property the source's comment states: no set bit after the first
      unset bit. */
  predicate NoSetBitAfterClearBit(bits: seq<bool>)
  {
    forall i, j :: 0 <= i < j < |bits| && !bits[i] ==> !bits[j]
  }

  lemma PrefixMaskIffNoSetBitAfterClearBit(bits: seq<bool>)
    requires |bits| == 32
    ensures IsPrefixMask(bits) <==> NoSetBitAfterClearBit(bits)
  {
    if NoSetBitAfterClearBit(bits) {
      var ones := 0;
      while ones < 32 && bits[ones]
        invariant ones <= 32
        invariant forall i :: 0 <= i < ones ==> bits[i]
      {
        ones := ones + 1;
      }
      assert bits == PrefixBits(ones);
    }
  }

  /** The 33 prefix masks are pairwise different. */
  lemma PrefixMasksDistinct(a: nat, b: nat)
    requires a <= 32 && b <= 32 && a != b
    ensures PrefixBits(a) != PrefixBits(b)
  {
    var m := if a < b then a else b;
    assert PrefixBits(a)[m] != PrefixBits(b)[m];
  }

  /** Class.NetworkConfiguration.cs, the mask check: shift the value left
      while its top bit is set; it was contiguous exactly when nothing is
      left. The loop runs at most 32 times. */
  method IsContiguousMask(mask: Ip4) returns (ok: bool)
    ensures ok <==> IsPrefixMask(Bits(mask))
  {
    var newMask := Bits(mask);
    ghost var shifted: nat := 0;
    while newMask[0]
      invariant shifted <= 32
      invariant newMask == Bits(mask)[shifted..] + seq(shifted, _ => false)
      invariant forall i :: 0 <= i < shifted ==> Bits(mask)[i]
      decreases 32 - shifted
    {
      newMask := newMask[1..] + [false];
      shifted := shifted + 1;
    }
    ok := newMask == seq(32, _ => false);
    var bits := Bits(mask);
    if ok {
      assert forall i :: shifted <= i < 32 ==> bits[i] == newMask[i - shifted];
      assert bits == PrefixBits(shifted);
    } else {
      assert shifted < 32 && !bits[shifted];
      var j :| 0 <= j < 32 && newMask[j];
      assert j < 32 - shifted && bits[shifted + j];
      forall ones: nat | ones <= 32 ensures bits != PrefixBits(ones) {
        if ones <= shifted {
          assert PrefixBits(ones)[shifted + j] != bits[shifted + j];
        } else {
          assert PrefixBits(ones)[shifted] != bits[shifted];
        }
      }
    }
  }

  lemma ByteBitsExtremes()
    ensures ByteBits(255) == seq(8, _ => true)
    ensures ByteBits(0) == seq(8, _ => false)
  {
    assert Pow2(8) == 256;
  }

  /** 255.255.255.0 is the /24 mask and passes the mask check. */
  lemma MaskExampleAccepted()
    ensures IsPrefixMask(Bits(Ip4(255, 255, 255, 0)))
  {
    ByteBitsExtremes();
    assert Bits(Ip4(255, 255, 255, 0)) == PrefixBits(24);
  }

  /** 255.0.255.0 has a set bit after a clear one and fails it. */
  lemma MaskExampleRejected()
    ensures !IsPrefixMask(Bits(Ip4(255, 0, 255, 0)))
  {
    ByteBitsExtremes();
    var bits := Bits(Ip4(255, 0, 255, 0));
    assert bits[8] == ByteBits(0)[0] && bits[16] == ByteBits(255)[0];
    forall n: nat | n <= 32 ensures bits != PrefixBits(n) {
      if n <= 16 {
        assert PrefixBits(n)[16] != bits[16];
      } else {
        assert PrefixBits(n)[8] != bits[8];
      }
    }
  }
}
