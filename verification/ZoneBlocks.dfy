/** The addresses of a reverse zone: its size, its first and last address, and its sub-zones. */
module ZoneBlocks {
  import opened Arithmetic
  import opened Results
  import opened Text
  import opened Ipv4

  // ---- Sizes and masks ----------------------------------------------------

  function ShiftRight(x: nat, k: nat): nat {
    if k == 0 then x else ShiftRight(x / 2, k - 1)
  }

  lemma {:induction false} ShiftAllOnes(n: nat, k: nat)
    requires k <= n
    ensures ShiftRight(Pow2(n) - 1, k) == Pow2(n - k) - 1
  {
    if k > 0 {
      assert (Pow2(n) - 1) / 2 == Pow2(n - 1) - 1;
      ShiftAllOnes(n - 1, k - 1);
    }
  }

  /** get_net_range: the 32-bit value with all bits set, shifted right, plus one. */
  function NetRange(prefix: nat): (n: nat)
    ensures 0 < n
  {
    ShiftRight(SPACE - 1, prefix) + 1
  }

  lemma NetRangeIsPower(prefix: nat)
    requires prefix <= 32
    ensures NetRange(prefix) == Pow2(32 - prefix)
  {
    Pow2Values();
    ShiftAllOnes(32, prefix);
  }

  /** Complement in 32 bits. */
  function BitNot(x: Address): Address { SPACE - 1 - x }

  /** prefix_to_mask_ipv4: 32 set bits shifted left in a wider type, then cut to 32 bits. */
  function PrefixToMask(prefix: nat): Address
    requires prefix <= 32
  {
    if prefix == 0 then 0 else (SPACE - 1) * Pow2(32 - prefix) % SPACE
  }

  lemma MaskIsHighBits(prefix: nat)
    requires prefix <= 32
    ensures PrefixToMask(prefix) == SPACE - Pow2(32 - prefix)
    ensures BitNot(PrefixToMask(prefix)) == Pow2(32 - prefix) - 1
  {
    Pow2Values();
    if prefix > 0 {
      Pow2Add(prefix, 32 - prefix);
      var q := Pow2(32 - prefix);
      assert Pow2(prefix) * q == SPACE;
      Pow2Monotone(32 - prefix, 32);
      assert (SPACE - 1) * q == SPACE * (q - 1) + (SPACE - q);
      DivideExactly((SPACE - 1) * q, SPACE, q - 1, SPACE - q);
    }
  }

  // ---- Sub-zones ----------------------------------------------------------

  /** get_zone_index: how many sub-zones a zone has; pow(2, i) is exact for these small i. */
  function GetZoneIndex(prefix: nat): Result<nat> {
    if prefix == 0 then Err(NoData)
    else if prefix < 8 then Err(PrefixOutOfRange)
    else if 8 < prefix < 16 then Ok(Pow2(16 - prefix))
    else if 16 < prefix < 24 then Ok(Pow2(24 - prefix))
    else Ok(1)
  }

  /** Which prefixes have no count of sub-zones, and the error of each; above 24 there is one sub-zone. */
  lemma ZoneIndexErrors(prefix: nat)
    ensures GetZoneIndex(prefix) == Err(NoData) <==> prefix == 0
    ensures GetZoneIndex(prefix) == Err(PrefixOutOfRange) <==> 1 <= prefix <= 7
    ensures prefix > 24 ==> GetZoneIndex(prefix) == Ok(1)
  {
  }

  predicate Supported(prefix: nat) { 9 <= prefix <= 24 }

  /** Addresses covered by one in-addr.arpa name: three octets fixed, or two. */
  function SubZoneSize(prefix: nat): nat
    requires 8 <= prefix <= 24
  {
    if prefix > 16 then 256 else if prefix > 8 then 0x1_0000 else 0x100_0000
  }

  /** The sub-zones fill the zone: count times size is the size of the prefix. */
  lemma SubZonesFillZone(prefix: nat)
    requires 8 <= prefix <= 24
    ensures GetZoneIndex(prefix).Ok? && 1 <= GetZoneIndex(prefix).value <= 128
    ensures GetZoneIndex(prefix).value * SubZoneSize(prefix) == NetRange(prefix)
    ensures NetRange(prefix) <= 0x100_0000
  {
    NetRangeIsPower(prefix);
    Pow2Values();
    if prefix > 16 {
      Pow2Add(24 - prefix, 8);
      Pow2Monotone(24 - prefix, 7);
    } else if prefix > 8 {
      Pow2Add(16 - prefix, 16);
      Pow2Monotone(16 - prefix, 7);
    }
  }

  /** get_offset_ip: the text of the first address of sub-zone number index. */
  function GetOffsetIp(range: string, prefix: nat, index: nat): Result<string> {
    if prefix == 0 then Err(NoData)
    else
      var ip :- TextToBin(range);
      if 16 < prefix <= 24 then BinToText((ip + 256 * index) % ULONG)
      else if 8 < prefix <= 16 then BinToText((ip + 0x1_0000 * index) % ULONG)
      else if prefix == 8 then BinToText(ip)
      else Err(IpConvertFailed)
  }

  /** First address of sub-zone i of a zone that starts at start. */
  function SubZoneStart(start: nat, prefix: nat, i: nat): nat
    requires 8 <= prefix <= 24
  {
    start + i * SubZoneSize(prefix)
  }

  /** Address ip lies in sub-zone i. */
  predicate InSubZone(ip: nat, start: nat, prefix: nat, i: nat)
    requires 8 <= prefix <= 24
  {
    SubZoneStart(start, prefix, i) <= ip < SubZoneStart(start, prefix, i) + SubZoneSize(prefix)
  }

  predicate InZone(ip: nat, start: nat, prefix: nat)
    requires 8 <= prefix <= 24
  {
    start <= ip < start + NetRange(prefix)
  }

  /** Every address of the zone lies in the sub-zone numbered by its offset, and in no other;
      no other address lies in any sub-zone. */
  lemma SubZonesPartitionZone(ip: nat, start: nat, prefix: nat, i: nat)
    requires 8 <= prefix <= 24
    ensures i < GetZoneIndex(prefix).value && InSubZone(ip, start, prefix, i)
            <==> InZone(ip, start, prefix) && i == (ip - start) / SubZoneSize(prefix)
  {
    SubZonesFillZone(prefix);
    var size, count := SubZoneSize(prefix), GetZoneIndex(prefix).value;
    if i < count && InSubZone(ip, start, prefix, i) {
      DivideExactly(ip - start, size, i, ip - start - i * size);
      MulMonotone(i + 1, count, size);
    }
    if InZone(ip, start, prefix) && i == (ip - start) / size {
      DivisionParts(ip - start, size);
      if i >= count { MulMonotone(count, i, size); }
    }
  }

  /** The text get_offset_ip writes is the first address of the sub-zone, unless that address is zero
      or past the end of the address space. */
  lemma OffsetIpText(range: string, start: Address, prefix: nat, i: nat)
    requires TextToBin(range) == Ok(start)
    requires 8 <= prefix <= 24 && (prefix == 8 ==> i == 0)
    requires SubZoneStart(start, prefix, i) < SPACE
    ensures GetOffsetIp(range, prefix, i)
            == if SubZoneStart(start, prefix, i) == 0 then Err(NoData) else Ok(Print(SubZoneStart(start, prefix, i)))
  {
    var first := SubZoneStart(start, prefix, i);
    OffsetIpNumber(range, start, prefix, i);
    CutIsModulo(first);
  }

  /** The errors of get_offset_ip before it converts: no prefix, then a range that is no address, then a prefix out of
      8 to 24. */
  lemma OffsetIpErrors(range: string, prefix: nat, i: nat)
    ensures prefix == 0 ==> GetOffsetIp(range, prefix, i) == Err(NoData)
    ensures prefix != 0 && TextToBin(range).Err? ==> GetOffsetIp(range, prefix, i) == Err(TextToBin(range).error)
    ensures prefix != 0 && TextToBin(range).Ok? && !(8 <= prefix <= 24) ==>
              GetOffsetIp(range, prefix, i) == Err(IpConvertFailed)
  {
    hide Parse, Print;
  }

  /** get_offset_ip converts the sum, cut to an unsigned long, to text. */
  lemma OffsetIpNumber(range: string, start: Address, prefix: nat, i: nat)
    requires TextToBin(range) == Ok(start)
    requires 8 <= prefix <= 24 && (prefix == 8 ==> i == 0)
    ensures GetOffsetIp(range, prefix, i) == BinToText(SubZoneStart(start, prefix, i) % ULONG)
  {
    hide Parse, Print, BinToText;
    assert SubZoneStart(start, prefix, i) == if prefix > 16 then start + 256 * i
                                             else if prefix > 8 then start + 0x1_0000 * i else start;
    CutIsModulo(start);
  }

  // ---- First and last address --------------------------------------------

  /** get_start_finsh_ips: the last address is one before the sub-zone after the last, by way of its text. */
  function GetStartFinish(range: string, prefix: nat): Result<(nat, nat)> {
    var start :- TextToBin(range);
    var index :- GetZoneIndex(prefix);
    var after :- GetOffsetIp(range, prefix, index);
    var last :- TextToBin(after);
    Ok((start, MinusOne(last)))
  }

  /** Decrement of an unsigned long. */
  function MinusOne(n: nat): nat { if n == 0 then ULONG - 1 else n - 1 }

  /** An address plus a size, cut to 32 bits. */
  function Cut(n: nat): Address
    requires n < 2 * SPACE
  {
    if n < SPACE then n else n - SPACE
  }

  lemma CutIsModulo(n: nat)
    requires n < 2 * SPACE
    ensures n % ULONG == n && n % SPACE == Cut(n)
  {
  }

  /** What get_start_finsh_ips returns, without the detour through text. */
  lemma StartFinishValue(range: string, start: Address, prefix: nat)
    requires TextToBin(range) == Ok(start) && Supported(prefix)
    ensures NetRange(prefix) <= 0x100_0000
    ensures GetStartFinish(range, prefix) == Ok((start, MinusOne(Cut(start + NetRange(prefix)))))
  {
    hide Parse, Print, BinToText, GetOffsetIp, GetStartFinish, TextToBin, NetRange;
    SubZonesFillZone(prefix);
    var index := GetZoneIndex(prefix).value;
    OffsetIpNumber(range, start, prefix, index);
    assert SubZoneStart(start, prefix, index) == start + NetRange(prefix);
    StartFinishOf(range, start, prefix, index, start + NetRange(prefix));
  }

  lemma StartFinishOf(range: string, start: Address, prefix: nat, index: nat, after: nat)
    requires TextToBin(range) == Ok(start) && GetZoneIndex(prefix) == Ok(index)
    requires GetOffsetIp(range, prefix, index) == BinToText(after % ULONG)
    requires 0 < after < 2 * SPACE
    ensures GetStartFinish(range, prefix) == Ok((start, MinusOne(Cut(after))))
  {
    CutIsModulo(after);
    BinTextBin(after);
  }

  lemma SlashEightValue(range: string, start: Address)
    requires TextToBin(range) == Ok(start)
    ensures GetStartFinish(range, 8) == if start == 0 then Err(NoData) else Ok((start, start - 1))
  {
    CutIsModulo(start);
    BinTextBin(start);
  }

  /** get_start_finsh_ips succeeds exactly for an address text and a prefix from 8 to 24, except 0.0.0.0/8.
      A /8 finishes one before it starts: get_offset_ip adds nothing for that prefix. */
  lemma StartFinishSucceeds(range: string, prefix: nat)
    ensures GetStartFinish(range, prefix).Ok?
            <==> TextToBin(range).Ok? && (Supported(prefix) || (prefix == 8 && TextToBin(range).value != 0))
    ensures GetStartFinish(range, 8).Ok?
            ==> GetStartFinish(range, 8).value.1 == GetStartFinish(range, 8).value.0 - 1
  {
    match TextToBin(range)
    case Ok(start) =>
      if Supported(prefix) { StartFinishValue(range, start, prefix); }
      SlashEightValue(range, start);
    case Err(_) =>
  }

  /** The last address is right exactly when the zone ends below the top of the address space. A zone that
      ends at the top wraps to the largest unsigned long, one that passes the top finishes before it starts. */
  lemma FinishExact(range: string, start: Address, prefix: nat)
    requires TextToBin(range) == Ok(start) && Supported(prefix)
    ensures GetStartFinish(range, prefix).Ok? && GetStartFinish(range, prefix).value.0 == start
    ensures var finish := GetStartFinish(range, prefix).value.1;
            && (finish == start + NetRange(prefix) - 1 <==> start + NetRange(prefix) < SPACE)
            && (finish < start <==> start + NetRange(prefix) > SPACE)
            && (finish == ULONG - 1 <==> start + NetRange(prefix) == SPACE)
  {
    StartFinishValue(range, start, prefix);
    CutEnd(start, NetRange(prefix));
  }

  lemma CutEnd(start: Address, size: nat)
    requires 0 < size <= 0x100_0000
    ensures var finish := MinusOne(Cut(start + size));
            && (finish == start + size - 1 <==> start + size < SPACE)
            && (finish < start <==> start + size > SPACE)
            && (finish == ULONG - 1 <==> start + size == SPACE)
  {
  }

  /** For an aligned network the last address is the network OR the complement of the mask, and the
      addresses that mask back to the network are exactly those from first to last. */
  lemma MaskAgrees(range: string, start: Address, prefix: nat, ip: Address)
    requires TextToBin(range) == Ok(start) && Supported(prefix)
    requires start % NetRange(prefix) == 0 && start + NetRange(prefix) < SPACE
    ensures GetStartFinish(range, prefix)
            == Ok((start, BitOr(start, BitNot(PrefixToMask(prefix)))))
    ensures start <= ip <= BitOr(start, BitNot(PrefixToMask(prefix))) <==> BitAnd(ip, PrefixToMask(prefix)) == start
  {
    hide Parse, Print, BitAnd, BitOr, BitNot, PrefixToMask, NetRange, GetStartFinish, TextToBin;
    StartFinishValue(range, start, prefix);
    MaskOfAligned(start, prefix, ip);
  }

  lemma MaskOfAligned(start: Address, prefix: nat, ip: Address)
    requires prefix <= 32 && start % NetRange(prefix) == 0
    ensures BitOr(start, BitNot(PrefixToMask(prefix))) == start + NetRange(prefix) - 1
    ensures start <= ip < start + NetRange(prefix) <==> BitAnd(ip, PrefixToMask(prefix)) == start
  {
    hide BitAnd, BitOr, BitNot, PrefixToMask, NetRange, Pow2;
    NetRangeIsPower(prefix);
    MaskIsHighBits(prefix);
    Pow2Values();
    OrLowBits(start, 32 - prefix);
    AndHighBits(ip, 32 - prefix, 32);
    SameBlock(start, ip, NetRange(prefix));
  }

  /** An address lies in an aligned block exactly when clearing its offset gives the block's start. */
  lemma SameBlock(start: nat, ip: nat, size: nat)
    requires 0 < size && start % size == 0
    ensures start <= ip < start + size <==> ip - ip % size == start
    ensures start <= ip < start + size <==> ip / size == start / size
  {
    DivisionParts(ip, size);
    DivisionParts(start, size);
    if start <= ip < start + size {
      DivideExactly(ip, size, start / size, ip - start);
    }
    if ip / size == start / size {
      assert size * (ip / size) == size * (start / size);
    }
    if ip - ip % size == start {
      DivisionUnique(size, ip / size, 0, start / size, 0);
    }
  }

  // ---- Sub-zones and aligned blocks ---------------------------------------

  /** Address ip lies in the aligned block, of the size of a sub-zone, that holds first. Texts that keep the leading
      octets of first stand for that block. */
  predicate InBlockOf(ip: nat, first: nat, prefix: nat)
    requires 8 <= prefix <= 24
  {
    ip / SubZoneSize(prefix) == first / SubZoneSize(prefix)
  }

  /** It lies in the aligned block of one of the sub-zones. */
  ghost predicate InSomeBlock(ip: nat, start: nat, prefix: nat)
    requires 8 <= prefix <= 24
  {
    exists i: nat :: i < GetZoneIndex(prefix).value && InBlockOf(ip, SubZoneStart(start, prefix, i), prefix)
  }

  lemma SubZoneAligned(start: nat, prefix: nat, i: nat)
    requires 8 <= prefix <= 24
    ensures SubZoneStart(start, prefix, i) % SubZoneSize(prefix) == start % SubZoneSize(prefix)
  {
    var size := SubZoneSize(prefix);
    DivisionParts(start, size);
    assert size * (start / size + i) == size * (start / size) + size * i;
    DivideExactly(start + i * size, size, start / size + i, start % size);
  }

  /** The first address of the aligned block that holds the first address of a sub-zone. */
  function BlockStart(first: Address, prefix: nat): (below: Address)
    requires 8 <= prefix <= 24
    ensures below <= first
  {
    first - first % SubZoneSize(prefix)
  }

  lemma BlockStartInBlock(first: Address, prefix: nat)
    requires 8 <= prefix <= 24
    ensures InBlockOf(BlockStart(first, prefix), first, prefix)
  {
    DivisionParts(first, SubZoneSize(prefix));
    DivideExactly(BlockStart(first, prefix), SubZoneSize(prefix), first / SubZoneSize(prefix), 0);
  }

  /** A sub-zone is the aligned block that holds its first address exactly when the zone starts on a sub-zone
      boundary. */
  lemma SubZoneIsBlockExactly(start: Address, prefix: nat, i: nat)
    requires 8 <= prefix <= 24 && SubZoneStart(start, prefix, i) < SPACE
    ensures (forall ip: Address ::
               InBlockOf(ip, SubZoneStart(start, prefix, i), prefix) <==> InSubZone(ip, start, prefix, i))
            <==> start % SubZoneSize(prefix) == 0
  {
    var first, size := SubZoneStart(start, prefix, i), SubZoneSize(prefix);
    SubZoneAligned(start, prefix, i);
    if start % size == 0 {
      forall ip: Address ensures InBlockOf(ip, first, prefix) <==> InSubZone(ip, start, prefix, i) {
        SameBlock(first, ip, size);
      }
    } else {
      BlockStartInBlock(first, prefix);
      assert !InSubZone(BlockStart(first, prefix), start, prefix, i);
    }
  }

  /** The aligned blocks of all sub-zones together are the zone, under the same condition. */
  lemma BlocksAreZoneExactly(start: Address, prefix: nat)
    requires 8 <= prefix <= 24 && start + NetRange(prefix) <= SPACE
    ensures (forall ip: Address :: InSomeBlock(ip, start, prefix) <==> InZone(ip, start, prefix))
            <==> start % SubZoneSize(prefix) == 0
  {
    SubZonesFillZone(prefix);
    if start % SubZoneSize(prefix) == 0 {
      forall ip: Address ensures InSomeBlock(ip, start, prefix) <==> InZone(ip, start, prefix) {
        AlignedBlocksAreZone(ip, start, prefix);
      }
    } else {
      assert SubZoneStart(start, prefix, 0) == start;
      BlockStartInBlock(start, prefix);
      assert InSomeBlock(BlockStart(start, prefix), start, prefix) && !InZone(BlockStart(start, prefix), start, prefix);
    }
  }

  lemma AlignedBlocksAreZone(ip: Address, start: Address, prefix: nat)
    requires 8 <= prefix <= 24 && start + NetRange(prefix) <= SPACE && start % SubZoneSize(prefix) == 0
    ensures InSomeBlock(ip, start, prefix) <==> InZone(ip, start, prefix)
  {
    SubZonesFillZone(prefix);
    var size, count := SubZoneSize(prefix), GetZoneIndex(prefix).value;
    forall i: nat | i < count
      ensures InBlockOf(ip, SubZoneStart(start, prefix, i), prefix) <==> InSubZone(ip, start, prefix, i)
    {
      SubZoneAligned(start, prefix, i);
      SameBlock(SubZoneStart(start, prefix, i), ip, size);
    }
    forall i: nat | i < count && InSubZone(ip, start, prefix, i) ensures InZone(ip, start, prefix) {
      SubZonesPartitionZone(ip, start, prefix, i);
    }
    if InZone(ip, start, prefix) {
      DivisionParts(ip - start, size);
      SubZonesPartitionZone(ip, start, prefix, (ip - start) / size);
    }
  }

  // ---- A zone at the top --------------------------------------------------

  /** 255.255.255.0/24 finishes at the largest unsigned long. */
  lemma TopZoneExample()
    ensures GetStartFinish(Print(0xFFFF_FF00), 24) == Ok((0xFFFF_FF00, ULONG - 1))
  {
    ParsePrint(0xFFFF_FF00);
    NetRangeIsPower(24);
    Pow2Values();
    StartFinishValue(Print(0xFFFF_FF00), 0xFFFF_FF00, 24);
  }
}
