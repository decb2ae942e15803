/** Reading the chip's own parameters: JESD216B header, basic parameter header and basic parameter table. */
module SfdpReader {
  import opened Bytes
  import opened FlashDevice
  import opened NorChip
  import opened Options
  import opened Spi

  const MAX_MAJOR_REV: byte := 1
  const BASIC_TABLE_LEN: nat := 9

  /** `sfdp_para_header`. */
  datatype ParaHeader = ParaHeader(id: byte, minorRev: byte, majorRev: byte, len: byte, ptp: nat)

  /** What the driver takes from a basic parameter table. */
  datatype Decoded = Decoded(
    erase4k: bool, erase4kCmd: byte, writeGran: nat, addr3Byte: bool, addr4Byte: bool,
    capacity: nat, erasers: seq<Eraser>)

  function LittleEndian3(a: byte, b: byte, c: byte): (r: nat)
    ensures r < 0x100_0000
  {
    a + b * 0x100 + c * 0x1_0000
  }

  function LittleEndian4(a: byte, b: byte, c: byte, d: byte): (r: nat)
    ensures r < 0x1_0000_0000
  {
    LittleEndian3(a, b, c) + d * 0x100_0000
  }

  /** `1L << n` stored in a uint32_t. */
  function Shifted32(n: nat): (r: nat)
    ensures r < 0x1_0000_0000
  {
    Pow2(n) % 0x1_0000_0000
  }

  /** DWORD 2: density in bits minus one, or with bit 31 set the exponent of a power of two. */
  function DecodeCapacity(density: nat): (r: Option<nat>)
    requires density < 0x1_0000_0000
  {
    if density < 0x8000_0000 then Some(1 + density / 8)
    else
      var n := density - 0x8000_0000;
      if n > 35 then None else Some(Shifted32(if n >= 3 then n - 3 else 0))
  }

  /** Entry i of DWORDs 8 and 9. */
  function EraseType(table: seq<byte>, i: nat): Eraser
    requires |table| == 4 * BASIC_TABLE_LEN && i < ERASE_TYPES
  {
    Eraser(Shifted32(table[28 + 2 * i]), table[28 + 2 * i + 1])
  }

  /** The used erase types among the first n, in order. */
  function UsedTypes(table: seq<byte>, n: nat): (r: seq<Eraser>)
    requires |table| == 4 * BASIC_TABLE_LEN && n <= ERASE_TYPES
    ensures |r| <= n
  {
    if n == 0 then []
    else UsedTypes(table, n - 1) + (if table[28 + 2 * (n - 1)] != 0 then [EraseType(table, n - 1)] else [])
  }

  function Pad(erasers: seq<Eraser>): (r: seq<Eraser>)
    requires |erasers| <= ERASE_TYPES
    ensures |r| == ERASE_TYPES
  {
    erasers + seq(ERASE_TYPES - |erasers|, _ => Eraser(0, 0))
  }

  function DecodeTable(table: seq<byte>): (r: Option<Decoded>)
    requires |table| == 4 * BASIC_TABLE_LEN
  {
    var capacity := DecodeCapacity(LittleEndian4(table[4], table[5], table[6], table[7]));
    var addr := table[2] / 2 % 4;
    if table[0] % 4 != 1 && table[0] % 4 != 3 then None
    else if addr == 3 || capacity.None? then None
    else Some(Decoded(table[0] % 4 == 1, table[1], if table[0] / 4 % 2 == 1 then 256 else 1,
                      addr <= 1, addr >= 1, capacity.value, Pad(UsedTypes(table, ERASE_TYPES))))
  }

  function DecodeHeader(h: seq<byte>): ParaHeader
    requires |h| == 8
  {
    ParaHeader(h[0], h[1], h[2], h[3], LittleEndian3(h[4], h[5], h[6]))
  }

  /** Signature and revision of the SFDP header. */
  predicate GoodHeader(h: seq<byte>)
    requires |h| == 8
  {
    h[0] == 0x53 && h[1] == 0x46 && h[2] == 0x44 && h[3] == 0x50 && h[5] <= MAX_MAJOR_REV
  }

  predicate GoodBasicHeader(h: ParaHeader)
  {
    h.majorRev <= MAX_MAJOR_REV && h.len >= BASIC_TABLE_LEN
  }

  /** What the SFDP address space of a chip tells the driver. */
  function SfdpSays(sfdp: seq<byte>): (r: Option<Decoded>)
  {
    var basic := DecodeHeader(Window(sfdp, 8, 8));
    if GoodHeader(Window(sfdp, 0, 8)) && GoodBasicHeader(basic) then
      DecodeTable(Window(sfdp, basic.ptp, 4 * BASIC_TABLE_LEN))
    else None
  }

  // ---- the other direction: a table as JESD216B section 6.4 lays it out

  datatype AddressModes = ThreeOnly | ThreeOrFour | FourOnly

  /** Density as the standard encodes it: bits minus one, or the exponent of a power of two. */
  datatype Density = Bytes(capacity: nat) | PowerOfTwo(exponent: nat)

  datatype EraseKind = Unused(cmd: byte) | EraseKind(exponent: byte, cmd: byte)

  /** The fields the driver uses; `spare` carries every other bit of the table. */
  datatype BasicParams = BasicParams(
    erase4k: bool, erase4kCmd: byte, wideWrites: bool, modes: AddressModes, density: Density,
    kinds: seq<EraseKind>, spare: seq<byte>)
  {
    /** What the standard asks: up to 2 Gb in bits, from 4 Gb on as an exponent; exponent 0 marks an unused type. */
    ghost predicate WellFormed()
    {
      && |kinds| == ERASE_TYPES && |spare| == 4 * BASIC_TABLE_LEN
      && (match density
          case Bytes(c) => 0 < 8 * c <= 0x8000_0000
          case PowerOfTwo(n) => 32 <= n < 0x8000_0000)
      && forall i :: 0 <= i < |kinds| ==> kinds[i].EraseKind? ==> 0 < kinds[i].exponent
    }

    /** What the driver's 32-bit fields can hold: parts up to 16 Gb, erase blocks below 4 GB. */
    predicate Representable()
    {
      && (density.PowerOfTwo? ==> density.exponent <= 34)
      && KindsFit(kinds)
    }

    function Capacity(): nat
      requires density.PowerOfTwo? ==> density.exponent >= 3
    {
      match density
      case Bytes(c) => c
      case PowerOfTwo(n) => Pow2(n - 3)
    }
  }

  function EncodeDensity(d: Density): (r: nat)
    requires if d.Bytes? then d.capacity <= 0x1000_0000 else d.exponent < 0x8000_0000
    ensures r < 0x1_0000_0000
  {
    match d
    case Bytes(c) => if c == 0 then 0 else 8 * c - 1
    case PowerOfTwo(n) => 0x8000_0000 + n
  }

  function EncodeKind(k: EraseKind): (byte, byte)
  {
    match k
    case Unused(cmd) => (0, cmd)
    case EraseKind(n, cmd) => (n, cmd)
  }

  function ModeBits(m: AddressModes): (r: nat)
    ensures r < 3
  {
    match m case ThreeOnly => 0 case ThreeOrFour => 1 case FourOnly => 2
  }

  ghost predicate Encodes(table: seq<byte>, p: BasicParams)
    requires p.WellFormed()
  {
    var d := EncodeDensity(p.density);
    && |table| == 4 * BASIC_TABLE_LEN
    // DWORD 1: bits 1:0, bit 2, bits 15:8, bits 18:17
    && table[0] == (if p.erase4k then 1 else 3) + 4 * (if p.wideWrites then 1 else 0) + p.spare[0] / 8 * 8
    && table[1] == p.erase4kCmd
    && table[2] == p.spare[2] % 2 + 2 * ModeBits(p.modes) + p.spare[2] / 8 * 8
    // DWORD 2
    && table[4..8] == [d % 0x100, d / 0x100 % 0x100, d / 0x1_0000 % 0x100, d / 0x100_0000]
    // DWORDs 8 and 9
    && forall i :: 0 <= i < ERASE_TYPES ==> (table[28 + 2 * i], table[28 + 2 * i + 1]) == EncodeKind(p.kinds[i])
  }

  predicate KindsFit(kinds: seq<EraseKind>)
  {
    forall i :: 0 <= i < |kinds| && kinds[i].EraseKind? ==> kinds[i].exponent < 32
  }

  /** The used erase kinds as (2^n, opcode). */
  function KindsUsed(kinds: seq<EraseKind>): (r: seq<Eraser>)
  {
    if kinds == [] then []
    else
      var k := kinds[|kinds| - 1];
      KindsUsed(kinds[..|kinds| - 1]) + (if k.EraseKind? then [Eraser(Pow2(k.exponent), k.cmd)] else [])
  }

  /** The parameters as the driver should hold them. */
  function Parameters(p: BasicParams): Decoded
    requires (p.density.PowerOfTwo? ==> p.density.exponent >= 3) && |KindsUsed(p.kinds)| <= ERASE_TYPES
  {
    Decoded(p.erase4k, p.erase4kCmd, if p.wideWrites then 256 else 1, !p.modes.FourOnly?, !p.modes.ThreeOnly?,
            p.Capacity(), Pad(KindsUsed(p.kinds)))
  }

  /** Decoding inverts encoding exactly when the driver's fields can hold the parameters: then every field of every
      well-formed table comes back, and otherwise the table is refused or decoded wrongly. */
  lemma DecodeInvertsEncode(table: seq<byte>, p: BasicParams)
    requires p.WellFormed() && Encodes(table, p)
    ensures |KindsUsed(p.kinds)| <= ERASE_TYPES
    ensures DecodeTable(table) == Some(Parameters(p)) <==> p.Representable()
    ensures DecodeTable(table).None? <==> p.density.PowerOfTwo? && p.density.exponent > 35
  {
    hide DecodeCapacity, UsedTypes, KindsUsed, Pad, LittleEndian4, KindsFit;
    DensityRoundTrip(table, p);
    KindsRoundTrip(table, p, ERASE_TYPES);
    assert p.kinds[..ERASE_TYPES] == p.kinds;
    PadInjective(UsedTypes(table, ERASE_TYPES), KindsUsed(p.kinds));
    FlagsRoundTrip(table[0], if p.erase4k then 1 else 3, if p.wideWrites then 1 else 0, p.spare[0] / 8);
    ModesRoundTrip(table[2], p.spare[2] % 2, ModeBits(p.modes), p.spare[2] / 8);
  }

  lemma PadInjective(a: seq<Eraser>, b: seq<Eraser>)
    requires |a| == |b| <= ERASE_TYPES
    ensures Pad(a) == Pad(b) <==> a == b
  {
    assert Pad(a)[..|a|] == a && Pad(b)[..|b|] == b;
  }

  lemma FlagsRoundTrip(b: byte, low: nat, bit2: nat, rest: nat)
    requires low < 4 && bit2 < 2 && b == low + 4 * bit2 + rest * 8
    ensures b % 4 == low && b / 4 % 2 == bit2
  {
    assert b / 4 == bit2 + 2 * rest;
  }

  lemma ModesRoundTrip(b: byte, low: nat, modes: nat, rest: nat)
    requires low < 2 && modes < 4 && b == low + 2 * modes + rest * 8
    ensures b / 2 % 4 == modes
  {
    assert b / 2 == modes + 4 * rest;
  }

  lemma DwordRoundTrip(d: nat)
    requires d < 0x1_0000_0000
    ensures LittleEndian4(d % 0x100, d / 0x100 % 0x100, d / 0x1_0000 % 0x100, d / 0x100_0000) == d
  {
    assert d / 0x1_0000 == d / 0x100 / 0x100 && d / 0x100_0000 == d / 0x100 / 0x100 / 0x100;
  }

  lemma DensityRoundTrip(table: seq<byte>, p: BasicParams)
    requires p.WellFormed() && Encodes(table, p)
    ensures var capacity := DecodeCapacity(LittleEndian4(table[4], table[5], table[6], table[7]));
      && (capacity == Some(p.Capacity()) <==> (p.density.PowerOfTwo? ==> p.density.exponent <= 34))
      && (capacity.None? <==> p.density.PowerOfTwo? && p.density.exponent > 35)
  {
    var d, t := EncodeDensity(p.density), table[4..8];
    DwordRoundTrip(d);
    assert table[4] == t[0] && table[5] == t[1] && table[6] == t[2] && table[7] == t[3];
    assert LittleEndian4(table[4], table[5], table[6], table[7]) == d;
    if p.density.PowerOfTwo? {
      ShiftedSmall(p.density.exponent - 3);
    }
  }

  lemma {:induction false} KindsRoundTrip(table: seq<byte>, p: BasicParams, n: nat)
    requires p.WellFormed() && Encodes(table, p) && n <= ERASE_TYPES
    ensures |UsedTypes(table, n)| == |KindsUsed(p.kinds[..n])|
    ensures UsedTypes(table, n) == KindsUsed(p.kinds[..n]) <==> KindsFit(p.kinds[..n])
  {
    if n > 0 {
      hide EraseType, KindsFit, Pow2, Encodes, UsedTypes, KindsUsed;
      var k := p.kinds[n - 1];
      KindsRoundTrip(table, p, n - 1);
      KindsFitMore(p.kinds, n);
      UsedTypesMore(table, p, n);
      KindsUsedMore(p.kinds, n);
      if k.EraseKind? { EraseTypeRoundTrip(table, n - 1, k); }
      AppendDecides(UsedTypes(table, n - 1), if k.EraseKind? then [EraseType(table, n - 1)] else [],
                    KindsUsed(p.kinds[..n - 1]), if k.EraseKind? then [Eraser(Pow2(k.exponent), k.cmd)] else []);
    }
  }

  lemma UsedTypesMore(table: seq<byte>, p: BasicParams, n: nat)
    requires p.WellFormed() && Encodes(table, p) && 0 < n <= ERASE_TYPES
    ensures var k := p.kinds[n - 1];
      && (table[28 + 2 * (n - 1)], table[28 + 2 * (n - 1) + 1]) == EncodeKind(k)
      && UsedTypes(table, n) == UsedTypes(table, n - 1) + if k.EraseKind? then [EraseType(table, n - 1)] else []
  {
    var i := n - 1;
    assert (table[28 + 2 * i], table[28 + 2 * i + 1]) == EncodeKind(p.kinds[i]);
  }

  lemma KindsUsedMore(kinds: seq<EraseKind>, n: nat)
    requires 0 < n <= |kinds|
    ensures var k := kinds[n - 1];
      KindsUsed(kinds[..n])
      == KindsUsed(kinds[..n - 1]) + if k.EraseKind? then [Eraser(Pow2(k.exponent), k.cmd)] else []
  {
    assert kinds[..n][..n - 1] == kinds[..n - 1] && kinds[..n][n - 1] == kinds[n - 1];
  }

  lemma KindsFitMore(kinds: seq<EraseKind>, n: nat)
    requires 0 < n <= |kinds|
    ensures KindsFit(kinds[..n]) <==>
      KindsFit(kinds[..n - 1]) && (kinds[n - 1].EraseKind? ==> kinds[n - 1].exponent < 32)
  {
    assert kinds[..n] == kinds[..n - 1] + [kinds[n - 1]];
  }

  lemma EraseTypeRoundTrip(table: seq<byte>, i: nat, k: EraseKind)
    requires |table| == 4 * BASIC_TABLE_LEN && i < ERASE_TYPES && k.EraseKind?
    requires (table[28 + 2 * i], table[28 + 2 * i + 1]) == EncodeKind(k)
    ensures EraseType(table, i) == Eraser(Pow2(k.exponent), k.cmd) <==> k.exponent < 32
  {
    ShiftedSmall(k.exponent);
  }

  lemma AppendDecides(a: seq<Eraser>, x: seq<Eraser>, b: seq<Eraser>, y: seq<Eraser>)
    requires |a| == |b|
    ensures a + x == b + y <==> a == b && x == y
  {
    assert (a + x)[..|a|] == a && (b + y)[..|b|] == b;
    assert (a + x)[|a|..] == x && (b + y)[|b|..] == y;
  }

  /** No truncation below bit 32; from there on the stored size is 0. */
  lemma ShiftedSmall(n: nat)
    ensures n < 32 ==> Shifted32(n) == Pow2(n)
    ensures n >= 32 ==> Shifted32(n) == 0
  {
    Pow2Values();
    if n < 32 {
      Pow2Divides(n, 31);
      assert Pow2(32) == 2 * Pow2(31);
    } else {
      Pow2Divides(32, n);
    }
  }

  /** Which tables are refused, bit by bit: the 4 KB erase code (bits 1:0 of byte 0) is reserved, the address mode (bits
      2:1 of byte 2) is reserved, or bit 31 of the density is set with an exponent above 35. */
  lemma DecodeRefuses(table: seq<byte>)
    requires |table| == 36
    ensures DecodeTable(table).None? <==>
      || table[0] % 4 == 0 || table[0] % 4 == 2
      || table[2] / 2 % 4 == 3
      || (table[7] >= 128 && (table[7] > 128 || table[6] > 0 || table[5] > 0 || table[4] > 35))
  {
  }

  /** What is accepted as a whole: the signature, both major revisions at most 1, a basic table of at least nine DWORDs,
      and at its 24-bit pointer a table that decodes. */
  lemma SfdpAccepted(sfdp: seq<byte>)
    ensures var h, b := Window(sfdp, 0, 8), Window(sfdp, 8, 8);
      var p0: int, p1: int, p2: int := b[4], b[5], b[6];
      SfdpSays(sfdp).Some? <==>
        && h[..4] == [0x53, 0x46, 0x44, 0x50] && h[5] <= 1 && b[2] <= 1 && b[3] >= 9
        && DecodeTable(Window(sfdp, p0 + 0x100 * p1 + 0x1_0000 * p2, 36)).Some?
  {
    hide Window, DecodeTable;
    var h := Window(sfdp, 0, 8);
    assert h[..4] == [h[0], h[1], h[2], h[3]];
  }

  /** The capacity of any density the driver accepts: bits + 1 over 8, rounded up; or 2 to the exponent, in bytes. */
  lemma DecodeCapacityIs(density: nat)
    requires density < 0x1_0000_0000
    ensures density < 0x8000_0000 ==> DecodeCapacity(density) == Some((density + 8) / 8)
    ensures 0x8000_0003 <= density <= 0x8000_0022 ==> DecodeCapacity(density) == Some(Pow2(density - 0x8000_0003))
    ensures density == 0x8000_0023 ==> DecodeCapacity(density) == Some(0)
    ensures density > 0x8000_0023 ==> DecodeCapacity(density) == None
  {
    hide Pow2, Shifted32;
    if density >= 0x8000_0003 { ShiftedSmall(density - 0x8000_0003); }
  }

  /** The density exponent 35 (32 Gb) passes the driver's check and leaves capacity 0. */
  lemma LargestExponentTruncates()
    ensures DecodeCapacity(0x8000_0000 + 35) == Some(0)
  {
    ShiftedSmall(32);
  }

  /** The headers of an SFDP address space as sections 6.2 and 6.3 lay them out: signature and revision, then the
      basic parameter header with a 24-bit pointer to the table. */
  ghost predicate HeadersEncode(sfdp: seq<byte>, basic: ParaHeader)
  {
    && |sfdp| >= 16 && sfdp[..4] == [0x53, 0x46, 0x44, 0x50] && sfdp[5] <= MAX_MAJOR_REV
    && basic.ptp < 0x100_0000
    && sfdp[8..15] == [basic.id, basic.minorRev, basic.majorRev, basic.len,
                       basic.ptp % 0x100, basic.ptp / 0x100 % 0x100, basic.ptp / 0x1_0000]
  }

  /** From any well-formed headers and table the driver recovers the parameters, wherever the table lies, exactly when
      its fields can hold them. */
  lemma SfdpInvertsEncode(sfdp: seq<byte>, basic: ParaHeader, p: BasicParams)
    requires HeadersEncode(sfdp, basic) && GoodBasicHeader(basic)
    requires p.WellFormed() && basic.ptp + 4 * BASIC_TABLE_LEN <= |sfdp|
    requires Encodes(sfdp[basic.ptp..basic.ptp + 4 * BASIC_TABLE_LEN], p)
    ensures |KindsUsed(p.kinds)| <= ERASE_TYPES
    ensures SfdpSays(sfdp) == Some(Parameters(p)) <==> p.Representable()
    ensures SfdpSays(sfdp).None? <==> p.density.PowerOfTwo? && p.density.exponent > 35
  {
    hide DecodeTable, Encodes, BasicParams.WellFormed, BasicParams.Representable, Parameters, KindsUsed, Window;
    var first, second, table := Window(sfdp, 0, 8), Window(sfdp, 8, 8), Window(sfdp, basic.ptp, 4 * BASIC_TABLE_LEN);
    var s, t := sfdp[..4], sfdp[8..15];
    assert first[0] == s[0] && first[1] == s[1] && first[2] == s[2] && first[3] == s[3];
    assert forall i :: 0 <= i < 7 ==> second[i] == t[i];
    PointerRoundTrip(basic.ptp);
    assert DecodeHeader(second) == basic;
    assert table == sfdp[basic.ptp..basic.ptp + 4 * BASIC_TABLE_LEN];
    DecodeInvertsEncode(table, p);
  }

  lemma PointerRoundTrip(ptp: nat)
    requires ptp < 0x100_0000
    ensures LittleEndian3(ptp % 0x100, ptp / 0x100 % 0x100, ptp / 0x1_0000) == ptp
  {
    assert ptp / 0x1_0000 == ptp / 0x100 / 0x100;
  }

  // ---- reading and sorting

  /** The erasers in use ascend by size. */
  ghost predicate Ascending(s: seq<Eraser>)
  {
    forall i, j :: 0 <= i < j < |s| && s[i].size != 0 && s[j].size != 0 ==> s[i].size <= s[j].size
  }

  /** Unused entries stay where they are, used ones stay used. */
  ghost predicate HolesKept(s: seq<Eraser>, t: seq<Eraser>)
  {
    |s| == |t| && forall i :: 0 <= i < |s| ==> if s[i].size == 0 then t[i] == s[i] else t[i].size != 0
  }

  /** The exchange sort of `read_basic_table`: (size, opcode) pairs stay together, holes stay put. */
  method SortErasers(eraser: array<Eraser>)
    modifies eraser
    ensures Ascending(eraser[..]) && HolesKept(old(eraser[..]), eraser[..])
    ensures multiset(eraser[..]) == multiset(old(eraser[..]))
  {
    var i := 0;
    while i < eraser.Length
      invariant 0 <= i <= eraser.Length
      invariant HolesKept(old(eraser[..]), eraser[..]) && multiset(eraser[..]) == multiset(old(eraser[..]))
      invariant forall a, b :: 0 <= a < i && a < b < eraser.Length && eraser[a].size != 0 && eraser[b].size != 0 ==>
        eraser[a].size <= eraser[b].size
    {
      if eraser[i].size != 0 {
        SelectSmallest(eraser, i);
      }
      i := i + 1;
    }
  }

  /** Swap two entries, field by field through temporaries. */
  method Exchange(eraser: array<Eraser>, i: nat, j: nat)
    requires i < j < eraser.Length
    modifies eraser
    ensures eraser[i] == old(eraser[j]) && eraser[j] == old(eraser[i])
    ensures forall k :: 0 <= k < eraser.Length && k != i && k != j ==> eraser[k] == old(eraser[k])
    ensures multiset(eraser[..]) == multiset(old(eraser[..]))
  {
    var tempSize, tempCmd := eraser[i].size, eraser[i].cmd;
    eraser[i] := Eraser(eraser[j].size, eraser[j].cmd);
    eraser[j] := Eraser(tempSize, tempCmd);
  }

  /** The inner loop: entry i receives the smallest used eraser from i on. */
  method SelectSmallest(eraser: array<Eraser>, i: nat)
    requires i < eraser.Length && eraser[i].size != 0
    requires forall a, b :: 0 <= a < i && a < b < eraser.Length && eraser[a].size != 0 && eraser[b].size != 0 ==>
      eraser[a].size <= eraser[b].size
    modifies eraser
    ensures HolesKept(old(eraser[..]), eraser[..]) && multiset(eraser[..]) == multiset(old(eraser[..]))
    ensures forall a, b :: 0 <= a <= i && a < b < eraser.Length && eraser[a].size != 0 && eraser[b].size != 0 ==>
      eraser[a].size <= eraser[b].size
  {
    var j := i + 1;
    while j < eraser.Length
      invariant i < j <= eraser.Length && eraser[i].size != 0
      invariant HolesKept(old(eraser[..]), eraser[..]) && multiset(eraser[..]) == multiset(old(eraser[..]))
      invariant forall a, b :: 0 <= a < i && a < b < eraser.Length && eraser[a].size != 0 && eraser[b].size != 0 ==>
        eraser[a].size <= eraser[b].size
      invariant forall b :: i < b < j && eraser[b].size != 0 ==> eraser[i].size <= eraser[b].size
    {
      if eraser[j].size != 0 && eraser[i].size > eraser[j].size {
        Exchange(eraser, i, j);
      }
      j := j + 1;
    }
  }

  /** `read_sfdp_data`; the address must fit the command's three address bytes. */
  method ReadSfdpData(flash: Flash, addr: nat, size: nat) returns (err: Err, data: seq<byte>)
    requires flash.spi.chip.WellFormed() && flash.spi.chip.reg.busy == 0 && !flash.spi.chip.reg.aai
    requires addr < 0x100_0000
    modifies flash.spi`chip, flash.spi`faults, flash.spi`bare, flash.spi`intact
    ensures flash.spi.Guarded() ==> flash.spi.bare == old(flash.spi.bare)
    ensures flash.spi.chip == old(flash.spi.chip) && |data| == size
    ensures err.Success? ==> data == Window(flash.spi.chip.part.sfdp, addr, size)
    ensures flash.spi.faults >= old(flash.spi.faults)
    ensures err.Success? <==> flash.spi.faults == old(flash.spi.faults)
  {
    hide Execute, Reply;
    var cmd: seq<byte> := [READ_SFDP_REGISTER, Shr(addr, 16) % 256, Shr(addr, 8) % 256, addr % 256, DUMMY];
    ghost var c := flash.spi.chip;
    ghost var sent, dur;
    err, data, sent, dur := flash.spi.Transfer(cmd, size);
    SfdpAddress(addr);
    assert cmd[1..4] == BigEndianBytes(addr, 3);
    SfdpCommand(c, cmd, addr, size, sent, dur);
  }

  lemma SfdpAddress(addr: nat)
    requires addr < 0x100_0000
    ensures [Shr(addr, 16) % 256, Shr(addr, 8) % 256, addr % 256] == BigEndianBytes(addr, 3)
    ensures BigEndian(BigEndianBytes(addr, 3)) == addr
  {
    AddressRoundTrip(false, addr);
    assert Shr(addr, 0) == addr;
    ShrByte(addr, 0);
    ShrByte(addr, 8);
    assert BigEndianBytes(addr, 3) == BigEndianBytes(addr / 256, 2) + [addr % 256];
    assert BigEndianBytes(addr / 256, 2) == BigEndianBytes(addr / 256 / 256, 1) + [addr / 256 % 256];
    assert BigEndianBytes(addr / 256 / 256, 1) == [addr / 256 / 256 % 256];
  }

  lemma SfdpCommand(c: Chip, cmd: seq<byte>, addr: nat, size: nat, sent: nat, dur: nat)
    requires c.WellFormed() && c.reg.busy == 0 && !c.reg.aai
    requires sent <= |cmd| == 5 && cmd[0] == READ_SFDP_REGISTER && BigEndian(cmd[1..4]) == addr
    ensures Execute(c, cmd[..sent], dur) == c && Reply(c, cmd, size) == Window(c.part.sfdp, addr, size)
  {
    if sent > 0 {
      assert cmd[..sent][0] == READ_SFDP_REGISTER && !c.part.IsArrayOpcode(READ_SFDP_REGISTER);
    }
  }

  method ReadSfdpHeader(flash: Flash) returns (ok: bool)
    requires flash.spi.chip.WellFormed() && flash.spi.chip.reg.busy == 0 && !flash.spi.chip.reg.aai
    modifies flash.spi`chip, flash.spi`faults, flash.spi`bare, flash.spi`intact
    modifies flash.sfdp`available, flash.sfdp`minorRev, flash.sfdp`majorRev
    ensures flash.spi.Guarded() ==> flash.spi.bare == old(flash.spi.bare)
    ensures flash.spi.chip == old(flash.spi.chip) && !flash.sfdp.available
    ensures flash.spi.faults >= old(flash.spi.faults)
    ensures ok <==> flash.spi.faults == old(flash.spi.faults) && GoodHeader(Window(flash.spi.chip.part.sfdp, 0, 8))
    ensures ok ==> [flash.sfdp.minorRev, flash.sfdp.majorRev] == Window(flash.spi.chip.part.sfdp, 0, 8)[4..6]
  {
    flash.sfdp.available := false;
    var err, header := ReadSfdpData(flash, 0, 8);
    if !err.Success? {
      return false;
    }
    if !(header[0] == 0x53 && header[1] == 0x46 && header[2] == 0x44 && header[3] == 0x50) {
      return false;
    }
    flash.sfdp.minorRev := header[4];
    flash.sfdp.majorRev := header[5];
    return flash.sfdp.majorRev <= MAX_MAJOR_REV;
  }

  /** The decoded table pointer always meets the address assertion of the next read. */
  method ReadBasicHeader(flash: Flash) returns (ok: bool, basic: ParaHeader)
    requires flash.spi.chip.WellFormed() && flash.spi.chip.reg.busy == 0 && !flash.spi.chip.reg.aai
    modifies flash.spi`chip, flash.spi`faults, flash.spi`bare, flash.spi`intact
    ensures flash.spi.Guarded() ==> flash.spi.bare == old(flash.spi.bare)
    ensures flash.spi.chip == old(flash.spi.chip) && basic.ptp < 0x100_0000
    ensures flash.spi.faults >= old(flash.spi.faults)
    ensures var h := DecodeHeader(Window(flash.spi.chip.part.sfdp, 8, 8));
      && (ok <==> flash.spi.faults == old(flash.spi.faults) && GoodBasicHeader(h))
      && (ok ==> basic == h)
  {
    var err, header := ReadSfdpData(flash, 8, 8);
    if !err.Success? {
      return false, ParaHeader(0, 0, 0, 0, 0);
    }
    basic := ParaHeader(header[0], header[1], header[2], header[3], LittleEndian3(header[4], header[5], header[6]));
    ok := basic.majorRev <= MAX_MAJOR_REV && basic.len >= BASIC_TABLE_LEN;
  }

  /** Decode the basic parameter table into the driver's table and sort its erasers. */
  method ReadBasicTable(flash: Flash, basic: ParaHeader) returns (ok: bool)
    requires flash.spi.chip.WellFormed() && flash.spi.chip.reg.busy == 0 && !flash.spi.chip.reg.aai
    requires basic.ptp < 0x100_0000
    requires flash.sfdp.eraser.Length == ERASE_TYPES && !flash.sfdp.available
    requires forall i :: 0 <= i < ERASE_TYPES ==> flash.sfdp.eraser[i] == Eraser(0, 0)
    modifies flash.spi`chip, flash.spi`faults, flash.spi`bare, flash.spi`intact, flash.sfdp, flash.sfdp.eraser
    ensures flash.spi.Guarded() ==> flash.spi.bare == old(flash.spi.bare)
    ensures flash.spi.chip == old(flash.spi.chip) && flash.sfdp.available == ok
    ensures flash.spi.faults >= old(flash.spi.faults)
    ensures var d := DecodeTable(Window(flash.spi.chip.part.sfdp, basic.ptp, 4 * BASIC_TABLE_LEN));
      && (ok <==> flash.spi.faults == old(flash.spi.faults) && d.Some?)
      && (ok ==> Holds(flash.sfdp, d.value))
    ensures !ok ==> flash.sfdp.eraser[..] == old(flash.sfdp.eraser[..])
  {
    hide Window, DecodeCapacity, UsedTypes, Pad, LittleEndian4, Ascending, HolesKept, Chip.WellFormed;
    var info := flash.sfdp;
    var err, table := ReadSfdpData(flash, basic.ptp, 4 * BASIC_TABLE_LEN);
    if !err.Success? {
      return false;
    }
    info.erase4kCmd := table[1];
    if table[0] % 4 == 1 {
      info.erase4k := true;
    } else if table[0] % 4 == 3 {
      info.erase4k := false;
    } else {
      return false;
    }
    info.writeGran := if table[0] / 4 % 2 == 0 then 1 else 256;
    var modes := table[2] / 2 % 4;
    info.addr3Byte, info.addr4Byte := modes <= 1, modes == 1 || modes == 2;
    if modes == 3 {
      return false;
    }
    var capacity := DecodeCapacity(LittleEndian4(table[4], table[5], table[6], table[7]));
    if capacity.None? {
      info.capacity := 0;
      return false;
    }
    info.capacity := capacity.value;
    CollectErasers(info.eraser, table);
    SortErasers(info.eraser);
    info.available := true;
    ok := true;
  }

  /** The driver's table holds the decoded parameters, with the erasers sorted. */
  ghost predicate Holds(info: SfdpInfo, d: Decoded)
    reads info, info.eraser
  {
    && info.erase4k == d.erase4k && info.erase4kCmd == d.erase4kCmd && info.writeGran == d.writeGran
    && info.addr3Byte == d.addr3Byte && info.addr4Byte == d.addr4Byte && info.capacity == d.capacity
    && info.eraser.Length == ERASE_TYPES
    && Ascending(info.eraser[..]) && HolesKept(d.erasers, info.eraser[..])
    && multiset(info.eraser[..]) == multiset(d.erasers)
  }

  /** The loop that collects the used erase types of DWORDs 8 and 9. */
  method CollectErasers(eraser: array<Eraser>, table: seq<byte>)
    requires |table| == 4 * BASIC_TABLE_LEN && eraser.Length == ERASE_TYPES
    requires forall i :: 0 <= i < ERASE_TYPES ==> eraser[i] == Eraser(0, 0)
    modifies eraser
    ensures eraser[..] == Pad(UsedTypes(table, ERASE_TYPES))
  {
    var i, j := 0, 0;
    while i < ERASE_TYPES
      invariant 0 <= i <= ERASE_TYPES && j == |UsedTypes(table, i)|
      invariant eraser[..] == Pad(UsedTypes(table, i))
    {
      if table[28 + 2 * i] != 0 {
        eraser[j] := Eraser(Shifted32(table[28 + 2 * i]), table[28 + 2 * i + 1]);
        j := j + 1;
      }
      i := i + 1;
    }
  }

  /** `sfud_read_sfdp`: true exactly when every transfer arrived and the chip's headers and table are acceptable. */
  method ReadSfdp(flash: Flash) returns (ok: bool)
    requires flash.spi.chip.WellFormed() && flash.spi.chip.reg.busy == 0 && !flash.spi.chip.reg.aai
    requires flash.sfdp.eraser.Length == ERASE_TYPES
    requires forall i :: 0 <= i < ERASE_TYPES ==> flash.sfdp.eraser[i] == Eraser(0, 0)
    modifies flash.spi`chip, flash.spi`faults, flash.spi`bare, flash.spi`intact, flash.sfdp, flash.sfdp.eraser
    ensures flash.spi.Guarded() ==> flash.spi.bare == old(flash.spi.bare)
    ensures flash.spi.chip == old(flash.spi.chip) && flash.sfdp.available == ok
    ensures flash.spi.faults >= old(flash.spi.faults)
    ensures var d := SfdpSays(flash.spi.chip.part.sfdp);
      && (ok <==> flash.spi.faults == old(flash.spi.faults) && d.Some?)
      && (ok ==> Holds(flash.sfdp, d.value))
  {
    ok := ReadSfdpHeader(flash);
    if ok {
      var basic;
      ok, basic := ReadBasicHeader(flash);
      if ok {
        ok := ReadBasicTable(flash, basic);
      }
    }
  }
}
