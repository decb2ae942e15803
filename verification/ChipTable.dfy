/** The built-in table of chips without usable SFDP data. */
module ChipTable {
  import opened Bytes

  datatype ChipInfo = ChipInfo(
    mfId: byte, typeId: byte, capacityId: byte, capacity: nat, writeMode: nat, eraseGran: nat, eraseGranCmd: byte)

  // sums of 1 << the bit numbers of `enum sfud_write_mode`
  const PAGE_256B: nat := 1
  const BYTE: nat := 2
  const BYTE_AAI: nat := 2 + 4
  const BYTE_DUAL: nat := 2 + 8

  const CHIPS: seq<ChipInfo> := [
    ChipInfo(0x1F, 0x26, 0x00, 2097152, BYTE_DUAL, 512, 0x81),  // AT45DB161E
    ChipInfo(0xEF, 0x40, 0x13, 524288, PAGE_256B, 4096, 0x20),  // W25Q40BV
    ChipInfo(0xEF, 0x30, 0x13, 524288, PAGE_256B, 4096, 0x20),  // W25X40CL
    ChipInfo(0xEF, 0x30, 0x15, 2097152, PAGE_256B, 4096, 0x20),  // W25X16AV
    ChipInfo(0xEF, 0x40, 0x15, 2097152, PAGE_256B, 4096, 0x20),  // W25Q16BV
    ChipInfo(0xEF, 0x40, 0x16, 4194304, PAGE_256B, 4096, 0x20),  // W25Q32BV
    ChipInfo(0xEF, 0x40, 0x17, 8388608, PAGE_256B, 4096, 0x20),  // W25Q64CV
    ChipInfo(0xEF, 0x60, 0x17, 8388608, PAGE_256B, 4096, 0x20),  // W25Q64DW
    ChipInfo(0xEF, 0x40, 0x18, 16777216, PAGE_256B, 4096, 0x20),  // W25Q128BV
    ChipInfo(0xEF, 0x40, 0x19, 33554432, PAGE_256B, 4096, 0x20),  // W25Q256FV
    ChipInfo(0xBF, 0x25, 0x8E, 1048576, BYTE_AAI, 4096, 0x20),  // SST25VF080B
    ChipInfo(0xBF, 0x25, 0x41, 2097152, BYTE_AAI, 4096, 0x20),  // SST25VF016B
    ChipInfo(0x20, 0x20, 0x16, 4194304, PAGE_256B, 65536, 0xD8),  // M25P32
    ChipInfo(0x20, 0x20, 0x14, 1048576, PAGE_256B, 65536, 0xD8),  // M25P80
    ChipInfo(0x20, 0x20, 0x13, 524288, PAGE_256B, 65536, 0xD8),  // M25P40
    ChipInfo(0x1C, 0x30, 0x16, 4194304, PAGE_256B, 4096, 0x20),  // EN25Q32B
    ChipInfo(0xC8, 0x40, 0x17, 8388608, PAGE_256B, 4096, 0x20),  // GD25Q64B
    ChipInfo(0xC8, 0x40, 0x15, 2097152, PAGE_256B, 4096, 0x20),  // GD25Q16B
    ChipInfo(0xC8, 0x40, 0x16, 4194304, PAGE_256B, 4096, 0x20),  // GD25Q32C
    ChipInfo(0x01, 0x40, 0x15, 2097152, PAGE_256B, 4096, 0x20),  // S25FL216K
    ChipInfo(0x01, 0x02, 0x15, 4194304, PAGE_256B, 4096, 0x20),  // S25FL032P
    ChipInfo(0x37, 0x30, 0x14, 1048576, PAGE_256B, 4096, 0x20),  // A25L080
    ChipInfo(0x8C, 0x20, 0x13, 524288, BYTE_AAI, 4096, 0x20),  // F25L004
    ChipInfo(0xBF, 0x25, 0x41, 2097152, BYTE_AAI, 4096, 0x20),  // PCT25VF016B
    ChipInfo(0x52, 0x21, 0x18, 16777216, PAGE_256B, 4096, 0x20),  // NM25Q128EVB
    ChipInfo(0x85, 0x60, 0x13, 5120, PAGE_256B, 4096, 0x20),  // P25D05H
    ChipInfo(0x85, 0x60, 0x12, 1048576, PAGE_256B, 4096, 0x20),  // P25D10H
    ChipInfo(0x85, 0x60, 0x11, 2097152, PAGE_256B, 4096, 0x20),  // P25D20H
    ChipInfo(0x85, 0x60, 0x10, 4194304, PAGE_256B, 4096, 0x20),  // P25D40H
    ChipInfo(0x85, 0x30, 0x14, 8388608, PAGE_256B, 4096, 0x20)  // P25Q80H
  ]

  ghost predicate Matches(row: ChipInfo, mfId: byte, typeId: byte, capacityId: byte)
  {
    row.mfId == mfId && row.typeId == typeId && row.capacityId == capacityId
  }

  /** The row of P25D05H, whose capacity of 5 KB is not a multiple of its 4 KB erase block. */
  const P25D05H: nat := 25

  /** Every row is complete, and its capacity is a whole number of erase blocks exactly unless it is P25D05H. */
  lemma TableRows()
    ensures forall i :: 0 <= i < |CHIPS| ==>
      CHIPS[i].eraseGran > 0 && CHIPS[i].eraseGranCmd != 0 && CHIPS[i].writeMode != 0
    ensures forall i :: 0 <= i < |CHIPS| ==> (CHIPS[i].capacity % CHIPS[i].eraseGran == 0 <==> i != P25D05H)
  {
  }
}
