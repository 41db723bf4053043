/** The types of symbols in a.out files. */
module AoutTypes {
  import opened Basics

  const N_UNDF: Byte := 0x00
  const N_EXT: Byte := 0x01
  const N_ABS: Byte := 0x02
  const N_TEXT: Byte := 0x04
  const N_DATA: Byte := 0x06
  const N_BSS: Byte := 0x08
  const N_INDR: Byte := 0x0a
  const N_WEAKU: Byte := 0x0d
  const N_WEAKA: Byte := 0x0e
  const N_WEAKT: Byte := 0x0f
  const N_WEAKD: Byte := 0x10
  const N_WEAKB: Byte := 0x11
  const N_SETA: Byte := 0x14
  const N_SETT: Byte := 0x16
  const N_SETD: Byte := 0x18
  const N_SETB: Byte := 0x1a
  const N_WARNING: Byte := 0x1e
  const N_BINCL: Byte := 0x82
  const N_EINCL: Byte := 0xa2
  const N_EXCL: Byte := 0xc2
}
