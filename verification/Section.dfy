/** Section descriptors of an ELF object, their headers and their data descriptors. */
module Section {
  import opened Codec

  datatype Option<T> = None | Some(value: T)

  // ELF_T_* types, numbered as in libelf.h.
  const ELF_T_ADDR: nat := 0
  const ELF_T_BYTE: nat := 1
  const ELF_T_DYN: nat := 3
  const ELF_T_HALF: nat := 5
  const ELF_T_MOVE: nat := 7
  const ELF_T_NOTE: nat := 9
  const ELF_T_PHDR: nat := 11
  const ELF_T_REL: nat := 12
  const ELF_T_RELA: nat := 13
  const ELF_T_SYMINFO: nat := 17
  const ELF_T_SYM: nat := 18
  const ELF_T_VDEF: nat := 19
  const ELF_T_VNEED: nat := 20
  const ELF_T_WORD: nat := 21
  const ELF_T_GNUHASH: nat := 23
  const ELF_T_NUM: nat := 24

  const SHT_NULL: nat := 0
  const SHT_STRTAB: nat := 3
  const SHT_NOBITS: nat := 8
  const SHT_LOOS: nat := 0x6000_0000

  const EV_CURRENT: nat := 1

  /** An Elf_Data as the application filled it in; buf is d_buf, of d_size bytes when it is not NULL. */
  datatype Desc = Desc(typ: nat, size: nat, align: nat, version: nat, buf: Option<seq<byte>>)

  /** A struct _Libelf_Data. Only d_off is assigned by the library. */
  class Data {
    const scn: Scn
    const d: Desc
    var off: nat

    constructor (scn: Scn, d: Desc, off: nat)
      ensures this.scn == scn && this.d == d && this.off == off
    {
      this.scn, this.d, this.off := scn, d, off;
    }
  }

  const EMPTY_SHDR := Shdr(0, 0, 0, 0, 0, 0, 0, 0, 0, 0)

  /** An Elf_Scn: its index, the RB_ENTRY fields that link it into the descriptor's section tree, its header, its list
      of data descriptors, whether ELF_F_DIRTY is set, and the offsets and the size that the library manages. */
  class Scn {
    const ndx: nat
    var left: Scn?
    var right: Scn?
    var parent: Scn?
    var red: bool
    var shdr: Shdr
    var data: seq<Data>
    var dirty: bool
    var offset: nat
    var rawoff: nat
    var size: nat

    constructor (ndx: nat)
      ensures this.ndx == ndx && shdr == EMPTY_SHDR && data == [] && !dirty && offset == rawoff == size == 0
    {
      this.ndx := ndx;
      left, right, parent, red := null, null, null, false;
      shdr, data, dirty, offset, rawoff, size := EMPTY_SHDR, [], false, 0, 0, 0;
    }
  }
}
