/** The layout all coprocessor instructions share: an opcode byte above 24 parameter bits. */
module Encoding {
  import opened Words

  function Opcode(insn: Word): nat { insn / 0x100_0000 }

  function Param(insn: Word): nat { insn % 0x100_0000 }
}
