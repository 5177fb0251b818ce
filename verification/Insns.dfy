/** Decoded instructions: operands, operation kinds and the instruction record. */
module Insns {
  import opened Words
  import opened Base
  import opened EFlags

  datatype Seg = DS | CS | SS | ES | FS | GS

  /** No register, in a base or index field. */
  const NONE: nat := 0xFF

  type BaseReg = r: nat | r < 16 || r == NONE

  /** Immediates, displacements and offsets are sign-extended to 64 bits. */
  datatype Operand =
    | NoOperand
    | Reg(reg: RegId)
    | Imm(imm: u64)
    | Mem(base: BaseReg, index: BaseReg, scale: u8, seg: Seg, disp: u64)
    | RipRelMem(seg: Seg, disp: u64)
    | Rel(disp: u64)
  {
    predicate InMemory() {
      Mem? || RipRelMem?
    }

    predicate HighByte() {
      Reg? && reg >= 16
    }
  }

  datatype OpKind =
    | Nop | Mov | Lea | Push | Pop | Xchg
    | Add | Or | Adc | Sbb | And | Sub | Xor | Cmp
    | Test | Not | Neg | Inc | Dec
    | Jmp | Jcc | Call | Ret

  datatype InsnFlags = InsnFlags(controlFlow: bool, lock: bool, rep: bool, repne: bool, hasSeg: bool,
                                 opsizePfx: bool, addrsizePfx: bool)

  datatype Insn = Insn(kind: OpKind, opSize: nat, len: u8, cond: Cc, flags: InsnFlags, rip: u64,
                       dst: Operand, src: Operand) {
    /** Every instruction but NOP has one of the four operand sizes, none has two memory operands, and
        only byte operations name AH to BH, and conditional jumps are relative. */
    predicate WellFormed() {
      && (kind == Nop || opSize == 1 || opSize == 2 || opSize == 4 || opSize == 8)
      && !(dst.InMemory() && src.InMemory())
      && (opSize != 1 ==> !dst.HighByte() && !src.HighByte())
      && (kind == Jcc ==> dst.Rel?)
    }

    /** Only control flow ends a block. */
    predicate EndsBlock() {
      flags.controlFlow
    }

    /** The address of the next instruction. */
    function NextRip(): u64 {
      Plus(rip, len)
    }
  }
}
