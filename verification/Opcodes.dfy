/**
 Instructions: the opcode list, the decoded form the compiler works on, the packed 32-bit form,
 and the encoding of operands that are a register or a constant.
 */
module Opcodes {

  datatype Op =
    | MOVE | MOVEN | LOADK | LOADBOOL | LOADNIL | GETUPVAL
    | GETGLOBAL | GETTABLE | GETTABLEKS | SETGLOBAL | SETUPVAL | SETTABLE | SETTABLEKS
    | NEWTABLE | SELF
    | ADD | SUB | MUL | DIV | MOD | POW | UNM | NOT | LEN | CONCAT
    | JMP | EQ | LT | LE | TEST | TESTSET
    | CALL | TAILCALL | RETURN | FORLOOP | FORPREP | TFORLOOP | SETLIST | CLOSE | CLOSURE | VARARG
    | BAND | BOR | BXOR | SHL | SHR | IDIV | BNOT | NOP
    | RAW  // a data word, operation code -1

  // IRInstruction; `raw` is the data word of a RAW entry
  datatype Ins = Ins(op: Op, a: int, b: int, c: int, bx: int, sbx: int, raw: int)

  function ABC(op: Op, a: int, b: int, c: int): Ins { Ins(op, a, b, c, -1, 0, 0) }
  function ABx(op: Op, a: int, bx: int): Ins { Ins(op, a, -1, -1, bx, 0, 0) }
  function ASbx(op: Op, a: int, sbx: int): Ins { Ins(op, a, -1, -1, -1, sbx, 0) }

  const MAX_ARG_C := 511
  const MAX_ARG_BX := 262143
  const MAX_ARG_SBX := 131071

  // The number of upvalues of the nested function a CLOSURE instantiates.
  function Nups(nups: seq<nat>, bx: int): nat { if 0 <= bx < |nups| then nups[bx] else 0 }

  // ----- registers and constants -----

  const BIT_RK := 256
  const MAX_INDEX_RK := 255

  // opIsK, opIndexK, opRkAsk
  predicate IsK(x: int) { (x / BIT_RK) % 2 == 1 }
  function IndexK(x: int): int { if IsK(x) then x - BIT_RK else x }
  function RkAsk(x: int): int { if IsK(x) then x else x + BIT_RK }

  lemma RkRoundTrip(x: int)
    requires 0 <= x <= MAX_INDEX_RK
    ensures !IsK(x) && IsK(RkAsk(x)) && IndexK(RkAsk(x)) == x
  {
  }
}
