# A verified model of the tolang virtual machine core

tolang compiles a Lua-like contract language to register bytecode and runs it deterministically on
256-bit words. This project models five of its cores in Dafny and proves what they are for: the
compiler from statements to patched bytecode, the four-limb arithmetic, the table that is an array and
a hash at once, the serialisers with their loader, and the structures of the running machine. What the
source changes in place is a class or an array here; what it computes is a function. Each method is
tied to a function of the state before, and the lemmas are about those functions.

## How the files fit together

- Arithmetic: `Words`, `Uint256`, `Shifts`, `LimbSeqs`, `KnuthD`, `Division`, `Masks`, `CheckedArith`,
  `Decimal`. The intrinsics of `math/bits` are functions on integers below 2^64; bit operations are
  written as division and remainder by powers of two, with the lemmas that connect the two.
- Compiler: `Lang` (expressions and their values), `Opcodes`, `Machine` (what the handlers do),
  `Fragments`, `Jumps`, `Assignments`, `Compiler` (expressions, conditions, assignments), `Statements`,
  `Branches`, `Blocks` (blocks and if statements), `Patch` (the pass over finished code), `Registers`
  (the register bound, and the loader that checks it), `Programs` (whole functions, end to end).
- Tables: `TableSpec` (the meaning), `Traversal` (the cursor), `LuaTable` (the class).
- Serialisers: `Instructions` (packing), `Wire`, `Bytecode` (formats), `BytecodeIO` (buffer and cursor),
  `AbiSpec`, `AbiLayout`, `Abi` (the ABI functions of the Lua prelude).
- The running machine: `CallFrames`, `Upvalues`, `Varargs`.

The number operations are a parameter of the compiler model, shared by the evaluator, the constant
folder and the machine; the SHA-256 digest is a parameter of the bytecode format; the VM identifier is
a parameter of the encoder and the decoder; a raised error is a result. A Go `nil` and the language's
nil are one value, except in the registry of `Varargs`, where a register that was never written is
`Unset`; a `nil` slice or map is an empty one. Text is ASCII where the source trims it or changes its
case.

## What the proofs found

Each of these is a lemma with an input, and where the property is meant to hold there is its exact
condition.

- `lu256Mul` adds the carry out of an addition inside a column back into the same column
  (uint256.go:209-213, 217-223). The product modulo 2^256 is right exactly under `MulKeepsCarries`
  (`Uint256.MulExactIff`), which a one-word second operand guarantees (`Uint256.MulByWord`);
  `Uint256.MulLosesCarry` is an input outside it.
- The saturating arm of the digit estimate (uint256.go:397-399) enters the refinement with `rhat` 0 and
  can settle on a digit that is too small; nothing repairs it. `Division.DivMod` is exact if and only if
  `DivModExact` holds, which follows the partial remainders; the conditions a caller can check are those
  of `Division.ExactDomain` (a one-word divisor, or a dividend below 2^64 to the number of words of the
  divisor) and `Division.ExactWhenShort`. `Division.UnderEstimateExists` is an input outside it.
- `lu256SarN` shifts a 256-bit sign extension as an unsigned number. `Masks.SarN` is right exactly when
  the operand is not negative, or the shift is at least N, or shift + N is at most 256.
- The overflow test of the signed checked multiplication accepts -1 times the least number, and no other
  product outside the range (`CheckedArith.WrappedProduct`); `CheckedArith.MissedOverflowPushed` gives
  the two operands at every width up to 64.
- The unsigned checked multiplication below 256 bits tests the product modulo 2^256. Its verdict is right
  exactly when the product is below 2^256 or leaves a remainder of at least 2^N
  (`CheckedArith.WideVerdictRight`); `CheckedArith.WideProductWraps` is an input above 128 bits.
- The numeric parser has no range check: a numeral that does not fit wraps around (`Decimal.ParseWraps`).
- `patchCode` reads the operand of a jump as a label even when it is already a distance
  (compile.go:1976-1977). Patching keeps all runs when no jump goes back to a jump, as in forward code
  (`Patch.ForwardCode`); that condition is sufficient and not necessary. `Patch.JumpBackMisread` is code
  outside it that patching sends elsewhere.
- A lone assignment target is written before surplus expressions are evaluated: `x = 0, 1 / x` raises
  where x was 1 (`Assignments.SurplusSeesAssignment`). With several targets, or where no surplus
  expression mentions the target, assignment is simultaneous (`Assignments.AssignmentSimultaneous`).
- `Append` stores behind the last element of the array part even when the hash part holds that key
  (`TableSpec.AppendOverwrites`).
- Overwriting a hash key during a traversal can move it to the array part, after which the cursor starts
  over (`Traversal.OverwriteRepeats`). Deleting, and overwriting a key that stays where it is, are safe
  (`Traversal.TraversalIsComplete`).
- `SetSp` to the current depth pops a segment's worth too many when the last segment is full, and is
  exact otherwise (`CallFrames.CallFrameStack.SetSp`); `IsFull` is never true
  (`CallFrames.CallFrameStack.IsFull`).
- The bytecode loader compares lengths in 32 bits, so that a file within 32 bytes of 4 GiB is refused
  (`Bytecode.FileRoundTrip`, `Bytecode.WrapsSmaller`).
- A tail call moves all registers of the callee but the last one. That loses nothing but the `arg` table
  of a vararg function which uses no register behind it (`Varargs.LastRegister`).
- The ABI encoder writes a negative `iN` as its N-bit pattern behind zeros (`AbiLayout.NumberSlot`), where
  the Solidity Contract ABI Specification, section "Formal Specification of the Encoding", extends the
  sign. Decoding takes the low N bits, so that the round trip holds nevertheless.

## Model

| member | source | states |
|---|---|---|
| Uint256.Cmp | uint256.go:111-137 | the limb comparison orders the numbers the limbs stand for |
| Uint256.Add | uint256.go:186-192 | over all carries, the sum modulo 2^256 |
| Uint256.Sub | uint256.go:194-200 | over all borrows, the difference modulo 2^256 |
| Uint256.MulExactIff | uint256.go:202-233 | the limb product is the product modulo 2^256 if and only if no carry is lost (`MulKeepsCarries`) |
| Uint256.MulByWord | uint256.go:202-233 | with a one-word second operand no carry is lost, and the product modulo 2^256 is exact |
| Uint256.MulLosesCarry | uint256.go:209-213 | an input for which the limb product is not the product modulo 2^256 |
| Shifts.Shl | uint256.go:258-282 | for every shift distance, the number times 2^n modulo 2^256 |
| Shifts.Shr | uint256.go:284-308 | for every shift distance, the number divided by 2^n, rounded down |
| KnuthD.EstimateDigit | uint256.go:395-415 | the refined estimate is the quotient of three leading limbs by two when the leading limb is smaller than the divisor's, and the saturated digit otherwise |
| KnuthD.MultiplySubtract | uint256.go:416-430 | in place, with the borrow folded in: the window loses the digit times the divisor, and the overflow word says whether it went below zero |
| KnuthD.AddBack | uint256.go:431-441 | in place: the divisor is added to the window once |
| KnuthD.DivideStep | uint256.go:394-442 | one digit and remainder of the window are exact unless the saturating arm under-estimates, and the digit is too small when it does |
| KnuthD.DivideDigits | uint256.go:393-442 | all digits and the remainder of a normalised division: exact when no step under-estimates, and a quotient that is too small otherwise |
| Division.KnuthDivide | uint256.go:356-457 | for a divisor of two words or more: quotient and remainder if and only if `DivisionExact`; otherwise the quotient is too small |
| Division.DivMod | uint256.go:317-337 | for every divisor but zero: quotient and remainder if and only if `DivModExact`; otherwise the quotient is too small |
| Division.ExactDomain | uint256.go:317-457 | division is exact for one-word divisors and for dividends below 2^64 to the number of words of the divisor |
| Division.ExactWhenShort | uint256.go:356-457 | no step saturates, so that division is exact, when the dividend is below 2^64 to the number of words of the divisor |
| Division.UnderEstimateExists | uint256.go:397-399 | a dividend and a divisor for which the quotient is too small |
| Masks.MaskN | uint256.go:477-495 | for every N, the number modulo 2^N, and zero for N below one |
| Masks.BitN | uint256.go:498-501 | whether bit n of the number is set |
| Masks.NegN | uint256.go:504-506 | the negative modulo 2^N |
| Masks.SignExtendN | uint256.go:509-516 | for canonical N-bit patterns, the 256-bit pattern of the signed value |
| Masks.SarN | uint256.go:572-580 | for canonical patterns, the pattern of the signed value divided by 2^shift, rounded down, if and only if it is not negative, or shift >= N, or shift + N <= 256 |
| CheckedArith.SignedDivN | uint256.go:532-549 | for canonical patterns and a divisor that is not zero, the quotient of the signed values rounded toward zero if and only if the magnitudes divide exactly |
| CheckedArith.SignedModN | uint256.go:552-569 | for canonical patterns and a divisor that is not zero, the remainder that takes the sign of the dividend, where the magnitudes divide exactly |
| CheckedArith.TruncDivMod | uint256.go:532-569 | truncated quotient and remainder make up the dividend, the remainder is smaller than the divisor, and has the sign of the dividend |
| CheckedArith.NarrowExact | uint256.go:532-569 | up to 128 bits the magnitudes always divide exactly |
| CheckedArith.UintCheckedAdd | cryptolib.go:688-707 | at every width from 1 to 256, on canonical operands, pushes the sum if it fits N bits and raises an overflow otherwise |
| CheckedArith.UintCheckedSub | cryptolib.go:711-726 | at every width from 1 to 256, on canonical operands, pushes the difference if it is not negative and raises an overflow otherwise |
| CheckedArith.UintCheckedMul | cryptolib.go:731-752 | where no carry is lost: the exact verdict up to 128 bits, and at 256 where the testing division is exact; at every width below 256 the verdict on the product modulo 2^256 |
| CheckedArith.WideVerdictRight | cryptolib.go:731-742 | the verdict on the product modulo 2^256 is the right one if and only if the product is below 2^256 or leaves a remainder of at least 2^N |
| CheckedArith.WideProductWraps | cryptolib.go:731-742 | canonical 200-bit operands, without a lost carry, whose product is too large and wraps around to 0 |
| CheckedArith.SignedCheckedAdd | cryptolib.go:756-770 | at every width from 8 to 256, on canonical operands, pushes the sum if it is in the N-bit range and raises otherwise; other widths raise |
| CheckedArith.SignedCheckedSub | cryptolib.go:774-788 | at every width from 8 to 256, on canonical operands, pushes the difference if it is in the N-bit range and raises otherwise; other widths raise |
| CheckedArith.SignedCheckedMul | cryptolib.go:792-806 | up to 128 bits where no carry is lost, raises if and only if the product leaves the N-bit range and is not -1 times the least number; what is pushed is the product modulo 2^N |
| CheckedArith.WrappedProduct | cryptolib.go:792-806 | dividing the wrapped product back gives the other factor exactly when the product is in range or is -1 times the least number |
| CheckedArith.NarrowKeepsCarries | cryptolib.go:792-806 | up to 64 bits no carry is lost |
| CheckedArith.MissedOverflowPushed | cryptolib.go:792-806 | at every width up to 64, two operands whose product leaves the range and is accepted |
| CheckedArith.SignedDiv | cryptolib.go:555-574 | on canonical operands, raises on a zero divisor and on the least number by -1, and otherwise pushes the quotient rounded toward zero where the magnitudes divide exactly, as they do up to 128 bits |
| CheckedArith.SignedMod | cryptolib.go:578-587 | on canonical operands, raises on a zero divisor and otherwise pushes the remainder with the sign of the dividend where the magnitudes divide exactly, as they do up to 128 bits |
| CheckedArith.SignedSar | cryptolib.go:832-839 | for a canonical operand and every shift amount, the signed value divided by 2^shift rounded down if and only if it is not negative, or shift >= N, or shift + N <= 256 |
| Decimal.ToDecimal | value.go:130-153 | for all 2^256 values, five chunks suffice and the text is the shortest decimal numeral |
| Decimal.ParseBase | uint256.go:36-66 | an error exactly for an empty, negative or ill-formed text, and otherwise the positional value modulo 2^256 |
| Decimal.Parse | uint256.go:21-34 | trimming and the prefixes 0x and 0b, with the value of what is left |
| Decimal.ParsePrinted | value.go:130-153 | parsing a printed value gives the value |
| Decimal.ParseWraps | uint256.go:36-66 | parsing a numeral of any size gives it modulo 2^256 |
| Decimal.EncodeDecimalTo32 | cryptolib.go:370-377 | the 64-digit hexadecimal numeral of what the text parses to, or its error |
| Decimal.EncodeKey | cryptolib.go:331-352 | for every number, exactly its 64-digit hexadecimal numeral, which reads back as the number |
| Decimal.FromHexKey | uint256.go:625-646 | reading the hexadecimal bytes of a value limb by limb gives the value |
| Lang.FoldPreserves | compile.go:1391-1450 | constant folding keeps the value, or the error, in every environment |
| Compiler.FuncContext.Add | compile.go:180-189 | appends one instruction, over what was popped before |
| Compiler.FuncContext.AddLoadNil | compile.go:275-291 | extends the last LOADNIL when the ranges meet and no jump came between, and appends one otherwise |
| Compiler.FuncContext.Propagate | compile.go:240-273 | pops a trailing LOADK or MOVE into an operand exactly when it targets a temporary, and for constants when the index fits an operand |
| Compiler.FuncContext.ConstIndex | compile.go:605-618 | the index of the value in a pool without repetition, which grows only by new values, or the error when the pool is full |
| Compiler.FuncContext.FindLocalVar | compile.go:652-655 | the register of the innermost declaration, -1 when there is none |
| Compiler.FuncContext.CompileExpr | compile.go:1263-1371 | the code leaves the value of a boolean or of pure arithmetic in its destination, raises what the expression raises, and keeps all other registers below its own |
| Compiler.FuncContext.CompileArithmeticOp | compile.go:1559-1601 | likewise for an operation, folded or with operands that are constants, locals or temporaries |
| Compiler.FuncContext.CompileOperand | compile.go:1373-1389 | the operand is a constant, a local or a temporary that holds the value, and no local changes |
| Fragments.ArithComputes | _vm.go:767-818 | the arithmetic instruction behind its operands computes the operation, with the same error on a zero divisor |
| Fragments.OperandsPair | compile.go:1559-1601 | the second operand's code does not disturb the first operand |
| Compiler.FuncContext.CompileBranchCondition | compile.go:1053-1099 | for every condition of booleans, numbers, locals, comparisons, `not`, `and`, `or`: the code leaves for the then label exactly when it is true and for the else label exactly when it is false, where falling through means one or the other by `hasnextcond`; no register below its own changes |
| Compiler.FuncContext.CompileRelationalAux | compile.go:1672-1693 | likewise for a comparison, with operands swapped for > and >= and the outcome flipped |
| Jumps.RelationDecides | _vm.go:397-469 | a comparison instruction and the jump behind it decide the comparison, and raise on operands that have no order |
| Jumps.TestDecides | _vm.go:470-481 | TEST and the jump behind it decide the truth of a value |
| Jumps.JoinedDecides | compile.go:1072-1086 | two conditions in sequence with a label between them decide their conjunction or disjunction |
| Jumps.WalkSplit | compile.go:1053-1099 | running a stretch of forward code is running its first part and then the rest |
| Compiler.FuncContext.CompileFresh | compile.go:828-898 | the expressions, and nil for the missing ones, end up in consecutive registers, all evaluated in the state before |
| Compiler.FuncContext.CompileAssignment | compile.go:900-931 | every target holds its value, the leftmost one winning on repeats, and every other local its old one |
| Assignments.AssignmentSimultaneous | compile.go:828-931 | with several targets, or no surplus expression that mentions the only one, the values are those of all expressions in the state before |
| Assignments.SurplusSeesAssignment | compile.go:828-898 | an assignment whose surplus expression sees the value just assigned |
| Assignments.MovesStore | compile.go:900-931 | moving from the last target to the first leaves each target its leftmost value |
| Assignments.StoredNames | compile.go:828-931 | seen through the names: a target has the value of its leftmost occurrence, any other name its old one |
| Branches.IfRealized | compile.go:1034-1051 | condition, then block, jump and else block, with the three labels in their places, do what the if statement means |
| Blocks.CompileIf | compile.go:1034-1051 | the emitted code realizes the statement: from any registers, with any later constants, it raises what the statement raises and otherwise leaves the locals as it does |
| Blocks.CompileBlock | compile.go:730-750 | likewise for a sequence of assignments and if statements, nested to any depth |
| Statements.SequenceRealized | compile.go:730-750 | code that realizes two blocks, one behind the other, realizes their sequence |
| Programs.WalkRuns | _vm.go:391-396 | running a closed stretch with label jumps is a run of the machine from its first instruction to its end, or to the error |
| Programs.BlockRuns | compile.go:1962-1995 | a realized block in patched code, entered with any registers, ends the run with its error or continues behind the block with the locals its statements leave, whatever the other instructions mean |
| Programs.CompileFunction | compile.go:1452-1486 | for blocks of assignments and if statements: the compile errors, or code, constants and register bound that `Programs.CompiledRuns` is about |
| Programs.CompiledRuns | compile.go:1452-1486 | the patched code of a function, run by distances from its first instruction with any registers, stops with the error its statements raise, or goes on at its return with the locals as the statements leave them |
| Programs.PatchAndBound | compile.go:1962-2011 | patches, records the highest register used and one, and fails exactly when a jump is too long or the bound exceeds 200 |
| Programs.PatchedFits | compile.go:2013-2142 | when the bound of the patched code is below 256, no register of the original code could be taken for a constant |
| Patch.PatchCode | compile.go:1962-1995 | in place: exactly the code the recursive reading of the pass gives, or its failure on a jump that is too long |
| Patch.PatchRelates | compile.go:1962-1995 | under `WellFormed` and `NoJumpBackToJump`, each patched instruction is the old one, a jump or no-op to where label jumps lead, or a MOVEN over a run of moves |
| Patch.PatchPreservesRuns | compile.go:1962-1995 | for code with its data words in place (`WellFormed`) and no jump back to a jump: from every instruction and state, whatever the other instructions mean, with loops, patched code ends as the original does or runs forever when it does |
| Patch.ForwardCode | compile.go:1962-1995 | code whose jumps all go forward has no jump back to a jump |
| Patch.JumpBackMisread | compile.go:1976-1977 | code with a jump back to a jump whose patched form goes elsewhere |
| Registers.MaxRegisterUsed | compile.go:2013-2142 | the loop computes the bound the recursive reading gives |
| Registers.LoaderAcceptsRegisters | bytecode.go:446-874 | a prototype tree with the recorded bound, stripped of debug information, with its data words in place: every register and register-range check of every instruction passes, whatever other faults there are |
| Registers.WalkPasses | bytecode.go:482-874 | compiler and loader step over the same words, and no register check fails on the way |
| Registers.CompiledFits | compile.go:2005-2011 | emitted code within the bound uses no register that could be taken for a constant |
| Registers.ValidateDecodedProto | bytecode.go:446-480 | the first fault of parameters, locals, instructions and nested prototypes, in that order |
| Instructions.FieldsABC | opcode.go:188-243 | the fields of a created word are its arguments |
| Instructions.FieldsABx | opcode.go:220-251 | likewise for words with a wide operand |
| Instructions.WordOfFields | opcode.go:188-259 | a word is created from its fields, in each of the three shapes |
| Opcodes.RkRoundTrip | opcode.go:264-274 | a constant index is told from a register and comes back |
| Instructions.CodeRoundTrip | ir.go:99-178 | decodable code, with the raw words behind SETLIST, packs back to itself |
| Instructions.ProtoRoundTrip | ir.go:99-178 | a prototype tree with decodable code converts to the IR and back to itself |
| Instructions.IrFromProto | ir.go:99-141 | the loop computes the IR of a prototype and its children |
| Instructions.ProtoFromIr | ir.go:143-178 | the loop computes the prototype of packable IR and its children |
| TableSpec.SetIsUpdate | table.go:252-274 | under the table invariant, which it keeps: the key reads the value set, and every other key what it read before, across growth, migration and removal |
| TableSpec.SetIntIsUpdate | table.go:277-283 | likewise by integer index, where a negative index means key 0 |
| TableSpec.SetHashKeeps | table.go:385-415 | likewise in the hash part: no key is listed twice, a live one always, a dead one only when a traversal returned it |
| TableSpec.MigrateKeeps | table.go:80-94 | moving numeric keys from the hash to the grown array part keeps the value of every key |
| TableSpec.AppendIsUpdate | table.go:148-167 | for a value other than nil: the key behind the last element is set, every other key keeps its value |
| TableSpec.AppendOverwrites | table.go:148-167 | a table in which appending overwrites a key that has a value |
| LuaTable.LTable.RawSet | table.go:252-274 | the fields change as the specification says, with the string map, the key list and its index in step |
| LuaTable.LTable.RawSetInt | table.go:277-283 | likewise |
| LuaTable.LTable.RawSetString | table.go:286-312 | likewise |
| LuaTable.LTable.RawSetH | table.go:385-415 | likewise |
| LuaTable.LTable.SetArrayValueAt | table.go:96-118 | likewise |
| LuaTable.LTable.MigrateNumericHashRangeToArray | table.go:80-94 | likewise |
| LuaTable.LTable.RemoveHashKeyMetadata | table.go:322-344 | the key leaves the list, the others keep their order, and the index stays the inverse of the list |
| LuaTable.LTable.AppendValue | table.go:148-167 | the fields change as the specification says |
| LuaTable.LTable.RawGet | table.go:418-450 | the value of the key, wherever it is kept |
| LuaTable.LTable.RawGetInt | table.go:453-461 | likewise by integer index |
| LuaTable.LTable.RawGetString | table.go:484-492 | likewise by string |
| LuaTable.LTable.CompactNextIterationState | table.go:353-382 | the list and its index hold exactly the live hash keys, in order |
| LuaTable.LTable.NextWithCost | table.go:581-609 | the next entry, its value and the cost are those of the specified cursor |
| LuaTable.LTable.ForEach | table.go:495-510 | the callback sees the entries in their order |
| LuaTable.EntriesListAll | table.go:495-510 | the entries are all keys with a value, each once, with their values |
| Traversal.NextYieldsLive | table.go:516-609 | a key that is returned has a value at that moment, and it is the one returned; at the end none is left |
| Traversal.ChangeKeeps | table.go:314-351 | a deletion, or overwriting in place, keeps the cursor's place |
| Traversal.TraversalIsComplete | table.go:516-609 | a traversal from the start, with any deletions (of the current key too) and overwriting in place between its steps: ends within as many steps as entries, and one, returns no key twice and every key that keeps a value, at bounded cost, and leaves a list of live keys only |
| Traversal.OverwriteRepeats | table.go:80-118 | a table in which overwriting a hash key makes the traversal repeat a key |
| Wire.ConstRoundTrip | bytecode.go:876-961 | every constant that fits its format is read back, under any suffix |
| Wire.StringRoundTrip | bytecode.go:997-1051 | strings within the size checks are read back, under any suffix |
| Wire.AgentUnchanged | bytecode.go:948-957 | an address constant is kept exactly when it is canonical |
| Bytecode.ProtoReadsBack | bytecode.go:167-444 | for every prototype tree with 32-bit lengths and integers and canonical addresses, reading takes exactly the bytes written, under any suffix |
| Bytecode.WrittenApart | bytecode.go:167-277 | the encoding is injective, also in front of different suffixes |
| Bytecode.ReadIsEncodable | bytecode.go:279-444 | whatever is read, from any bytes, is a prototype tree the writer can write |
| Bytecode.FileRoundTrip | bytecode.go:45-136 | a supported prototype decodes to itself if and only if it is encodable, the sizes do not wrap in 32 bits, and it passes the loader's checks |
| BytecodeIO.Buffer.WriteProto | bytecode.go:167-277 | the writer appends exactly the encoding, and fails exactly on an unsupported constant |
| BytecodeIO.ByteReader.ReadProto | bytecode.go:279-444 | the reader's result and cursor are those of the specified parser, on any bytes |
| BytecodeIO.EncodeFunctionProto | bytecode.go:45-73 | the file is the framed encoding |
| BytecodeIO.DecodeFunctionProto | bytecode.go:76-136 | the verdict on any bytes is the specified one, in the order of the checks |
| AbiLayout.SlotDecodes | tol_ir_direct_lowering.go:1610-1656 | every canonical bool, uN, iN, agent or bytesN takes one slot and is decoded from it |
| AbiLayout.NumberSlot | tol_ir_direct_lowering.go:1653-1656 | an N-bit number stands in the last N/4 digits of its slot, behind zeros |
| AbiLayout.OffsetsPoint | tol_ir_direct_lowering.go:1712-1734 | in the encoding of canonical arguments every static one has its slot in the head, and the head of every array is the offset at which its tail begins |
| AbiLayout.TailDecodes | tol_ir_direct_lowering.go:1661-1708 | an array is decoded from its tail, whatever follows it |
| AbiLayout.DecodedTupleCanonical | tol_ir_direct_lowering.go:1794-1996 | whatever a tuple decodes to, from any data, is canonical for its types |
| AbiLayout.TupleRoundTrip | tol_ir_direct_lowering.go:1712-1996 | for every non-empty tuple of Lua values and types bool, uN, iN, agent, bytesN and arrays of these, below 2^63 characters: decoding the encoding gives the values if and only if all are canonical |
| Abi.SlotStatic | tol_ir_direct_lowering.go:1610-1656 | one slot, or the raised error, for every Lua value |
| Abi.TailDynamic | tol_ir_direct_lowering.go:1661-1708 | the loop over the elements gives length and slots |
| Abi.EncodeV2 | tol_ir_direct_lowering.go:1712-1734 | the loop that grows head, tail and offset gives the specified layout |
| Abi.DecodeTyped | tol_ir_direct_lowering.go:1794-1943 | the decoded value, or the raised error, for any data |
| Abi.DecodeTuple | tol_ir_direct_lowering.go:1962-1996 | the decoded tuple, or the raised error, for any data |
| CallFrames.CallFrameStack.Push | state.go:273-289 | appends the frame, with its position as index, exactly while there is room in the segments |
| CallFrames.CallFrameStack.Pop | state.go:332-347 | removes and returns the last frame, and gives its segment back when it was the first in it |
| CallFrames.CallFrameStack.Last | state.go:312-323 | the last frame |
| CallFrames.CallFrameStack.At | state.go:325-329 | the frame at a position |
| CallFrames.CallFrameStack.SetSp | state.go:298-310 | cuts the stack to a depth if and only if that is not the current depth with a full last segment |
| CallFrames.CallFrameStack.IsFull | state.go:251-253 | never true |
| CallFrames.CallFrameStack.RemoveCallerFrame | state.go:2176-2187 | removes the frame below the last one and renumbers the last one and its parent |
| Upvalues.ReadsLastWritten | function.go:63-84 | over any run of register writes, upvalue writes, captures and closings, reading a captured variable gives the value last written to it, through its register or any closure, before and after closing |
| Upvalues.StepKeeps | state.go:914-956 | each event keeps open variables in distinct registers, and changes the value of a captured variable only by writing it |
| Upvalues.Stack.FindUpvalue | state.go:931-956 | the open upvalue of the register when there is one, and otherwise a new one, linked in order; the list stays strictly sorted |
| Upvalues.Stack.CloseUpvalues | state.go:914-929 | closes exactly the open upvalues of registers from idx on, which keep their values, and cuts them off the list |
| Upvalues.Upvalue.SetValue | function.go:72-78 | writes its own value when closed and its register otherwise, and nothing else |
| Varargs.Registry.CheckSize | state.go:369-391 | growing keeps every register below the top, and fails exactly when the limit does not allow the size |
| Varargs.Registry.SetTop | state.go:393-418 | cuts the stack or fills it with nil |
| Varargs.Registry.CopyRange | state.go:458-490 | for every start, limit and overlap, what each target register holds, with nil beyond the limit |
| Varargs.Registry.InitCallFrame | state.go:1019-1113 | for any number of arguments and parameters: caller, cleared slots and surplus arguments, parameters and the `arg` table are laid out as specified, or the stack overflows exactly when it is too small |
| Varargs.Registry.ArgTable | state.go:1096-1103 | the `arg` table has the surplus arguments at 1 to n, n at "n", and nothing else |
| Varargs.ParameterReads | state.go:1019-1113 | parameter i reads argument i or nil, and the registers below the base are unchanged |
| Varargs.Registry.Vararg | _vm.go:741-760 | surplus arguments in order, with nil behind the last, as many as wanted; no register below the target changes |
| Varargs.Registry.TailCall | _vm.go:525-589 | the callee's frame is laid out from the caller's base as a call from there would, without its last register |
| Varargs.LastRegister | _vm.go:525-589 | the register a tail call drops is nil, unless it is the `arg` table of a function that uses no register behind it |

## Left out

- Compiler.FuncContext.CompileExpr: nil, strings, tables, calls, concatenation, unary minus and length, and `and`, `or`, comparisons used as values are not modelled; nil is left out because the merging of LOADNIL across a loop head is not safe.
- Compiler.FuncContext.CompileBranchCondition: nil and string literals as conditions are not modelled.
- Compiler.FuncContext.CompileAssignment: targets are locals; globals, table fields and upvalues as targets, and calls as the last expression, are not modelled.
- Programs.CompileFunction: local declarations, loops, goto, return values, varargs, upvalues and nested functions are not compiled in the model; the pass over finished code and the register bound are modelled for all of them.
- Patch.PatchPreservesRuns: no jump may go back to a jump; that is sufficient, and code outside the condition need not be misread.
- Division.DivMod: `DivModExact` follows the partial remainders of the division; `Division.ExactDomain` is the part of it that is visible from the operands.
- CheckedArith.SignedDivN: above 128 bits the claim needs the magnitudes to divide exactly.
- CheckedArith.UintCheckedMul: at 256 bits nothing is claimed where a carry is lost or the testing division is not exact.
- Registers.LoaderAcceptsRegisters: about register checks; that constant, jump and upvalue checks pass on compiled code is not claimed.
- Traversal.TraversalIsComplete: insertions during a traversal, and overwriting that moves a key to the array part, are outside the claim.
- Abi.DecodeTuple: `bytes`, `string`, structs, fixed and nested arrays are not modelled; the type names are parsed already, and gas is not counted.
- Varargs.Registry.InitCallFrame: functions of the host, which get their arguments as they are, and the metamethod that calls a table are not modelled.
- Upvalues.Stack.FindUpvalue: one stack; upvalues shared between coroutines are not modelled.
- Metatables, field access through them, strings as numbers in arithmetic, Go panics and recovery, gas, stack traces and the host libraries.
- The bitwise and integer-division opcodes, for which the machine has no handler, and exponentiation of wide operands.
- `Insert` and `Remove` of tables, sorting, and the cached length.
- The reuse of call-frame segments through a pool.
- Keccak and SHA-256 as computations; the parser, the semantic checker, packages, signatures, import resolution and the command line.
- Texts of error messages.
