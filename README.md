# AGC instruction decoder and memory map, in Dafny

A model of the core of `pyagcom`, a decoder for Apollo Guidance Computer
(AGC) fixed-memory images:

- `instruction.dfy` (module `Instruction`) models `pyagcom/instruction.py`.
  It splits a 16-bit word into opcode, quarter code, p-code, 12-bit address
  and parity, with the range check that raises `DecodingException`. It then
  applies the standard-mode opcode table, including the quarter-code
  sub-dispatch of opcodes 1, 2 and 5. The address is narrowed to 10 bits
  for CCS and for opcodes 2 and 5; TCF keeps the full 12 bits. The alias factories turn a base instruction at one fixed address
  into an operand-less pseudo-op (TC 6 is EXTEND, LXCH 6 is ZL, ...). The
  renderer prints the mnemonic, then, for an instruction with an operand, a
  space and the address in 4-digit octal.
- `machine.dfy` (module `Machine`) models `pyagcom/machine.py`. It has the
  sizes of erasable and fixed memory, the construction of the cell list
  (zeros, then the fixed image padded with zeros, or `MemoryException` for an
  oversized image) and the read rules of the memory-mapped registers. `Memory` is an
  immutable value and reads are functions of it, so no read changes the
  state, as in the source.
- `octal.dfy` (module `Octal`) is Python's `"%04o"` formatting, with the
  digit value it denotes.
- `wrappers.dfy` (module `Wrappers`) holds `Option` (Python's `None`) and
  `Result` (the exceptions).

Instructions are the datatype `Instr`. `Op(base, addr)` is an instruction
with an operand. `Pseudo(alias)` is a pseudo-op. Each pseudo-op records its
base instruction and trigger address (`Alias.BaseOp`, `Alias.Trigger`), and
`Unalias` maps every instruction back to the pair (base, address) it stands
for. Two reference definitions serve as partners in the proofs. `Assemble`
inverts the standard table and `ParseRendered` inverts the renderer. Neither
exists in the source.

Bit operations are written as integer arithmetic. For a non-negative mask,
Python's `v & (2^k - 1)` is the floor remainder, and `v >> k` is floor
division by `2^k`. Dafny's `%` and `/` by a positive number agree with both,
for negative values too. So the range check `word & 0xFFFF != word` is
`Low16(word) != word` exactly. Octal constants of the source are written in
hex with the octal value in a comment.

Choices that follow the code as written:

- the LXCH alias ZL triggers at address 6 (`instruction.py`, line 174);
- the extended decoder `from_word_ext` returns `None` (lines 48-50), and
  there is no extended opcode table, so no alias is defined on an extended
  instruction;
- instructions have no extend or mode attribute.

## Model

| member | source | states |
|---|---|---|
| `Instruction.Low16` | src/pyagcom/instruction.py:20-21 | masking with 16 ones keeps the word exactly when it lies in 0..0xFFFF (also for negative words) |
| `Instruction.Decode` | src/pyagcom/instruction.py:5-32 | raises InvalidWord exactly for words outside 0..0xFFFF; otherwise code < 8, quarter code < 4, p-code < 8, address < 4096, parity < 2 |
| `Instruction.DecodeRoundTrip` | src/pyagcom/instruction.py:11-31 | the fields rebuild the word: word == code·2^13 + addr·2 + parity, with code == word >> 13 and addr == (word >> 1) & 0xFFF |
| `Instruction.DecodeSubfields` | src/pyagcom/instruction.py:11-31 | quarter code == addr >> 10 and p-code == addr >> 9: both are the top bits of the address field |
| `Instruction.EncodeDecode` | src/pyagcom/instruction.py:23-32 | any code < 8, address < 4096 and parity < 2 are decoded back from the word they form |
| `Instruction.FromWordExt` | src/pyagcom/instruction.py:48-50 | the extended decoder yields no instruction (`None`) for every input; `FromWord` states the same for extended mode |
| `Instruction.To10Bit` | src/pyagcom/instruction.py:44-45 | the result is below 1024, keeps the low 10 bits, and is the address itself when that is below 1024 |
| `Instruction.MakeTC` | src/pyagcom/instruction.py:112-123 | TC at 0,1,2,3,4,6 is a pseudo-op standing for TC at that address (XXALQ, XLQ, RETURN, RELINT, INHINT, EXTEND by `Alias.Trigger`); at 5 or above 6 it stays TC with the address |
| `Instruction.MakeDAS` | src/pyagcom/instruction.py:159-163 | DAS at 1 is the pseudo-op DDOUBL; elsewhere DAS keeps its address |
| `Instruction.MakeLXCH` | src/pyagcom/instruction.py:173-177 | LXCH at 6 is the pseudo-op ZL; elsewhere LXCH keeps its address |
| `Instruction.MakeCS` | src/pyagcom/instruction.py:195-199 | CS at 0 is the pseudo-op COM; elsewhere CS keeps its address |
| `Instruction.MakeINDEX` | src/pyagcom/instruction.py:207-211 | INDEX at octal 17 is the pseudo-op RESUME; elsewhere INDEX keeps its address |
| `Instruction.MakeDXCH` | src/pyagcom/instruction.py:220-226 | DXCH at 5 is DTCF and at 6 DTCB; elsewhere DXCH keeps its address |
| `Instruction.MakeTS` | src/pyagcom/instruction.py:238-244 | TS at 0 is OVSK and at 5 TCAA; elsewhere TS keeps its address |
| `Instruction.Make` | src/pyagcom/instruction.py:87 | building an instruction from a base and an address loses nothing: the result stands for exactly that base and address, and a pseudo-op results only at its trigger address |
| `Instruction.MakeAlias` | src/pyagcom/instruction.py:112-244 | every pseudo-op is what its base instruction becomes at its trigger address |
| `Instruction.AliasTableInjective` | src/pyagcom/instruction.py:112-244 | no two pseudo-ops share a base instruction and trigger address |
| `Instruction.FromWordStd` | src/pyagcom/instruction.py:52-87 | an opcode outside 0..7 raises InvalidOpCode and no other does; the result stands for a base listed under the opcode and selected by the quarter code, with the address cut to 10 bits exactly for CCS and opcodes 2 and 5 and kept whole for TC, TCF, CA, CS, AD, MASK |
| `Instruction.TableIsFunction` | src/pyagcom/instruction.py:54-83 | within one opcode each quarter code selects a single base instruction |
| `Instruction.FromWord` | src/pyagcom/instruction.py:35-50 | raises InvalidWord exactly for words outside 0..0xFFFF and never InvalidOpCode; yields an instruction in standard mode and `None` in extended mode |
| `Instruction.DecodeAssemble` | src/pyagcom/instruction.py:35-87 | every 16-bit word decodes in standard mode to an instruction the table can produce, and assembling that gives back the word without its parity bit |
| `Instruction.AssembleDecode` | src/pyagcom/instruction.py:35-87 | every instruction the table can produce is decoded from its assembled word, for either parity bit |
| `Instruction.AliasWord` | src/pyagcom/instruction.py:52-244 | a pseudo-op is decoded from a word exactly when the word, parity aside, is its assembled value (TC 6, EXTEND, only from octal 14 and 15) |
| `Instruction.AfterLast` | src/pyagcom/instruction.py:97 | `split(sep)[-1]`: the result has no separator, is a suffix of the input, and is preceded by a separator when shorter than it |
| `Instruction.Name` | src/pyagcom/instruction.py:92-97 | the name has no underscore and is the tail of the class name; `NameIsMnemonic` shows it is exactly the mnemonic |
| `Instruction.NameIsMnemonic` | src/pyagcom/instruction.py:92-97 | the class name after its last underscore is the bare mnemonic (`_instruction_TC` gives TC) |
| `Instruction.Render` | src/pyagcom/instruction.py:99-106 | the text starts with the name; it is the name alone exactly for a pseudo-op, and for an instruction with an operand a space and at least four more characters follow; `RenderOperand`, `RenderAlias` and `RenderRoundTrip` state the rest |
| `Instruction.RenderOperand` | src/pyagcom/instruction.py:99-100 | an instruction with an address below 4096 renders as its mnemonic, one space and exactly four octal digits denoting the address |
| `Instruction.RenderAlias` | src/pyagcom/instruction.py:103-106 | a pseudo-op renders as its mnemonic alone, with no space and no operand |
| `Instruction.RenderRoundTrip` | src/pyagcom/instruction.py:92-106 | rendering loses nothing: the text reads back as the same instruction |
| `Instruction.Examples` | src/pyagcom/instruction.py:35-50 | octal word 14 decodes to EXTEND, 12 to TC 5 and 44014 to ZL; in extended mode a word yields `None` |
| `Instruction.RenderExamples` | src/pyagcom/instruction.py:99-106 | EXTEND renders as "EXTEND" and TC 5 as "TC 0005" |
| `Octal.Pad04` | src/pyagcom/instruction.py:100 | `%04o` gives only octal digits, at least four of them; `Pad04Correct` shows the value and the exact length |
| `Octal.Pad04Correct` | src/pyagcom/instruction.py:100 | `%04o` text denotes the number and has at least four digits, exactly four when the number is below 4096 |
| `Octal.DigitsValue` | src/pyagcom/instruction.py:100 | the octal digits of a number denote that number |
| `Machine.Trim` | src/pyagcom/machine.py:52-53 | the result is below 2^15, keeps the low 15 bits, and equals the value when that is in 0..2^15-1 |
| `Machine.Memory.RegisterGet` | src/pyagcom/machine.py:61-73 | cells 0 and 2 read as their low 15 bits, address 6 as cell 4 plus cell 3 >> 8, address 7 as 0, every other register as its raw cell |
| `Machine.Memory.Get` | src/pyagcom/machine.py:55-73 | above octal 23 the raw cell; at 0 and 2 the cell's low 15 bits; at 6 cell 4 plus cell 3 >> 8, which is cell 4 when cell 3 is in 0..255; at 7 always 0; the raw cell at every other address |
| `Machine.NewMemory` | src/pyagcom/machine.py:45-48 | fails exactly when the image is longer than FIXED_SIZE (octal 110000); otherwise SIZE cells, zeros in erasable memory, the image from ERASE_SIZE on, zeros after it |
| `Machine.ReadNewMemory` | src/pyagcom/machine.py:45-73 | every read of a new memory gives the image inside it and 0 everywhere else, registers included |

## Left out

- The extended opcode table. `from_word_ext` returns `None` and the source's "Extended Instructions" section is empty, so it is modelled as that stub.
- Mode threading. `src/decode2.py` reads an `extend` attribute that no instruction defines, so there is no decoder code to model for it.
- The command-line drivers `src/decode1.py` and `src/decode2.py`. They read the file in 2-byte big-endian chunks, count addresses and print octal, which is all I/O.
- The empty `machine` class and the memory-bank layout comments of `machine.py`. They are documentation only.
- `Instruction.FromWordStd` requires a quarter code in 0..3 for opcodes 2 and 5. For other quarter codes the source's list index raises `IndexError` or, for a negative code, wraps around. `from_word` only passes quarter codes in 0..3, so the model does not cover those cases.
- Python's negative list indices and the `IndexError` for reads past the end. Addresses are `nat`, and `Get` requires an address inside the cell list.
- Dynamic class-name introspection. Each instruction's class name is a fixed string, `ClassName`, built from the source's class names.
- Pseudo-ops keep their address in a Python field that is never printed. `Pseudo` drops that field, and `Alias.Trigger` recovers it.
