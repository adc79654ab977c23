# CHIP-8 interpreter core in Dafny

A model of the `Chip8` class of a small CHIP-8 interpreter. The model covers:

- the machine state declared in chip8.h: 4 KiB of memory, a 64×32 monochrome display, the program counter, the index register, a 16-entry stack, registers V0–VF, two timers and a 4×4 keyboard;
- the three routines of chip8.cpp that act on that state:
  - the constructor, which zeroes everything, sets pc to 0x200 and stores the hexadecimal font at 0x050;
  - the byte-copy loop of `load_rom`, which stores a ROM from 0x200 on;
  - `single_cycle`, which fetches a big-endian instruction word and runs one of the six implemented instruction families: 0nnn/00E0, 1nnn, 6xkk, 7xkk, Annn and Dxyn.

Modules:

- `Opcode` (decode.dfy) holds the C++ unsigned types and the fetch and decode expressions of `single_cycle`.
  - `uint8` and `uint16` are the integer ranges 0..255 and 0..65535.
  - The masks, shifts, narrowing assignments and wrap-arounds of the code are written out as the division, remainder or `% 0x100` / `% 0x1_0000` they amount to.
  - `hi << 8 | lo` is `hi * 0x100 + lo` (`Word`).
  - The sprite-bit mask `0x80 >> j` is the lookup table `ColumnMask`, tied to the powers of two by `ColumnMasksHalve`.
  - Bit-vector types appear only in lemmas (`FamilyIsShift`, `AddressIsMask`, `LowByteIsMask`, `LowNibbleIsMask`, `XRegisterIsMask`, `WordIsShiftOr`, `SpriteBitIsMask`) that prove these arithmetic forms equal to the C++ bitwise expressions.
- `Screen` (screen.dfy) models the display as a value and the XOR sprite draw with its collision test. It also holds the lemmas about drawing.
- `Semantics` (semantics.dfy) does three things:
  - it defines the state as the datatype `Machine`;
  - it defines what each routine does as a function: `Initial`, `Load`/`Copy`, and `Execute`/`Cycle`;
  - it proves, instruction by instruction, what those functions promise.
- `Interpreter` (chip8.dfy) is the class `Chip8`.
  - Its fields are arrays and scalars, as in the header, plus a ghost `Machine` named `M`.
  - `Valid()` ties the fields to `M`.
  - The constructor and each method are proved to turn `M` into exactly what the specification functions say:
    - the constructor yields `Initial()`;
    - `LoadRom` yields `Load`;
    - `SingleCycle` yields `Cycle(old(M))`.
  - The constructor's font store and Dxyn's nested draw loops are proved against the specification with loop invariants.

The model follows the code as written, including its decoding quirks. The one exception is the overflow guard of `load_rom`, which the model corrects (see "## Findings" and the `Semantics.Copy` line under "## Left out"):

- **X operand.** `reg = op & 0x0F00` is assigned to a `uint8_t`, which always leaves 0. So 6xkk, 7xkk and Dxyn always use V0.
- **Y operand.** `reg2 = op & 0x00F0` is 16 times the Y nibble. It is a valid register index only when that nibble is 0.
- **Draw bounds.** Dxyn reduces only its start coordinates, modulo 64 and 32. It then indexes `display[y + i][x + j]` without wrapping.

Where the C++ would read or write outside an array, the model has a precondition:

- `CycleDefined` requires `pc + 1 < 4096`.
- `DrawDefined` requires three things:
  - the Y nibble is 0;
  - `index + n <= 4096`;
  - every set bit of the sprite lands on the screen.

Commonly documented CHIP-8 behaviour differs from this code at four points; the model follows the code:

- **Unknown opcodes.** An instruction family without a case (2, 3, 4, 5, 8, 9, B, C, E, F) leaves the whole state unchanged, pc included. Most CHIP-8 interpreters advance pc by 2 on an unknown word.
- **Draw wrap.** Dxyn wraps only its start coordinates, not each pixel.
- **Timers.** `single_cycle` does not decrement the timers.
- **Failed loads.** A failed load keeps the bytes it has already stored.

## Model

| member | source | states |
|---|---|---|
| Opcode.Word | chip8.cpp:73 | the word built from two bytes has the first as its high byte and the second as its low byte, within 16 bits |
| Opcode.Fetch | chip8.cpp:73 | big-endian fetch: the high byte of the word is `memory[pc]`, the low byte `memory[pc + 1]`; needs `pc + 1` inside memory |
| Opcode.Family | chip8.cpp:78 | `op >> 12` is the nibble f with f·0x1000 ≤ op < (f+1)·0x1000 |
| Opcode.Address | chip8.cpp:92 | `op & 0x0FFF` is below 0x1000 and is what remains of the word once its family is removed |
| Opcode.LowByte | chip8.cpp:99 | `op & 0x00FF` is the low byte: the word is 256·(op / 256) plus it |
| Opcode.LowNibble | chip8.cpp:129 | `op & 0x000F` is below 16 and is the word's remainder after its multiples of 16 |
| Opcode.XRegister | chip8.cpp:98 | the X register index, `op & 0x0F00` stored in a `uint8_t` as at chip8.cpp:98, 107 and 123, always indexes one of the 16 registers (XRegisterIsV0 proves it is V0) |
| Opcode.YRegister | chip8.cpp:124 | the Y register index, `op & 0x00F0` stored in a `uint8_t`, is a multiple of 16 (YRegisterInRange says when it is a register) |
| Opcode.XRegisterIsV0 | chip8.cpp:98 | the X register index `(op & 0x0F00)` truncated to `uint8_t` is 0 for every word, so V0 is always the target |
| Opcode.YRegisterInRange | chip8.cpp:124 | the Y register index is 16 × the Y nibble; it is below 16 exactly when the nibble is 0, and then it is V0 |
| Opcode.ColumnMasksHalve | chip8.cpp:137 | the mask `0x80 >> j` halves from one column to the next and is 1 at column 7 |
| Opcode.ColumnMask | chip8.cpp:137 | the mask `0x80 >> j` is a positive divisor of 0x80 (ColumnMasksHalve pins it to bit 7 - j) |
| Opcode.SpriteBit | chip8.cpp:137 | the test `(pixel & (0x80 >> j)) != 0`: column 0 is set exactly when the pixel byte is at least 0x80, column 7 exactly when it is odd, and a zero byte sets no column |
| Opcode.WordIsShiftOr | chip8.cpp:73 | `Word` equals the bit-vector expression that shifts `hi` left by 8 and ORs in `lo`, for every two bytes |
| Opcode.FamilyIsShift | chip8.cpp:78 | `Family` equals the bit-vector `op >> 12` for every word |
| Opcode.AddressIsMask | chip8.cpp:92 | `Address` equals the bit-vector `op & 0x0FFF` for every word (also chip8.cpp:116) |
| Opcode.LowByteIsMask | chip8.cpp:99 | `LowByte` equals the bit-vector `op & 0x00FF` for every word (also chip8.cpp:108) |
| Opcode.LowNibbleIsMask | chip8.cpp:129 | `LowNibble` equals the bit-vector `op & 0x000F` for every word |
| Opcode.XRegisterIsMask | chip8.cpp:98 | `XRegister` equals the bit-vector `op & 0x0F00` reduced modulo 256, the `uint8_t` assignment, for every word |
| Opcode.SpriteBitIsMask | chip8.cpp:137 | `SpriteBit` equals the bit-vector test `(pixel & (0x80 >> j)) != 0` for every byte and column |
| Screen.Blank | chip8.cpp:38 | the cleared display has 32 rows of 64 cells, all off |
| Screen.Draw | chip8.cpp:133-144 | the XOR-drawn display is again 32×64 and keeps every cell the sprite does not paint (DrawTogglesSpriteBits states the painted cells) |
| Screen.Collides | chip8.cpp:136-139 | an empty sprite never collides, and nothing collides on a blank display (CollidesIffSetBitOnLitPixel gives the full condition) |
| Screen.DrawTogglesSpriteBits | chip8.cpp:133-144 | the draw flips exactly the cells `(y+i, x+j)` under set sprite bits and leaves every other cell as it was |
| Screen.CollidesIffSetBitOnLitPixel | chip8.cpp:136-139 | a collision happens exactly when some set sprite bit falls on a lit pixel |
| Screen.DrawTwiceRestores | chip8.cpp:141 | XOR-drawing the same sprite twice at the same place gives back the original display |
| Screen.SecondDrawCollides | chip8.cpp:136-141 | the second of two identical draws collides exactly when the first lit a pixel that was dark |
| Semantics.Initial | chip8.cpp:29-41 | after construction pc = 0x200; index, sp and both timers are 0; every register, stack entry, display cell and key is 0/off; memory is the initial memory; all arrays have the header's sizes |
| Semantics.InitialMemory | chip8.cpp:37-47 | the memory after construction has 4096 bytes; InitialMemoryLayout and InitialMemoryByLayout state its contents |
| Semantics.GlyphByte | chip8.cpp:47 | byte j of glyph i of the font sits at 0x050 + 5i + j of the initial memory |
| Semantics.InitialMemoryLayout | chip8.cpp:37-47 | in the initial memory `memory[0x050 + 5i + j] == fontset[i][j]` for every glyph byte, and every other byte is 0 |
| Semantics.InitialMemoryByLayout | chip8.cpp:37-47 | conversely, a 4096-byte memory with exactly that layout is the initial memory |
| Semantics.Copy | chip8.cpp:59-69 | the copy loop with the corrected guard keeps memory at 4096 bytes and succeeds exactly when there are no bytes or they all fit below 4096 (CopyEffect adds the stored contents) |
| Semantics.Load | chip8.cpp:50-69 | the load keeps memory at 4096 bytes, succeeds only when the path is non-empty and the file opens, and leaves memory alone when either fails (LoadEffect gives the closed form) |
| Semantics.CopyEffect | chip8.cpp:59-69 | the copy loop (with the corrected guard) succeeds exactly when the bytes fit below 4096; it stores byte k at addr + k in order even when it fails, and changes nothing else |
| Semantics.LoadEffect | chip8.cpp:50-69 | the load (with the corrected guard) returns true exactly when the path is non-empty, the file opens and the ROM has at most 3584 bytes; then the ROM is at 0x200 onwards; on every outcome only bytes of the ROM that fit are written, from 0x200 on |
| Semantics.AsWrittenCopy | chip8.cpp:59-69 | one run of the loop as written, with the guard `addr > 4096`: it stores to consecutive addresses from `addr` on, at most one per byte, and all of them when it returns true |
| Semantics.AsWrittenStoresUpTo4096 | chip8.cpp:61-66 | the loop as written, with the guard `addr > 4096`, stores every byte whose address is at most 4096 |
| Semantics.AsWrittenOverflows | chip8.cpp:62 | as written, one run on a 3585-byte ROM both stores to address 4096, past the end of memory, and returns true, while the corrected copy fails every 3585-byte ROM on every memory |
| Semantics.AsWrittenSucceedsIff | chip8.cpp:61-69 | the loop as written returns true exactly when the file is empty or its last byte lands at an address of at most 4096 |
| Semantics.Advance | chip8.cpp:88 | `pc += 2` on the `uint16_t` pc: pc + 2, wrapping past 0xFFFF to 0 or 1 (also chip8.cpp:103, 112, 119 and 146) |
| Semantics.DrawX | chip8.cpp:128 | Dxyn's start column `v[reg1] % 64` is a column of the display |
| Semantics.DrawY | chip8.cpp:128 | Dxyn's start row `v[reg2] % 32` is a row of the display |
| Semantics.SpriteOf | chip8.cpp:134 | the sprite Dxyn reads is n bytes of memory from index on |
| Semantics.ExecuteDraw | chip8.cpp:122-147 | Dxyn keeps the array sizes, sets VF to 0 or 1, keeps V0–VE, and changes only the registers, the display and pc (DrawInstruction states the display and VF) |
| Semantics.Execute | chip8.cpp:79-148 | no implemented instruction changes memory, the stack, sp, the timers or the keyboard, and every resulting state keeps the array sizes of chip8.h (4096 memory bytes, 32×64 display, 16 registers, 16 stack entries, 4×4 keyboard) |
| Semantics.Cycle | chip8.cpp:72-79 | one cycle keeps the array sizes and never changes memory, the stack or the keyboard |
| Semantics.SystemInstructions | chip8.cpp:80-89 | every word with top nibble 0 advances pc by exactly 2; 00E0 also turns every pixel off; other 0nnn keep the display; nothing else changes |
| Semantics.JumpInstruction | chip8.cpp:91-95 | 1nnn sets pc to `op & 0x0FFF` with no advance by 2, and changes nothing else |
| Semantics.LoadImmediateInstruction | chip8.cpp:97-104 | 6xkk puts the low byte in V0, leaves V1–VF alone, advances pc by 2, and changes nothing else |
| Semantics.AddImmediateInstruction | chip8.cpp:106-113 | 7xkk adds the low byte to V0 modulo 256, leaves V1–VF (VF included) alone, advances pc by 2, and changes nothing else |
| Semantics.SetIndexInstruction | chip8.cpp:115-120 | Annn sets index to `op & 0x0FFF`, advances pc by 2, and changes nothing else |
| Semantics.UnimplementedInstructions | chip8.cpp:79-148 | a word of family 2, 3, 4, 5, 8, 9, B, C, E or F leaves the whole state, pc included, unchanged |
| Semantics.DrawOperands | chip8.cpp:123-128 | Dxyn takes both coordinates from V0: x = V0 mod 64 and y = V0 mod 32 |
| Semantics.DrawInstruction | chip8.cpp:122-147 | Dxyn flips the cell of every set bit of `memory[index..index+n-1]` and no other cell; VF is 1 exactly when a set bit met a lit pixel and 0 otherwise; V0–VE and index are kept; pc advances by 2 |
| Semantics.DrawKeepsOperands | chip8.cpp:122-147 | after a Dxyn its sprite and coordinates are the same, so the same Dxyn is defined again |
| Semantics.DrawTwice | chip8.cpp:126-146 | running the same Dxyn twice restores the display; the second run sets VF exactly when the first lit some pixel |
| Interpreter.Chip8.constructor | chip8.cpp:8-48 | the new object is valid and its state is `Initial()`, with fresh arrays |
| Interpreter.StoreFont | chip8.cpp:44-47 | the nested font loop over a zeroed memory leaves exactly the initial memory |
| Interpreter.FontStoredStep | chip8.cpp:47 | each store of the font loop adds the next font byte, in loop order |
| Interpreter.Chip8.LoadRom | chip8.cpp:50-69 | the result is `Load(...).ok` and memory becomes `Load(...).memory`; no other field changes |
| Interpreter.Chip8.SingleCycle | chip8.cpp:72-149 | the state becomes `Cycle(old(M))`: fetch at pc, then execute |
| Interpreter.Chip8.SystemCase | chip8.cpp:80-89 | the 0nnn case turns the state into `Execute(old(M), op)` |
| Interpreter.Chip8.ClearDisplay | chip8.cpp:83 | `memset(display, 0, ...)` leaves the blank display |
| Interpreter.Chip8.JumpCase | chip8.cpp:91-95 | the 1nnn case turns the state into `Execute(old(M), op)` |
| Interpreter.Chip8.LoadImmediateCase | chip8.cpp:97-104 | the 6xkk case turns the state into `Execute(old(M), op)` |
| Interpreter.Chip8.AddImmediateCase | chip8.cpp:106-113 | the 7xkk case turns the state into `Execute(old(M), op)` |
| Interpreter.Chip8.SetIndexCase | chip8.cpp:115-120 | the Annn case turns the state into `Execute(old(M), op)` |
| Interpreter.Chip8.DrawSprite | chip8.cpp:122-147 | the Dxyn case turns the state into `Execute(old(M), op)` |
| Interpreter.Chip8.DrawRows | chip8.cpp:131-144 | clearing VF and then the row loop leave the display and registers of `ExecuteDraw` |
| Interpreter.Chip8.DrawRow | chip8.cpp:134-143 | one pass of the column loop flips the cells of row i's set bits and sets VF when one was lit; both are stated as the loop-position predicates `Covers` and `CollidesBefore` |

## Left out

- Timers: the code never decrements `delay_timer` or `sound_timer`, so the model only keeps them unchanged.
- Other instructions: the stack, call/return, the 8xy_ family, skips, Cxkk, key handling, BCD and register dump/load are not modelled, because the code has no case for them. 2nnn (call) and the other families without a case are no-ops, as in the source. 00EE (return) has top nibble 0, so, like every 0nnn other than 00E0, it only advances pc by 2.
- `draw_flag` is left out: it is never initialised or written.
- `emulate()` is left out: its body is empty.
- main.cpp is not part of this model: it is SDL wiring and the process entry.
- Opening and reading the file in `load_rom` is I/O, so it is left out. So are the console message and the `ifstream` loop. `LoadRom` instead takes the file's bytes as a parameter, `None` when the file cannot be opened, and the path only for its emptiness test.
- Interpreter.Chip8.SingleCycle: requires `pc + 1 < 4096`, because the C++ reads `memory[pc + 1]`. A jump can set pc to 0xFFF, and the next fetch is then out of bounds.
- Interpreter.Chip8.DrawSprite: requires `DrawDefined`, because outside it the C++ indexes out of bounds. `DrawDefined` holds when three things hold:
  - the Y nibble is 0;
  - `index + n <= 4096`;
  - every set sprite bit lands on the 32×64 display.
- Semantics.Copy and Interpreter.Chip8.LoadRom use the corrected guard `addr >= 4096`, not the source's `addr > 4096`. The model therefore fails every ROM of more than 3584 bytes. The source instead writes `memory[4096]` for every ROM of 3585 bytes or more, and returns true for a ROM of exactly 3585 bytes (`AsWrittenCopy`, `AsWrittenOverflows`).
- Byte types: the C++ `uint8_t`/`uint16_t` are integer ranges with explicit wrap-around, not bit-vector types, to keep the proofs small. The bitwise expressions are their arithmetic equivalents, proved equal to the bit-vector forms for `op >> 12`, the masks `0x0FFF`, `0x00FF`, `0x000F` and `0x0F00`, `hi << 8 | lo` and the sprite-bit test; `op & 0x00F0` (YRegister) has no such lemma.

## Findings

| source | as written | input that shows it | evidently intended | confidence | as-written member | corrected member |
|---|---|---|---|---|---|---|
| chip8.cpp:62 | the copy loop stops only when `addr > 4096`, so it still stores a byte at `memory[4096]` and returns true | a ROM of 3585 bytes: its last byte goes to address 4096, one past the end of the 4096-byte array, and the load reports success | reject once `addr >= 4096`: ROMs of more than 3584 bytes fail and no byte is written outside memory | not executed | Semantics.AsWrittenOverflows | Semantics.CopyEffect |
