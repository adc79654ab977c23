/** The CHIP-8 machine state of chip8.h as a value, and the meaning of the
    three routines of chip8.cpp (construction, ROM load, one CPU cycle) as
    functions on it. The class in chip8.dfy is proved to follow them. */
module Semantics {
  import opened Opcode
  import opened Screen

  const MemorySize := 4096
  /** Programs are loaded here (`uint16_t addr = 0x200`) and execution starts here. */
  const ProgramStart := 0x200
  /** The largest ROM that fits between ProgramStart and the end of memory. */
  const ProgramSpace := MemorySize - ProgramStart
  /** The hexadecimal font is stored from here (`fontset_start_addr`). */
  const FontStart := 0x050
  const GlyphCount := 16
  const GlyphHeight := 5
  const RegisterCount := 16
  /** Register VF, the collision flag of Dxyn. */
  const FlagRegister := 0xF
  const StackDepth := 16
  const KeyRows := 4
  const KeyCols := 4

  datatype Option<T> = None | Some(value: T)

  /** The fields of `class Chip8` (chip8.h), leaving out the never-written `draw_flag`. */
  datatype Machine = Machine(
    memory: seq<uint8>,
    display: Display,
    pc: uint16,
    index: uint16,
    stack: seq<uint16>,
    sp: uint8,
    v: seq<uint8>,
    delayTimer: uint8,
    soundTimer: uint8,
    keyboard: seq<seq<bool>>)

  /** The array sizes that chip8.h declares. */
  ghost predicate WellFormed(m: Machine)
  {
    |m.memory| == MemorySize && IsDisplay(m.display) &&
    |m.stack| == StackDepth && |m.v| == RegisterCount &&
    |m.keyboard| == KeyRows && (forall r :: 0 <= r < KeyRows ==> |m.keyboard[r]| == KeyCols)
  }

  /** The 16 five-byte glyphs of the hexadecimal digits 0 to F (`fontset`). */
  const Font: seq<seq<uint8>> := [
    [0xF0, 0x90, 0x90, 0x90, 0xF0], // 0
    [0x20, 0x60, 0x20, 0x20, 0x70], // 1
    [0xF0, 0x10, 0xF0, 0x80, 0xF0], // 2
    [0xF0, 0x10, 0xF0, 0x10, 0xF0], // 3
    [0x90, 0x90, 0xF0, 0x10, 0x10], // 4
    [0xF0, 0x80, 0xF0, 0x10, 0xF0], // 5
    [0xF0, 0x80, 0xF0, 0x90, 0xF0], // 6
    [0xF0, 0x10, 0x20, 0x40, 0x40], // 7
    [0xF0, 0x90, 0xF0, 0x90, 0xF0], // 8
    [0xF0, 0x90, 0xF0, 0x10, 0xF0], // 9
    [0xF0, 0x90, 0xF0, 0x90, 0x90], // A
    [0xE0, 0x90, 0xE0, 0x90, 0xE0], // B
    [0xF0, 0x80, 0x80, 0x80, 0xF0], // C
    [0xE0, 0x90, 0x90, 0x90, 0xE0], // D
    [0xF0, 0x80, 0xF0, 0x80, 0xF0], // E
    [0xF0, 0x80, 0xF0, 0x80, 0x80]  // F
  ]

  /** Memory right after construction: zero, except for the glyphs stored one
      after the other from FontStart. */
  function InitialMemory(): (mem: seq<uint8>)
    ensures |mem| == MemorySize
  {
    seq(MemorySize, a =>
      if FontStart <= a < FontStart + GlyphCount * GlyphHeight
      then Font[(a - FontStart) / GlyphHeight][(a - FontStart) % GlyphHeight]
      else 0)
  }

  lemma GlyphOffset(i: int, j: int)
    requires 0 <= i < GlyphCount && 0 <= j < GlyphHeight
    ensures (GlyphHeight * i + j) / GlyphHeight == i && (GlyphHeight * i + j) % GlyphHeight == j
  {
  }

  lemma GlyphByte(i: int, j: int)
    requires 0 <= i < GlyphCount && 0 <= j < GlyphHeight
    ensures InitialMemory()[FontStart + GlyphHeight * i + j] == Font[i][j]
  {
    var k := GlyphHeight * i + j;
    GlyphOffset(i, j);
    assert InitialMemory()[FontStart + k] == Font[k / GlyphHeight][k % GlyphHeight];
  }

  /** Glyph `i` occupies the five bytes from FontStart + 5 * i on; every
      byte outside the font region is zero. */
  lemma InitialMemoryLayout()
    ensures forall i, j :: 0 <= i < GlyphCount && 0 <= j < GlyphHeight ==>
      InitialMemory()[FontStart + GlyphHeight * i + j] == Font[i][j]
    ensures forall a :: 0 <= a < MemorySize && !(FontStart <= a < FontStart + GlyphCount * GlyphHeight) ==>
      InitialMemory()[a] == 0
  {
    forall i, j | 0 <= i < GlyphCount && 0 <= j < GlyphHeight
      ensures InitialMemory()[FontStart + GlyphHeight * i + j] == Font[i][j]
    {
      GlyphByte(i, j);
    }
  }

  /** Conversely, a memory with the glyphs in place and zero elsewhere is
      the initial memory. */
  lemma InitialMemoryByLayout(mem: seq<uint8>)
    requires |mem| == MemorySize
    requires forall i, j :: 0 <= i < GlyphCount && 0 <= j < GlyphHeight ==>
      mem[FontStart + GlyphHeight * i + j] == Font[i][j]
    requires forall a :: 0 <= a < MemorySize && !(FontStart <= a < FontStart + GlyphCount * GlyphHeight) ==>
      mem[a] == 0
    ensures mem == InitialMemory()
  {
    forall a | 0 <= a < MemorySize
      ensures mem[a] == InitialMemory()[a]
    {
      if FontStart <= a < FontStart + GlyphCount * GlyphHeight {
        var i, j := (a - FontStart) / GlyphHeight, (a - FontStart) % GlyphHeight;
        assert a == FontStart + GlyphHeight * i + j;
      }
    }
  }

  /** The state the constructor `Chip8::Chip8` produces. */
  function Initial(): (m: Machine)
    ensures WellFormed(m)
    ensures m.pc == 0x200 && m.index == 0 && m.sp == 0 && m.delayTimer == 0 && m.soundTimer == 0
    ensures forall k :: 0 <= k < RegisterCount ==> m.v[k] == 0
    ensures forall k :: 0 <= k < StackDepth ==> m.stack[k] == 0
    ensures forall r, c :: 0 <= r < Rows && 0 <= c < Cols ==> !m.display[r][c]
    ensures forall r, c :: 0 <= r < KeyRows && 0 <= c < KeyCols ==> !m.keyboard[r][c]
    ensures m.memory == InitialMemory()
  {
    Machine(
      memory := InitialMemory(),
      display := Blank(),
      pc := ProgramStart,
      index := 0,
      stack := seq(StackDepth, _ => 0),
      sp := 0,
      v := seq(RegisterCount, _ => 0),
      delayTimer := 0,
      soundTimer := 0,
      keyboard := seq(KeyRows, _ => seq(KeyCols, _ => false)))
  }

  // ---------------------------------------------------------------- load_rom

  /** What `load_rom` returns, with the memory it leaves behind. */
  datatype LoadResult = LoadResult(ok: bool, memory: seq<uint8>)

  /** The copy loop of `load_rom`: store `bytes` one by one from `addr`,
      failing as soon as a byte is left over and `addr` is past the end of
      memory. The guard is `addr >= MemorySize`, see AsWrittenCopy. */
  function Copy(mem: seq<uint8>, addr: int, bytes: seq<uint8>): (r: LoadResult)
    requires |mem| == MemorySize && 0 <= addr
    ensures |r.memory| == MemorySize
    ensures r.ok <==> |bytes| == 0 || addr + |bytes| <= MemorySize
    decreases |bytes|
  {
    if |bytes| == 0 then LoadResult(true, mem)
    else if addr >= MemorySize then LoadResult(false, mem)
    else Copy(mem[addr := bytes[0]], addr + 1, bytes[1..])
  }

  /** The copy succeeds exactly when all bytes fit; every byte that fits is
      stored at its address, in order, even when the copy fails; nothing else
      changes. */
  lemma {:induction false} CopyEffect(mem: seq<uint8>, addr: int, bytes: seq<uint8>)
    requires |mem| == MemorySize && 0 <= addr <= MemorySize
    ensures var r := Copy(mem, addr, bytes);
      |r.memory| == MemorySize &&
      (r.ok <==> addr + |bytes| <= MemorySize) &&
      forall a :: 0 <= a < MemorySize ==>
        r.memory[a] == if addr <= a < addr + |bytes| then bytes[a - addr] else mem[a]
    decreases |bytes|
  {
    if |bytes| > 0 && addr < MemorySize {
      CopyEffect(mem[addr := bytes[0]], addr + 1, bytes[1..]);
    }
  }

  /** `load_rom(path)`, where `rom` is the content of the file at `path`, or
      None when it cannot be opened. */
  function Load(mem: seq<uint8>, path: string, rom: Option<seq<uint8>>): (r: LoadResult)
    requires |mem| == MemorySize
    ensures |r.memory| == MemorySize
    ensures r.ok ==> |path| > 0 && rom.Some?
    ensures |path| == 0 || rom.None? ==> r.memory == mem
  {
    if |path| == 0 then LoadResult(false, mem)
    else if rom.None? then LoadResult(false, mem)
    else Copy(mem, ProgramStart, rom.value)
  }

  /** Loading succeeds exactly when the path is non-empty, the file opens and
      it holds at most ProgramSpace bytes; it then holds the ROM from
      ProgramStart on. The bytes that fit are stored in order even on
      failure, and no other byte changes. */
  lemma LoadEffect(mem: seq<uint8>, path: string, rom: Option<seq<uint8>>)
    requires |mem| == MemorySize
    ensures var r := Load(mem, path, rom);
      |r.memory| == MemorySize &&
      (r.ok <==> |path| > 0 && rom.Some? && |rom.value| <= ProgramSpace) &&
      (r.ok ==> r.memory[ProgramStart..ProgramStart + |rom.value|] == rom.value) &&
      forall a :: 0 <= a < MemorySize ==>
        r.memory[a] ==
          if |path| > 0 && rom.Some? && ProgramStart <= a < ProgramStart + |rom.value|
          then rom.value[a - ProgramStart] else mem[a]
  {
    if |path| > 0 && rom.Some? {
      CopyEffect(mem, ProgramStart, rom.value);
    }
  }

  /** One run of the loop of `load_rom` AS WRITTEN: the addresses it stores
      to, in order, and what it returns. */
  datatype AsWrittenRun = AsWrittenRun(stores: seq<int>, ok: bool)

  /** The copy loop of `load_rom` exactly as written, with the guard
      `addr > 4096`, for an `n`-byte file copied from `addr`. */
  function AsWrittenCopy(addr: int, n: nat): (r: AsWrittenRun)
    ensures |r.stores| <= n
    ensures forall k :: 0 <= k < |r.stores| ==> r.stores[k] == addr + k
    ensures r.ok ==> |r.stores| == n
    decreases n
  {
    if n == 0 then AsWrittenRun([], true)
    else if addr > 4096 then AsWrittenRun([], false)
    else
      var rest := AsWrittenCopy(addr + 1, n - 1);
      AsWrittenRun([addr] + rest.stores, rest.ok)
  }

  /** The as-written loop stores byte `k` whenever its address is at most 4096. */
  lemma {:induction false} AsWrittenStoresUpTo4096(addr: int, n: nat, k: nat)
    requires k < n && addr + k <= 4096
    ensures addr + k in AsWrittenCopy(addr, n).stores
    decreases k
  {
    if k > 0 {
      AsWrittenStoresUpTo4096(addr + 1, n - 1, k - 1);
    }
  }

  /** The as-written loop reports success exactly when the last byte lands at
      an address of at most 4096, one more byte than memory holds. */
  lemma {:induction false} AsWrittenSucceedsIff(addr: int, n: nat)
    ensures AsWrittenCopy(addr, n).ok <==> n == 0 || addr + n <= 4097
    decreases n
  {
    if n > 0 && addr <= 4096 {
      AsWrittenSucceedsIff(addr + 1, n - 1);
    }
  }

  /** A file of ProgramSpace + 1 bytes makes one run of the as-written loop
      store its last byte at address 4096, one past the end of memory, and
      still report success, while the corrected copy fails every such file. */
  lemma AsWrittenOverflows(mem: seq<uint8>, bytes: seq<uint8>)
    requires |mem| == MemorySize && |bytes| == ProgramSpace + 1
    ensures var r := AsWrittenCopy(ProgramStart, |bytes|);
      MemorySize in r.stores && r.ok
    ensures !Copy(mem, ProgramStart, bytes).ok
  {
    AsWrittenStoresUpTo4096(ProgramStart, |bytes|, ProgramSpace);
    AsWrittenSucceedsIff(ProgramStart, |bytes|);
  }

  // ------------------------------------------------------------ single_cycle

  /** `pc += 2` on the `uint16_t` program counter. */
  function Advance(pc: uint16): (r: uint16)
    ensures pc < 0xFFFE ==> r == pc + 2
    ensures pc >= 0xFFFE ==> r == pc + 2 - 0x1_0000
  {
    (pc + 2) % 0x1_0000
  }

  /** Dxyn's start column, `v[reg1] % 64`. */
  function DrawX(m: Machine, op: uint16): (x: int)
    requires WellFormed(m)
    ensures 0 <= x < Cols
  {
    XRegisterIsV0(op);
    m.v[XRegister(op)] % 64
  }

  /** Dxyn's start row, `v[reg2] % 32`; `reg2` must name a register. */
  function DrawY(m: Machine, op: uint16): (y: int)
    requires WellFormed(m) && YRegister(op) < 16
    ensures 0 <= y < Rows
  {
    m.v[YRegister(op)] % 32
  }

  /** The `height` sprite bytes that Dxyn reads from `memory[index]` on. */
  function SpriteOf(m: Machine, op: uint16): (sprite: seq<uint8>)
    requires WellFormed(m) && m.index + LowNibble(op) <= MemorySize
    ensures |sprite| == LowNibble(op)
  {
    m.memory[m.index..m.index + LowNibble(op)]
  }

  /** What Dxyn needs so that every array access of the C++ stays in bounds:
      `v[reg2]` (the Y nibble must be 0), `memory[index + i]` for every row,
      and `display[y + i][x + j]` for every set bit. */
  ghost predicate DrawDefined(m: Machine, op: uint16)
    requires WellFormed(m)
  {
    YRegister(op) < 16 &&
    m.index + LowNibble(op) <= MemorySize &&
    Fits(SpriteOf(m, op), DrawX(m, op), DrawY(m, op))
  }

  /** Dxyn: VF is cleared, then set when a set sprite bit meets a lit pixel;
      the sprite is XOR-drawn; pc advances by 2. */
  function ExecuteDraw(m: Machine, op: uint16): (r: Machine)
    requires WellFormed(m) && DrawDefined(m, op)
    ensures WellFormed(r)
    ensures r.v[FlagRegister] <= 1 && forall k :: 0 <= k < FlagRegister ==> r.v[k] == m.v[k]
    ensures r.(v := m.v, display := m.display, pc := m.pc) == m
  {
    var sprite, x, y := SpriteOf(m, op), DrawX(m, op), DrawY(m, op);
    m.(v := m.v[FlagRegister := if Collides(m.display, sprite, x, y) then 1 else 0],
       display := Draw(m.display, sprite, x, y),
       pc := Advance(m.pc))
  }

  /** The effect of the decoded instruction `op` (the `switch` of `single_cycle`). */
  function Execute(m: Machine, op: uint16): (r: Machine)
    requires WellFormed(m)
    requires Family(op) == 0xD ==> DrawDefined(m, op)
    ensures WellFormed(r)
    ensures r.memory == m.memory && r.stack == m.stack && r.sp == m.sp
    ensures r.delayTimer == m.delayTimer && r.soundTimer == m.soundTimer && r.keyboard == m.keyboard
  {
    XRegisterIsV0(op);
    var family := Family(op);
    if family == 0x0 then
      m.(display := if op == 0x00E0 then Blank() else m.display, pc := Advance(m.pc))
    else if family == 0x1 then
      m.(pc := Address(op))
    else if family == 0x6 then
      m.(v := m.v[XRegister(op) := LowByte(op)], pc := Advance(m.pc))
    else if family == 0x7 then
      m.(v := m.v[XRegister(op) := (m.v[XRegister(op)] + LowByte(op)) % 0x100], pc := Advance(m.pc))
    else if family == 0xA then
      m.(index := Address(op), pc := Advance(m.pc))
    else if family == 0xD then
      ExecuteDraw(m, op)
    else
      m
  }

  /** What `single_cycle` needs: both bytes of the instruction word lie in
      memory, and a Dxyn stays inside its arrays. */
  ghost predicate CycleDefined(m: Machine)
  {
    WellFormed(m) && m.pc + 1 < MemorySize &&
    var op := Fetch(m.memory, m.pc);
    Family(op) == 0xD ==> DrawDefined(m, op)
  }

  /** One call of `single_cycle`: fetch, decode and execute. */
  function Cycle(m: Machine): (r: Machine)
    requires CycleDefined(m)
    ensures WellFormed(r)
    ensures r.memory == m.memory && r.stack == m.stack && r.keyboard == m.keyboard
  {
    Execute(m, Fetch(m.memory, m.pc))
  }

  // ------------------------------------------------- the instructions, one by one

  /** 0nnn: pc advances by 2; 00E0 also turns every pixel off; nothing else changes. */
  lemma SystemInstructions(m: Machine, op: uint16)
    requires WellFormed(m) && op / 0x1000 == 0
    ensures Execute(m, op).pc == Advance(m.pc)
    ensures op == 0x00E0 ==> forall r, c :: 0 <= r < Rows && 0 <= c < Cols ==> !Execute(m, op).display[r][c]
    ensures op != 0x00E0 ==> Execute(m, op).display == m.display
    ensures Execute(m, op).(pc := m.pc, display := m.display) == m
  {
  }

  /** 1nnn: pc becomes the low 12 bits of the word, without the advance by 2. */
  lemma JumpInstruction(m: Machine, op: uint16)
    requires WellFormed(m) && op / 0x1000 == 1
    ensures Execute(m, op) == m.(pc := op % 0x1000)
  {
  }

  /** 6xkk: V0 (whatever x is) receives the low byte; pc advances by 2. */
  lemma LoadImmediateInstruction(m: Machine, op: uint16)
    requires WellFormed(m) && op / 0x1000 == 6
    ensures Execute(m, op).v[0] == op % 0x100
    ensures forall k :: 1 <= k < RegisterCount ==> Execute(m, op).v[k] == m.v[k]
    ensures Execute(m, op).pc == Advance(m.pc)
    ensures Execute(m, op).(v := m.v, pc := m.pc) == m
  {
  }

  /** 7xkk: the low byte is added to V0 (whatever x is), wrapping modulo 256;
      pc advances by 2; no other register, VF included, changes. */
  lemma AddImmediateInstruction(m: Machine, op: uint16)
    requires WellFormed(m) && op / 0x1000 == 7
    ensures Execute(m, op).v[0] == (m.v[0] + op % 0x100) % 0x100
    ensures forall k :: 1 <= k < RegisterCount ==> Execute(m, op).v[k] == m.v[k]
    ensures Execute(m, op).pc == Advance(m.pc)
    ensures Execute(m, op).(v := m.v, pc := m.pc) == m
  {
  }

  /** Annn: index becomes the low 12 bits of the word; pc advances by 2. */
  lemma SetIndexInstruction(m: Machine, op: uint16)
    requires WellFormed(m) && op / 0x1000 == 0xA
    ensures Execute(m, op) == m.(index := op % 0x1000, pc := Advance(m.pc))
  {
  }

  /** The families 2, 3, 4, 5, 8, 9, B, C, E and F match no case of the
      `switch`: the whole state, pc included, stays as it is. */
  lemma UnimplementedInstructions(m: Machine, op: uint16)
    requires WellFormed(m)
    requires op / 0x1000 in {2, 3, 4, 5, 8, 9, 0xB, 0xC, 0xE, 0xF}
    ensures Execute(m, op) == m
  {
  }

  /** Dxyn takes both of its coordinates from V0: x = V0 mod 64 and
      y = V0 mod 32. */
  lemma DrawOperands(m: Machine, op: uint16)
    requires WellFormed(m) && DrawDefined(m, op)
    ensures DrawX(m, op) == m.v[0] % 64 && DrawY(m, op) == m.v[0] % 32
  {
    XRegisterIsV0(op);
    YRegisterInRange(op);
  }

  /** Dxyn, stated in the sprite's own coordinates: each set bit toggles its
      cell, every other cell stays, VF is 1 exactly when a set bit met a lit
      pixel and 0 otherwise, no other register changes and pc advances by 2. */
  lemma DrawInstruction(m: Machine, op: uint16)
    requires WellFormed(m) && Family(op) == 0xD && DrawDefined(m, op)
    ensures var r, sprite, x, y := Execute(m, op), SpriteOf(m, op), DrawX(m, op), DrawY(m, op);
      (forall i, j :: 0 <= i < |sprite| && 0 <= j < SpriteWidth && SpriteBit(sprite[i], j) ==>
        r.display[y + i][x + j] == !m.display[y + i][x + j]) &&
      (forall row, col :: (0 <= row < Rows && 0 <= col < Cols && !Painted(sprite, x, y, row, col)) ==>
        r.display[row][col] == m.display[row][col]) &&
      (r.v[FlagRegister] == 1 <==>
        exists i, j :: 0 <= i < |sprite| && 0 <= j < SpriteWidth && SpriteBit(sprite[i], j) &&
          m.display[y + i][x + j]) &&
      (r.v[FlagRegister] == 0 || r.v[FlagRegister] == 1) &&
      (forall k :: 0 <= k < FlagRegister ==> r.v[k] == m.v[k]) &&
      r.pc == Advance(m.pc) && r.index == m.index
  {
    var sprite, x, y := SpriteOf(m, op), DrawX(m, op), DrawY(m, op);
    var r := Execute(m, op);
    assert r == ExecuteDraw(m, op);
    assert r.display == Draw(m.display, sprite, x, y);
    assert r.v == m.v[FlagRegister := if Collides(m.display, sprite, x, y) then 1 else 0];
    DrawTogglesSpriteBits(m.display, sprite, x, y);
    CollidesIffSetBitOnLitPixel(m.display, sprite, x, y);
  }

  /** Execute dispatches a word of family D to ExecuteDraw. */
  lemma ExecuteDrawCase(m: Machine, op: uint16)
    requires WellFormed(m) && Family(op) == 0xD && DrawDefined(m, op)
    ensures Execute(m, op) == ExecuteDraw(m, op)
  {
  }

  /** A Dxyn leaves memory, index and V0, and so its own operands, as they were. */
  lemma DrawKeepsOperands(m: Machine, op: uint16)
    requires WellFormed(m) && Family(op) == 0xD && DrawDefined(m, op)
    ensures var m1 := Execute(m, op);
      m1 == ExecuteDraw(m, op) &&
      SpriteOf(m1, op) == SpriteOf(m, op) && DrawX(m1, op) == DrawX(m, op) && DrawY(m1, op) == DrawY(m, op) &&
      DrawDefined(m1, op)
  {
    XRegisterIsV0(op);
    YRegisterInRange(op);
    ExecuteDrawCase(m, op);
    var m1 := ExecuteDraw(m, op);
    assert m1.memory == m.memory && m1.index == m.index && m1.v[0] == m.v[0];
    assert SpriteOf(m1, op) == SpriteOf(m, op);
    assert DrawX(m1, op) == DrawX(m, op) && DrawY(m1, op) == DrawY(m, op);
  }

  /** Executing the same Dxyn twice restores the display; the second one
      reports a collision exactly when the first one lit some pixel. */
  lemma DrawTwice(m: Machine, op: uint16)
    requires WellFormed(m) && Family(op) == 0xD && DrawDefined(m, op)
    ensures DrawDefined(Execute(m, op), op)
    ensures Execute(Execute(m, op), op).display == m.display
    ensures Execute(Execute(m, op), op).v[FlagRegister] == 1 <==>
      exists r, c :: 0 <= r < Rows && 0 <= c < Cols && Execute(m, op).display[r][c] && !m.display[r][c]
  {
    var sprite, x, y := SpriteOf(m, op), DrawX(m, op), DrawY(m, op);
    DrawKeepsOperands(m, op);
    var m1 := Execute(m, op);
    DrawKeepsOperands(m1, op);
    var m2 := Execute(m1, op);
    assert m1.display == Draw(m.display, sprite, x, y);
    assert m2.display == Draw(m1.display, sprite, x, y);
    assert m2.v[FlagRegister] == if Collides(m1.display, sprite, x, y) then 1 else 0;
    DrawTwiceRestores(m.display, sprite, x, y);
    SecondDrawCollides(m.display, sprite, x, y);
    if exists r, c :: 0 <= r < Rows && 0 <= c < Cols && m1.display[r][c] && !m.display[r][c] {
      var r, c :| 0 <= r < Rows && 0 <= c < Cols && m1.display[r][c] && !m.display[r][c];
      assert Painted(sprite, x, y, r, c);
    }
    if exists r, c :: 0 <= r < Rows && 0 <= c < Cols && Painted(sprite, x, y, r, c) && !m.display[r][c] {
      var r, c :| 0 <= r < Rows && 0 <= c < Cols && Painted(sprite, x, y, r, c) && !m.display[r][c];
      assert m1.display[r][c];
    }
  }
}
