/** `class Chip8` of chip8.h and chip8.cpp: the machine state in arrays and
    fields updated in place, with its three routines proved against the
    functions of module Semantics. */
module Interpreter {
  import opened Opcode
  import opened Screen
  import opened Semantics

  /** The contents of a two-dimensional array, row by row. */
  ghost function Grid(a: array2<bool>): (g: seq<seq<bool>>)
    reads a
    ensures |g| == a.Length0 && forall r :: 0 <= r < a.Length0 ==> |g[r]| == a.Length1
  {
    seq(a.Length0, r requires 0 <= r < a.Length0 reads a =>
      seq(a.Length1, c requires 0 <= c < a.Length1 reads a => a[r, c]))
  }

  /** Grid(a) is the nested sequence that agrees with `a` cell by cell. */
  lemma GridByCells(a: array2<bool>, g: seq<seq<bool>>)
    requires |g| == a.Length0 && forall r :: 0 <= r < |g| ==> |g[r]| == a.Length1
    requires forall r, c :: 0 <= r < a.Length0 && 0 <= c < a.Length1 ==> a[r, c] == g[r][c]
    ensures Grid(a) == g
  {
    forall r | 0 <= r < a.Length0
      ensures Grid(a)[r] == g[r]
    {
    }
  }

  class Chip8 {
    const memory: array<uint8>       // uint8_t memory[4096]
    const display: array2<bool>    // bool display[32][64], indexed [y, x]
    var pc: uint16
    var index: uint16
    const stack: array<uint16>       // uint16_t stack[16]
    var sp: uint8
    const v: array<uint8>            // uint8_t v[16], V0 to VF
    var delayTimer: uint8
    var soundTimer: uint8
    const keyboard: array2<bool>   // bool keyboard[4][4]

    /** The state as a value. */
    ghost var M: Machine

    /** The array sizes of chip8.h, and M describes the fields. */
    ghost predicate Valid()
      reads this, memory, display, stack, v, keyboard
    {
      WellFormed(M) &&
      memory.Length == MemorySize && v.Length == RegisterCount && stack.Length == StackDepth &&
      display.Length0 == Rows && display.Length1 == Cols &&
      keyboard.Length0 == KeyRows && keyboard.Length1 == KeyCols &&
      memory != v && display != keyboard &&
      memory[..] == M.memory && v[..] == M.v && stack[..] == M.stack &&
      pc == M.pc && index == M.index && sp == M.sp &&
      delayTimer == M.delayTimer && soundTimer == M.soundTimer &&
      Grid(display) == M.display && Grid(keyboard) == M.keyboard
    }

    /** `Chip8::Chip8`: everything zero except pc, then the font copied in. */
    constructor ()
      ensures Valid() && M == Initial()
      ensures fresh(memory) && fresh(display) && fresh(stack) && fresh(v) && fresh(keyboard)
    {
      pc := ProgramStart;
      index := 0;
      delayTimer := 0;
      soundTimer := 0;
      v := new uint8[RegisterCount](_ => 0);
      keyboard := new bool[KeyRows, KeyCols]((_, _) => false);
      memory := new uint8[MemorySize](_ => 0);
      display := new bool[Rows, Cols]((_, _) => false);
      sp := 0;
      stack := new uint16[StackDepth](_ => 0);
      new;
      StoreFont(memory);
      M := Initial();
      assert memory[..] == M.memory;
      assert v[..] == M.v && stack[..] == M.stack;
      GridByCells(display, M.display);
      GridByCells(keyboard, M.keyboard);
    }

    /** The part of `Chip8::load_rom` after the file is open: copies the bytes
        of `rom` (None when the file cannot be opened) from 0x200 on. */
    method LoadRom(path: string, rom: Option<seq<uint8>>) returns (ok: bool)
      requires Valid()
      modifies this, memory
      ensures Valid()
      ensures ok == Load(old(M).memory, path, rom).ok
      ensures M == old(M).(memory := Load(old(M).memory, path, rom).memory)
    {
      if |path| == 0 {
        return false;
      }
      if rom.None? {
        return false;
      }
      var bytes := rom.value;
      var addr := ProgramStart;    // uint16_t, never above 4096 here
      var k := 0;
      while k < |bytes|
        invariant 0 <= k <= |bytes| && addr == ProgramStart + k && addr <= MemorySize
        invariant Copy(memory[..], addr, bytes[k..]) == Copy(old(memory[..]), ProgramStart, bytes)
        invariant unchanged(this)
      {
        if addr >= MemorySize {
          M := M.(memory := memory[..]);
          return false;
        }
        memory[addr] := bytes[k];
        addr := addr + 1;
        k := k + 1;
      }
      M := M.(memory := memory[..]);
      return true;
    }

    /** `Chip8::single_cycle`: fetch the big-endian word at pc, decode its
        top nibble and execute it; a family without a case does nothing. */
    method SingleCycle()
      requires Valid() && CycleDefined(M)
      modifies this, v, display
      ensures Valid() && M == Cycle(old(M))
    {
      var op := Word(memory[pc], memory[pc + 1]);
      assert op == Fetch(M.memory, pc);
      var opCode := Family(op);
      if opCode == 0 {
        SystemCase(op);
      } else if opCode == 1 {
        JumpCase(op);
      } else if opCode == 6 {
        LoadImmediateCase(op);
      } else if opCode == 7 {
        AddImmediateCase(op);
      } else if opCode == 10 {
        SetIndexCase(op);
      } else if opCode == 13 {
        DrawSprite(op);
      }
    }

    /** The 0nnn case of `single_cycle`: 00E0 clears the display; pc += 2. */
    method SystemCase(op: uint16)
      requires Valid() && Family(op) == 0
      modifies this, display
      ensures Valid() && M == Execute(old(M), op)
    {
      if op == 0x00E0 {
        ClearDisplay();
        M := M.(display := Blank());
      }
      pc := (pc as int + 2) % 0x1_0000;
      M := M.(pc := pc);
    }

    /** `memset(display, 0, sizeof(display))`. */
    method ClearDisplay()
      requires display.Length0 == Rows && display.Length1 == Cols
      modifies display
      ensures Grid(display) == Blank()
    {
      forall r, c | 0 <= r < Rows && 0 <= c < Cols {
        display[r, c] := false;
      }
      GridByCells(display, Blank());
    }

    /** The 1nnn case of `single_cycle`: `pc = op & 0x0FFF`. */
    method JumpCase(op: uint16)
      requires Valid() && Family(op) == 1
      modifies this
      ensures Valid() && M == Execute(old(M), op)
    {
      pc := Address(op);
      M := M.(pc := pc);
    }

    /** The 6xkk case of `single_cycle`: `v[reg] = val`; pc += 2. */
    method LoadImmediateCase(op: uint16)
      requires Valid() && Family(op) == 6
      modifies this, v
      ensures Valid() && M == Execute(old(M), op)
    {
      XRegisterIsV0(op);
      var reg := XRegister(op);
      var val := LowByte(op);
      v[reg] := val;
      pc := (pc as int + 2) % 0x1_0000;
      M := M.(v := v[..], pc := pc);
    }

    /** The 7xkk case of `single_cycle`: `v[reg] += val` in a `uint8_t`; pc += 2. */
    method AddImmediateCase(op: uint16)
      requires Valid() && Family(op) == 7
      modifies this, v
      ensures Valid() && M == Execute(old(M), op)
    {
      XRegisterIsV0(op);
      var reg := XRegister(op);
      var val := LowByte(op);
      v[reg] := (v[reg] as int + val) % 0x100;
      pc := (pc as int + 2) % 0x1_0000;
      M := M.(v := v[..], pc := pc);
    }

    /** The Annn case of `single_cycle`: `index = op & 0x0FFF`; pc += 2. */
    method SetIndexCase(op: uint16)
      requires Valid() && Family(op) == 0xA
      modifies this
      ensures Valid() && M == Execute(old(M), op)
    {
      index := Address(op);
      pc := (pc as int + 2) % 0x1_0000;
      M := M.(index := index, pc := pc);
    }

    /** The Dxyn case of `single_cycle`: XOR the `height` rows at
        `memory[index]` onto the display at (V0 mod 64, V0 mod 32), setting
        VF when a set bit meets a lit pixel. */
    method DrawSprite(op: uint16)
      requires Valid() && Family(op) == 0xD && DrawDefined(M, op)
      modifies this, v, display
      ensures Valid() && M == Execute(old(M), op)
    {
      XRegisterIsV0(op);
      var reg1 := XRegister(op);
      var reg2 := YRegister(op);
      var spriteAddr := index;
      var x := v[reg1] % 64;
      var y := v[reg2] % 32;
      var height := LowNibble(op);
      DrawRows(spriteAddr, height, x, y, M, op);
      pc := (pc as int + 2) % 0x1_0000;
      M := M.(v := v[..], display := Grid(display), pc := pc);
      ExecuteDrawCase(old(M), op);
    }

    /** The nested loops of Dxyn over the sprite rows `memory[addr..addr+height-1]`,
        starting with VF cleared; `m` and `op` are the state and the word
        being executed. */
    method DrawRows(addr: int, height: int, x: int, y: int, ghost m: Machine, ghost op: uint16)
      requires WellFormed(m) && DrawDefined(m, op)
      requires addr == m.index && height == LowNibble(op) && x == DrawX(m, op) && y == DrawY(m, op)
      requires memory.Length == MemorySize && v.Length == RegisterCount
      requires display.Length0 == Rows && display.Length1 == Cols
      requires memory[..] == m.memory && Grid(display) == m.display && v[..] == m.v
      modifies v, display
      ensures Grid(display) == ExecuteDraw(m, op).display
      ensures v[..] == ExecuteDraw(m, op).v
    {
      ghost var mem, sprite, d0, v0 := m.memory, SpriteOf(m, op), m.display, m.v;
      v[FlagRegister] := 0;
      var i := 0;
      while i < height
        invariant 0 <= i <= height
        invariant forall r, c :: 0 <= r < Rows && 0 <= c < Cols ==>
          display[r, c] == (d0[r][c] != Covers(sprite, x, y, i, 0, r, c))
        invariant v[..] == v0[FlagRegister := if CollidesBefore(d0, sprite, x, y, i, 0) then 1 else 0]
      {
        DrawRow(addr, i, x, y, mem, sprite, d0, v0);
        i := i + 1;
      }
      GridByCells(display, Draw(d0, sprite, x, y));
    }

    /** The inner loop of Dxyn over the 8 bits of row `i`. */
    method DrawRow(addr: int, i: int, x: int, y: int,
                   ghost mem: seq<uint8>, ghost sprite: seq<uint8>, ghost d0: Display, ghost v0: seq<uint8>)
      requires memory.Length == MemorySize && v.Length == RegisterCount && |v0| == RegisterCount
      requires display.Length0 == Rows && display.Length1 == Cols
      requires 0 <= addr && 0 <= i < |sprite| && addr + |sprite| <= MemorySize
      requires memory[..] == mem && sprite == mem[addr..addr + |sprite|]
      requires Fits(sprite, x, y) && IsDisplay(d0)
      requires forall r, c :: 0 <= r < Rows && 0 <= c < Cols ==>
        display[r, c] == (d0[r][c] != Covers(sprite, x, y, i, 0, r, c))
      requires v[..] == v0[FlagRegister := if CollidesBefore(d0, sprite, x, y, i, 0) then 1 else 0]
      modifies v, display
      ensures forall r, c :: 0 <= r < Rows && 0 <= c < Cols ==>
        display[r, c] == (d0[r][c] != Covers(sprite, x, y, i + 1, 0, r, c))
      ensures v[..] == v0[FlagRegister := if CollidesBefore(d0, sprite, x, y, i + 1, 0) then 1 else 0]
    {
      var pixel := memory[addr + i];
      assert pixel == sprite[i];
      var j := 0;
      while j < SpriteWidth
        invariant 0 <= j <= SpriteWidth
        invariant forall r, c :: 0 <= r < Rows && 0 <= c < Cols ==>
          display[r, c] == (d0[r][c] != Covers(sprite, x, y, i, j, r, c))
        invariant v[..] == v0[FlagRegister := if CollidesBefore(d0, sprite, x, y, i, j) then 1 else 0]
      {
        if SpriteBit(pixel, j) {
          if display[y + i, x + j] {
            v[FlagRegister] := 1;
          }
          display[y + i, x + j] := !display[y + i, x + j];
        }
        j := j + 1;
      }
    }
  }

  /** Memory after the font loop has stored the first `n` font bytes:
      those as in the initial memory, everything else still zero. */
  ghost function FontStored(n: int): (mem: seq<uint8>)
    requires 0 <= n <= GlyphCount * GlyphHeight
    ensures |mem| == MemorySize
  {
    seq(MemorySize, a requires 0 <= a < MemorySize =>
      if FontStart <= a < FontStart + n then InitialMemory()[a] else 0)
  }

  /** Storing byte `j` of glyph `i` stores the next font byte. */
  lemma FontStoredStep(i: int, j: int)
    requires 0 <= i < GlyphCount && 0 <= j < GlyphHeight
    ensures FontStored(GlyphHeight * i + j)[FontStart + GlyphHeight * i + j := Font[i][j]] ==
      FontStored(GlyphHeight * i + j + 1)
  {
    InitialMemoryLayout();
  }

  /** The font loop of `Chip8::Chip8`: glyph `i` byte `j` goes to
      `memory[0x050 + i*5 + j]`, into a memory that is all zero. */
  method StoreFont(memory: array<uint8>)
    requires memory.Length == MemorySize
    requires forall a :: 0 <= a < MemorySize ==> memory[a] == 0
    modifies memory
    ensures memory[..] == InitialMemory()
  {
    assert memory[..] == FontStored(0);
    for i := 0 to GlyphCount
      invariant memory[..] == FontStored(GlyphHeight * i)
    {
      for j := 0 to GlyphHeight
        invariant memory[..] == FontStored(GlyphHeight * i + j)
      {
        FontStoredStep(i, j);
        memory[FontStart + i * GlyphHeight + j] := Font[i][j];
      }
    }
    assert FontStored(GlyphCount * GlyphHeight) == InitialMemory();
  }
}
