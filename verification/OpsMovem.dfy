/**
 MOVEM: the register list, the block it makes in memory, and the two transfer loops.
 */
module OpsMovem {
  import opened Words
  import opened MachineState
  import opened Core
  import opened OpsControl
  import opened OpsMove
  import D = Divider
  import Exceptions

  // -------------------------------------------------------- register lists

  /** Register k of the list D0 to D7, A0 to A7; the predecrement form reverses the mask. */
  predicate Listed(mask: Word, down: bool, k: nat)
    requires k < 16
  {
    Bit(mask, if down then 15 - k else k)
  }

  function RegisterAt(d: Registers, a: Registers, k: nat): Long
    requires k < 16
  {
    if k < 8 then d[k] else a[k - 8]
  }

  /** The bytes of the listed registers below k. */
  function Offset(mask: Word, down: bool, size: Size, k: nat): nat
    requires k <= 16
  {
    if k == 0 then 0
    else Offset(mask, down, size, k - 1) + (if Listed(mask, down, k - 1) then size.Bytes() else 0)
  }

  function Piece(d: Registers, a: Registers, mask: Word, down: bool, size: Size, k: nat): seq<Byte>
    requires k < 16
  {
    if Listed(mask, down, k) then OperandBytes(RegisterAt(d, a, k), size) else []
  }

  /** The listed registers from lo up to hi, in ascending order. */
  function Block(d: Registers, a: Registers, mask: Word, down: bool, size: Size, lo: nat, hi: nat): seq<Byte>
    requires lo <= hi <= 16
    decreases hi - lo
  {
    if lo == hi then [] else Piece(d, a, mask, down, size, lo) + Block(d, a, mask, down, size, lo + 1, hi)
  }

  lemma {:induction false} BlockAppend(m: Machine, mask: Word, down: bool, size: Size, lo: nat, hi: nat)
    requires lo <= hi < 16
    ensures Block(m.d, m.a, mask, down, size, lo, hi + 1)
            == Block(m.d, m.a, mask, down, size, lo, hi) + Piece(m.d, m.a, mask, down, size, hi)
    decreases hi - lo
  {
    hide Piece;
    if lo < hi {
      BlockAppend(m, mask, down, size, lo + 1, hi);
      var p, q, r := Piece(m.d, m.a, mask, down, size, lo), Block(m.d, m.a, mask, down, size, lo + 1, hi),
          Piece(m.d, m.a, mask, down, size, hi);
      assert p + (q + r) == (p + q) + r;
    } else {
      assert Block(m.d, m.a, mask, down, size, hi, hi + 1) == Piece(m.d, m.a, mask, down, size, hi) + [];
    }
  }

  lemma {:induction false} BlockLength(m: Machine, mask: Word, down: bool, size: Size, lo: nat, hi: nat)
    requires lo <= hi <= 16
    ensures |Block(m.d, m.a, mask, down, size, lo, hi)| == Offset(mask, down, size, hi) - Offset(mask, down, size, lo)
    decreases hi - lo
  {
    hide Listed, RegisterAt;
    if lo < hi {
      BlockLength(m, mask, down, size, lo + 1, hi);
    }
  }

  lemma {:induction false} OffsetBound(mask: Word, down: bool, size: Size, lo: nat, hi: nat)
    requires lo <= hi <= 16
    ensures 0 <= Offset(mask, down, size, hi) - Offset(mask, down, size, lo) <= 4 * (hi - lo)
    ensures size != ByteSize ==> Offset(mask, down, size, hi) % 2 == 0
    decreases hi
  {
    hide Listed;
    if lo < hi {
      OffsetBound(mask, down, size, lo, hi - 1);
    } else if 0 < hi {
      OffsetBound(mask, down, size, lo - 1, hi - 1);
    }
  }

  /** Where register k ends up in the block. */
  lemma {:induction false} BlockEntry(m: Machine, mask: Word, down: bool, size: Size, lo: nat, hi: nat, k: nat)
    requires lo <= k < hi <= 16 && Listed(mask, down, k)
    ensures var at := Offset(mask, down, size, k) - Offset(mask, down, size, lo);
            && 0 <= at && at + size.Bytes() <= |Block(m.d, m.a, mask, down, size, lo, hi)|
            && Block(m.d, m.a, mask, down, size, lo, hi)[at..at + size.Bytes()]
               == OperandBytes(RegisterAt(m.d, m.a, k), size)
    decreases hi - lo
  {
    hide Listed, RegisterAt, OperandBytes, Offset, Block, Piece;
    var at := Offset(mask, down, size, k) - Offset(mask, down, size, lo);
    var p, rest := Piece(m.d, m.a, mask, down, size, lo), Block(m.d, m.a, mask, down, size, lo + 1, hi);
    BlockSplits(m, mask, down, size, lo, hi);
    OffsetBound(mask, down, size, k + 1, hi);
    ListedPiece(m, mask, down, size, k);
    if lo < k {
      OffsetBound(mask, down, size, lo + 1, k);
      BlockEntry(m, mask, down, size, lo + 1, hi, k);
      TailSlice(p, rest, at, size.Bytes());
    } else {
      HeadSlice(p, rest);
    }
  }

  lemma BlockSplits(m: Machine, mask: Word, down: bool, size: Size, lo: nat, hi: nat)
    requires lo < hi <= 16
    ensures var p, rest := Piece(m.d, m.a, mask, down, size, lo), Block(m.d, m.a, mask, down, size, lo + 1, hi);
            && Block(m.d, m.a, mask, down, size, lo, hi) == p + rest
            && |p| == Offset(mask, down, size, lo + 1) - Offset(mask, down, size, lo)
            && |rest| == Offset(mask, down, size, hi) - Offset(mask, down, size, lo + 1)
  {
    hide Listed, RegisterAt;
    BlockLength(m, mask, down, size, lo + 1, hi);
  }

  lemma ListedPiece(m: Machine, mask: Word, down: bool, size: Size, k: nat)
    requires k < 16 && Listed(mask, down, k)
    ensures Offset(mask, down, size, k + 1) == Offset(mask, down, size, k) + size.Bytes()
    ensures Piece(m.d, m.a, mask, down, size, k) == OperandBytes(RegisterAt(m.d, m.a, k), size)
  {
    hide Listed, RegisterAt;
  }

  lemma TailSlice(p: seq<Byte>, q: seq<Byte>, at: nat, n: nat)
    requires |p| <= at && at + n <= |p| + |q|
    ensures (p + q)[at..at + n] == q[at - |p|..at - |p| + n]
  {
  }

  lemma HeadSlice(p: seq<Byte>, q: seq<Byte>)
    ensures (p + q)[0..|p|] == p
  {
  }

  /** The two masks list the same registers: one is the other read backwards. */
  predicate Reversed(mask: Word, mask': Word) {
    forall k :: 0 <= k < 16 ==> Listed(mask', false, k) == Listed(mask, true, k)
  }

  lemma {:induction false} SameOffsets(mask: Word, mask': Word, size: Size, k: nat)
    requires k <= 16 && Reversed(mask, mask')
    ensures Offset(mask', false, size, k) == Offset(mask, true, size, k)
  {
    hide Listed;
    if k > 0 {
      SameOffsets(mask, mask', size, k - 1);
      assert Listed(mask', false, k - 1) == Listed(mask, true, k - 1);
    }
  }

  /** The word whose bits are given, lowest first. */
  function FromBits(bits: seq<bool>): (w: nat)
    ensures w < Pow2(|bits|)
  {
    if bits == [] then 0 else (if bits[0] then 1 else 0) + 2 * FromBits(bits[1..])
  }

  lemma {:induction false} FromBitsRead(bits: seq<bool>, i: nat)
    requires i < |bits|
    ensures Bit(FromBits(bits), i) == bits[i]
  {
    var w, rest := FromBits(bits), FromBits(bits[1..]);
    assert w / 2 == rest && w % 2 == if bits[0] then 1 else 0;
    if i > 0 {
      FromBitsRead(bits[1..], i - 1);
      DivDiv(w, 2, Pow2(i - 1));
    }
  }

  /** Every mask can be read backwards. */
  lemma ReversedExists(mask: Word)
    ensures exists mask': Word :: Reversed(mask, mask')
  {
    hide Bit, Pow2;
    var bits := seq(16, i requires 0 <= i < 16 => Bit(mask, 15 - i));
    D.PowerOf16();
    var mask': Word := FromBits(bits);
    forall k | 0 <= k < 16 ensures Listed(mask', false, k) == Listed(mask, true, k) {
      FromBitsRead(bits, k);
    }
    assert Reversed(mask, mask');
  }

  lemma {:induction false} OffsetOnes(mask: Word, size: Size, k: nat)
    requires k <= 16
    ensures Offset(mask, false, size, k) == size.Bytes() * D.OnesBelow(mask, k)
    ensures Offset(mask, true, size, k) == size.Bytes() * (D.OnesBelow(mask, 16) - D.OnesBelow(mask, 16 - k))
  {
    hide Bit;
    if k > 0 {
      OffsetOnes(mask, size, k - 1);
    }
  }

  /** A block is as many operands as the mask has one bits, in either direction. */
  lemma BlockSize(mask: Word, down: bool, size: Size)
    ensures Offset(mask, down, size, 16) == size.Bytes() * Ones(mask)
  {
    D.PowerOf16();
    D.OnesBelowAll(mask, 16);
    OffsetOnes(mask, size, 16);
    hide Offset, D.OnesBelow, Ones;
  }

  // ------------------------------------------------------------ specification

  /** The block lies in memory at an even address. */
  predicate BlockRoom(m: Machine, base: Long, mask: Word, down: bool, size: Size) {
    base % 2 == 0 && InMemory(m, base, Offset(mask, down, size, 16))
  }

  /** MOVEM list,-(An): the block below An, which moves down onto it. */
  predicate StoredDown(m: Machine, mask: Word, size: Size, reg: int, m': Machine)
    requires 0 <= reg < 8
  {
    var base := Minus(m.a[reg], Offset(mask, true, size, 16));
    var block := Block(m.d, m.a, mask, true, size, 0, 16);
    && Mask24(base) + |block| <= |m.mem|
    && m'.mem == Splice(m.mem, Mask24(base), block) && m'.d == m.d && m'.a == SetRegister(m.a, reg, base)
  }

  /** The value a transfer to registers delivers at one place of the list. */
  function LoadedValue(mem: seq<Byte>, at: nat, mask: Word, size: Size, k: nat): Long
    requires k < 16 && at + Offset(mask, false, size, k) + size.Bytes() <= |mem|
  {
    Extend(Operand(mem, at + Offset(mask, false, size, k), size), size)
  }

  /** The registers below k have been loaded from the block that starts at the given index. */
  predicate LoadedBelow(m: Machine, at: nat, mask: Word, size: Size, k: nat, d: Registers, a: Registers)
    requires k <= 16 && at + Offset(mask, false, size, 16) <= |m.mem|
  {
    forall i: nat :: i < 16 ==>
      if i < k && Listed(mask, false, i)
      then EntryInside(mask, size, i, at, |m.mem|) && RegisterAt(d, a, i) == LoadedValue(m.mem, at, mask, size, i)
      else RegisterAt(d, a, i) == RegisterAt(m.d, m.a, i)
  }

  predicate EntryInside(mask: Word, size: Size, k: nat, at: nat, length: nat)
    requires k < 16
  {
    at + Offset(mask, false, size, k) + size.Bytes() <= length
  }

  /** MOVEM (An)+,list: the listed registers from the block at An, which moves past it. */
  ghost predicate LoadedUp(m: Machine, mask: Word, size: Size, reg: int, m': Machine)
    requires 0 <= reg < 8
  {
    && Mask24(m.a[reg]) + Offset(mask, false, size, 16) <= |m.mem| && m'.mem == m.mem
    && exists a: Registers :: LoadedBelow(m, Mask24(m.a[reg]), mask, size, 16, m'.d, a)
                              && m'.a == SetRegister(a, reg, Plus(m.a[reg], Offset(mask, false, size, 16)))
  }

  /** A long stored in a block reads back. */
  lemma BlockReads(m: Machine, mask: Word, k: nat, mem: seq<Byte>, at: nat)
    requires k < 16 && Listed(mask, true, k)
    requires var block := Block(m.d, m.a, mask, true, LongSize, 0, 16);
             at + |block| <= |mem| && mem[at..at + |block|] == block
    ensures at + Offset(mask, true, LongSize, k) + 4 <= |mem|
    ensures Operand(mem, at + Offset(mask, true, LongSize, k), LongSize) == RegisterAt(m.d, m.a, k)
  {
    hide Listed, RegisterAt, Get32, Be32, Offset, Block;
    BlockEntry(m, mask, true, LongSize, 0, 16, k);
    assert Offset(mask, true, LongSize, 0) == 0 by { ZeroOffset(mask, true, LongSize); }
    SliceReads(mem, at, Block(m.d, m.a, mask, true, LongSize, 0, 16), Offset(mask, true, LongSize, k),
               RegisterAt(m.d, m.a, k));
  }

  lemma ZeroOffset(mask: Word, down: bool, size: Size)
    ensures Offset(mask, down, size, 0) == 0
  {
  }

  lemma SliceReads(mem: seq<Byte>, at: nat, block: seq<Byte>, off: nat, x: Long)
    requires at + |block| <= |mem| && mem[at..at + |block|] == block
    requires off + 4 <= |block| && block[off..off + 4] == Be32(x)
    ensures Get32(mem, at + off) == x
  {
    hide Be32, Get32;
    forall i | 0 <= i < 4 ensures mem[at + off + i] == Be32(x)[i] {
      assert mem[at..at + |block|][off + i] == block[off + i];
      assert block[off..off + 4][i] == block[off + i];
    }
    Exceptions.Be32Read(mem, at + off, x);
  }

  lemma DownAndUp(x: Long, n: nat)
    requires n <= 64
    ensures Plus(Minus(x, n), n) == x
  {
  }

  /**
   MOVEM.L list,-(An), then anything that keeps the block and An, then MOVEM.L (An)+ with
   the reversed mask: every listed register and An are back, even An in its own list and
   A7 as the base, and no unlisted register is touched.
   */
  lemma MovemRoundTrip(m: Machine, mask: Word, mask': Word, reg: int, m1: Machine, h: Machine, m2: Machine, k: nat)
    requires 0 <= reg < 8 && k < 16 && Reversed(mask, mask')
    requires StoredDown(m, mask, LongSize, reg, m1)
    requires h.a[reg] == m1.a[reg] && |h.mem| == |m.mem|
    requires var at, n := Mask24(h.a[reg]), |Block(m.d, m.a, mask, true, LongSize, 0, 16)|;
             at + n <= |h.mem| && h.mem[at..at + n] == m1.mem[at..at + n]
    requires LoadedUp(h, mask', LongSize, reg, m2)
    ensures RegisterAt(m2.d, m2.a, k)
            == if k == 8 + reg then m.a[reg]
               else if Listed(mask, true, k) then RegisterAt(m.d, m.a, k) else RegisterAt(h.d, h.a, k)
  {
    hide Mask24, Plus, Minus, Offset, Block, Listed, Operand, Extend, Splice, RegisterAt;
    var at := Mask24(h.a[reg]);
    OffsetBound(mask, true, LongSize, 0, 16);
    ZeroOffset(mask, true, LongSize);
    SameOffsets(mask, mask', LongSize, 16);
    DownAndUp(m.a[reg], Offset(mask, true, LongSize, 16));
    StoredBlock(m, mask, LongSize, reg, m1);
    var a: Registers :| LoadedBelow(h, at, mask', LongSize, 16, m2.d, a)
                        && m2.a == SetRegister(a, reg, Plus(h.a[reg], Offset(mask', false, LongSize, 16)));
    LoadedEntry(m, mask, mask', h, at, m2.d, a, k);
    BaseRegister(m2.d, a, reg, Plus(h.a[reg], Offset(mask', false, LongSize, 16)), k);
  }

  lemma StoredBlock(m: Machine, mask: Word, size: Size, reg: int, m1: Machine)
    requires 0 <= reg < 8 && StoredDown(m, mask, size, reg, m1)
    ensures var at, block := Mask24(m1.a[reg]), Block(m.d, m.a, mask, true, size, 0, 16);
            at + |block| <= |m1.mem| && m1.mem[at..at + |block|] == block
  {
    hide Mask24, Minus, Offset, Block;
    var at, block := Mask24(m1.a[reg]), Block(m.d, m.a, mask, true, size, 0, 16);
    assert m1.mem[at..at + |block|] == block;
  }

  lemma BaseRegister(d: Registers, a: Registers, reg: int, x: Long, k: nat)
    requires 0 <= reg < 8 && k < 16
    ensures RegisterAt(d, SetRegister(a, reg, x), k) == if k == 8 + reg then x else RegisterAt(d, a, k)
  {
  }

  /** One register of a transfer from the block that the other transfer stored. */
  lemma LoadedEntry(m: Machine, mask: Word, mask': Word, h: Machine, at: nat, d: Registers, a: Registers, k: nat)
    requires k < 16 && Reversed(mask, mask')
    requires var block := Block(m.d, m.a, mask, true, LongSize, 0, 16);
             at + |block| <= |h.mem| && h.mem[at..at + |block|] == block
    requires at + Offset(mask', false, LongSize, 16) <= |h.mem| && LoadedBelow(h, at, mask', LongSize, 16, d, a)
    ensures RegisterAt(d, a, k) == if Listed(mask, true, k) then RegisterAt(m.d, m.a, k) else RegisterAt(h.d, h.a, k)
  {
    hide Offset, Block, Listed, Operand, Extend, RegisterAt;
    SameOffsets(mask, mask', LongSize, k);
    assert Listed(mask', false, k) == Listed(mask, true, k);
    if Listed(mask, true, k) {
      BlockReads(m, mask, k, h.mem, at);
      ExtendLong(RegisterAt(m.d, m.a, k));
    }
  }

  /** Only the bytes of the block change, and there are popcount(list) operands of them. */
  lemma OnlyBlockChanges(m: Machine, mask: Word, size: Size, reg: int, m1: Machine, i: nat)
    requires 0 <= reg < 8 && StoredDown(m, mask, size, reg, m1) && i < |m.mem|
    ensures var at := Mask24(m1.a[reg]);
            !(at <= i < at + size.Bytes() * Ones(mask)) ==> m1.mem[i] == m.mem[i]
  {
    BlockLength(m, mask, true, size, 0, 16);
    BlockSize(mask, true, size);
    ZeroOffset(mask, true, size);
    hide Mask24, Minus, Block, Offset;
  }

  // -------------------------------------------------------- the transfer loops

  /** One place of a block that has room: its address, and how far it is from the base. */
  lemma Place(m: Machine, mask: Word, down: bool, size: Size, base: Long, k: nat)
    requires k < 16 && size != ByteSize && BlockRoom(m, base, mask, down, size)
    ensures var off := Offset(mask, down, size, k);
            && Mask24(base) + off <= |m.mem| && off <= Offset(mask, down, size, k + 1) <= Offset(mask, down, size, 16)
            && (Listed(mask, down, k) ==>
                  && Mask24(Plus(base, off)) == Mask24(base) + off && !Odd(Plus(base, off))
                  && InMemory(m, Plus(base, off), size.Bytes())
                  && Offset(mask, down, size, k + 1) == off + size.Bytes())
            && (!Listed(mask, down, k) ==> Offset(mask, down, size, k + 1) == off)
  {
    OffsetBound(mask, down, size, k, 16);
    OffsetBound(mask, down, size, k + 1, 16);
    OffsetBound(mask, down, size, k, k);
    var off := Offset(mask, down, size, k);
    assert Listed(mask, down, k) ==> Offset(mask, down, size, k + 1) == off + size.Bytes();
    assert !Listed(mask, down, k) ==> Offset(mask, down, size, k + 1) == off;
    hide Listed, Offset, Mask24, Plus;
    if Listed(mask, down, k) {
      BusOffset(base, off);
    }
  }

  /** The stretch of memory that holds the listed registers from k up. */
  function UpperBlock(m: Machine, mask: Word, size: Size, base: Long, k: nat): seq<Byte>
    requires k <= 16 && Mask24(base) + Offset(mask, true, size, k)
             + |Block(m.d, m.a, mask, true, size, k, 16)| <= |m.mem|
  {
    Splice(m.mem, Mask24(base) + Offset(mask, true, size, k), Block(m.d, m.a, mask, true, size, k, 16))
  }

  lemma UpperFits(m: Machine, mask: Word, size: Size, base: Long, k: nat)
    requires k <= 16 && BlockRoom(m, base, mask, true, size)
    ensures Mask24(base) + Offset(mask, true, size, k) + |Block(m.d, m.a, mask, true, size, k, 16)| <= |m.mem|
  {
    BlockLength(m, mask, true, size, k, 16);
    hide Mask24, Offset, Block;
  }

  /** Storing register k under the registers above it. */
  lemma StoreBelow(m: Machine, mask: Word, size: Size, base: Long, k: nat, w: Machine)
    requires k < 16 && size != ByteSize && BlockRoom(m, base, mask, true, size) && Listed(mask, true, k)
    requires Mask24(base) + Offset(mask, true, size, k + 1) + |Block(m.d, m.a, mask, true, size, k + 1, 16)| <= |m.mem|
    requires w.mem == UpperBlock(m, mask, size, base, k + 1)
    ensures Mask24(base) + Offset(mask, true, size, k) + |Block(m.d, m.a, mask, true, size, k, 16)| <= |m.mem|
    ensures var address := Plus(base, Offset(mask, true, size, k));
            && InMemory(w, address, size.Bytes()) && !Odd(address)
            && Minus(Plus(base, Offset(mask, true, size, k + 1)), size.Bytes()) == address
            && Stored(w, address, RegisterAt(m.d, m.a, k), size).mem == UpperBlock(m, mask, size, base, k)
  {
    hide Mask24, Plus, Minus, Offset, Block, Listed, OperandBytes, Splice, RegisterAt, Piece;
    UpperFits(m, mask, size, base, k);
    Place(m, mask, true, size, base, k);
    PieceBelow(m, mask, size, base, k);
    WrapStep(base, Offset(mask, true, size, k + 1), size.Bytes());
  }

  lemma SkipBelow(m: Machine, mask: Word, size: Size, base: Long, k: nat, w: Machine)
    requires k < 16 && !Listed(mask, true, k)
    requires Mask24(base) + Offset(mask, true, size, k + 1) + |Block(m.d, m.a, mask, true, size, k + 1, 16)| <= |m.mem|
    requires w.mem == UpperBlock(m, mask, size, base, k + 1)
    ensures Mask24(base) + Offset(mask, true, size, k) + |Block(m.d, m.a, mask, true, size, k, 16)| <= |m.mem|
    ensures w.mem == UpperBlock(m, mask, size, base, k)
    ensures Offset(mask, true, size, k + 1) == Offset(mask, true, size, k)
  {
    hide Mask24, Offset, Block, Listed, Splice, Piece;
    OffsetStep(mask, true, size, k);
    UnlistedBlock(m, mask, true, size, k);
  }

  lemma UnlistedBlock(m: Machine, mask: Word, down: bool, size: Size, k: nat)
    requires k < 16 && !Listed(mask, down, k)
    ensures Block(m.d, m.a, mask, down, size, k, 16) == Block(m.d, m.a, mask, down, size, k + 1, 16)
  {
    UnlistedPiece(m, mask, down, size, k);
    BlockSplits(m, mask, down, size, k, 16);
    hide Block, Piece;
    EmptyPrefix(Block(m.d, m.a, mask, down, size, k + 1, 16));
  }

  lemma EmptyPrefix(s: seq<Byte>)
    ensures [] + s == s
  {
  }

  lemma PieceBelow(m: Machine, mask: Word, size: Size, base: Long, k: nat)
    requires k < 16 && size != ByteSize && Listed(mask, true, k)
    requires Mask24(base) + Offset(mask, true, size, k + 1) + |Block(m.d, m.a, mask, true, size, k + 1, 16)| <= |m.mem|
    requires Mask24(base) + Offset(mask, true, size, k) + |Block(m.d, m.a, mask, true, size, k, 16)| <= |m.mem|
    ensures var off, piece := Mask24(base) + Offset(mask, true, size, k), OperandBytes(RegisterAt(m.d, m.a, k), size);
            && off + |piece| <= |m.mem|
            && Splice(UpperBlock(m, mask, size, base, k + 1), off, piece) == UpperBlock(m, mask, size, base, k)
  {
    hide Mask24, Offset, Block, Listed, OperandBytes, Splice, RegisterAt, Piece;
    BlockSplits(m, mask, true, size, k, 16);
    ListedPiece(m, mask, true, size, k);
    var off, piece := Mask24(base) + Offset(mask, true, size, k), OperandBytes(RegisterAt(m.d, m.a, k), size);
    SpliceBelow(m.mem, off, piece, Block(m.d, m.a, mask, true, size, k + 1, 16));
  }

  lemma UnlistedPiece(m: Machine, mask: Word, down: bool, size: Size, k: nat)
    requires k < 16 && !Listed(mask, down, k)
    ensures Piece(m.d, m.a, mask, down, size, k) == []
  {
  }

  // ------------------------------------------------ the loops, place by place

  /** How far a transfer loop has come: the state and the next address, or the access that stopped it. */
  datatype Progress = Going(at: Machine, address: Long) | Stuck(stop: Stop)

  function ProgressStop(p: Progress): Option<Stop> {
    match p case Going(_, _) => None case Stuck(stop) => Some(stop)
  }

  function StoreMode(down: bool): int {
    if down then 4 else 2
  }

  /** One register of a store: the descending form moves the address before the write, the others after it. */
  function StorePlace(w: Machine, value: Long, size: Size, down: bool, address: Long): Progress {
    var here := if down then Minus(address, size.Bytes()) else address;
    match TransferStop(w, value, size, StoreMode(down), here)
    case Some(stop) => Stuck(stop)
    case None => Going(Charged(w.(mem := Written(w, value, size, StoreMode(down), here)), 2 * size.Bytes()),
                       if down then here else Plus(here, size.Bytes()))
  }

  /** The store loop after i places of the mask; the descending form starts from A7. */
  function StoreProgress(m: Machine, mask: Word, down: bool, size: Size, address: Long, i: nat): Progress
    requires i <= 16
  {
    if i == 0 then Going(m, address)
    else match StoreProgress(m, mask, down, size, address, i - 1)
         case Stuck(stop) => Stuck(stop)
         case Going(w, next) =>
           if Bit(mask, i - 1) then StorePlace(w, RegisterAt(m.d, m.a, if down then 16 - i else i - 1), size, down,
                                               next)
           else Going(w, next)
  }

  lemma StoreStep(m: Machine, mask: Word, down: bool, size: Size, address: Long, i: nat, w: Machine, next: Long)
    requires i < 16 && StoreProgress(m, mask, down, size, address, i) == Going(w, next)
    ensures StoreProgress(m, mask, down, size, address, i + 1)
            == if Bit(mask, i) then StorePlace(w, RegisterAt(m.d, m.a, if down then 15 - i else i), size, down, next)
               else Going(w, next)
  {
    hide Bit, RegisterAt, StorePlace;
  }

  lemma {:induction false} StoreStuck(m: Machine, mask: Word, down: bool, size: Size, address: Long, i: nat, j: nat)
    requires i <= j <= 16 && StoreProgress(m, mask, down, size, address, i).Stuck?
    ensures StoreProgress(m, mask, down, size, address, j) == StoreProgress(m, mask, down, size, address, i)
  {
    hide Bit, RegisterAt, StorePlace;
    if i < j {
      StoreStuck(m, mask, down, size, address, i, j - 1);
    }
  }

  /** One register of a load. */
  function LoadPlace(w: Machine, size: Size, k: nat, address: Long): Progress
    requires k < 16
  {
    match ReadStop(w, address, size)
    case Some(stop) => Stuck(stop)
    case None => Going(Loaded(w, size, k, Extend(BusValue(w, address, size), size)), Plus(address, size.Bytes()))
  }

  function Loaded(w: Machine, size: Size, k: nat, x: Long): Machine
    requires k < 16
  {
    Charged(w, 2 * size.Bytes()).(d := if k < 8 then SetRegister(w.d, k, x) else w.d,
                                  a := if k < 8 then w.a else SetRegister(w.a, k - 8, x))
  }

  /** The load loop after i places of the mask. */
  function LoadProgress(m: Machine, mask: Word, size: Size, address: Long, i: nat): Progress
    requires i <= 16
  {
    if i == 0 then Going(m, address)
    else match LoadProgress(m, mask, size, address, i - 1)
         case Stuck(stop) => Stuck(stop)
         case Going(w, next) => if Bit(mask, i - 1) then LoadPlace(w, size, i - 1, next) else Going(w, next)
  }

  lemma LoadStep(m: Machine, mask: Word, size: Size, address: Long, i: nat, w: Machine, next: Long)
    requires i < 16 && LoadProgress(m, mask, size, address, i) == Going(w, next)
    ensures LoadProgress(m, mask, size, address, i + 1)
            == if Bit(mask, i) then LoadPlace(w, size, i, next) else Going(w, next)
  {
    hide Bit, LoadPlace;
  }

  lemma {:induction false} LoadStuck(m: Machine, mask: Word, size: Size, address: Long, i: nat, j: nat)
    requires i <= j <= 16 && LoadProgress(m, mask, size, address, i).Stuck?
    ensures LoadProgress(m, mask, size, address, j) == LoadProgress(m, mask, size, address, i)
  {
    hide Bit, LoadPlace;
    if i < j {
      LoadStuck(m, mask, size, address, i, j - 1);
    }
  }

  /** One register of a store, then its cycles. */
  method StoreOne(cpu: Cpu, value: Long, size: Size, down: bool, address: Long) returns (r: Outcome<Long>)
    requires Executing(cpu.Abs())
    modifies cpu, cpu.memory
    ensures Executing(cpu.Abs()) && StepKeeps(old(cpu.Abs()), cpu.Abs(), 0)
    ensures var p := StorePlace(old(cpu.Abs()), value, size, down, address);
            Ends(ProgressStop(p), r.Ok?, cpu.Abs()) && (r.Ok? ==> p == Going(cpu.Abs(), r.value))
    ensures r.Ok? ==> cpu.Abs() == Charged(old(cpu.Abs()), 2 * size.Bytes()).(mem := cpu.memory[..])
    ensures r.Ok? ==> r.value == if down then Minus(address, size.Bytes()) else Plus(address, size.Bytes())
  {
    hide StepKeeps, StoppedAt, TransferStop, Written, Plus, Minus;
    ghost var m := cpu.Abs();
    var here := if down then Minus(address, size.Bytes()) else address;
    var _ :- WriteDestination(cpu, value, size, StoreMode(down), here);
    ghost var m1 := cpu.Abs();
    cpu.Charge(2 * size.Bytes());
    ChargeKeeps(m1, 2 * size.Bytes());
    StepKeepsLess(m1, cpu.Abs(), 2 * size.Bytes(), 0);
    StepKeepsTransitive(m, m1, cpu.Abs(), 0, 0);
    return Ok(if down then here else Plus(here, size.Bytes()));
  }

  /** A place with room takes its register. */
  lemma PlaceTakes(w: Machine, value: Long, size: Size, down: bool, address: Long)
    requires Executing(w)
    ensures var here := if down then Minus(address, size.Bytes()) else address;
            InMemory(w, here, size.Bytes()) && !Odd(here) ==>
              var p := StorePlace(w, value, size, down, address);
              p.Going? && p.at.mem == Stored(w, here, value, size).mem
  {
    hide TransferStop, Written, Stored, Mask24, Plus, Minus;
    var here := if down then Minus(address, size.Bytes()) else address;
    if InMemory(w, here, size.Bytes()) && !Odd(here) {
      WrittenWhole(w, value, size, StoreMode(down), here);
    }
  }

  method Registers16(cpu: Cpu, k: nat) returns (x: Long)
    requires k < 16
    ensures x == RegisterAt(cpu.d, cpu.a, k)
  {
    x := if k < 8 then cpu.d[k] else cpu.a[k - 8];
  }

  /** The predecrement loop: from A7 down to D0, each register below the one before. */
  method StoreDescending(cpu: Cpu, mask: Word, size: Size, reg: int) returns (r: Outcome<()>)
    requires Executing(cpu.Abs()) && 0 <= reg < 8 && size != ByteSize
    modifies cpu, cpu.memory
    ensures Executing(cpu.Abs()) && StepKeeps(old(cpu.Abs()), cpu.Abs(), 0)
    ensures var p := StoreProgress(old(cpu.Abs()), mask, true, size, old(cpu.a[reg]), 16);
            && Ends(ProgressStop(p), r.Ok?, cpu.Abs())
            && (r.Ok? ==> p.Going? && cpu.Abs() == p.at.(a := SetRegister(p.at.a, reg, p.address)))
    ensures r.Ok? ==> cpu.Abs() == old(cpu.Abs()).(mem := cpu.memory[..], a := cpu.a, slice := cpu.slice)
    ensures r.Ok? ==> cpu.slice.remaining == old(cpu.slice.remaining) - 2 * Offset(mask, true, size, 16)
    ensures var m := old(cpu.Abs());
            BlockRoom(m, Minus(m.a[reg], Offset(mask, true, size, 16)), mask, true, size) ==>
              r.Ok? && StoredDown(m, mask, size, reg, cpu.Abs())
  {
    hide StepKeeps, StoppedAt, StoreProgress, StorePlace, Mask24, Plus, Minus, Offset, Block, Listed, Bit, InMemory,
         Stored, UpperBlock, RegisterAt;
    ghost var m := cpu.Abs();
    ghost var total := Offset(mask, true, size, 16);
    ghost var base := Minus(m.a[reg], total);
    ghost var room := BlockRoom(m, base, mask, true, size);
    OffsetBound(mask, true, size, 0, 16);
    ZeroOffset(mask, true, size);
    DownAndUp(m.a[reg], total);
    NothingKept(m, m);
    var addr := cpu.a[reg];
    var initial := cpu.a[reg];
    StoreStart(m, mask, true, size, initial);
    if room {
      EmptyUpper(m, mask, size, base);
    }
    for i := 0 to 16
      invariant Executing(cpu.Abs()) && StepKeeps(m, cpu.Abs(), 0)
      invariant StoreProgress(m, mask, true, size, initial, i) == Going(cpu.Abs(), addr)
      invariant cpu.Abs() == m.(mem := cpu.memory[..], slice := cpu.slice)
      invariant cpu.slice.remaining == m.slice.remaining - 2 * (total - Offset(mask, true, size, 16 - i))
      invariant room ==> addr == Plus(base, Offset(mask, true, size, 16 - i))
      invariant room ==>
        Mask24(base) + Offset(mask, true, size, 16 - i) + |Block(m.d, m.a, mask, true, size, 16 - i, 16)| <= |m.mem|
        && cpu.memory[..] == UpperBlock(m, mask, size, base, 16 - i)
    {
      ghost var k, w := 15 - i, cpu.Abs();
      OffsetStep(mask, true, size, k);
      ListedDown(mask, i);
      StoreStep(m, mask, true, size, initial, i, w, addr);
      if room {
        if Listed(mask, true, k) {
          StoreBelow(m, mask, size, base, k, w);
        } else {
          SkipBelow(m, mask, size, base, k, w);
        }
      }
      if Bit(mask, i) {
        var value := initial;
        if 15 - i != 8 + reg {
          value := Registers16(cpu, 15 - i);
        }
        InitialValue(m, reg, k);
        PlaceTakes(w, value, size, true, addr);
        var next := StoreOne(cpu, value, size, true, addr);
        StepKeepsTransitive(m, w, cpu.Abs(), 0, 0);
        if next.Abort? {
          StoreStuck(m, mask, true, size, initial, i + 1, 16);
          return Abort;
        }
        addr := next.value;
      }
    }
    ghost var w := cpu.Abs();
    RegisterKeeps(w, reg, addr);
    cpu.SetA(reg, addr);
    StepKeepsTransitive(m, w, cpu.Abs(), 0, 0);
    if room {
      WholeUpper(m, mask, size, reg, base, cpu.Abs());
    }
    return Ok(());
  }

  lemma StoreStart(m: Machine, mask: Word, down: bool, size: Size, address: Long)
    ensures StoreProgress(m, mask, down, size, address, 0) == Going(m, address)
  {
  }

  lemma OffsetStep(mask: Word, down: bool, size: Size, k: nat)
    requires k < 16
    ensures Offset(mask, down, size, k + 1)
            == Offset(mask, down, size, k) + (if Listed(mask, down, k) then size.Bytes() else 0)
  {
    hide Listed;
  }

  lemma ListedDown(mask: Word, i: nat)
    requires i < 16
    ensures Listed(mask, true, 15 - i) == Bit(mask, i)
    ensures Listed(mask, false, i) == Bit(mask, i)
  {
    hide Bit;
  }

  lemma InitialValue(m: Machine, reg: int, k: nat)
    requires 0 <= reg < 8 && k < 16
    ensures k == 8 + reg ==> RegisterAt(m.d, m.a, k) == m.a[reg]
  {
  }

  lemma EmptyUpper(m: Machine, mask: Word, size: Size, base: Long)
    requires BlockRoom(m, base, mask, true, size)
    ensures Mask24(base) + Offset(mask, true, size, 16) + |Block(m.d, m.a, mask, true, size, 16, 16)| <= |m.mem|
    ensures UpperBlock(m, mask, size, base, 16) == m.mem
  {
    hide Mask24, Offset;
  }

  lemma WholeUpper(m: Machine, mask: Word, size: Size, reg: int, base: Long, m': Machine)
    requires 0 <= reg < 8 && base == Minus(m.a[reg], Offset(mask, true, size, 16))
    requires BlockRoom(m, base, mask, true, size)
    requires Mask24(base) + Offset(mask, true, size, 0) + |Block(m.d, m.a, mask, true, size, 0, 16)| <= |m.mem|
    requires m'.mem == UpperBlock(m, mask, size, base, 0) && m'.d == m.d
    requires m'.a == SetRegister(m.a, reg, Plus(base, Offset(mask, true, size, 0)))
    ensures StoredDown(m, mask, size, reg, m')
  {
    PlusZero(base);
    ZeroOffset(mask, true, size);
    hide Mask24, Minus, Plus, Offset, Block;
  }

  // ------------------------------------------------------- the ascending forms

  /** MOVEM list,<ea>: the block from the operand's address up. */
  predicate StoredUp(m: Machine, mask: Word, size: Size, address: Long, m': Machine) {
    var block := Block(m.d, m.a, mask, false, size, 0, 16);
    && Mask24(address) + |block| <= |m.mem|
    && m'.mem == Splice(m.mem, Mask24(address), block) && m'.d == m.d && m'.a == m.a
  }

  lemma LowerFits(m: Machine, mask: Word, size: Size, base: Long, k: nat)
    requires k <= 16 && BlockRoom(m, base, mask, false, size)
    ensures |Block(m.d, m.a, mask, false, size, 0, k)| == Offset(mask, false, size, k)
    ensures Mask24(base) + Offset(mask, false, size, k) <= |m.mem|
  {
    BlockLength(m, mask, false, size, 0, k);
    OffsetBound(mask, false, size, k, 16);
    ZeroOffset(mask, false, size);
    hide Mask24, Offset, Block;
  }

  /** The memory with the listed registers below k in it. */
  function LowerBlock(m: Machine, mask: Word, size: Size, base: Long, k: nat): seq<Byte>
    requires k <= 16 && Mask24(base) + |Block(m.d, m.a, mask, false, size, 0, k)| <= |m.mem|
  {
    Splice(m.mem, Mask24(base), Block(m.d, m.a, mask, false, size, 0, k))
  }

  /** Storing register k above the registers below it. */
  lemma StoreAbove(m: Machine, mask: Word, size: Size, base: Long, k: nat, w: Machine)
    requires k < 16 && size != ByteSize && BlockRoom(m, base, mask, false, size)
    requires Mask24(base) + |Block(m.d, m.a, mask, false, size, 0, k)| <= |m.mem|
    requires w.mem == LowerBlock(m, mask, size, base, k)
    ensures Mask24(base) + |Block(m.d, m.a, mask, false, size, 0, k + 1)| <= |m.mem|
    ensures Listed(mask, false, k) ==>
      var address := Plus(base, Offset(mask, false, size, k));
      && InMemory(w, address, size.Bytes()) && !Odd(address)
      && Stored(w, address, RegisterAt(m.d, m.a, k), size).mem
         == LowerBlock(m, mask, size, base, k + 1)
    ensures !Listed(mask, false, k) ==> w.mem == LowerBlock(m, mask, size, base, k + 1)
  {
    LowerFits(m, mask, size, base, k);
    LowerFits(m, mask, size, base, k + 1);
    Place(m, mask, false, size, base, k);
    BlockAppend(m, mask, false, size, 0, k);
    var block := Block(m.d, m.a, mask, false, size, 0, k);
    if Listed(mask, false, k) {
      ListedPiece(m, mask, false, size, k);
      hide Mask24, Plus, Offset, Block, Listed, OperandBytes, Splice, RegisterAt, Piece;
      SpliceAbove(m.mem, Mask24(base), block, OperandBytes(RegisterAt(m.d, m.a, k), size));
    } else {
      UnlistedPiece(m, mask, false, size, k);
      assert block + [] == block;
      hide Mask24, Plus, Offset, Block, Listed, Splice, Piece;
    }
  }

  /** The other stores: from D0 up to A7. */
  method StoreAscending(cpu: Cpu, mask: Word, size: Size, address: Long) returns (r: Outcome<()>)
    requires Executing(cpu.Abs()) && size != ByteSize
    modifies cpu, cpu.memory
    ensures Executing(cpu.Abs()) && StepKeeps(old(cpu.Abs()), cpu.Abs(), 0)
    ensures var p := StoreProgress(old(cpu.Abs()), mask, false, size, address, 16);
            Ends(ProgressStop(p), r.Ok?, cpu.Abs()) && (r.Ok? ==> p.Going? && cpu.Abs() == p.at)
    ensures r.Ok? ==> cpu.Abs() == old(cpu.Abs()).(mem := cpu.memory[..], slice := cpu.slice)
    ensures r.Ok? ==> cpu.slice.remaining == old(cpu.slice.remaining) - 2 * Offset(mask, false, size, 16)
    ensures BlockRoom(old(cpu.Abs()), address, mask, false, size) ==>
      r.Ok? && StoredUp(old(cpu.Abs()), mask, size, address, cpu.Abs())
  {
    hide StepKeeps, StoppedAt, StoreProgress, StorePlace, Mask24, Plus, Offset, Block, Listed, Bit, InMemory, Stored,
         RegisterAt, LowerBlock;
    ghost var m := cpu.Abs();
    ghost var room := BlockRoom(m, address, mask, false, size);
    ZeroOffset(mask, false, size);
    PlusZero(address);
    NothingKept(m, m);
    var addr := address;
    StoreStart(m, mask, false, size, address);
    if room {
      EmptyLower(m, mask, size, address);
    }
    for i := 0 to 16
      invariant Executing(cpu.Abs()) && StepKeeps(m, cpu.Abs(), 0)
      invariant StoreProgress(m, mask, false, size, address, i) == Going(cpu.Abs(), addr)
      invariant cpu.Abs() == m.(mem := cpu.memory[..], slice := cpu.slice)
      invariant cpu.slice.remaining == m.slice.remaining - 2 * Offset(mask, false, size, i)
      invariant addr == Plus(address, Offset(mask, false, size, i))
      invariant room ==> Mask24(address) + |Block(m.d, m.a, mask, false, size, 0, i)| <= |m.mem|
                         && cpu.memory[..] == LowerBlock(m, mask, size, address, i)
    {
      ghost var w := cpu.Abs();
      OffsetStep(mask, false, size, i);
      ListedDown(mask, i);
      StoreStep(m, mask, false, size, address, i, w, addr);
      PlusTwice(address, Offset(mask, false, size, i), size.Bytes());
      if room {
        StoreAbove(m, mask, size, address, i, w);
      }
      if Bit(mask, i) {
        var value := Registers16(cpu, i);
        PlaceTakes(w, value, size, false, addr);
        var next := StoreOne(cpu, value, size, false, addr);
        StepKeepsTransitive(m, w, cpu.Abs(), 0, 0);
        if next.Abort? {
          StoreStuck(m, mask, false, size, address, i + 1, 16);
          return Abort;
        }
        addr := next.value;
      }
    }
    if room {
      WholeLower(m, mask, size, address, cpu.Abs());
    }
    return Ok(());
  }

  lemma WholeLower(m: Machine, mask: Word, size: Size, base: Long, m': Machine)
    requires Mask24(base) + |Block(m.d, m.a, mask, false, size, 0, 16)| <= |m.mem|
    requires m'.mem == LowerBlock(m, mask, size, base, 16) && m'.d == m.d && m'.a == m.a
    ensures StoredUp(m, mask, size, base, m')
  {
    hide Mask24, Block;
  }

  lemma EmptyLower(m: Machine, mask: Word, size: Size, base: Long)
    requires BlockRoom(m, base, mask, false, size)
    ensures Mask24(base) + |Block(m.d, m.a, mask, false, size, 0, 0)| <= |m.mem|
    ensures LowerBlock(m, mask, size, base, 0) == m.mem
  {
    hide Mask24, Offset;
  }

  /** MOVEM <ea>,list. */
  predicate LoadedFrom(m: Machine, mask: Word, size: Size, address: Long, m': Machine) {
    && Mask24(address) + Offset(mask, false, size, 16) <= |m.mem| && m'.mem == m.mem
    && LoadedBelow(m, Mask24(address), mask, size, 16, m'.d, m'.a)
  }

  lemma LoadNext(m: Machine, mask: Word, size: Size, base: Long, k: nat, d: Registers, a: Registers)
    requires k < 16 && size != ByteSize && BlockRoom(m, base, mask, false, size)
    requires LoadedBelow(m, Mask24(base), mask, size, k, d, a)
    ensures !Listed(mask, false, k) ==> LoadedBelow(m, Mask24(base), mask, size, k + 1, d, a)
    ensures Listed(mask, false, k) ==>
      && EntryInside(mask, size, k, Mask24(base), |m.mem|)
      && var x := LoadedValue(m.mem, Mask24(base), mask, size, k);
         LoadedBelow(m, Mask24(base), mask, size, k + 1, if k < 8 then SetRegister(d, k, x) else d,
                     if k < 8 then a else SetRegister(a, k - 8, x))
  {
    hide Mask24, Offset, Listed, LoadedValue, Plus;
    Place(m, mask, false, size, base, k);
  }

  lemma EntryRead(m: Machine, mask: Word, size: Size, base: Long, k: nat, w: Machine)
    requires k < 16 && size != ByteSize && BlockRoom(m, base, mask, false, size) && Listed(mask, false, k)
    requires w.mem == m.mem
    ensures var address := Plus(base, Offset(mask, false, size, k));
            && FaultVector(w, address, size).None? && EntryInside(mask, size, k, Mask24(base), |m.mem|)
            && Extend(BusValue(w, address, size), size) == LoadedValue(m.mem, Mask24(base), mask, size, k)
  {
    Place(m, mask, false, size, base, k);
    hide Mask24, Offset, Listed, Plus, Operand, Extend;
  }

  lemma NothingLoaded(m: Machine, mask: Word, size: Size, at: nat)
    requires at + Offset(mask, false, size, 16) <= |m.mem|
    ensures LoadedBelow(m, at, mask, size, 0, m.d, m.a)
  {
    hide Offset, Listed;
  }

  /** One register of a load: the read, its cycles, the register. */
  method LoadOne(cpu: Cpu, size: Size, k: nat, address: Long) returns (r: Outcome<Long>)
    requires Executing(cpu.Abs()) && k < 16 && size != ByteSize
    modifies cpu, cpu.memory
    ensures Executing(cpu.Abs()) && StepKeeps(old(cpu.Abs()), cpu.Abs(), 0)
    ensures var p := LoadPlace(old(cpu.Abs()), size, k, address);
            Ends(ProgressStop(p), r.Ok?, cpu.Abs()) && (r.Ok? ==> p == Going(cpu.Abs(), r.value))
    ensures r.Ok? <==> FaultVector(old(cpu.Abs()), address, size).None?
    ensures r.Ok? ==> r.value == Plus(address, size.Bytes())
    ensures r.Ok? ==>
      var m := old(cpu.Abs()); cpu.Abs() == Loaded(m, size, k, Extend(BusValue(m, address, size), size))
  {
    hide StepKeeps, StoppedAt, Mask24, FaultVector, BusValue, Extend, Plus;
    ghost var m := cpu.Abs();
    var value := ReadFrom(cpu, address, size);
    if value.Abort? {
      return Abort;
    }
    cpu.Charge(2 * size.Bytes());
    ghost var m1 := cpu.Abs();
    ChargeKeeps(m, 2 * size.Bytes());
    StepKeepsLess(m, m1, 2 * size.Bytes(), 0);
    ExtendLong(value.value);
    var x := if size == WordSize then Extend(value.value, WordSize) else value.value;
    if k < 8 {
      RegisterKeeps(m1, k, x);
      cpu.SetD(k, x);
    } else {
      RegisterKeeps(m1, k - 8, x);
      cpu.SetA(k - 8, x);
    }
    StepKeepsTransitive(m, m1, cpu.Abs(), 0, 0);
    return Ok(Plus(address, size.Bytes()));
  }

  lemma LoadStart(m: Machine, mask: Word, size: Size, address: Long)
    ensures LoadProgress(m, mask, size, address, 0) == Going(m, address)
  {
  }

  method LoadAscending(cpu: Cpu, mask: Word, size: Size, address: Long) returns (r: Outcome<Long>)
    requires Executing(cpu.Abs()) && size != ByteSize
    modifies cpu, cpu.memory
    ensures Executing(cpu.Abs()) && StepKeeps(old(cpu.Abs()), cpu.Abs(), 0)
    ensures var p := LoadProgress(old(cpu.Abs()), mask, size, address, 16);
            Ends(ProgressStop(p), r.Ok?, cpu.Abs()) && (r.Ok? ==> p == Going(cpu.Abs(), r.value))
    ensures r.Ok? ==> cpu.Abs() == old(cpu.Abs()).(d := cpu.d, a := cpu.a, slice := cpu.slice)
    ensures r.Ok? ==> r.value == Plus(address, Offset(mask, false, size, 16))
    ensures r.Ok? ==> cpu.slice.remaining == old(cpu.slice.remaining) - 2 * Offset(mask, false, size, 16)
    ensures BlockRoom(old(cpu.Abs()), address, mask, false, size) ==>
      r.Ok? && LoadedFrom(old(cpu.Abs()), mask, size, address, cpu.Abs())
  {
    hide StepKeeps, StoppedAt, LoadProgress, LoadPlace, Mask24, Plus, Offset, Listed, Bit, LoadedBelow, LoadedValue,
         FaultVector, BusValue, Extend;
    ghost var m := cpu.Abs();
    ghost var room := BlockRoom(m, address, mask, false, size);
    ZeroOffset(mask, false, size);
    PlusZero(address);
    NothingKept(m, m);
    var addr := address;
    LoadStart(m, mask, size, address);
    if room {
      NothingLoaded(m, mask, size, Mask24(address));
    }
    for i := 0 to 16
      invariant Executing(cpu.Abs()) && StepKeeps(m, cpu.Abs(), 0)
      invariant LoadProgress(m, mask, size, address, i) == Going(cpu.Abs(), addr)
      invariant cpu.Abs() == m.(d := cpu.d, a := cpu.a, slice := cpu.slice)
      invariant cpu.slice.remaining == m.slice.remaining - 2 * Offset(mask, false, size, i)
      invariant addr == Plus(address, Offset(mask, false, size, i))
      invariant room ==> LoadedBelow(m, Mask24(address), mask, size, i, cpu.d, cpu.a)
    {
      ghost var w := cpu.Abs();
      OffsetStep(mask, false, size, i);
      ListedDown(mask, i);
      LoadStep(m, mask, size, address, i, w, addr);
      PlusTwice(address, Offset(mask, false, size, i), size.Bytes());
      if room {
        LoadNext(m, mask, size, address, i, w.d, w.a);
        if Listed(mask, false, i) {
          EntryRead(m, mask, size, address, i, w);
        }
      }
      if Bit(mask, i) {
        var next := LoadOne(cpu, size, i, addr);
        StepKeepsTransitive(m, w, cpu.Abs(), 0, 0);
        if next.Abort? {
          LoadStuck(m, mask, size, address, i + 1, 16);
          return Abort;
        }
        addr := next.value;
      }
    }
    return Ok(addr);
  }

  // ------------------------------------------------------------------ MOVEM

  predicate MovemMode(toRegisters: bool, mode: int, reg: int) {
    && mode >= 2 && !(mode == 7 && reg >= 4) && !(toRegisters && mode == 4)
    && !(!toRegisters && (mode == 3 || (mode == 7 && (reg == 2 || reg == 3))))
  }

  /** The lead-in before the transfers. */
  function MovemLead(mode: int, reg: int, toRegisters: bool): (cycles: int)
    ensures 0 <= reg && 2 <= mode < 8 && MovemMode(toRegisters, mode, reg) ==> cycles >= (if toRegisters then 12 else 8)
  {
    match mode
    case 2 => if toRegisters then 12 else 8
    case 3 => 12
    case 4 => 8
    case 5 => if toRegisters then 16 else 12
    case 6 => if toRegisters then 18 else 14
    case 7 =>
      (match reg
       case 0 => if toRegisters then 16 else 12
       case 1 => if toRegisters then 20 else 16
       case 2 => 16
       case 3 => 18
       case _ => 0)
    case _ => 0
  }

  /** The machine after the mask word. */
  function AfterMask(m: Machine): Machine {
    m.(pc := Plus(m.pc, 2))
  }

  /** Where the transfers start: An itself in the increment modes, the operand's address otherwise. */
  function MovemAddress(s: Machine, mode: int, reg: int, size: Size): Long
    requires 0 <= reg < 8
  {
    if mode == 3 || mode == 4 then s.a[reg] else EaAddress(s, mode, reg, size)
  }

  function AddressStop(s: Machine, mode: int, reg: int, size: Size): Option<Stop>
    requires 0 <= reg < 8
  {
    if mode == 3 || mode == 4 then None else EaStop(s, mode, reg, size, false)
  }

  /** The address has been resolved. */
  function AtAddress(s: Machine, mode: int, reg: int, size: Size): Machine
    requires 0 <= reg < 8
  {
    s.(pc := Plus(s.pc, 2 * ExtensionWords(mode, reg, size)),
       fault := if mode == 3 || mode == 4 then s.fault else EaFault(s, mode, reg, size, false))
  }

  method TransferAddress(cpu: Cpu, mode: int, reg: int, size: Size) returns (r: Outcome<Long>)
    requires Executing(cpu.Abs()) && 2 <= mode < 8 && 0 <= reg < 8 && (mode == 7 ==> reg < 4)
    modifies cpu, cpu.memory
    ensures Executing(cpu.Abs()) && StepKeeps(old(cpu.Abs()), cpu.Abs(), 0)
    ensures Ends(AddressStop(old(cpu.Abs()), mode, reg, size), r.Ok?, cpu.Abs())
    ensures r.Ok? ==>
      && r.value == MovemAddress(old(cpu.Abs()), mode, reg, size)
      && cpu.Abs() == AtAddress(old(cpu.Abs()), mode, reg, size)
  {
    hide StepKeeps, StoppedAt, EaStop, EaResolved, EaCompletes, EaFault, Plus;
    ghost var s := cpu.Abs();
    PlusZero(cpu.pc);
    NothingKept(s, s);
    if mode == 3 || mode == 4 {
      return Ok(cpu.a[reg]);
    }
    var ea := cpu.CalcEaEx(mode, reg, size, false);
    if ea.Abort? {
      return Abort;
    }
    ResolvedRest(s, mode, reg, size, false, ea.value, cpu.Abs());
    hide EaAddress;
    return Ok(ea.value.address);
  }

  /** The lead-in is spent and the fault PC latched. */
  function Led(m: Machine, toRegisters: bool, size: Size, mode: int, reg: int): Machine
    requires 0 <= reg < 8
  {
    var e := AtAddress(AfterMask(m), mode, reg, size);
    Charged(WithFaultPc(e, Plus(e.pc, 2)), MovemLead(mode, reg, toRegisters) - (if toRegisters then 4 else 0))
  }

  /** The machine before the first transfer; a PC-relative load turns to program space. */
  function MovemAt(m: Machine, toRegisters: bool, size: Size, mode: int, reg: int): Machine
    requires 0 <= reg < 8
  {
    InSpace(Led(m, toRegisters, size, mode, reg), toRegisters && PcRelative(mode, reg))
  }

  /** The transfers themselves. */
  function MovemProgress(m: Machine, toRegisters: bool, size: Size, mode: int, reg: int): Progress
    requires 0 <= reg < 8
  {
    var b, mask := MovemAt(m, toRegisters, size, mode, reg), WordAt(m, m.pc);
    var address := MovemAddress(AfterMask(m), mode, reg, size);
    if toRegisters then LoadProgress(b, mask, size, address, 16)
       else StoreProgress(b, mask, mode == 4, size, address, 16)
  }

  /** What stops MOVEM: the mask word, the addressing mode, or one of the transfers. */
  function MovemStop(m: Machine, toRegisters: bool, size: Size, mode: int, reg: int): Option<Stop>
    requires 0 <= reg < 8
  {
    if !MovemMode(toRegisters, mode, reg) then None
    else First(FetchStop(m, 1),
               First(AddressStop(AfterMask(m), mode, reg, size),
                     ProgressStop(MovemProgress(m, toRegisters, size, mode, reg))))
  }

  /** The end of a load leaves program space and pays for the trailing read; the increment modes move An. */
  function MovemEnd(x: Machine, end: Long, toRegisters: bool, mode: int, reg: int): Machine
    requires 0 <= reg < 8
  {
    Charged(x, if toRegisters then 4 else 0).(
      a := if mode == 3 || mode == 4 then SetRegister(x.a, reg, end) else x.a,
      fault := LeftSpace(x.fault, toRegisters))
  }

  /** The register-to-memory loops. */
  method Store(cpu: Cpu, mask: Word, size: Size, mode: int, reg: int, address: Long) returns (r: Outcome<()>)
    requires Executing(cpu.Abs()) && 2 <= mode < 8 && 0 <= reg < 8 && size != ByteSize
    requires mode != 3 && (mode == 4 ==> address == cpu.a[reg])
    modifies cpu, cpu.memory
    ensures Executing(cpu.Abs()) && StepKeeps(old(cpu.Abs()), cpu.Abs(), 0)
    ensures var p := StoreProgress(old(cpu.Abs()), mask, mode == 4, size, address, 16);
            && Ends(ProgressStop(p), r.Ok?, cpu.Abs())
            && (r.Ok? ==> p.Going? && cpu.Abs() == MovemEnd(p.at, p.address, false, mode, reg))
    ensures r.Ok? ==> cpu.Abs() == old(cpu.Abs()).(mem := cpu.memory[..], a := cpu.a, slice := cpu.slice)
    ensures r.Ok? ==> cpu.slice.remaining == old(cpu.slice.remaining) - 2 * Offset(mask, mode == 4, size, 16)
    ensures var m := old(cpu.Abs());
            if mode == 4 then BlockRoom(m, Minus(m.a[reg], Offset(mask, true, size, 16)), mask, true, size) ==>
              r.Ok? && StoredDown(m, mask, size, reg, cpu.Abs())
            else BlockRoom(m, address, mask, false, size) ==> r.Ok? && StoredUp(m, mask, size, address, cpu.Abs())
  {
    hide StepKeeps, StoppedAt, StoreProgress, BlockRoom, StoredDown, StoredUp, Offset;
    if mode == 4 {
      r := StoreDescending(cpu, mask, size, reg);
    } else {
      r := StoreAscending(cpu, mask, size, address);
    }
  }

  /** The memory-to-register loop, with its trailing read and the postincrement. */
  method Load(cpu: Cpu, mask: Word, size: Size, mode: int, reg: int, address: Long) returns (r: Outcome<()>)
    requires Executing(cpu.Abs()) && 2 <= mode < 8 && 0 <= reg < 8 && size != ByteSize
    requires mode != 4 && (mode == 3 ==> address == cpu.a[reg])
    modifies cpu, cpu.memory
    ensures Executing(cpu.Abs()) && StepKeeps(old(cpu.Abs()), cpu.Abs(), if r.Ok? then 4 else 0)
    ensures var p := LoadProgress(InSpace(old(cpu.Abs()), PcRelative(mode, reg)), mask, size, address, 16);
            && Ends(ProgressStop(p), r.Ok?, cpu.Abs())
            && (r.Ok? ==> p.Going? && cpu.Abs() == MovemEnd(p.at, p.address, true, mode, reg))
    ensures r.Ok? ==> cpu.Abs() == old(cpu.Abs()).(d := cpu.d, a := cpu.a, fault := cpu.fault, slice := cpu.slice)
    ensures r.Ok? ==> cpu.slice.remaining == old(cpu.slice.remaining) - 2 * Offset(mask, false, size, 16) - 4
    ensures BlockRoom(old(cpu.Abs()), address, mask, false, size) ==>
      var m := old(cpu.Abs());
      r.Ok? && (if mode == 3 then LoadedUp(m, mask, size, reg, cpu.Abs())
                else LoadedFrom(m, mask, size, address, cpu.Abs()))
  {
    hide StepKeeps, StoppedAt, LoadProgress, BlockRoom, LoadedFrom, LoadedUp, Offset, Plus, Mask24, MovemEnd;
    ghost var m := cpu.Abs();
    if mode == 7 && (reg == 2 || reg == 3) {
      cpu.SetProgramSpace(true);
    }
    ghost var m1 := cpu.Abs();
    LatchKeeps(m, m1);
    RoomSame(m, m1, address, mask, size);
    var end := LoadAscending(cpu, mask, size, address);
    ghost var m2 := cpu.Abs();
    StepKeepsTransitive(m, m1, m2, 0, 0);
    if end.Abort? {
      return Abort;
    }
    LoadedSame(m, m1, mask, size, address, m2);
    LoadedEnd(m, mask, size, mode, reg, address, m2, end.value);
    FinishLoad(cpu, mode, reg, end.value);
    StepKeepsTransitive(m, m2, cpu.Abs(), 0, 4);
    EndRest(m2, end.value, mode, reg);
    return Ok(());
  }

  /** The end of a load. */
  method FinishLoad(cpu: Cpu, mode: int, reg: int, end: Long)
    requires Executing(cpu.Abs()) && 0 <= reg < 8 && mode != 4
    modifies cpu
    ensures Executing(cpu.Abs()) && StepKeeps(old(cpu.Abs()), cpu.Abs(), 4)
    ensures cpu.Abs() == MovemEnd(old(cpu.Abs()), end, true, mode, reg)
  {
    hide StepKeeps;
    ghost var m := cpu.Abs();
    cpu.SetProgramSpace(false);
    ghost var m1 := cpu.Abs();
    LatchKeeps(m, m1);
    cpu.Charge(4);
    ghost var m2 := cpu.Abs();
    ChargeKeeps(m1, 4);
    StepKeepsTransitive(m, m1, m2, 0, 4);
    if mode == 3 {
      RegisterKeeps(m2, reg, end);
      cpu.SetA(reg, end);
      StepKeepsTransitive(m, m2, cpu.Abs(), 4, 0);
    }
  }

  lemma EndRest(x: Machine, end: Long, mode: int, reg: int)
    requires 0 <= reg < 8
    ensures var e := MovemEnd(x, end, true, mode, reg);
            e == x.(a := e.a, fault := e.fault, slice := e.slice) && e.slice.remaining == x.slice.remaining - 4
            && e.slice.target == x.slice.target
  {
  }

  lemma RoomSame(m: Machine, m1: Machine, base: Long, mask: Word, size: Size)
    requires m1 == m.(fault := m1.fault)
    ensures BlockRoom(m1, base, mask, false, size) == BlockRoom(m, base, mask, false, size)
  {
    hide Offset, Mask24;
  }

  lemma LoadedSame(m: Machine, m1: Machine, mask: Word, size: Size, address: Long, m': Machine)
    requires m1 == m.(fault := m1.fault)
    ensures LoadedFrom(m1, mask, size, address, m') ==> LoadedFrom(m, mask, size, address, m')
  {
    hide Offset, Mask24, Listed, LoadedValue;
  }

  lemma LoadedEnd(m: Machine, mask: Word, size: Size, mode: int, reg: int, address: Long, x: Machine, end: Long)
    requires 0 <= reg < 8 && mode != 4 && end == Plus(address, Offset(mask, false, size, 16))
    ensures var e := MovemEnd(x, end, true, mode, reg);
            LoadedFrom(m, mask, size, address, x) ==>
              if mode == 3 then address == m.a[reg] ==> LoadedUp(m, mask, size, reg, e)
              else LoadedFrom(m, mask, size, address, e)
  {
    hide Offset, Mask24, LoadedBelow, Plus, SetRegister;
  }

  /** The mask word, the address, and the lead-in; a load's last four cycles wait for its trailing read. */
  method StartMovem(cpu: Cpu, toRegisters: bool, size: Size, mode: int, reg: int) returns (r: Outcome<(Word, Long)>)
    requires Executing(cpu.Abs()) && 0 <= mode < 8 && 0 <= reg < 8 && MovemMode(toRegisters, mode, reg)
    modifies cpu, cpu.memory
    ensures Executing(cpu.Abs()) && StepKeeps(old(cpu.Abs()), cpu.Abs(), if r.Ok? then 8 else 0)
    ensures Ends(First(FetchStop(old(cpu.Abs()), 1), AddressStop(AfterMask(old(cpu.Abs())), mode, reg, size)),
                 r.Ok?, cpu.Abs())
    ensures r.Ok? ==>
      var m := old(cpu.Abs());
      && cpu.Abs() == Led(m, toRegisters, size, mode, reg)
      && r.value == (WordAt(m, m.pc), MovemAddress(AfterMask(m), mode, reg, size))
  {
    hide StepKeeps, StoppedAt, FetchStop, AddressStop, MovemAddress, AtAddress, MovemLead, WordAt, Plus;
    ghost var m := cpu.Abs();
    var mask :- cpu.Fetch();
    ghost var s := cpu.Abs();
    var address := TransferAddress(cpu, mode, reg, size);
    ghost var m1 := cpu.Abs();
    StepKeepsTransitive(m, s, m1, 0, 0);
    if address.Abort? {
      return Abort;
    }
    var lead := MovemLead(mode, reg, toRegisters);
    var charge := if toRegisters then lead - 4 else lead;
    cpu.Charge(charge);
    ghost var m2 := cpu.Abs();
    ChargeKeeps(m1, charge);
    StepKeepsLess(m1, m2, charge, 8);
    StepKeepsTransitive(m, m1, m2, 0, 8);
    cpu.LatchFaultPc(Plus(cpu.pc, 2));
    LatchKeeps(m2, cpu.Abs());
    StepKeepsTransitive(m, m2, cpu.Abs(), 8, 0);
    return Ok((mask, address.value));
  }

  /** The transfers in both directions. */
  method Transfer(cpu: Cpu, ghost m: Machine, toRegisters: bool, mask: Word, size: Size, mode: int, reg: int,
                  address: Long)
    returns (r: Outcome<()>)
    requires Executing(cpu.Abs()) && 2 <= mode < 8 && 0 <= reg < 8 && size != ByteSize
             && MovemMode(toRegisters, mode, reg)
    requires cpu.Abs() == Led(m, toRegisters, size, mode, reg) && mask == WordAt(m, m.pc)
    requires address == MovemAddress(AfterMask(m), mode, reg, size)
    modifies cpu, cpu.memory
    ensures Executing(cpu.Abs()) && StepKeeps(old(cpu.Abs()), cpu.Abs(), if r.Ok? && toRegisters then 4 else 0)
    ensures r.Ok? ==> cpu.nesting == m.nesting
    ensures Ends(ProgressStop(MovemProgress(m, toRegisters, size, mode, reg)), r.Ok?, cpu.Abs())
    ensures r.Ok? ==> MovemMoved(m, toRegisters, size, mode, reg, cpu.Abs())
    ensures TransferRoom(AfterMask(m), mask, toRegisters, size, mode, reg) ==> r.Ok?
  {
    hide StepKeeps, StoppedAt, AtAddress, EaAddress, MovemLead, WordAt, Plus, Minus, Mask24, BlockRoom, StoredDown,
         StoredUp, LoadedUp, LoadedFrom, Offset, StoreProgress, LoadProgress, Transferred, TransferRoom, MovemEnd,
         MovemAddress;
    ghost var m3 := cpu.Abs();
    LedRest(m, toRegisters, size, mode, reg);
    if toRegisters {
      r := Load(cpu, mask, size, mode, reg, address);
    } else {
      r := Store(cpu, mask, size, mode, reg, address);
    }
    TransferSame(AfterMask(m), m3, mask, toRegisters, size, mode, reg, cpu.Abs());
    TransferSameAt(AfterMask(m), m3, mask, size, address, cpu.Abs());
    MovemFinished(m, toRegisters, size, mode, reg, r, cpu.Abs());
  }

  lemma LedRest(m: Machine, toRegisters: bool, size: Size, mode: int, reg: int)
    requires 0 <= reg < 8
    ensures var b := Led(m, toRegisters, size, mode, reg);
            && b == AfterMask(m).(pc := b.pc, fault := b.fault, slice := b.slice) && b.nesting == m.nesting
            && b.slice.remaining
               == m.slice.remaining - MovemLead(mode, reg, toRegisters) + (if toRegisters then 4 else 0)
            && MovemAt(m, toRegisters, size, mode, reg) == InSpace(b, toRegisters && PcRelative(mode, reg))
            && (!toRegisters ==> MovemAt(m, toRegisters, size, mode, reg) == b)
    ensures MovemAddress(AfterMask(m), 3, reg, size) == m.a[reg] && MovemAddress(AfterMask(m), 4, reg, size) == m.a[reg]
  {
    hide Plus, EaFault, ExtensionWords, MovemLead;
  }

  /** MOVEM in both directions. */
  method ExecMovem(cpu: Cpu, toRegisters: bool, size: Size, mode: int, reg: int) returns (r: Outcome<()>)
    requires Executing(cpu.Abs()) && 0 <= mode < 8 && 0 <= reg < 8 && size != ByteSize
    requires cpu.nesting.thrown == 0
    modifies cpu, cpu.memory
    ensures Executing(cpu.Abs())
    ensures StepKeeps(old(cpu.Abs()), cpu.Abs(), if r.Ok? && cpu.nesting.thrown == 0 then 8 else 0)
    ensures r.Ok? ==> cpu.nesting.thrown == if MovemMode(toRegisters, mode, reg) then 0 else 4
    ensures Ends(MovemStop(old(cpu.Abs()), toRegisters, size, mode, reg), r.Ok?, cpu.Abs())
    ensures r.Ok? ==> MovemDone(old(cpu.Abs()), toRegisters, size, mode, reg, cpu.Abs())
    ensures MovemReady(old(cpu.Abs()), toRegisters, size, mode, reg) ==> r.Ok?
    ensures var m := old(cpu.Abs());
            MovemReady(m, toRegisters, size, mode, reg) ==>
              TransferShown(AfterMask(m), WordAt(m, m.pc), toRegisters, size, mode, reg, cpu.Abs())
  {
    hide StepKeeps, StoppedAt, FetchStop, AddressStop, AtAddress, WordAt, Plus, TransferRoom, MovemProgress, Raised,
         MovemMoved, MovemAddress, MovemLead, TransferShown;
    ghost var m := cpu.Abs();
    if mode < 2 || (mode == 7 && reg >= 4) || (toRegisters && mode == 4)
       || (!toRegisters && (mode == 3 || (mode == 7 && (reg == 2 || reg == 3)))) {
      Trap(cpu, 4);
      return Ok(());
    }
    var start :- StartMovem(cpu, toRegisters, size, mode, reg);
    ghost var m3 := cpu.Abs();
    r := Transfer(cpu, m, toRegisters, start.0, size, mode, reg, start.1);
    var charge := if r.Ok? && toRegisters then 4 else 0;
    StepKeepsTransitive(m, m3, cpu.Abs(), 8, charge);
    StepKeepsLess(m, cpu.Abs(), 8 + charge, 8);
    StepKeepsLess(m, cpu.Abs(), 8 + charge, 0);
    MovedIsShown(m, toRegisters, size, mode, reg, cpu.Abs());
  }

  /** Where the block is, and that it has room there. */
  predicate TransferRoom(s: Machine, mask: Word, toRegisters: bool, size: Size, mode: int, reg: int)
    requires 0 <= reg < 8
  {
    if mode == 4 then BlockRoom(s, Minus(s.a[reg], Offset(mask, true, size, 16)), mask, true, size)
    else BlockRoom(s, EaAddress(s, mode, reg, size), mask, false, size)
  }

  /** The instruction can be fetched and its block has room. */
  predicate MovemReady(m: Machine, toRegisters: bool, size: Size, mode: int, reg: int)
    requires 0 <= reg < 8
  {
    && MovemMode(toRegisters, mode, reg) && FetchStop(m, 1).None? && AddressStop(AfterMask(m), mode, reg, size).None?
    && TransferRoom(AfterMask(m), WordAt(m, m.pc), toRegisters, size, mode, reg)
  }

  /** The transfer of a whole block. */
  ghost predicate Transferred(s: Machine, mask: Word, toRegisters: bool, size: Size, mode: int, reg: int, m': Machine)
    requires 0 <= reg < 8
  {
    if toRegisters then
      (if mode == 3 then LoadedUp(s, mask, size, reg, m')
       else LoadedFrom(s, mask, size, EaAddress(s, mode, reg, size), m'))
    else if mode == 4 then StoredDown(s, mask, size, reg, m')
    else StoredUp(s, mask, size, EaAddress(s, mode, reg, size), m')
  }

  /** The bytes of the registers that come before register k: its place in the block. */
  function PlaceOf(mask: Word, down: bool, size: Size, k: nat): int
    requires k < 16
  {
    size.Bytes() * (if down then D.OnesBelow(mask, 16) - D.OnesBelow(mask, 16 - k) else D.OnesBelow(mask, k))
  }

  /**
   Register k, of D0 to D7 and A0 to A7, after a transfer of the block at the given index:
   bit k of the mask lists it, bit 15 - k for the predecrement form. A store leaves its
   operand in its place, a load the signed number of its operand in the whole register.
   */
  predicate RegisterShown(s: Machine, mask: Word, toRegisters: bool, size: Size, mode: int, reg: int, at: nat,
                          m': Machine, k: nat)
    requires 0 <= reg < 8 && k < 16
  {
    var x, x' := if k < 8 then s.d[k] else s.a[k - 8], if k < 8 then m'.d[k] else m'.a[k - 8];
    var listed, off := Bit(mask, if mode == 4 then 15 - k else k), at + PlaceOf(mask, mode == 4, size, k);
    var moves, total := (mode == 3 || mode == 4) && k == 8 + reg, size.Bytes() * Ones(mask);
    && (moves ==> x' == (x + if mode == 3 then total else -total) % 0x1_0000_0000)
    && (toRegisters && !moves && listed ==>
          0 <= off <= off + size.Bytes() <= |s.mem|
          && Signed(x', LongSize) == Signed(Operand(s.mem, off, size), size))
    && (!moves && !(toRegisters && listed) ==> x' == x)
    && (!toRegisters && listed ==>
          0 <= off <= off + size.Bytes() <= |m'.mem|
          && Number(m'.mem[off..off + size.Bytes()]) == x % size.Modulus())
  }

  /** Where the block of a transfer starts in memory. */
  function BlockIndex(s: Machine, mask: Word, size: Size, mode: int, reg: int): nat
    requires 0 <= reg < 8
  {
    (if mode == 4 then s.a[reg] - size.Bytes() * Ones(mask) else EaAddress(s, mode, reg, size)) % 0x100_0000
  }

  predicate TransferShown(s: Machine, mask: Word, toRegisters: bool, size: Size, mode: int, reg: int, m': Machine)
    requires 0 <= reg < 8
  {
    var at := BlockIndex(s, mask, size, mode, reg);
    forall k: nat :: k < 16 ==> RegisterShown(s, mask, toRegisters, size, mode, reg, at, m', k)
  }

  lemma BlockPlaces(mask: Word, down: bool, size: Size, k: nat)
    requires k < 16
    ensures Offset(mask, down, size, k) == PlaceOf(mask, down, size, k)
    ensures Offset(mask, down, size, 16) == size.Bytes() * Ones(mask)
  {
    hide Offset, D.OnesBelow, Ones, Size.Bytes;
    OffsetOnes(mask, size, k);
    BlockSize(mask, down, size);
  }

  lemma BlockShown(m: Machine, mask: Word, down: bool, size: Size, mem: seq<Byte>, at: nat, k: nat)
    requires k < 16 && Listed(mask, down, k)
    requires var block := Block(m.d, m.a, mask, down, size, 0, 16);
             at + |block| <= |mem| && mem[at..at + |block|] == block
    ensures var off := at + Offset(mask, down, size, k);
            off + size.Bytes() <= |mem| && Number(mem[off..off + size.Bytes()])
                                           == RegisterAt(m.d, m.a, k) % size.Modulus()
  {
    hide Listed, RegisterAt, Offset, Block, OperandBytes, Number;
    var block, o, n := Block(m.d, m.a, mask, down, size, 0, 16), Offset(mask, down, size, k), size.Bytes();
    ZeroOffset(mask, down, size);
    BlockEntry(m, mask, down, size, 0, 16, k);
    StoredNumber(RegisterAt(m.d, m.a, k), size);
    InnerSlice(mem, at, block, o, o + n);
  }

  /** The stored block is in its place. */
  lemma StoredPlace(s: Machine, mask: Word, down: bool, size: Size, base: Long, mem: seq<Byte>, k: nat)
    requires k < 16 && Listed(mask, down, k)
    requires var block := Block(s.d, s.a, mask, down, size, 0, 16);
             Mask24(base) + |block| <= |s.mem| && mem == Splice(s.mem, Mask24(base), block)
    ensures var off := base % 0x100_0000 + PlaceOf(mask, down, size, k);
            0 <= off <= off + size.Bytes() <= |mem|
            && Number(mem[off..off + size.Bytes()]) == RegisterAt(s.d, s.a, k) % size.Modulus()
  {
    hide Block, Offset, Number, Bit, PlaceOf, Mask24, Splice, RegisterAt, Listed;
    var at, block := Mask24(base), Block(s.d, s.a, mask, down, size, 0, 16);
    BlockPlaces(mask, down, size, k);
    PlainIndex(base);
    assert mem[at..at + |block|] == block;
    BlockShown(s, mask, down, size, mem, at, k);
  }

  lemma StoreIsShown(s: Machine, mask: Word, size: Size, mode: int, reg: int, m': Machine, k: nat)
    requires 0 <= reg < 8 && k < 16 && mode != 3
    ensures Transferred(s, mask, false, size, mode, reg, m') ==>
      RegisterShown(s, mask, false, size, mode, reg, BlockIndex(s, mask, size, mode, reg), m', k)
  {
    hide Block, Offset, EaAddress, Number, Ones, Bit, PlaceOf, Mask24, Minus, Splice, Signed, Operand;
    var total := size.Bytes() * Ones(mask);
    BlockPlaces(mask, mode == 4, size, k);
    BusIndex(s.a[reg], total);
    WrappedDown(s.a[reg], total);
    PlainIndex(Minus(s.a[reg], total));
    if Transferred(s, mask, false, size, mode, reg, m') && Listed(mask, mode == 4, k) {
      if mode == 4 {
        StoredPlace(s, mask, true, size, Minus(s.a[reg], total), m'.mem, k);
      } else {
        StoredPlace(s, mask, false, size, EaAddress(s, mode, reg, size), m'.mem, k);
      }
    }
  }

  lemma PlainIndex(address: Long)
    ensures Mask24(address) == address % 0x100_0000
  {
  }

  lemma WrappedDown(x: Long, n: int)
    ensures Minus(x, n) == (x - n) % 0x1_0000_0000
  {
  }

  lemma LoadIsShown(s: Machine, mask: Word, size: Size, mode: int, reg: int, m': Machine, k: nat)
    requires 0 <= reg < 8 && k < 16 && mode != 4
    ensures Transferred(s, mask, true, size, mode, reg, m') ==>
      RegisterShown(s, mask, true, size, mode, reg, BlockIndex(s, mask, size, mode, reg), m', k)
  {
    hide Offset, Number, Ones, Bit, PlaceOf, Mask24, Operand, Extend, Signed, EaAddress;
    IncrementAddress(s, reg, size);
    BlockPlaces(mask, false, size, k);
    PlainIndex(EaAddress(s, mode, reg, size));
    var at := Mask24(EaAddress(s, mode, reg, size));
    if Transferred(s, mask, true, size, mode, reg, m') {
      if mode == 3 {
        var a: Registers :| LoadedBelow(s, Mask24(s.a[reg]), mask, size, 16, m'.d, a)
                            && m'.a == SetRegister(a, reg, Plus(s.a[reg], Offset(mask, false, size, 16)));
        LoadedNumber(s, at, mask, size, m'.d, a, k);
        BaseRegister(m'.d, a, reg, Plus(s.a[reg], Offset(mask, false, size, 16)), k);
      } else {
        LoadedNumber(s, at, mask, size, m'.d, m'.a, k);
      }
    }
  }

  lemma IncrementAddress(s: Machine, reg: int, size: Size)
    requires 0 <= reg < 8
    ensures EaAddress(s, 3, reg, size) == s.a[reg]
  {
  }

  lemma LoadedNumber(s: Machine, at: nat, mask: Word, size: Size, d: Registers, a: Registers, k: nat)
    requires k < 16 && at + Offset(mask, false, size, 16) <= |s.mem| && LoadedBelow(s, at, mask, size, 16, d, a)
    ensures var off := at + Offset(mask, false, size, k);
            if Bit(mask, k) then off + size.Bytes() <= |s.mem|
                                 && Signed(RegisterAt(d, a, k), LongSize) == Signed(Operand(s.mem, off, size), size)
            else RegisterAt(d, a, k) == RegisterAt(s.d, s.a, k)
  {
    hide Offset, Operand, Extend, Signed, RegisterAt, Bit;
    if Listed(mask, false, k) {
      var off := at + Offset(mask, false, size, k);
      assert EntryInside(mask, size, k, at, |s.mem|);
      ExtendSigned(Operand(s.mem, off, size), size);
    }
  }

  lemma TransferIsShown(s: Machine, mask: Word, toRegisters: bool, size: Size, mode: int, reg: int, m': Machine)
    requires 0 <= reg < 8 && MovemMode(toRegisters, mode, reg)
    ensures Transferred(s, mask, toRegisters, size, mode, reg, m') ==>
      TransferShown(s, mask, toRegisters, size, mode, reg, m')
  {
    hide Transferred, RegisterShown, BlockIndex;
    if Transferred(s, mask, toRegisters, size, mode, reg, m') {
      var at := BlockIndex(s, mask, size, mode, reg);
      forall k: nat | k < 16 ensures RegisterShown(s, mask, toRegisters, size, mode, reg, at, m', k) {
        if toRegisters {
          LoadIsShown(s, mask, size, mode, reg, m', k);
        } else {
          StoreIsShown(s, mask, size, mode, reg, m', k);
        }
      }
    }
  }

  lemma MovedIsShown(m: Machine, toRegisters: bool, size: Size, mode: int, reg: int, m': Machine)
    requires 0 <= reg < 8 && MovemMode(toRegisters, mode, reg)
    ensures MovemMoved(m, toRegisters, size, mode, reg, m')
            && TransferRoom(AfterMask(m), WordAt(m, m.pc), toRegisters, size, mode, reg) ==>
      TransferShown(AfterMask(m), WordAt(m, m.pc), toRegisters, size, mode, reg, m')
  {
    hide Transferred, TransferShown, TransferRoom, WordAt, AfterMask, MovemProgress, MovemEnd, Offset;
    TransferIsShown(AfterMask(m), WordAt(m, m.pc), toRegisters, size, mode, reg, m');
  }

  /** The lead-in pays for the opcode and the mask, each extension word, an index, and a load's trailing read. */
  lemma LeadCount(mode: int, reg: int, toRegisters: bool)
    requires 0 <= mode < 8 && 0 <= reg < 8 && MovemMode(toRegisters, mode, reg)
    ensures MovemLead(mode, reg, toRegisters)
            == 8 + 4 * ExtensionWords(mode, reg, WordSize) + (if mode == 6 || (mode == 7 && reg == 3) then 2 else 0)
               + (if toRegisters then 4 else 0)
  {
  }

  /** The exact effect of the transfers, their exact cost, and that a block with room is moved as a whole. */
  ghost predicate MovemDone(m: Machine, toRegisters: bool, size: Size, mode: int, reg: int, m': Machine)
    requires 0 <= reg < 8
  {
    if !MovemMode(toRegisters, mode, reg) then Raised(m, 4, m') else MovemMoved(m, toRegisters, size, mode, reg, m')
  }

  ghost predicate MovemMoved(m: Machine, toRegisters: bool, size: Size, mode: int, reg: int, m': Machine)
    requires 0 <= reg < 8
  {
    var s, mask, p := AfterMask(m), WordAt(m, m.pc), MovemProgress(m, toRegisters, size, mode, reg);
    && p.Going? && m' == MovemEnd(p.at, p.address, toRegisters, mode, reg)
    && m'.slice.remaining == m.slice.remaining - MovemLead(mode, reg, toRegisters)
       - 2 * Offset(mask, mode == 4, size, 16)
    && (TransferRoom(s, mask, toRegisters, size, mode, reg) ==> Transferred(s, mask, toRegisters, size, mode, reg, m'))
  }

  /** Latches, charges and the PC do not matter to the specifications of the transfers. */
  lemma TransferSame(s: Machine, m3: Machine, mask: Word, toRegisters: bool, size: Size, mode: int, reg: int,
                     m': Machine)
    requires 0 <= reg < 8 && m3 == s.(pc := m3.pc, fault := m3.fault, slice := m3.slice)
    ensures BlockRoom(m3, Minus(s.a[reg], Offset(mask, true, size, 16)), mask, true, size)
            == BlockRoom(s, Minus(s.a[reg], Offset(mask, true, size, 16)), mask, true, size)
    ensures StoredDown(m3, mask, size, reg, m') == StoredDown(s, mask, size, reg, m')
    ensures LoadedUp(m3, mask, size, reg, m') ==> LoadedUp(s, mask, size, reg, m')
  {
    hide Mask24, Plus, Minus, Offset, Block, SetRegister;
    if LoadedUp(m3, mask, size, reg, m') {
      var a: Registers :| LoadedBelow(m3, Mask24(m3.a[reg]), mask, size, 16, m'.d, a)
                          && m'.a == SetRegister(a, reg, Plus(m3.a[reg], Offset(mask, false, size, 16)));
      hide Listed, LoadedValue;
      assert LoadedBelow(s, Mask24(s.a[reg]), mask, size, 16, m'.d, a);
    }
  }

  lemma TransferSameAt(s: Machine, m3: Machine, mask: Word, size: Size, address: Long, m': Machine)
    requires m3 == s.(pc := m3.pc, fault := m3.fault, slice := m3.slice)
    ensures BlockRoom(m3, address, mask, false, size) == BlockRoom(s, address, mask, false, size)
    ensures StoredUp(m3, mask, size, address, m') == StoredUp(s, mask, size, address, m')
    ensures LoadedFrom(m3, mask, size, address, m') ==> LoadedFrom(s, mask, size, address, m')
  {
    hide Mask24, Offset, Block, Listed, LoadedValue;
  }

  lemma MovemFinished(m: Machine, toRegisters: bool, size: Size, mode: int, reg: int, r: Outcome<()>, m': Machine)
    requires 0 <= reg < 8 && 2 <= mode < 8 && MovemMode(toRegisters, mode, reg)
    ensures
      var s, mask := AfterMask(m), WordAt(m, m.pc);
      var address := MovemAddress(s, mode, reg, size);
      && (!toRegisters && mode == 4 && BlockRoom(s, Minus(s.a[reg], Offset(mask, true, size, 16)), mask, true, size) ==>
            r.Ok? && StoredDown(s, mask, size, reg, m'))
      && (!toRegisters && mode != 4 && BlockRoom(s, address, mask, false, size) ==>
          r.Ok? && StoredUp(s, mask, size, address, m'))
      && (toRegisters && BlockRoom(s, address, mask, false, size) ==>
            r.Ok? && (if mode == 3 then LoadedUp(s, mask, size, reg, m') else LoadedFrom(s, mask, size, address, m')))
      ==> (TransferRoom(s, mask, toRegisters, size, mode, reg) ==>
             r.Ok? && Transferred(s, mask, toRegisters, size, mode, reg, m'))
  {
    hide WordAt, Minus, Offset, BlockRoom, StoredDown, StoredUp, LoadedUp, LoadedFrom, AfterMask;
  }
}
