/** Unsigned machine words and the numbers they stand for: what the masks and shifts of Assignment 4 do to them. */
module MachineWords {

  // ---------- 16 bits ----------

  lemma Even16(w: bv16)
    requires w < 0x8000
    ensures (w << 1) as int == 2 * (w as int)
  {
  }

  lemma Odd16(w: bv16)
    requires w < 0x8000
    ensures ((w << 1) | 1) as int == 2 * (w as int) + 1
  {
  }

  lemma Below16(w: bv16)
    requires w as int < 0x8000
    ensures w < 0x8000
  {
  }

  lemma AppendBit16(w: bv16, k: int, bit: int) returns (r: bv16)
    requires w as int == k && k < 0x8000 && 0 <= bit < 2
    ensures r as int == 2 * k + bit
  {
    Below16(w);
    if bit == 0 {
      r := w << 1;
      Even16(w);
    } else {
      r := (w << 1) | 1;
      Odd16(w);
    }
  }

  /** Every number in range is the value of a word. */
  lemma {:induction false} Word16(n: nat) returns (w: bv16)
    requires n < 0x1_0000
    ensures w as int == n
  {
    if n == 0 {
      w := 0;
    } else {
      var high := Word16(n / 2);
      w := AppendBit16(high, n / 2, n % 2);
    }
  }

  lemma JoinBytes(high: bv8, low: bv8)
    ensures (((high as bv16) << 8) | (low as bv16)) as int == high as int * 256 + low as int
    ensures (high as bv16) as int == high as int && (low as bv16) as int == low as int
  {
  }

  lemma QuotientAndRemainder(n: int, q: int, r: int)
    requires n == q * 256 + r && 0 <= r < 256
    ensures n / 256 == q && n % 256 == r
  {
  }

  lemma Bytes(address: bv16) returns (high: bv8, low: bv8)
    ensures address == ((high as bv16) << 8) | (low as bv16)
    ensures high as bv16 == (address & 0xFF00) >> 8 && low as bv16 == address & 0x00FF
  {
    high, low := (address >> 8) as bv8, (address & 0x00FF) as bv8;
  }

  /** The masks and the shift of the first program split an address into page and offset. */
  lemma MasksSplitAddress(address: bv16)
    ensures ((address & 0xFF00) >> 8) as int == address as int / 256
    ensures (address & 0x00FF) as int == address as int % 256
  {
    var high, low := Bytes(address);
    JoinBytes(high, low);
    QuotientAndRemainder(address as int, high as int, low as int);
  }

  lemma Widen(w: bv16)
    ensures (w as bv32) as int == w as int
  {
  }

  // ---------- 32 bits ----------

  lemma Even32(w: bv32)
    requires w < 0x8000_0000
    ensures (w << 1) as int == 2 * (w as int)
  {
  }

  lemma Odd32(w: bv32)
    requires w < 0x8000_0000
    ensures ((w << 1) | 1) as int == 2 * (w as int) + 1
  {
  }

  lemma Below32(w: bv32)
    requires w as int < 0x8000_0000
    ensures w < 0x8000_0000
  {
  }

  lemma AppendBit32(w: bv32, k: int, bit: int) returns (r: bv32)
    requires w as int == k && k < 0x8000_0000 && 0 <= bit < 2
    ensures r as int == 2 * k + bit
  {
    Below32(w);
    if bit == 0 {
      r := w << 1;
      Even32(w);
    } else {
      r := (w << 1) | 1;
      Odd32(w);
    }
  }

  /** Every number in range is the value of a word. */
  lemma {:induction false} Word32(n: nat) returns (w: bv32)
    requires n < 0x1_0000_0000
    ensures w as int == n
  {
    if n == 0 {
      w := 0;
    } else {
      var high := Word32(n / 2);
      w := AppendBit32(high, n / 2, n % 2);
    }
  }

  lemma JoinWide(high: bv24, low: bv8)
    ensures (((high as bv32) << 8) | (low as bv32)) as int == high as int * 256 + low as int
    ensures (high as bv32) as int == high as int && (low as bv32) as int == low as int
  {
  }

  lemma WideParts(address: bv32) returns (high: bv24, low: bv8)
    ensures address == ((high as bv32) << 8) | (low as bv32)
    ensures high as bv32 == address >> 8 && low as bv32 == address & 0xFF
  {
    high, low := (address >> 8) as bv24, (address & 0xFF) as bv8;
  }

  /** The shift and the mask of the second program do so on its words. */
  lemma MasksSplitWideAddress(address: bv32)
    ensures (address >> 8) as int == address as int / 256
    ensures (address & 0xFF) as int == address as int % 256
  {
    var high, low := WideParts(address);
    JoinWide(high, low);
    QuotientAndRemainder(address as int, high as int, low as int);
  }

  lemma PartsOfJoin(frame: bv32, offset: bv32)
    requires frame < 0x100_0000 && offset < 256
    ensures ((frame << 8) | offset) >> 8 == frame && ((frame << 8) | offset) & 0xFF == offset
  {
  }

  lemma FromParts(p: int, q: int, r: int)
    requires p / 256 == q && p % 256 == r
    ensures p == q * 256 + r
  {
  }

  /** Shift and or put a physical address together, for as many frames as fit into a word. */
  lemma ShiftJoinsAddress(frame: bv32, offset: bv32)
    requires frame < 0x100_0000 && offset < 256
    ensures ((frame << 8) | offset) as int == frame as int * 256 + offset as int
  {
    PartsOfJoin(frame, offset);
    MasksSplitWideAddress((frame << 8) | offset);
    FromParts(((frame << 8) | offset) as int, frame as int, offset as int);
  }

  /** A frame number below 256 as a word. */
  lemma FrameWord(frame: nat) returns (f: bv32)
    requires frame < 256
    ensures f as int == frame && f < 256
  {
    f := Word32(frame);
    BelowByte(f);
  }

  lemma BelowByte(w: bv32)
    requires w as int < 256
    ensures w < 256
  {
  }

  lemma OffsetWord(w: bv16)
    ensures ((w & 0x00FF) as bv32) < 256
    ensures ((w & 0x00FF) as bv32) as int == (w & 0x00FF) as int
  {
  }

  lemma ShortWord(w: bv32)
    ensures w >> 8 < 256 <==> w < 0x1_0000
  {
  }

  lemma Value16(w: bv16)
    ensures 0 <= w as int < 0x1_0000
  {
  }

  lemma ShortHasSmallValue(w: bv32)
    requires w < 0x1_0000
    ensures w as int < 0x1_0000
  {
    var short := w as bv16;
    assert w == short as bv32;
    Widen(short);
    Value16(short);
  }

  lemma SmallValueIsShort(w: bv32)
    requires w as int < 0x1_0000
    ensures w < 0x1_0000
  {
  }

  /** An address on 32 bits has a page number below 256 exactly if it fits into 16. */
  lemma ShortAddress(w: bv32)
    ensures w >> 8 < 256 <==> w as int < 0x1_0000
  {
    ShortWord(w);
    if w < 0x1_0000 {
      ShortHasSmallValue(w);
    } else if w as int < 0x1_0000 {
      SmallValueIsShort(w);
    }
  }

  lemma ByteMask(w: bv32)
    ensures w & 0xFF < 256
  {
  }
}
