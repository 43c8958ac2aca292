/**
 Machine words of 32 and 64 bits as numbers, and what the loops of the varint readers do to them. The
 facts about bits are stated one by one, for each of the shifts that the readers reach.
 */
module Words {
  // ---------------------------------------------------------------------------------------
  // 32 bits
  // ---------------------------------------------------------------------------------------

  function Number32(x: bv32): (n: nat)
    ensures n < 0x1_0000_0000
  {
    x as int
  }

  function Word32(n: nat): bv32
    requires n < 0x1_0000_0000
  {
    n as bv32
  }

  lemma Word32Back(x: bv32)
    ensures Word32(Number32(x)) == x
  {
  }

  /** `acc | digit << i` */
  function Gather32(acc: bv32, digit: bv32, i: bv8): bv32
    requires i < 32
  {
    acc | (digit << i)
  }

  /** The word has no bits from the i-th on. */
  predicate Under32(acc: bv32, i: bv8) {
    i >= 32 || acc >> i == 0
  }

  function SevenBits32(x: bv32): bv32 {
    x & 0x7F
  }

  lemma Or32At0(digit: bv32)
    ensures 0 | (digit << 0) == digit
  {
  }

  lemma Seven32(digit: bv32)
    requires digit < 0x80
    ensures digit == digit & 0x7F
  {
  }

  /** Or-ing in above the bits gathered is adding. */
  lemma Or32At7(acc: bv32, digit: bv32)
    requires acc == acc & 0x7F && digit == digit & 0x7F
    ensures Number32(acc | (digit << 7)) == Number32(acc) + Number32(digit) * 0x80
  {
  }

  lemma Or32At14(acc: bv32, digit: bv32)
    requires acc == acc & 0x3FFF && digit == digit & 0x7F
    ensures Number32(acc | (digit << 14)) == Number32(acc) + Number32(digit) * 0x4000
  {
  }

  lemma Or32At21(acc: bv32, digit: bv32)
    requires acc == acc & 0x1F_FFFF && digit == digit & 0x7F
    ensures Number32(acc | (digit << 21)) == Number32(acc) + Number32(digit) * 0x20_0000
  {
  }

  /** The operations at each of the shifts. */
  lemma Shift32By0(acc: bv32, digit: bv32, i: bv8)
    requires i == 0 && Under32(acc, i)
    ensures Gather32(acc, digit, i) == acc | (digit << 0) && acc == 0
  {
  }

  lemma Shift32By7(acc: bv32, digit: bv32, i: bv8)
    requires i == 7 && Under32(acc, i)
    ensures Gather32(acc, digit, i) == acc | (digit << 7) && acc == acc & 0x7F
  {
  }

  lemma Shift32By14(acc: bv32, digit: bv32, i: bv8)
    requires i == 14 && Under32(acc, i)
    ensures Gather32(acc, digit, i) == acc | (digit << 14) && acc == acc & 0x3FFF
  {
  }

  lemma Shift32By21(acc: bv32, digit: bv32, i: bv8)
    requires i == 21 && Under32(acc, i)
    ensures Gather32(acc, digit, i) == acc | (digit << 21) && acc == acc & 0x1F_FFFF
  {
  }

  // The last shift, at which only the lowest bits fit

  /** The bits of a digit that fit. */
  function Fitting32(digit: bv32): bv32 {
    digit & 0xF
  }

  function Joined32(acc: bv32, digit: bv32): bv32 {
    acc | (digit << 28)
  }

  predicate LeavesRoom32(acc: bv32) {
    acc == acc & 0xFFF_FFFF
  }

  lemma Low32(digit: bv32)
    requires digit < 0x80
    ensures Number32(Fitting32(digit)) == Number32(digit) % 16
  {
  }

  lemma Room32(acc: bv32)
    requires Under32(acc, 28)
    ensures LeavesRoom32(acc)
  {
  }

  lemma Up32(acc: bv32)
    requires LeavesRoom32(acc)
    ensures Number32(acc << 4) == Number32(acc) * 16
  {
  }

  lemma Top32(acc: bv32)
    requires Under32(acc, 28)
    ensures Number32(acc) < 0x1000_0000
  {
    hide Number32, Under32, LeavesRoom32;
    Room32(acc);
    Up32(acc);
  }

  lemma Gather32Is(acc: bv32, digit: bv32)
    ensures Gather32(acc, digit, 28) == Joined32(acc, digit)
  {
  }

  lemma OrRaw32(acc: bv32, digit: bv32)
    requires acc == acc & 0xFFF_FFFF
    ensures Number32(acc | (digit << 28)) == Number32(acc) + Number32(digit & 0xF) * 0x1000_0000
  {
  }

  lemma Joined32Is(acc: bv32, digit: bv32)
    ensures Joined32(acc, digit) == acc | (digit << 28)
  {
  }

  lemma Fitting32Is(digit: bv32)
    ensures Fitting32(digit) == digit & 0xF
  {
  }

  lemma Room32Is(acc: bv32)
    requires LeavesRoom32(acc)
    ensures acc == acc & 0xFFF_FFFF
  {
  }

  lemma OrLow32(acc: bv32, digit: bv32)
    requires LeavesRoom32(acc)
    ensures Number32(Joined32(acc, digit)) == Number32(acc) + Number32(Fitting32(digit)) * 0x1000_0000
  {
    hide Number32, Joined32, LeavesRoom32, Fitting32;
    Room32Is(acc);
    Joined32Is(acc, digit);
    Fitting32Is(digit);
    OrRaw32(acc, digit);
  }

  lemma Or32At28(acc: bv32, digit: bv32)
    requires Under32(acc, 28) && digit < 0x80
    ensures Number32(Gather32(acc, digit, 28)) == Number32(acc) + Number32(digit) % 16 * 0x1000_0000
  {
    hide Number32, Gather32, Fitting32, Under32, LeavesRoom32, Joined32;
    Low32(digit);
    Room32(acc);
    Gather32Is(acc, digit);
    OrLow32(acc, digit);
  }

  lemma StillUnder32(acc: bv32, digit: bv32, i: bv8)
    requires i < 32 && Under32(acc, i) && digit < 0x80
    ensures Under32(Gather32(acc, digit, i), i + 7)
  {
  }

  // Bytes as words

  lemma Next32(x: bv32)
    requires x < 0xFF
    ensures Number32(x + 1) == Number32(x) + 1
  {
  }

  lemma NextByte32(x: bv32)
    requires x < 0xFF
    ensures x + 1 <= 0xFF
  {
  }

  lemma IsByte32(x: bv32)
    ensures Number32(x) < 0xFF <==> x < 0xFF
  {
  }

  lemma IsSmall32(x: bv32)
    ensures Number32(x) < 0x80 <==> x < 0x80
  {
  }

  lemma Zero32()
    ensures Number32(0) == 0
  {
  }

  /** A byte as a word. */
  lemma {:induction false} ByteWord32(b: nat)
    requires b <= 0xFF
    ensures Number32(Word32(b)) == b && Word32(b) <= 0xFF
  {
    hide Number32, Word32;
    Zero32();
    if b == 0 {
      Word32Back(0);
    } else {
      var x := Word32(b - 1);
      ByteWord32(b - 1);
      IsByte32(x);
      Next32(x);
      NextByte32(x);
      Word32Back(x + 1);
    }
  }

  lemma SevenOf32(x: bv32)
    requires x <= 0xFF
    ensures Number32(x & 0x7F) == if x < 0x80 then Number32(x) else Number32(x) - 0x80
  {
  }

  lemma SevenUnder32(x: bv32)
    ensures x & 0x7F < 0x80
  {
  }

  /** The bits of a byte that the varint readers take, as a word. */
  lemma Digit32(b: nat, digit: bv32)
    requires b <= 0xFF && digit == if b < 0x80 then Word32(b) else SevenBits32(Word32(b))
    ensures digit < 0x80 && Number32(digit) == b % 0x80
  {
    hide Number32, Word32;
    ByteWord32(b);
    IsSmall32(Word32(b));
    SevenOf32(Word32(b));
    SevenUnder32(Word32(b));
  }

  // ---------------------------------------------------------------------------------------
  // 64 bits
  // ---------------------------------------------------------------------------------------

  function Number64(x: bv64): (n: nat)
    ensures n < 0x1_0000_0000_0000_0000
  {
    x as int
  }

  function Word64(n: nat): bv64
    requires n < 0x1_0000_0000_0000_0000
  {
    n as bv64
  }

  lemma Word64Back(x: bv64)
    ensures Word64(Number64(x)) == x
  {
  }

  /** `acc | digit << i` */
  function Gather64(acc: bv64, digit: bv64, i: bv8): bv64
    requires i < 64
  {
    acc | (digit << i)
  }

  /** The word has no bits from the i-th on. */
  predicate Under64(acc: bv64, i: bv8) {
    i >= 64 || acc >> i == 0
  }

  function SevenBits64(x: bv64): bv64 {
    x & 0x7F
  }

  lemma Or64At0(digit: bv64)
    ensures 0 | (digit << 0) == digit
  {
  }

  lemma Seven64(digit: bv64)
    requires digit < 0x80
    ensures digit == digit & 0x7F
  {
  }

  /** Or-ing in above the bits gathered is adding. */
  lemma Or64At7(acc: bv64, digit: bv64)
    requires acc == acc & 0x7F && digit == digit & 0x7F
    ensures Number64(acc | (digit << 7)) == Number64(acc) + Number64(digit) * 0x80
  {
  }

  lemma Or64At14(acc: bv64, digit: bv64)
    requires acc == acc & 0x3FFF && digit == digit & 0x7F
    ensures Number64(acc | (digit << 14)) == Number64(acc) + Number64(digit) * 0x4000
  {
  }

  lemma Or64At21(acc: bv64, digit: bv64)
    requires acc == acc & 0x1F_FFFF && digit == digit & 0x7F
    ensures Number64(acc | (digit << 21)) == Number64(acc) + Number64(digit) * 0x20_0000
  {
  }

  lemma Or64At28(acc: bv64, digit: bv64)
    requires acc == acc & 0xFFF_FFFF && digit == digit & 0x7F
    ensures Number64(acc | (digit << 28)) == Number64(acc) + Number64(digit) * 0x1000_0000
  {
  }

  lemma Or64At35(acc: bv64, digit: bv64)
    requires acc == acc & 0x7_FFFF_FFFF && digit == digit & 0x7F
    ensures Number64(acc | (digit << 35)) == Number64(acc) + Number64(digit) * 0x8_0000_0000
  {
  }

  lemma Or64At42(acc: bv64, digit: bv64)
    requires acc == acc & 0x3FF_FFFF_FFFF && digit == digit & 0x7F
    ensures Number64(acc | (digit << 42)) == Number64(acc) + Number64(digit) * 0x400_0000_0000
  {
  }

  lemma Or64At49(acc: bv64, digit: bv64)
    requires acc == acc & 0x1_FFFF_FFFF_FFFF && digit == digit & 0x7F
    ensures Number64(acc | (digit << 49)) == Number64(acc) + Number64(digit) * 0x2_0000_0000_0000
  {
  }

  lemma Or64At56(acc: bv64, digit: bv64)
    requires acc == acc & 0xFF_FFFF_FFFF_FFFF && digit == digit & 0x7F
    ensures Number64(acc | (digit << 56)) == Number64(acc) + Number64(digit) * 0x100_0000_0000_0000
  {
  }

  /** The operations at each of the shifts. */
  lemma Shift64By0(acc: bv64, digit: bv64, i: bv8)
    requires i == 0 && Under64(acc, i)
    ensures Gather64(acc, digit, i) == acc | (digit << 0) && acc == 0
  {
  }

  lemma Shift64By7(acc: bv64, digit: bv64, i: bv8)
    requires i == 7 && Under64(acc, i)
    ensures Gather64(acc, digit, i) == acc | (digit << 7) && acc == acc & 0x7F
  {
  }

  lemma Shift64By14(acc: bv64, digit: bv64, i: bv8)
    requires i == 14 && Under64(acc, i)
    ensures Gather64(acc, digit, i) == acc | (digit << 14) && acc == acc & 0x3FFF
  {
  }

  lemma Shift64By21(acc: bv64, digit: bv64, i: bv8)
    requires i == 21 && Under64(acc, i)
    ensures Gather64(acc, digit, i) == acc | (digit << 21) && acc == acc & 0x1F_FFFF
  {
  }

  lemma Shift64By28(acc: bv64, digit: bv64, i: bv8)
    requires i == 28 && Under64(acc, i)
    ensures Gather64(acc, digit, i) == acc | (digit << 28) && acc == acc & 0xFFF_FFFF
  {
  }

  lemma Shift64By35(acc: bv64, digit: bv64, i: bv8)
    requires i == 35 && Under64(acc, i)
    ensures Gather64(acc, digit, i) == acc | (digit << 35) && acc == acc & 0x7_FFFF_FFFF
  {
  }

  lemma Shift64By42(acc: bv64, digit: bv64, i: bv8)
    requires i == 42 && Under64(acc, i)
    ensures Gather64(acc, digit, i) == acc | (digit << 42) && acc == acc & 0x3FF_FFFF_FFFF
  {
  }

  lemma Shift64By49(acc: bv64, digit: bv64, i: bv8)
    requires i == 49 && Under64(acc, i)
    ensures Gather64(acc, digit, i) == acc | (digit << 49) && acc == acc & 0x1_FFFF_FFFF_FFFF
  {
  }

  lemma Shift64By56(acc: bv64, digit: bv64, i: bv8)
    requires i == 56 && Under64(acc, i)
    ensures Gather64(acc, digit, i) == acc | (digit << 56) && acc == acc & 0xFF_FFFF_FFFF_FFFF
  {
  }

  // The last shift, at which only the lowest bits fit

  /** The bits of a digit that fit. */
  function Fitting64(digit: bv64): bv64 {
    digit & 0x1
  }

  function Joined64(acc: bv64, digit: bv64): bv64 {
    acc | (digit << 63)
  }

  predicate LeavesRoom64(acc: bv64) {
    acc == acc & 0x7FFF_FFFF_FFFF_FFFF
  }

  lemma Low64(digit: bv64)
    requires digit < 0x80
    ensures Number64(Fitting64(digit)) == Number64(digit) % 2
  {
  }

  lemma Room64(acc: bv64)
    requires Under64(acc, 63)
    ensures LeavesRoom64(acc)
  {
  }

  lemma Up64(acc: bv64)
    requires LeavesRoom64(acc)
    ensures Number64(acc << 1) == Number64(acc) * 2
  {
  }

  lemma Top64(acc: bv64)
    requires Under64(acc, 63)
    ensures Number64(acc) < 0x8000_0000_0000_0000
  {
    hide Number64, Under64, LeavesRoom64;
    Room64(acc);
    Up64(acc);
  }

  lemma Gather64Is(acc: bv64, digit: bv64)
    ensures Gather64(acc, digit, 63) == Joined64(acc, digit)
  {
  }

  lemma OrRaw64(acc: bv64, digit: bv64)
    requires acc == acc & 0x7FFF_FFFF_FFFF_FFFF
    ensures Number64(acc | (digit << 63)) == Number64(acc) + Number64(digit & 0x1) * 0x8000_0000_0000_0000
  {
  }

  lemma Joined64Is(acc: bv64, digit: bv64)
    ensures Joined64(acc, digit) == acc | (digit << 63)
  {
  }

  lemma Fitting64Is(digit: bv64)
    ensures Fitting64(digit) == digit & 0x1
  {
  }

  lemma Room64Is(acc: bv64)
    requires LeavesRoom64(acc)
    ensures acc == acc & 0x7FFF_FFFF_FFFF_FFFF
  {
  }

  lemma OrLow64(acc: bv64, digit: bv64)
    requires LeavesRoom64(acc)
    ensures Number64(Joined64(acc, digit)) == Number64(acc) + Number64(Fitting64(digit)) * 0x8000_0000_0000_0000
  {
    hide Number64, Joined64, LeavesRoom64, Fitting64;
    Room64Is(acc);
    Joined64Is(acc, digit);
    Fitting64Is(digit);
    OrRaw64(acc, digit);
  }

  lemma Or64At63(acc: bv64, digit: bv64)
    requires Under64(acc, 63) && digit < 0x80
    ensures Number64(Gather64(acc, digit, 63)) == Number64(acc) + Number64(digit) % 2 * 0x8000_0000_0000_0000
  {
    hide Number64, Gather64, Fitting64, Under64, LeavesRoom64, Joined64;
    Low64(digit);
    Room64(acc);
    Gather64Is(acc, digit);
    OrLow64(acc, digit);
  }

  lemma StillUnder64(acc: bv64, digit: bv64, i: bv8)
    requires i < 64 && Under64(acc, i) && digit < 0x80
    ensures Under64(Gather64(acc, digit, i), i + 7)
  {
  }

  // Bytes as words

  lemma Next64(x: bv64)
    requires x < 0xFF
    ensures Number64(x + 1) == Number64(x) + 1
  {
  }

  lemma NextByte64(x: bv64)
    requires x < 0xFF
    ensures x + 1 <= 0xFF
  {
  }

  lemma IsByte64(x: bv64)
    ensures Number64(x) < 0xFF <==> x < 0xFF
  {
  }

  lemma IsSmall64(x: bv64)
    ensures Number64(x) < 0x80 <==> x < 0x80
  {
  }

  lemma Zero64()
    ensures Number64(0) == 0
  {
  }

  /** A byte as a word. */
  lemma {:induction false} ByteWord64(b: nat)
    requires b <= 0xFF
    ensures Number64(Word64(b)) == b && Word64(b) <= 0xFF
  {
    hide Number64, Word64;
    Zero64();
    if b == 0 {
      Word64Back(0);
    } else {
      var x := Word64(b - 1);
      ByteWord64(b - 1);
      IsByte64(x);
      Next64(x);
      NextByte64(x);
      Word64Back(x + 1);
    }
  }

  lemma SevenOf64(x: bv64)
    requires x <= 0xFF
    ensures Number64(x & 0x7F) == if x < 0x80 then Number64(x) else Number64(x) - 0x80
  {
  }

  lemma SevenUnder64(x: bv64)
    ensures x & 0x7F < 0x80
  {
  }

  /** The bits of a byte that the varint readers take, as a word. */
  lemma Digit64(b: nat, digit: bv64)
    requires b <= 0xFF && digit == if b < 0x80 then Word64(b) else SevenBits64(Word64(b))
    ensures digit < 0x80 && Number64(digit) == b % 0x80
  {
    hide Number64, Word64;
    ByteWord64(b);
    IsSmall64(Word64(b));
    SevenOf64(Word64(b));
    SevenUnder64(Word64(b));
  }
}
