/**
 The readers and writers of typed fields of the byte array, as methods over the array: each one
 leaves the array standing for what the codec says of the array it found.
 */
module FieldIO {
  import opened Prelude
  import opened ByteArrays
  import opened Codec
  import opened Words

  // ---------------------------------------------------------------------------------------
  // Fixed-width numbers
  // ---------------------------------------------------------------------------------------

  /** Digit number j of x in base 256, the lowest first; of a negative x in w-byte two's complement. */
  function Digit(x: int, w: nat, j: nat): int {
    (if x < 0 then x + Pow256(w) else x) / Pow256(j) % 256
  }

  /** The bytes are the number x: its highest byte first in a big-endian array, its lowest first in a
      little-endian one. */
  predicate IsNumber(b: seq<Byte>, x: int, little: bool) {
    forall i | 0 <= i < |b| :: b[i] == Digit(x, |b|, if little then i else |b| - 1 - i)
  }

  /** The w bytes from `at` on are the number x. */
  predicate OnWire(bytes: seq<Byte>, at: nat, w: nat, x: int, little: bool) {
    at + w <= |bytes| && IsNumber(bytes[at..at + w], x, little)
  }

  lemma WrittenIs(v: Flat, nodeSize: nat, buf: seq<Byte>)
    requires v.InRange() && nodeSize > 0
    ensures var r := FlatWrite(v, nodeSize, buf);
            v.pos + |buf| <= |r.bytes| && r.pos == v.pos + |buf| && r.bytes[v.pos..v.pos + |buf|] == buf
  {
  }

  lemma EncodedNumber(w: nat, signed: bool, x: int, little: bool)
    requires Typed(Num(w, signed, x))
    ensures |Encode(Num(w, signed, x), little)| == w && IsNumber(Encode(Num(w, signed, x), little), x, little)
  {
    hide Typed, Ordered;
    forall i | 0 <= i < w
      ensures Encode(Num(w, signed, x), little)[i] == Digit(x, w, if little then i else w - 1 - i) {
      FixedBytes(w, signed, x, little, i);
    }
  }

  lemma NumberOnWire(v: Flat, nodeSize: nat, w: nat, signed: bool, x: int, little: bool)
    requires v.InRange() && nodeSize > 0 && Typed(Num(w, signed, x))
    ensures OnWire(WriteField(v, nodeSize, Num(w, signed, x), little).bytes, v.pos, w, x, little)
  {
    hide FlatWrite, Encode, Typed, IsNumber;
    WrittenIs(v, nodeSize, Encode(Num(w, signed, x), little));
    EncodedNumber(w, signed, x, little);
  }

  /** WriteFint8 to WriteFUint64: the memory image of the number, its bytes swapped when the array has
      the other byte order. */
  method WriteFixed(ba: ByteArray, w: nat, signed: bool, v: int)
    requires ba.Valid() && Typed(Num(w, signed, v))
    modifies ba, ba.Repr
    ensures ba.Valid() && fresh(ba.Repr - old(ba.Repr)) && ba.littleEndian == old(ba.littleEndian)
    ensures ba.Value() == WriteField(old(ba.Value()), ba.nodeSize, Num(w, signed, v), ba.littleEndian)
    ensures OnWire(ba.Value().bytes, old(ba.position), w, v, ba.littleEndian)
  {
    hide FlatWrite, Typed, OnWire;
    SomeNode(ba);
    NumberOnWire(ba.Value(), ba.nodeSize, w, signed, v, ba.littleEndian);
    TypedNumber(w, signed, v);
    var image := LittleBytes(ToUnsigned(v, w), w);
    if !ba.littleEndian {
      image := Reverse(image);
    }
    ba.Write(image);
  }

  lemma TypedNumber(w: nat, signed: bool, v: int)
    requires Typed(Num(w, signed, v))
    ensures 0 <= ToUnsigned(v, w) < Pow256(w) && w >= 1
  {
  }

  lemma {:induction false} LittleOf(b: seq<Byte>, w: nat)
    requires |b| == w
    ensures LittleBytes(FromLittle(b), w) == b
  {
    if b != [] {
      LittleOf(b[1..], w - 1);
      LowByte(b[0], FromLittle(b[1..]));
      assert b == [b[0]] + b[1..];
    }
  }

  lemma LowByte(low: Byte, high: nat)
    ensures (low + 256 * high) % 256 == low && (low + 256 * high) / 256 == high
  {
  }

  /** The value that a type of w bytes has for the bytes read. */
  lemma NumberFromWire(b: seq<Byte>, o: seq<Byte>, u: nat, w: nat, signed: bool, little: bool, x: int)
    requires |b| == w && o == Ordered(b, little) && u == FromLittle(o)
    requires u < Pow256(w) && x == FromUnsigned(u, w, signed)
    ensures IsNumber(b, x, little)
    ensures if signed then 0 - Pow256(w) as int <= 2 * x < Pow256(w) else 0 <= x < Pow256(w)
  {
    hide FromUnsigned, Ordered, IsNumber;
    UnsignedBack(u, w, signed);
    LittleOf(o, w);
    OrderedAt(b, little);
    DigitsOf(b, o, u, x, w, little);
  }

  lemma OrderedAt(b: seq<Byte>, little: bool)
    ensures forall i | 0 <= i < |b| :: b[i] == Ordered(b, little)[if little then i else |b| - 1 - i]
  {
  }

  lemma DigitsOf(b: seq<Byte>, o: seq<Byte>, u: nat, x: int, w: nat, little: bool)
    requires |b| == w && o == LittleBytes(u, w) && u == if x < 0 then x + Pow256(w) else x
    requires forall i | 0 <= i < w :: b[i] == o[if little then i else w - 1 - i]
    ensures IsNumber(b, x, little)
  {
    hide Digit;
    forall i | 0 <= i < w ensures b[i] == Digit(x, w, if little then i else w - 1 - i) {
      DigitFrom(x, u, w, if little then i else w - 1 - i);
    }
  }

  lemma DigitFrom(x: int, u: nat, w: nat, j: nat)
    requires j < w && u == if x < 0 then x + Pow256(w) else x
    ensures Digit(x, w, j) == LittleBytes(u, w)[j]
  {
    LittleAt(u, w, j);
  }

  lemma UnsignedBack(u: nat, w: nat, signed: bool)
    requires u < Pow256(w)
    ensures var x := FromUnsigned(u, w, signed);
            && (if x < 0 then x + Pow256(w) else x) == u
            && (if signed then 0 - Pow256(w) as int <= 2 * x < Pow256(w) else 0 <= x < Pow256(w))
  {
  }

  /** ReadFint8 to ReadFUint64: the number that the next w bytes are. */
  method ReadNumber(ba: ByteArray, w: nat, signed: bool) returns (r: Result<Field>)
    requires ba.Valid()
    modifies ba`cur, ba`position
    ensures ba.Valid() && (r, ba.Value()) == ReadField(old(ba.Value()), KNum(w, signed), ba.littleEndian)
    ensures r.Ok? ==>
              && r.value.Num? && OnWire(old(ba.Value()).bytes, old(ba.position), w, r.value.v, ba.littleEndian)
              && (if signed then 0 - Pow256(w) as int <= 2 * r.value.v < Pow256(w) else 0 <= r.value.v < Pow256(w))
  {
    hide FlatRead, IsNumber, FromUnsigned;
    ghost var v := ba.Value();
    var bytes := ba.Read(w);
    if bytes.Err? {
      return Err(bytes.fault);
    }
    ReadIs(v, w, bytes.value);
    var image := bytes.value;
    if !ba.littleEndian {
      image := Reverse(image);
    }
    var u := FromLittle(image);
    var x := FromUnsigned(u, w, signed);
    NumberFromWire(bytes.value, image, u, w, signed, ba.littleEndian, x);
    r := Ok(Num(w, signed, x));
  }

  lemma ReadIs(v: Flat, n: nat, b: seq<Byte>)
    requires v.InRange() && FlatRead(v, n).0 == Ok(b)
    ensures v.pos + n <= |v.bytes| && b == v.bytes[v.pos..v.pos + n]
  {
  }

  // ---------------------------------------------------------------------------------------
  // Varints
  // ---------------------------------------------------------------------------------------

  /** The loop of the varint writers. */
  method FillVar(tmp: array<Byte>, u: nat) returns (i: nat)
    requires |VarBytes(u)| <= tmp.Length
    modifies tmp
    ensures i <= tmp.Length && tmp[..i] == VarBytes(u)
  {
    var val := u;
    i := 0;
    while val >= 0x80
      invariant i + |VarBytes(val)| <= tmp.Length && VarBytes(u) == tmp[..i] + VarBytes(val)
    {
      ghost var before := tmp[..i];
      tmp[i] := 0x80 + val % 0x80;
      i := i + 1;
      assert tmp[..i] == before + [0x80 + val % 0x80];
      val := val / 0x80;
    }
    ghost var before := tmp[..i];
    tmp[i] := val;
    i := i + 1;
    assert tmp[..i] == before + [val];
  }

  /** WriteVarUint32 and WriteVarUint64: the bytes are gathered in a buffer of 5 or 10 bytes, which is
      never overrun, and written together. */
  method WriteVarUint(ba: ByteArray, bits: nat, u: nat)
    requires ba.Valid() && Typed(UVar(bits, u))
    modifies ba, ba.Repr
    ensures ba.Valid() && fresh(ba.Repr - old(ba.Repr)) && ba.littleEndian == old(ba.littleEndian)
    ensures ba.Value() == FlatWrite(old(ba.Value()), ba.nodeSize, VarBytes(u))
  {
    hide FlatWrite;
    VarFits(u);
    var tmp := new Byte[if bits == 32 then 5 else 10];
    var i := FillVar(tmp, u);
    ba.Write(tmp[..i]);
  }

  lemma NoBits()
    ensures Under32(0, 0) && Under64(0, 0) && Number32(0) == 0 && Number64(0) == 0 && Shift(0) == 0 && Reached(0)
  {
  }

  /** The shifts the loops reach, as numbers. */
  function Shift(i: bv8): nat {
    i as nat
  }

  predicate Reached(i: bv8) {
    i as nat % 7 == 0
  }

  lemma ShiftLess(i: bv8)
    ensures (i < 32 <==> Shift(i) < 32) && (i < 64 <==> Shift(i) < 64)
  {
  }

  lemma NextShift(i: bv8)
    requires i < 64 && Reached(i)
    ensures Shift(i + 7) == Shift(i) + 7 && Reached(i + 7)
    ensures (i < 32 ==> i + 7 < 39) && i + 7 < 71
  {
  }

  lemma ShiftIs(i: bv8)
    requires i < 64 && Reached(i)
    ensures i == 0 || i == 7 || i == 14 || i == 21 || i == 28 || i == 35 || i == 42 || i == 49 || i == 56 || i == 63
  {
  }

  lemma Places()
    ensures Pow2(7) == 0x80 && Pow2(14) == 0x4000 && Pow2(21) == 0x20_0000 && Pow2(28) == 0x1000_0000
    ensures Pow2(35) == 0x8_0000_0000 && Pow2(42) == 0x400_0000_0000 && Pow2(49) == 0x2_0000_0000_0000
    ensures Pow2(56) == 0x100_0000_0000_0000 && Pow2(63) == 0x8000_0000_0000_0000
  {
    PlaceUp(0, 1);
    PlaceUp(7, 0x80);
    PlaceUp(14, 0x4000);
    PlaceUp(21, 0x20_0000);
    PlaceUp(28, 0x1000_0000);
    PlaceUp(35, 0x8_0000_0000);
    PlaceUp(42, 0x400_0000_0000);
    PlaceUp(49, 0x2_0000_0000_0000);
    PlaceUp(56, 0x100_0000_0000_0000);
  }

  lemma PlaceUp(shift: nat, p: nat)
    requires Pow2(shift) == p
    ensures Pow2(shift + 7) == 128 * p
  {
    Pow2Add7(shift);
  }

  lemma Adds(acc: nat, digit: nat, shift: nat, bits: nat, sum: nat)
    requires sum == acc + digit * Pow2(shift) && sum < Pow2(bits)
    ensures sum == AddBits(acc, digit, shift, bits)
  {
    AddFits(acc, digit, shift, bits);
  }

  /** On 32-bit words, or-ing the bits of a byte in above those gathered is adding the byte times a power
      of two, less what does not fit the word. */
  lemma OrIsAdd32(acc: bv32, digit: bv32, i: bv8, a: nat, d: nat, x: nat)
    requires i < 32 && Reached(i) && Under32(acc, i) && digit < 0x80
    requires a == Number32(acc) && d == Number32(digit) && x == Number32(Gather32(acc, digit, i))
    ensures x == AddBits(a, d, Shift(i), 32)
  {
    hide AddBits, Number32, Gather32, Under32, Reached;
    ShiftIs(i);
    Seven32(digit);
    Powers();
    Places();
    if i == 0 {
      Zero32();
      Shift32By0(acc, digit, i);
      Or32At0(digit);
      Adds(a, d, 0, 32, x);
    } else if i == 7 {
      Shift32By7(acc, digit, i);
      Or32At7(acc, digit);
      Adds(a, d, 7, 32, x);
    } else if i == 14 {
      Shift32By14(acc, digit, i);
      Or32At14(acc, digit);
      Adds(a, d, 14, 32, x);
    } else if i == 21 {
      Shift32By21(acc, digit, i);
      Or32At21(acc, digit);
      Adds(a, d, 21, 32, x);
    } else {
      Top32(acc);
      Or32At28(acc, digit);
      AddsCut32(a, d, x);
    }
  }

  /** At the last shift the highest bits of the byte are lost. */
  lemma AddsCut32(acc: nat, digit: nat, sum: nat)
    requires acc < 0x1000_0000 && sum == acc + digit % 16 * 0x1000_0000
    ensures sum == AddBits(acc, digit, 28, 32)
  {
    Powers();
    Places();
    LastPlace32(acc, digit);
  }

  lemma LastPlace32(acc: nat, digit: nat)
    requires acc < 0x1000_0000
    ensures (acc + digit * 0x1000_0000) % 0x1_0000_0000 == acc + digit % 16 * 0x1000_0000
  {
  }

  /** On 64-bit words, or-ing the bits of a byte in above those gathered is adding the byte times a power
      of two, less what does not fit the word. */
  lemma OrIsAdd64(acc: bv64, digit: bv64, i: bv8, a: nat, d: nat, x: nat)
    requires i < 64 && Reached(i) && Under64(acc, i) && digit < 0x80
    requires a == Number64(acc) && d == Number64(digit) && x == Number64(Gather64(acc, digit, i))
    ensures x == AddBits(a, d, Shift(i), 64)
  {
    hide AddBits, Number64, Gather64, Under64, Reached;
    ShiftIs(i);
    Seven64(digit);
    Powers();
    Places();
    if i == 0 {
      Zero64();
      Shift64By0(acc, digit, i);
      Or64At0(digit);
      Adds(a, d, 0, 64, x);
    } else if i == 7 {
      Shift64By7(acc, digit, i);
      Or64At7(acc, digit);
      Adds(a, d, 7, 64, x);
    } else if i == 14 {
      Shift64By14(acc, digit, i);
      Or64At14(acc, digit);
      Adds(a, d, 14, 64, x);
    } else if i == 21 {
      Shift64By21(acc, digit, i);
      Or64At21(acc, digit);
      Adds(a, d, 21, 64, x);
    } else if i == 28 {
      Shift64By28(acc, digit, i);
      Or64At28(acc, digit);
      Adds(a, d, 28, 64, x);
    } else if i == 35 {
      Shift64By35(acc, digit, i);
      Or64At35(acc, digit);
      Adds(a, d, 35, 64, x);
    } else if i == 42 {
      Shift64By42(acc, digit, i);
      Or64At42(acc, digit);
      Adds(a, d, 42, 64, x);
    } else if i == 49 {
      Shift64By49(acc, digit, i);
      Or64At49(acc, digit);
      Adds(a, d, 49, 64, x);
    } else if i == 56 {
      Shift64By56(acc, digit, i);
      Or64At56(acc, digit);
      Adds(a, d, 56, 64, x);
    } else {
      Top64(acc);
      Or64At63(acc, digit);
      AddsCut64(a, d, x);
    }
  }

  /** At the last shift the highest bits of the byte are lost. */
  lemma AddsCut64(acc: nat, digit: nat, sum: nat)
    requires acc < 0x8000_0000_0000_0000 && sum == acc + digit % 2 * 0x8000_0000_0000_0000
    ensures sum == AddBits(acc, digit, 63, 64)
  {
    Powers();
    Places();
    LastPlace64(acc, digit);
  }

  lemma LastPlace64(acc: nat, digit: nat)
    requires acc < 0x8000_0000_0000_0000
    ensures (acc + digit * 0x8000_0000_0000_0000) % 0x1_0000_0000_0000_0000 == acc + digit % 2 * 0x8000_0000_0000_0000
  {
  }

  /** One turn of the loop of the varint readers. */
  lemma ReadVarStep(v: Flat, acc: nat, shift: nat, bits: nat, r: Result<seq<Byte>>, v1: Flat)
    requires v.InRange() && (r, v1) == FlatRead(v, 1)
    ensures v1.InRange() && (r.Ok? ==> |r.value| == 1 && |v1.bytes| - v1.pos < |v.bytes| - v.pos)
    ensures ReadVar(v, acc, shift, bits)
            == if r.Err? then (Err(r.fault), v1)
               else if shift >= bits then (Err(WideShift), v1)
               else if r.value[0] < 128 then (Ok(AddBits(acc, r.value[0], shift, bits)), v1)
               else ReadVar(v1, AddBits(acc, r.value[0] - 128, shift, bits), shift + 7, bits)
  {
    hide AddBits;
  }

  /** The loop of the 32-bit reader has come from v0 to v, with the bits below i gathered in val. */
  ghost predicate Reads32(v0: Flat, v: Flat, val: bv32, i: bv8) {
    && v0.InRange() && v.InRange() && i < 39 && Reached(i) && Under32(val, i)
    && ReadVar(v, Number32(val), Shift(i), 32) == ReadVar(v0, 0, 0, 32)
  }

  lemma StartsReading32(v: Flat)
    requires v.InRange()
    ensures Reads32(v, v, 0, 0)
  {
    NoBits();
  }

  /** The turn in which the loop gives up. */
  lemma ReadsNoMore32(v0: Flat, v: Flat, val: bv32, i: bv8, r: Result<seq<Byte>>, v1: Flat)
    requires Reads32(v0, v, val, i) && (r, v1) == FlatRead(v, 1)
    ensures r.Ok? ==> |r.value| == 1 && |v1.bytes| - v1.pos < |v.bytes| - v.pos
    ensures r.Err? ==> ReadVar(v0, 0, 0, 32) == (Err(r.fault), v1)
    ensures r.Ok? && i >= 32 ==> ReadVar(v0, 0, 0, 32) == (Err(WideShift), v1)
  {
    hide AddBits, FlatRead, Number32, Under32, Shift, Reached;
    ReadVarStep(v, Number32(val), Shift(i), 32, r, v1);
    ShiftLess(i);
  }

  /** What a byte more, gathered as its bits, makes of the word. */
  lemma Gathers32(val: bv32, i: bv8, byte: Byte, digit: bv32, val': bv32)
    requires i < 32 && Reached(i) && Under32(val, i) && val' == Gather32(val, digit, i)
    requires digit == (if byte < 0x80 then Word32(byte) else SevenBits32(Word32(byte)))
    ensures Number32(val') == AddBits(Number32(val), byte % 0x80, Shift(i), 32)
    ensures Under32(val', i + 7) && Reached(i + 7) && Shift(i + 7) == Shift(i) + 7 && i + 7 < 39
  {
    hide AddBits, Number32, Word32, Gather32, Under32, SevenBits32, Shift, Reached;
    Digit32(byte, digit);
    OrIsAdd32(val, digit, i, Number32(val), Number32(digit), Number32(val'));
    StillUnder32(val, digit, i);
    NextShift(i);
  }

  /** A byte more, be it the last. */
  lemma ReadsMore32(v0: Flat, v: Flat, val: bv32, i: bv8, byte: Byte, v1: Flat, digit: bv32, val': bv32)
    requires Reads32(v0, v, val, i) && (Ok([byte]), v1) == FlatRead(v, 1) && i < 32
    requires digit == (if byte < 0x80 then Word32(byte) else SevenBits32(Word32(byte)))
    requires val' == Gather32(val, digit, i)
    ensures byte < 0x80 ==> ReadVar(v0, 0, 0, 32) == (Ok(Number32(val')), v1)
    ensures byte >= 0x80 ==> Reads32(v0, v1, val', i + 7)
  {
    hide AddBits, FlatRead, Number32, Word32, Gather32, Under32, SevenBits32, Shift, Reached;
    ReadVarStep(v, Number32(val), Shift(i), 32, Ok([byte]), v1);
    ShiftLess(i);
    Gathers32(val, i, byte, digit, val');
  }

  /** ReadVarUint32. */
  method ReadVarUint32(ba: ByteArray) returns (r: Result<nat>)
    requires ba.Valid()
    modifies ba`cur, ba`position
    ensures ba.Valid() && (r, ba.Value()) == ReadVar(old(ba.Value()), 0, 0, 32)
  {
    hide Reads32, FlatRead, Number32, Word32, Gather32, SevenBits32, ByteArray.Valid, ByteArray.Value;
    var val: bv32, i: bv8 := 0, 0;
    StartsReading32(ba.Value());
    while true
      invariant ba.Valid() && Reads32(old(ba.Value()), ba.Value(), val, i)
      decreases |ba.Value().bytes| - ba.Value().pos
    {
      ghost var v, before := ba.Value(), val;
      var tmp := ba.Read(1);
      ReadsNoMore32(old(ba.Value()), v, val, i, tmp, ba.Value());
      if tmp.Err? {
        return Err(tmp.fault);
      }
      if i >= 32 {
        return Err(WideShift);
      }
      var byte := tmp.value[0];
      assert tmp.value == [byte];
      var digit := if byte < 0x80 then Word32(byte) else SevenBits32(Word32(byte));
      val := Gather32(val, digit, i);
      ReadsMore32(old(ba.Value()), v, before, i, byte, ba.Value(), digit, val);
      if byte < 0x80 {
        return Ok(Number32(val));
      }
      i := i + 7;
    }
  }

  /** The loop of the 64-bit reader has come from v0 to v, with the bits below i gathered in val. */
  ghost predicate Reads64(v0: Flat, v: Flat, val: bv64, i: bv8) {
    && v0.InRange() && v.InRange() && i < 71 && Reached(i) && Under64(val, i)
    && ReadVar(v, Number64(val), Shift(i), 64) == ReadVar(v0, 0, 0, 64)
  }

  lemma StartsReading64(v: Flat)
    requires v.InRange()
    ensures Reads64(v, v, 0, 0)
  {
    NoBits();
  }

  /** The turn in which the loop gives up. */
  lemma ReadsNoMore64(v0: Flat, v: Flat, val: bv64, i: bv8, r: Result<seq<Byte>>, v1: Flat)
    requires Reads64(v0, v, val, i) && (r, v1) == FlatRead(v, 1)
    ensures r.Ok? ==> |r.value| == 1 && |v1.bytes| - v1.pos < |v.bytes| - v.pos
    ensures r.Err? ==> ReadVar(v0, 0, 0, 64) == (Err(r.fault), v1)
    ensures r.Ok? && i >= 64 ==> ReadVar(v0, 0, 0, 64) == (Err(WideShift), v1)
  {
    hide AddBits, FlatRead, Number64, Under64, Shift, Reached;
    ReadVarStep(v, Number64(val), Shift(i), 64, r, v1);
    ShiftLess(i);
  }

  /** What a byte more, gathered as its bits, makes of the word. */
  lemma Gathers64(val: bv64, i: bv8, byte: Byte, digit: bv64, val': bv64)
    requires i < 64 && Reached(i) && Under64(val, i) && val' == Gather64(val, digit, i)
    requires digit == (if byte < 0x80 then Word64(byte) else SevenBits64(Word64(byte)))
    ensures Number64(val') == AddBits(Number64(val), byte % 0x80, Shift(i), 64)
    ensures Under64(val', i + 7) && Reached(i + 7) && Shift(i + 7) == Shift(i) + 7 && i + 7 < 71
  {
    hide AddBits, Number64, Word64, Gather64, Under64, SevenBits64, Shift, Reached;
    Digit64(byte, digit);
    OrIsAdd64(val, digit, i, Number64(val), Number64(digit), Number64(val'));
    StillUnder64(val, digit, i);
    NextShift(i);
  }

  /** A byte more, be it the last. */
  lemma ReadsMore64(v0: Flat, v: Flat, val: bv64, i: bv8, byte: Byte, v1: Flat, digit: bv64, val': bv64)
    requires Reads64(v0, v, val, i) && (Ok([byte]), v1) == FlatRead(v, 1) && i < 64
    requires digit == (if byte < 0x80 then Word64(byte) else SevenBits64(Word64(byte)))
    requires val' == Gather64(val, digit, i)
    ensures byte < 0x80 ==> ReadVar(v0, 0, 0, 64) == (Ok(Number64(val')), v1)
    ensures byte >= 0x80 ==> Reads64(v0, v1, val', i + 7)
  {
    hide AddBits, FlatRead, Number64, Word64, Gather64, Under64, SevenBits64, Shift, Reached;
    ReadVarStep(v, Number64(val), Shift(i), 64, Ok([byte]), v1);
    ShiftLess(i);
    Gathers64(val, i, byte, digit, val');
  }

  /** ReadVarUint64. */
  method ReadVarUint64(ba: ByteArray) returns (r: Result<nat>)
    requires ba.Valid()
    modifies ba`cur, ba`position
    ensures ba.Valid() && (r, ba.Value()) == ReadVar(old(ba.Value()), 0, 0, 64)
  {
    hide Reads64, FlatRead, Number64, Word64, Gather64, SevenBits64, ByteArray.Valid, ByteArray.Value;
    var val: bv64, i: bv8 := 0, 0;
    StartsReading64(ba.Value());
    while true
      invariant ba.Valid() && Reads64(old(ba.Value()), ba.Value(), val, i)
      decreases |ba.Value().bytes| - ba.Value().pos
    {
      ghost var v, before := ba.Value(), val;
      var tmp := ba.Read(1);
      ReadsNoMore64(old(ba.Value()), v, val, i, tmp, ba.Value());
      if tmp.Err? {
        return Err(tmp.fault);
      }
      if i >= 64 {
        return Err(WideShift);
      }
      var byte := tmp.value[0];
      assert tmp.value == [byte];
      var digit := if byte < 0x80 then Word64(byte) else SevenBits64(Word64(byte));
      val := Gather64(val, digit, i);
      ReadsMore64(old(ba.Value()), v, before, i, byte, ba.Value(), digit, val);
      if byte < 0x80 {
        return Ok(Number64(val));
      }
      i := i + 7;
    }
  }

  /** WriteVarint32 and WriteVarint64. */
  method WriteZigzag(ba: ByteArray, f: Field)
    requires ba.Valid() && Typed(f) && (f.SVar32? || f.SVar64?)
    modifies ba, ba.Repr
    ensures ba.Valid() && fresh(ba.Repr - old(ba.Repr)) && ba.littleEndian == old(ba.littleEndian)
    ensures ba.Value() == WriteField(old(ba.Value()), ba.nodeSize, f, ba.littleEndian)
  {
    hide FlatWrite, EncodeZigzag32, EncodeZigzag64, Number32, Number64, Typed;
    TypedZigzag(f);
    if f.SVar32? {
      WriteVarUint(ba, 32, Number32(EncodeZigzag32(f.x)));
    } else {
      WriteVarUint(ba, 64, Number64(EncodeZigzag64(f.y)));
    }
  }

  lemma TypedZigzag(f: Field)
    ensures f.SVar32? ==> Typed(UVar(32, Number32(EncodeZigzag32(f.x))))
    ensures f.SVar64? ==> Typed(UVar(64, Number64(EncodeZigzag64(f.y))))
  {
    hide EncodeZigzag32, EncodeZigzag64, Number32, Number64;
    Powers();
  }

  /** ReadVarint32. */
  method ReadVarint32(ba: ByteArray) returns (r: Result<Field>)
    requires ba.Valid()
    modifies ba`cur, ba`position
    ensures ba.Valid() && (r, ba.Value()) == ReadField(old(ba.Value()), KSVar32, ba.littleEndian)
  {
    hide FromZigzag32, ByteArray.Valid, ByteArray.Value;
    WordFits(ba.Value());
    var u := ReadVarUint32(ba);
    r := FromZigzag32(u);
  }

  /** ReadVarint64. */
  method ReadVarint64(ba: ByteArray) returns (r: Result<Field>)
    requires ba.Valid()
    modifies ba`cur, ba`position
    ensures ba.Valid() && (r, ba.Value()) == ReadField(old(ba.Value()), KSVar64, ba.littleEndian)
  {
    hide FromZigzag64, ByteArray.Valid, ByteArray.Value;
    WordFits(ba.Value());
    var u := ReadVarUint64(ba);
    r := FromZigzag64(u);
  }

  /** The length before a string: the size cut to the type of the length field. */
  method WriteLength(ba: ByteArray, len: Length, n: nat)
    requires ba.Valid() && n < Limit(Var64)
    modifies ba, ba.Repr
    ensures ba.Valid() && fresh(ba.Repr - old(ba.Repr)) && ba.littleEndian == old(ba.littleEndian)
    ensures ba.Value() == FlatWrite(old(ba.Value()), ba.nodeSize, LengthBytes(len, n, ba.littleEndian))
  {
    hide FlatWrite, LengthBytes, WriteField, Typed, ByteArray.Valid, ByteArray.Value;
    SomeNode(ba);
    LengthFits(ba.Value(), ba.nodeSize, len, n, ba.littleEndian);
    match len
    case F16 => WriteFixed(ba, 2, false, n % Limit(F16));
    case F32 => WriteFixed(ba, 4, false, n % Limit(F32));
    case Var64 => WriteVarUint(ba, 64, n);
  }

  lemma SomeNode(ba: ByteArray)
    requires ba.Valid()
    ensures ba.nodeSize > 0
  {
  }

  /** Each kind of length is written as a field of its own. */
  lemma LengthFits(v: Flat, nodeSize: nat, len: Length, n: nat, little: bool)
    requires n < Limit(Var64) && v.InRange()
    ensures Typed(Num(2, false, n % Limit(F16))) && Typed(Num(4, false, n % Limit(F32))) && Typed(UVar(64, n))
    ensures nodeSize > 0 && len.F16? ==> WriteField(v, nodeSize, Num(2, false, n % Limit(F16)), little)
                                         == FlatWrite(v, nodeSize, LengthBytes(len, n, little))
    ensures nodeSize > 0 && len.F32? ==> WriteField(v, nodeSize, Num(4, false, n % Limit(F32)), little)
                                         == FlatWrite(v, nodeSize, LengthBytes(len, n, little))
    ensures len.Var64? ==> LengthBytes(len, n, little) == VarBytes(n)
  {
    hide FlatWrite, WriteField;
    Powers();
    ShortLength(len, n, little);
  }

  lemma ShortLength(len: Length, n: nat, little: bool)
    requires n < Limit(Var64) && Typed(Num(2, false, n % Limit(F16))) && Typed(Num(4, false, n % Limit(F32)))
    ensures len.F16? ==> Encode(Num(2, false, n % Limit(F16)), little) == LengthBytes(len, n, little)
    ensures len.F32? ==> Encode(Num(4, false, n % Limit(F32)), little) == LengthBytes(len, n, little)
  {
    hide Typed, Ordered;
  }

  /** The string s on the wire from `at` on: its length, cut to the width of the length field, and its bytes. */
  predicate StringOnWire(bytes: seq<Byte>, at: nat, len: Length, s: seq<Byte>, little: bool) {
    var k := match len case F16 => 2 case F32 => 4 case Var64 => |VarBytes(|s|)|;
    && at + k + |s| <= |bytes| && bytes[at + k..at + k + |s|] == s
    && if len.Var64? then bytes[at..at + k] == VarBytes(|s|) else OnWire(bytes, at, k, |s|, little)
  }

  lemma StringWritten(v: Flat, nodeSize: nat, len: Length, s: seq<Byte>, little: bool)
    requires v.InRange() && nodeSize > 0 && Typed(Str(len, s))
    ensures StringOnWire(WriteField(v, nodeSize, Str(len, s), little).bytes, v.pos, len, s, little)
  {
    hide FlatWrite, LengthBytes, IsNumber;
    var l := LengthBytes(len, |s|, little);
    var r := FlatWrite(v, nodeSize, l + s).bytes;
    WrittenIs(v, nodeSize, l + s);
    SliceParts(r, v.pos, l, s);
    LengthOnWire(len, |s|, little);
  }

  lemma SliceParts(r: seq<Byte>, at: nat, a: seq<Byte>, b: seq<Byte>)
    requires at + |a + b| <= |r| && r[at..at + |a + b|] == a + b
    ensures r[at..at + |a|] == a && r[at + |a|..at + |a| + |b|] == b
  {
    SliceOfSlice(r, at, at + |a + b|, 0, |a|);
    SliceOfSlice(r, at, at + |a + b|, |a|, |a + b|);
  }

  lemma LengthOnWire(len: Length, n: nat, little: bool)
    ensures len.Var64? ==> LengthBytes(len, n, little) == VarBytes(n)
    ensures !len.Var64? ==> var b := LengthBytes(len, n, little);
                            |b| == (if len.F16? then 2 else 4) && IsNumber(b, n, little)
  {
    hide Ordered;
    if !len.Var64? {
      LengthBytesAre(len, n, little, 0);
      var b := LengthBytes(len, n, little);
      forall i | 0 <= i < |b| ensures b[i] == Digit(n, |b|, if little then i else |b| - 1 - i) {
        LengthBytesAre(len, n, little, i);
      }
    }
  }

  /** WriteStringF16, WriteStringF32 and WriteStringVar64. */
  method WriteString(ba: ByteArray, len: Length, s: seq<Byte>)
    requires ba.Valid() && Typed(Str(len, s))
    modifies ba, ba.Repr
    ensures ba.Valid() && fresh(ba.Repr - old(ba.Repr)) && ba.littleEndian == old(ba.littleEndian)
    ensures ba.Value() == WriteField(old(ba.Value()), ba.nodeSize, Str(len, s), ba.littleEndian)
    ensures StringOnWire(ba.Value().bytes, old(ba.position), len, s, ba.littleEndian)
  {
    hide FlatWrite, LengthBytes, StringOnWire;
    SomeNode(ba);
    StringWritten(ba.Value(), ba.nodeSize, len, s, ba.littleEndian);
    WriteLength(ba, len, |s|);
    ba.Write(s);
  }

  method ReadLen(ba: ByteArray, len: Length) returns (r: Result<nat>)
    requires ba.Valid()
    modifies ba`cur, ba`position
    ensures ba.Valid() && (r, ba.Value()) == ReadLength(old(ba.Value()), len, ba.littleEndian)
  {
    hide FlatRead;
    match len
    case Var64 =>
      r := ReadVarUint64(ba);
    case _ =>
      var u := ReadNumber(ba, if len.F16? then 2 else 4, false);
      r := if u.Ok? then Ok(u.value.v) else Err(u.fault);
  }

  /** `std::string(buf)` up to the first NUL of a buffer with a NUL after its last byte. */
  method FromCString(buf: seq<Byte>) returns (s: seq<Byte>)
    ensures s == CString(buf)
  {
    s := [];
    var i := 0;
    while i < |buf| && buf[i] != 0
      invariant i <= |buf| && s + CString(buf[i..]) == CString(buf)
    {
      assert buf[i..][1..] == buf[i + 1..];
      s := s + [buf[i]];
      i := i + 1;
    }
  }

  /** ReadStringF16, ReadStringF32 and ReadStringVar64. */
  method ReadString(ba: ByteArray, len: Length) returns (r: Result<seq<Byte>>)
    requires ba.Valid()
    modifies ba`cur, ba`position
    ensures ba.Valid() && (r, ba.Value()) == ReadStr(old(ba.Value()), len, ba.littleEndian)
  {
    hide FlatRead, ReadLength;
    var n := ReadLen(ba, len);
    if n.Err? {
      return Err(n.fault);
    }
    var buf := ba.Read(n.value);
    if buf.Err? {
      return Err(buf.fault);
    }
    var s := FromCString(buf.value);
    r := Ok(s);
  }
}
