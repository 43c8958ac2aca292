/**
 The typed fields of a byte array: fixed-width numbers in either byte order, varints, zigzag numbers
 and strings with three kinds of length. The host is little-endian.
 */
module Codec {
  import opened Prelude
  import opened ByteArrays
  import opened Words

  // ---------------------------------------------------------------------------------------
  // Numbers as bytes
  // ---------------------------------------------------------------------------------------

  function Pow2(n: nat): (p: nat)
    ensures p >= 1
  {
    if n == 0 then 1 else 2 * Pow2(n - 1)
  }

  lemma Pow2Add7(n: nat)
    ensures Pow2(n + 7) == 128 * Pow2(n)
  {
    assert Pow2(n + 7) == 2 * Pow2(n + 6) && Pow2(n + 6) == 2 * Pow2(n + 5) && Pow2(n + 5) == 2 * Pow2(n + 4);
    assert Pow2(n + 4) == 2 * Pow2(n + 3) && Pow2(n + 3) == 2 * Pow2(n + 2) && Pow2(n + 2) == 2 * Pow2(n + 1);
  }

  lemma {:induction false} Pow2Mono(a: nat, b: nat)
    requires a <= b
    ensures Pow2(a) <= Pow2(b)
    decreases b
  {
    if a < b {
      Pow2Mono(a, b - 1);
    }
  }

  function Pow256(w: nat): (p: nat)
    ensures p >= 1
  {
    if w == 0 then 1 else 256 * Pow256(w - 1)
  }

  /** The memory image of an unsigned number of w bytes on the host. */
  function LittleBytes(v: nat, w: nat): (r: seq<Byte>)
    ensures |r| == w
  {
    if w == 0 then [] else [v % 256] + LittleBytes(v / 256, w - 1)
  }

  function FromLittle(b: seq<Byte>): (v: nat)
    ensures v < Pow256(|b|)
  {
    if b == [] then 0 else b[0] + 256 * FromLittle(b[1..])
  }

  lemma {:induction false} LittleBack(v: nat, w: nat)
    requires v < Pow256(w)
    ensures FromLittle(LittleBytes(v, w)) == v
  {
    if w > 0 {
      LittleBack(v / 256, w - 1);
    }
  }

  lemma ReverseTwice(b: seq<Byte>)
    ensures Reverse(Reverse(b)) == b
  {
  }

  /** The order of the bytes written: swapped when the array is not little-endian like the host. */
  function Ordered(b: seq<Byte>, little: bool): (r: seq<Byte>)
    ensures |r| == |b|
  {
    if little then b else Reverse(b)
  }

  /** Two's complement. */
  function ToUnsigned(v: int, w: nat): int {
    if v < 0 then v + Pow256(w) else v
  }

  function FromUnsigned(u: nat, w: nat, signed: bool): int {
    if signed && 2 * u >= Pow256(w) then u - Pow256(w) else u
  }

  // ---------------------------------------------------------------------------------------
  // Varints and zigzag
  // ---------------------------------------------------------------------------------------

  /** Seven bits a byte, low ones first; the high bit says that more follow. */
  function VarBytes(v: nat): (r: seq<Byte>)
    ensures |r| >= 1
  {
    if v < 128 then [v] else [128 + v % 128] + VarBytes(v / 128)
  }

  lemma {:induction false} VarLength(v: nat, k: nat)
    requires k >= 1 && v < Pow2(7 * k)
    ensures |VarBytes(v)| <= k
  {
    if v >= 128 {
      if k == 1 {
        Pow2Add7(0);
      } else {
        Pow2Add7(7 * (k - 1));
        VarLength(v / 128, k - 1);
      }
    }
  }

  /** The buffers of the writers are long enough: 5 bytes for 32 bits, 10 for 64. */
  lemma VarFits(v: nat)
    ensures v < Pow2(32) ==> |VarBytes(v)| <= 5
    ensures v < Pow2(64) ==> |VarBytes(v)| <= 10
  {
    Pow2Mono(32, 35);
    Pow2Mono(64, 70);
    if v < Pow2(32) {
      VarLength(v, 5);
    }
    if v < Pow2(64) {
      VarLength(v, 10);
    }
  }

  /** The bit operations of the source at both widths: negation, doubling, shift and exclusive or
      wrap as machine words do, and decoding undoes encoding for every word, the least number
      included. */
  function EncodeZigzag32(val: bv32): bv32 {
    if val >= 0x8000_0000 then (0 - val) * 2 - 1 else val * 2
  }

  function DecodeZigzag32(val: bv32): bv32 {
    (val >> 1) ^ (0 - (val & 1))
  }

  function EncodeZigzag64(val: bv64): bv64 {
    if val >= 0x8000_0000_0000_0000 then (0 - val) * 2 - 1 else val * 2
  }

  function DecodeZigzag64(val: bv64): bv64 {
    (val >> 1) ^ (0 - (val & 1))
  }

  lemma Zigzag32Negative(v: bv32)
    requires v >= 0x8000_0000
    ensures DecodeZigzag32((0 - v) * 2 - 1) == v
  {
  }

  lemma Zigzag32Positive(v: bv32)
    requires v < 0x8000_0000
    ensures DecodeZigzag32(v * 2) == v
  {
  }

  /** Encoding is a bijection on the 32-bit words, undone by decoding. */
  lemma Zigzag32Bijection(v: bv32)
    ensures DecodeZigzag32(EncodeZigzag32(v)) == v
    ensures EncodeZigzag32(DecodeZigzag32(v)) == v
  {
    hide DecodeZigzag32;
    Zigzag32Onto(v);
    if v >= 0x8000_0000 {
      Zigzag32Negative(v);
    } else {
      Zigzag32Positive(v);
    }
  }

  lemma Zigzag32Onto(v: bv32)
    ensures EncodeZigzag32(DecodeZigzag32(v)) == v
  {
  }

  lemma Zigzag64Negative(v: bv64)
    requires v >= 0x8000_0000_0000_0000
    ensures DecodeZigzag64((0 - v) * 2 - 1) == v
  {
  }

  lemma Zigzag64Positive(v: bv64)
    requires v < 0x8000_0000_0000_0000
    ensures DecodeZigzag64(v * 2) == v
  {
  }

  /** Encoding is a bijection on the 64-bit words, undone by decoding. */
  lemma Zigzag64Bijection(v: bv64)
    ensures DecodeZigzag64(EncodeZigzag64(v)) == v
    ensures EncodeZigzag64(DecodeZigzag64(v)) == v
  {
    hide DecodeZigzag64;
    Zigzag64Onto(v);
    if v >= 0x8000_0000_0000_0000 {
      Zigzag64Negative(v);
    } else {
      Zigzag64Positive(v);
    }
  }

  lemma Zigzag64Onto(v: bv64)
    ensures EncodeZigzag64(DecodeZigzag64(v)) == v
  {
  }

  // ---------------------------------------------------------------------------------------
  // Fields
  // ---------------------------------------------------------------------------------------

  datatype Length = F16 | F32 | Var64

  /** A typed value: a fixed-width number, an unsigned varint, a zigzag number as a machine word, or a
      string. Floating-point numbers are written as the fixed-width words that hold them. */
  datatype Field =
    | Num(w: nat, signed: bool, v: int)
    | UVar(bits: nat, u: int)
    | SVar32(x: bv32)
    | SVar64(y: bv64)
    | Str(len: Length, s: seq<Byte>)

  datatype Kind = KNum(w: nat, signed: bool) | KUVar(bits: nat) | KSVar32 | KSVar64 | KStr(len: Length)

  function KindOf(f: Field): Kind {
    match f
    case Num(w, signed, _) => KNum(w, signed)
    case UVar(bits, _) => KUVar(bits)
    case SVar32(_) => KSVar32
    case SVar64(_) => KSVar64
    case Str(len, _) => KStr(len)
  }

  predicate ValidKind(k: Kind) {
    match k
    case KNum(w, _) => w == 1 || w == 2 || w == 4 || w == 8
    case KUVar(bits) => bits == 32 || bits == 64
    case _ => true
  }

  /** Lengths the length field of a string can hold. */
  function Limit(len: Length): nat {
    match len
    case F16 => 0x1_0000
    case F32 => 0x1_0000_0000
    case Var64 => 0x1_0000_0000_0000_0000
  }

  /** The values that the type of a field has; any string is one. */
  predicate Typed(f: Field) {
    ValidKind(KindOf(f)) &&
    match f
    case Num(w, signed, v) =>
      if signed then 0 - Pow256(w) as int <= 2 * v < Pow256(w) else 0 <= v < Pow256(w)
    case UVar(bits, u) => 0 <= u < Pow2(bits)
    case Str(len, s) => |s| < Limit(Var64)
    case _ => true
  }

  predicate NulFree(s: seq<Byte>) {
    forall c | c in s :: c != 0
  }

  /** What a string must be to come back as it was. */
  predicate Readable(f: Field) {
    f.Str? ==> NulFree(f.s) && |f.s| < Limit(f.len)
  }

  function LengthBytes(len: Length, n: nat, little: bool): (r: seq<Byte>)
    ensures |r| >= 1
  {
    match len
    case F16 => Ordered(LittleBytes(n % Limit(F16), 2), little)
    case F32 => Ordered(LittleBytes(n % Limit(F32), 4), little)
    case Var64 => VarBytes(n)
  }

  function Encode(f: Field, little: bool): (r: seq<Byte>)
    requires Typed(f)
    ensures |r| >= 1
  {
    match f
    case Num(w, _, v) => Ordered(LittleBytes(ToUnsigned(v, w), w), little)
    case UVar(_, u) => VarBytes(u)
    case SVar32(x) => VarBytes(Number32(EncodeZigzag32(x)))
    case SVar64(y) => VarBytes(Number64(EncodeZigzag64(y)))
    case Str(len, s) => LengthBytes(len, |s|, little) + s
  }

  // ---------------------------------------------------------------------------------------
  // What the bytes are
  // ---------------------------------------------------------------------------------------

  lemma Spread(x: nat, y: nat, a: nat)
    ensures Off(x + y, a) == Off(x, a) + Off(y, a)
  {
  }

  lemma TimesThree(x: nat, a: nat, b: nat)
    ensures Off(Off(x, b), a) == Off(x, a * b)
  {
  }

  lemma DivideTwice(x: nat, a: nat, b: nat)
    requires a > 0 && b > 0
    ensures a * b > 0 && x / a / b == x / (a * b)
  {
    hide Off;
    Positive(a, b);
    var q, r := Quot(x, a), Rem(x, a);
    var q', r' := Quot(q, b), Rem(q, b);
    SplitPosition(x, a);
    SplitPosition(q, b);
    Spread(Off(q', b), r', a);
    TimesThree(q', a, b);
    OffMono(r', b, a);
    OffIs(b, a);
    SplitUnique(q', Off(r', a) + r, a * b);
  }

  lemma Positive(a: nat, b: nat)
    requires a > 0 && b > 0
    ensures a * b > 0
  {
  }

  lemma OffIs(k: nat, a: nat)
    ensures Off(k, a) == k * a == a * k
  {
  }

  /** Adding a multiple of 256 * p leaves the digit at p as it was. */
  lemma DigitKept(x: nat, p: nat, m: nat)
    requires p > 0 && m % 256 == 0
    ensures (x + Off(m, p)) / p % 256 == x / p % 256
  {
    hide Off;
    var q, r := Quot(x, p), Rem(x, p);
    SplitPosition(x, p);
    Spread(q, m, p);
    SplitUnique(q + m, r, p);
    Residue(q, m);
  }

  lemma Residue(q: nat, m: nat)
    requires m % 256 == 0
    ensures (q + m) % 256 == q % 256
  {
  }

  lemma {:induction false} Pow256Split(w: nat, i: nat)
    requires i < w
    ensures Pow256(w) == Off(256 * Pow256(w - i - 1), Pow256(i))
    decreases i
  {
    if i > 0 {
      Pow256Split(w, i - 1);
      TimesThree(256 * Pow256(w - i - 1), Pow256(i - 1), 256);
      OffIs(256 * Pow256(w - i - 1), 256);
      OffIs(256, Pow256(i - 1));
    }
  }

  /** The memory image holds the lowest byte first. */
  lemma {:induction false} LittleAt(v: nat, w: nat, i: nat)
    requires i < w
    ensures LittleBytes(v, w)[i] == v / Pow256(i) % 256
    decreases i
  {
    if i > 0 {
      LittleAt(v / 256, w - 1, i - 1);
      DivideTwice(v, 256, Pow256(i - 1));
    }
  }

  /** What a fixed-width number is on the wire: its highest byte first in a big-endian array, its lowest
      first in a little-endian one; a negative number in two's complement. */
  lemma FixedBytes(w: nat, signed: bool, v: int, little: bool, i: nat)
    requires Typed(Num(w, signed, v)) && i < w
    ensures |Encode(Num(w, signed, v), little)| == w
    ensures Encode(Num(w, signed, v), little)[i]
            == (if v < 0 then v + Pow256(w) else v) / Pow256(if little then i else w - 1 - i) % 256
  {
    LittleAt(ToUnsigned(v, w), w, if little then i else w - 1 - i);
  }

  /** And the length before a string: of one too long for the field, its low bytes. */
  lemma LengthBytesAre(len: Length, n: nat, little: bool, i: nat)
    requires (len.F16? && i < 2) || (len.F32? && i < 4)
    ensures var w := if len.F16? then 2 else 4;
            && |LengthBytes(len, n, little)| == w
            && LengthBytes(len, n, little)[i] == n / Pow256(if little then i else w - 1 - i) % 256
  {
    var w := if len.F16? then 2 else 4;
    var j := if little then i else w - 1 - i;
    Powers();
    LittleAt(n % Limit(len), w, j);
    CutDigit(n, w, j);
  }

  /** What is cut off above does not change a digit. */
  lemma CutDigit(n: nat, w: nat, j: nat)
    requires j < w
    ensures n % Pow256(w) / Pow256(j) % 256 == n / Pow256(j) % 256
  {
    hide Off;
    var q, m := Quot(n, Pow256(w)), 256 * Pow256(w - j - 1);
    SplitPosition(n, Pow256(w));
    Pow256Split(w, j);
    OffIs(q, Pow256(w));
    OffIs(m, Pow256(j));
    TimesThree(q, Pow256(j), m);
    OffIs(q, m);
    Multiple(q, Pow256(w - j - 1));
    DigitKept(n % Pow256(w), Pow256(j), q * m);
  }

  lemma Multiple(q: nat, x: nat)
    ensures q * (256 * x) % 256 == 0
  {
    assert q * (256 * x) == 256 * (q * x);
  }

  /** Byte i of a varint holds group number i of seven bits, and a mark unless it is the last; no byte
      is wasted. */
  lemma {:induction false} VarBytesAre(v: nat, i: nat)
    requires i < |VarBytes(v)|
    ensures VarBytes(v)[i] == v / Pow2(7 * i) % 128 + if i + 1 < |VarBytes(v)| then 128 else 0
    decreases v
  {
    if v >= 128 && i > 0 {
      VarBytesAre(v / 128, i - 1);
      Pow2Add7(7 * (i - 1));
      DivideTwice(v, 128, Pow2(7 * (i - 1)));
    }
  }

  lemma {:induction false} VarBytesNeeded(v: nat)
    ensures v < Pow2(7 * |VarBytes(v)|)
    ensures |VarBytes(v)| > 1 ==> v >= Pow2(7 * (|VarBytes(v)| - 1))
    decreases v
  {
    var n := |VarBytes(v)|;
    Pow2Add7(0);
    if v >= 128 {
      VarBytesNeeded(v / 128);
      Pow2Add7(7 * (n - 1));
      if n > 2 {
        Pow2Add7(7 * (n - 2));
      }
    }
  }

  /** k, from 0 on, has the code 2 * k, and -1 - k the code 2 * k + 1. */
  lemma ZigzagIs32(k: bv32)
    requires k < 0x8000_0000
    ensures Number32(EncodeZigzag32(k)) == 2 * Number32(k)
    ensures Number32(EncodeZigzag32(0 - 1 - k)) == 2 * Number32(k) + 1
  {
    hide Number32, EncodeZigzag32;
    ZigzagUp32(k);
    ZigzagDown32(k);
    HighFree32(k);
    Doubled32(k);
    DoubledNext32(k);
  }

  /** So a signed varint of 32 bits is the varint of twice its distance from 0, or from -1 and one more. */
  lemma SignedVarint32(k: bv32, little: bool)
    requires k < 0x8000_0000
    ensures Encode(SVar32(k), little) == VarBytes(2 * Number32(k))
    ensures Encode(SVar32(0 - 1 - k), little) == VarBytes(2 * Number32(k) + 1)
  {
    hide Number32, EncodeZigzag32;
    ZigzagIs32(k);
  }

  lemma ZigzagUp32(k: bv32)
    requires k < 0x8000_0000
    ensures EncodeZigzag32(k) == k << 1
  {
  }

  lemma ZigzagDown32(k: bv32)
    requires k < 0x8000_0000
    ensures EncodeZigzag32(0 - 1 - k) == (k << 1) | 1
  {
  }

  lemma HighFree32(k: bv32)
    requires k < 0x8000_0000
    ensures k == k & 0x7FFF_FFFF
  {
  }

  lemma Doubled32(k: bv32)
    requires k == k & 0x7FFF_FFFF
    ensures Number32(k << 1) == 2 * Number32(k)
  {
  }

  lemma DoubledNext32(k: bv32)
    requires k == k & 0x7FFF_FFFF
    ensures Number32((k << 1) | 1) == 2 * Number32(k) + 1
  {
  }

  /** k, from 0 on, has the code 2 * k, and -1 - k the code 2 * k + 1. */
  lemma ZigzagIs64(k: bv64)
    requires k < 0x8000_0000_0000_0000
    ensures Number64(EncodeZigzag64(k)) == 2 * Number64(k)
    ensures Number64(EncodeZigzag64(0 - 1 - k)) == 2 * Number64(k) + 1
  {
    hide Number64, EncodeZigzag64;
    ZigzagUp64(k);
    ZigzagDown64(k);
    HighFree64(k);
    Doubled64(k);
    DoubledNext64(k);
  }

  /** So a signed varint of 64 bits is the varint of twice its distance from 0, or from -1 and one more. */
  lemma SignedVarint64(k: bv64, little: bool)
    requires k < 0x8000_0000_0000_0000
    ensures Encode(SVar64(k), little) == VarBytes(2 * Number64(k))
    ensures Encode(SVar64(0 - 1 - k), little) == VarBytes(2 * Number64(k) + 1)
  {
    hide Number64, EncodeZigzag64;
    ZigzagIs64(k);
  }

  lemma ZigzagUp64(k: bv64)
    requires k < 0x8000_0000_0000_0000
    ensures EncodeZigzag64(k) == k << 1
  {
  }

  lemma ZigzagDown64(k: bv64)
    requires k < 0x8000_0000_0000_0000
    ensures EncodeZigzag64(0 - 1 - k) == (k << 1) | 1
  {
  }

  lemma HighFree64(k: bv64)
    requires k < 0x8000_0000_0000_0000
    ensures k == k & 0x7FFF_FFFF_FFFF_FFFF
  {
  }

  lemma Doubled64(k: bv64)
    requires k == k & 0x7FFF_FFFF_FFFF_FFFF
    ensures Number64(k << 1) == 2 * Number64(k)
  {
  }

  lemma DoubledNext64(k: bv64)
    requires k == k & 0x7FFF_FFFF_FFFF_FFFF
    ensures Number64((k << 1) | 1) == 2 * Number64(k) + 1
  {
  }

  // ---------------------------------------------------------------------------------------
  // Reading
  // ---------------------------------------------------------------------------------------

  function ReadFixed(v: Flat, w: nat, little: bool): (r: (Result<nat>, Flat))
    requires v.InRange()
    ensures r.1.InRange()
  {
    var (b, v1) := FlatRead(v, w);
    match b
    case Ok(bytes) => (Ok(FromLittle(Ordered(bytes, little))), v1)
    case Err(e) => (Err(e), v1)
  }

  /** `acc |= digit << shift` in a type of `bits` bits, for an accumulator with no bits from `shift` on. */
  function AddBits(acc: nat, digit: nat, shift: nat, bits: nat): (r: nat)
    ensures r < Pow2(bits)
  {
    AddMod(acc, digit, Pow2(shift), Pow2(bits))
  }

  function AddMod(acc: nat, digit: nat, p: nat, m: nat): (r: nat)
    requires m > 0
    ensures r < m
  {
    (acc + digit * p) % m
  }

  /** The loop of the varint readers from accumulator `acc` and shift `shift` on. A byte that would be
      shifted by the width of the type or more has no defined meaning. */
  function ReadVar(v: Flat, acc: nat, shift: nat, bits: nat): (r: (Result<nat>, Flat))
    requires v.InRange()
    ensures r.1.InRange() && (r.0.Ok? ==> r.0.value < Pow2(bits))
    decreases |v.bytes| - v.pos
  {
    var (b, v1) := FlatRead(v, 1);
    match b
    case Err(e) => (Err(e), v1)
    case Ok(bytes) =>
      if shift >= bits then (Err(WideShift), v1)
      else if bytes[0] < 128 then (Ok(AddBits(acc, bytes[0], shift, bits)), v1)
      else ReadVar(v1, AddBits(acc, bytes[0] - 128, shift, bits), shift + 7, bits)
  }

  function ReadLength(v: Flat, len: Length, little: bool): (r: (Result<nat>, Flat))
    requires v.InRange()
    ensures r.1.InRange()
  {
    match len
    case F16 => ReadFixed(v, 2, little)
    case F32 => ReadFixed(v, 4, little)
    case Var64 => ReadVar(v, 0, 0, 64)
  }

  /** A string built from a buffer ends at its first NUL. */
  function CString(b: seq<Byte>): seq<Byte> {
    if b == [] || b[0] == 0 then [] else [b[0]] + CString(b[1..])
  }

  lemma {:induction false} CStringIs(b: seq<Byte>)
    ensures NulFree(CString(b)) && CString(b) <= b && (|CString(b)| < |b| ==> b[|CString(b)|] == 0)
  {
    if b != [] && b[0] != 0 {
      CStringIs(b[1..]);
      assert b == [b[0]] + b[1..];
    }
  }

  function ReadStr(v: Flat, len: Length, little: bool): (r: (Result<seq<Byte>>, Flat))
    requires v.InRange()
    ensures r.1.InRange()
  {
    var (n, v1) := ReadLength(v, len, little);
    match n
    case Err(e) => (Err(e), v1)
    case Ok(count) =>
      var (b, v2) := FlatRead(v1, count);
      match b
      case Err(e) => (Err(e), v2)
      case Ok(bytes) => (Ok(CString(bytes)), v2)
  }

  /** What the varint loop returns fits the machine word. */
  lemma WordFits(v: Flat)
    requires v.InRange()
    ensures var r := ReadVar(v, 0, 0, 32).0; r.Ok? ==> r.value < 0x1_0000_0000
    ensures var r := ReadVar(v, 0, 0, 64).0; r.Ok? ==> r.value < 0x1_0000_0000_0000_0000
  {
    Powers();
  }

  function FromZigzag32(u: Result<nat>): Result<Field>
    requires u.Ok? ==> u.value < 0x1_0000_0000
  {
    if u.Ok? then Ok(SVar32(DecodeZigzag32(Word32(u.value)))) else Err(u.fault)
  }

  function FromZigzag64(u: Result<nat>): Result<Field>
    requires u.Ok? ==> u.value < 0x1_0000_0000_0000_0000
  {
    if u.Ok? then Ok(SVar64(DecodeZigzag64(Word64(u.value)))) else Err(u.fault)
  }

  function ReadField(v: Flat, k: Kind, little: bool): (r: (Result<Field>, Flat))
    requires v.InRange()
    ensures r.1.InRange()
  {
    match k
    case KNum(w, signed) =>
      var (u, v1) := ReadFixed(v, w, little);
      (if u.Ok? then Ok(Num(w, signed, FromUnsigned(u.value, w, signed))) else Err(u.fault), v1)
    case KUVar(bits) =>
      var (u, v1) := ReadVar(v, 0, 0, bits);
      (if u.Ok? then Ok(UVar(bits, u.value)) else Err(u.fault), v1)
    case KSVar32 =>
      var (u, v1) := ReadVar(v, 0, 0, 32);
      WordFits(v);
      (FromZigzag32(u), v1)
    case KSVar64 =>
      var (u, v1) := ReadVar(v, 0, 0, 64);
      WordFits(v);
      (FromZigzag64(u), v1)
    case KStr(len) =>
      var (s, v1) := ReadStr(v, len, little);
      (if s.Ok? then Ok(Str(len, s.value)) else Err(s.fault), v1)
  }

  // ---------------------------------------------------------------------------------------
  // Reading back one field
  // ---------------------------------------------------------------------------------------

  /** The bytes b come next. */
  predicate Ahead(v: Flat, b: seq<Byte>) {
    v.InRange() && v.pos + |b| <= |v.bytes| && v.bytes[v.pos..v.pos + |b|] == b
  }

  function Past(v: Flat, n: nat): Flat {
    v.(pos := v.pos + n)
  }

  lemma AheadSplit(v: Flat, a: seq<Byte>, b: seq<Byte>)
    requires Ahead(v, a + b)
    ensures Ahead(v, a) && Ahead(Past(v, |a|), b)
  {
    var ab := v.bytes[v.pos..v.pos + |a + b|];
    assert ab[..|a|] == a && ab[|a|..] == b;
  }

  lemma AheadJoin(v: Flat, a: seq<Byte>, b: seq<Byte>)
    requires Ahead(v, a) && Ahead(Past(v, |a|), b)
    ensures Ahead(v, a + b)
  {
    assert v.bytes[v.pos..v.pos + |a + b|] == v.bytes[v.pos..v.pos + |a|] + v.bytes[v.pos + |a|..v.pos + |a + b|];
  }

  lemma ReadsAhead(v: Flat, b: seq<Byte>)
    requires Ahead(v, b) && b != []
    ensures FlatRead(v, |b|) == (Ok(b), Past(v, |b|))
  {
  }

  lemma FixedBack(v: Flat, u: nat, w: nat, little: bool)
    requires w >= 1 && u < Pow256(w) && Ahead(v, Ordered(LittleBytes(u, w), little))
    ensures ReadFixed(v, w, little) == (Ok(u), Past(v, w))
  {
    var b := LittleBytes(u, w);
    ReadsAhead(v, Ordered(b, little));
    ReverseTwice(b);
    LittleBack(u, w);
  }

  lemma {:induction false} VarBack(v: Flat, x: nat, acc: nat, shift: nat, bits: nat)
    requires Ahead(v, VarBytes(x)) && acc + x * Pow2(shift) < Pow2(bits) && shift < bits
    ensures ReadVar(v, acc, shift, bits) == (Ok(acc + x * Pow2(shift)), Past(v, |VarBytes(x)|))
    decreases x
  {
    hide AddBits, Ahead, Past, FlatRead;
    if x < 128 {
      ReadsAhead(v, [x]);
      AddFits(acc, x, shift, bits);
    } else {
      var q, r := x / 128, x % 128;
      VarSplit(x, q, r);
      AheadSplit(v, [128 + r], VarBytes(q));
      ReadsAhead(v, [128 + r]);
      VarStep(x, q, r, Pow2(shift), acc, bits, shift);
      AddFits(acc, r, shift, bits);
      VarBack(Past(v, 1), q, acc + r * Pow2(shift), shift + 7, bits);
      PastTwice(v, 1, |VarBytes(q)|);
    }
  }

  lemma VarSplit(x: nat, q: nat, r: nat)
    requires x >= 128 && q == x / 128 && r == x % 128
    ensures x == 128 * q + r && q >= 1 && q < x && VarBytes(x) == [128 + r] + VarBytes(q)
  {
  }

  lemma AddFits(acc: nat, digit: nat, shift: nat, bits: nat)
    requires acc + digit * Pow2(shift) < Pow2(bits)
    ensures AddBits(acc, digit, shift, bits) == acc + digit * Pow2(shift)
  {
    hide AddMod;
    AddModFits(acc, digit, Pow2(shift), Pow2(bits));
  }

  lemma AddModFits(acc: nat, digit: nat, p: nat, m: nat)
    requires acc + digit * p < m
    ensures AddMod(acc, digit, p, m) == acc + digit * p
  {
    SmallMod(acc + digit * p, m);
  }

  lemma PastTwice(v: Flat, a: nat, b: nat)
    ensures Past(Past(v, a), b) == Past(v, a + b)
  {
  }

  lemma VarStep(x: nat, q: nat, r: nat, p: nat, acc: nat, bits: nat, shift: nat)
    requires x == 128 * q + r && q >= 1 && p == Pow2(shift) && acc + x * p < Pow2(bits)
    ensures (acc + r * p) + q * Pow2(shift + 7) == acc + x * p
    ensures (acc + r * p) % Pow2(bits) == acc + r * p
    ensures shift + 7 < bits
  {
    Pow2Add7(shift);
    assert x * p == 128 * q * p + r * p;
    assert q * (128 * p) == 128 * q * p;
    assert q * (128 * p) >= 128 * p;
    SmallMod(acc + r * p, Pow2(bits));
    if shift + 7 >= bits {
      Pow2Mono(bits, shift + 7);
    }
  }

  lemma SmallMod(x: int, m: nat)
    requires 0 <= x < m
    ensures x % m == x
  {
  }

  lemma Powers()
    ensures Pow256(1) == 0x100 && Pow256(2) == 0x1_0000 && Pow256(4) == 0x1_0000_0000
    ensures Pow256(8) == 0x1_0000_0000_0000_0000
    ensures Pow2(0) == 1 && Pow2(32) == 0x1_0000_0000 && Pow2(64) == 0x1_0000_0000_0000_0000
  {
    assert Pow256(3) == 0x100_0000 && Pow256(5) == 0x100_0000_0000 && Pow256(6) == 0x1_0000_0000_0000;
    assert Pow256(7) == 0x100_0000_0000_0000;
    Pow2Add7(0); Pow2Add7(7); Pow2Add7(14); Pow2Add7(21); Pow2Add7(28); Pow2Add7(35); Pow2Add7(42); Pow2Add7(49);
    Pow2Add7(56);
    assert Pow2(28) == 0x1000_0000 && Pow2(29) == 0x2000_0000 && Pow2(30) == 0x4000_0000 && Pow2(31) == 0x8000_0000;
    assert Pow2(63) == 0x8000_0000_0000_0000;
  }

  /** The length that a length field can hold of a string of n bytes. */
  function StoredLength(len: Length, n: nat): (r: nat)
    ensures r <= n && r < Limit(len)
    ensures r == n <==> n < Limit(len)
  {
    n % Limit(len)
  }

  lemma LengthBack(v: Flat, len: Length, n: nat, little: bool, l: seq<Byte>)
    requires n < Limit(Var64) && l == LengthBytes(len, n, little) && Ahead(v, l)
    ensures ReadLength(v, len, little) == (Ok(StoredLength(len, n)), Past(v, |l|))
  {
    hide Ahead, Past, Ordered;
    Powers();
    match len
    case F16 => FixedBack(v, n % Limit(F16), 2, little);
    case F32 => FixedBack(v, n % Limit(F32), 4, little);
    case Var64 => VarBack(v, n, 0, 0, 64);
  }

  lemma {:induction false} CStringWhole(b: seq<Byte>)
    ensures CString(b) == b <==> NulFree(b)
    ensures |CString(b)| <= |b|
  {
    if b != [] {
      var x, t := b[0], b[1..];
      CStringWhole(t);
      assert b == [x] + t;
      assert forall c :: c in b <==> c == x || c in t;
      assert ([x] + CString(t))[1..] == CString(t);
    }
  }

  /** A string that comes next is read up to the length its length field holds and its first NUL,
      unless the empty rest of it lies at the capacity. */
  function StrRead(v: Flat, len: Length, s: seq<Byte>, little: bool): (Result<seq<Byte>>, Flat) {
    var n := StoredLength(len, |s|);
    var v1 := Past(v, |LengthBytes(len, |s|, little)|);
    if n == 0 && v1.pos == v.cap then (Err(NullNode), v1) else (Ok(CString(s[..n])), Past(v1, n))
  }

  lemma StrBack(v: Flat, len: Length, s: seq<Byte>, little: bool, l: seq<Byte>)
    requires |s| < Limit(Var64) && l == LengthBytes(len, |s|, little) && Ahead(v, l + s)
    ensures ReadStr(v, len, little) == StrRead(v, len, s, little)
  {
    hide LengthBytes, ReadLength;
    AheadSplit(v, l, s);
    LengthBack(v, len, |s|, little, l);
    var v1, n := Past(v, |l|), StoredLength(len, |s|);
    assert s == s[..n] + s[n..];
    AheadSplit(v1, s[..n], s[n..]);
    if n > 0 {
      ReadsAhead(v1, s[..n]);
    }
  }

  /** The number types come back as they are: two's complement at the width of the type. */
  lemma SignBack(v: int, w: nat, signed: bool)
    requires w >= 1 && if signed then 0 - Pow256(w) <= 2 * v < Pow256(w) else 0 <= v < Pow256(w)
    ensures 0 <= ToUnsigned(v, w) < Pow256(w) && FromUnsigned(ToUnsigned(v, w), w, signed) == v
  {
  }

  /** The second string of bytes at the capacity, with nothing to read. */
  predicate EmptyAtEnd(f: Field, v: Flat) {
    f.Str? && f.s == [] && v.pos == v.cap
  }

  /** A field that comes next is read back if and only if it is a number or a string without NULs that
      fits its length field, and an empty string does not end at the capacity, where the read goes
      through the null node. */
  lemma FieldBack(v: Flat, f: Field, little: bool, b: seq<Byte>)
    requires Typed(f) && b == Encode(f, little) && Ahead(v, b)
    ensures var end := Past(v, |b|); var r := ReadField(v, KindOf(f), little);
            && (Readable(f) ==> r == (if EmptyAtEnd(f, end) then Err(NullNode) else Ok(f), end))
            && (r.0 == Ok(f) <==> Readable(f) && !EmptyAtEnd(f, end))
  {
    hide Ahead, Ordered, LengthBytes, ReadFixed, ReadStr, EncodeZigzag32, EncodeZigzag64, DecodeZigzag32,
      DecodeZigzag64, Number32, Number64, Word32, Word64;
    match f
    case Num(w, signed, x) => NumBack(v, w, signed, x, little);
    case UVar(bits, u) => UVarBack(v, bits, u);
    case SVar32(x) => SVar32Back(v, x);
    case SVar64(y) => SVar64Back(v, y);
    case Str(len, s) => StrFieldBack(v, len, s, little, b);
  }

  lemma NumBack(v: Flat, w: nat, signed: bool, x: int, little: bool)
    requires Typed(Num(w, signed, x)) && Ahead(v, Encode(Num(w, signed, x), little))
    ensures ReadField(v, KNum(w, signed), little) == (Ok(Num(w, signed, x)), Past(v, w))
    ensures |Encode(Num(w, signed, x), little)| == w
  {
    hide Ordered, Ahead, Past, ReadFixed;
    SignBack(x, w, signed);
    FixedBack(v, ToUnsigned(x, w), w, little);
  }

  lemma TypedVar(bits: nat, u: int)
    requires Typed(UVar(bits, u))
    ensures 0 <= u < Pow2(bits) && bits >= 1 && u * Pow2(0) == u
  {
  }

  lemma UVarBack(v: Flat, bits: nat, u: nat)
    requires Typed(UVar(bits, u)) && Ahead(v, VarBytes(u))
    ensures ReadVar(v, 0, 0, bits) == (Ok(u), Past(v, |VarBytes(u)|))
  {
    hide Typed, Ahead;
    TypedVar(bits, u);
    VarBack(v, u, 0, 0, bits);
  }

  lemma SVar32Back(v: Flat, x: bv32)
    requires Ahead(v, VarBytes(Number32(EncodeZigzag32(x))))
    ensures ReadField(v, KSVar32, true) == (Ok(SVar32(x)), Past(v, |VarBytes(Number32(EncodeZigzag32(x)))|))
  {
    hide EncodeZigzag32, DecodeZigzag32, Number32, Word32, Ahead, Past;
    var u := EncodeZigzag32(x);
    Powers();
    VarBack(v, Number32(u), 0, 0, 32);
    Word32Back(u);
    Zigzag32Bijection(x);
  }

  lemma SVar64Back(v: Flat, y: bv64)
    requires Ahead(v, VarBytes(Number64(EncodeZigzag64(y))))
    ensures ReadField(v, KSVar64, true) == (Ok(SVar64(y)), Past(v, |VarBytes(Number64(EncodeZigzag64(y)))|))
  {
    hide EncodeZigzag64, DecodeZigzag64, Number64, Word64, Ahead, Past;
    var u := EncodeZigzag64(y);
    Powers();
    VarBack(v, Number64(u), 0, 0, 64);
    Word64Back(u);
    Zigzag64Bijection(y);
  }

  lemma StrFieldBack(v: Flat, len: Length, s: seq<Byte>, little: bool, b: seq<Byte>)
    requires |s| < Limit(Var64) && b == LengthBytes(len, |s|, little) + s && Ahead(v, b)
    ensures var end := Past(v, |b|); var whole := NulFree(s) && |s| < Limit(len); var r := ReadStr(v, len, little);
            && (whole ==> r == (if s == [] && end.pos == v.cap then Err(NullNode) else Ok(s), end))
            && (r.0 == Ok(s) <==> whole && !(s == [] && end.pos == v.cap))
  {
    hide LengthBytes, ReadStr, Ahead;
    StrBack(v, len, s, little, LengthBytes(len, |s|, little));
    var n := StoredLength(len, |s|);
    CStringWhole(s[..n]);
    assert n == |s| ==> s[..n] == s;
  }

  // ---------------------------------------------------------------------------------------
  // Reading a field that was cut short
  // ---------------------------------------------------------------------------------------

  /** Of the bytes b only a proper prefix is left. */
  predicate Cut(v: Flat, b: seq<Byte>) {
    v.InRange() && |v.bytes| < v.pos + |b| && v.bytes[v.pos..] == b[..|v.bytes| - v.pos]
  }

  /** The cut is in the first part or in the second. */
  lemma CutSplit(v: Flat, a: seq<Byte>, b: seq<Byte>)
    requires Cut(v, a + b)
    ensures Cut(v, a) || (Ahead(v, a) && Cut(Past(v, |a|), b))
  {
    var left := |v.bytes| - v.pos;
    if left < |a| {
      assert (a + b)[..left] == a[..left];
    } else {
      assert (a + b)[..left] == a + b[..left - |a|];
      assert v.bytes[v.pos..][..|a|] == v.bytes[v.pos..v.pos + |a|];
      assert v.bytes[v.pos..][|a|..] == v.bytes[v.pos + |a|..];
    }
  }

  lemma {:induction false} VarCut(v: Flat, x: nat, acc: nat, shift: nat, bits: nat)
    requires Cut(v, VarBytes(x)) && x * Pow2(shift) < Pow2(bits) && shift < bits
    ensures ReadVar(v, acc, shift, bits).0 == Err(OutOfRange)
    decreases x
  {
    hide AddBits;
    var p := Pow2(shift);
    if x >= 128 && v.pos < |v.bytes| {
      var q, r := x / 128, x % 128;
      assert x == 128 * q + r && VarBytes(x) == [128 + r] + VarBytes(q);
      CutSplit(v, [128 + r], VarBytes(q));
      ReadsAhead(v, [128 + r]);
      Pow2Add7(shift);
      VarStep(x, q, r, p, 0, bits, shift);
      VarCut(Past(v, 1), q, AddBits(acc, r, shift, bits), shift + 7, bits);
    }
  }

  lemma LengthCut(v: Flat, len: Length, n: nat, little: bool, l: seq<Byte>)
    requires n < Limit(Var64) && l == LengthBytes(len, n, little) && Cut(v, l)
    ensures ReadLength(v, len, little).0 == Err(OutOfRange)
  {
    Powers();
    if len.Var64? {
      VarCut(v, n, 0, 0, 64);
    }
  }

  lemma StrCut(v: Flat, len: Length, s: seq<Byte>, little: bool, l: seq<Byte>)
    requires |s| < Limit(len) && l == LengthBytes(len, |s|, little) && Cut(v, l + s)
    ensures ReadStr(v, len, little).0 == Err(OutOfRange)
  {
    hide LengthBytes, ReadLength;
    CutSplit(v, l, s);
    if Cut(v, l) {
      LengthCut(v, len, |s|, little, l);
    } else {
      LengthBack(v, len, |s|, little, l);
    }
  }

  /** A field cut short is never read as another value: the read ends in the exception. */
  lemma FieldCut(v: Flat, f: Field, little: bool, b: seq<Byte>)
    requires Typed(f) && Readable(f) && b == Encode(f, little) && Cut(v, b)
    ensures ReadField(v, KindOf(f), little).0 == Err(OutOfRange)
  {
    match f
    case Num(_, _, _) =>
    case UVar(bits, u) => UVarCut(v, bits, u);
    case SVar32(x) => SVarCut(v, Number32(EncodeZigzag32(x)), 32);
    case SVar64(y) => SVarCut(v, Number64(EncodeZigzag64(y)), 64);
    case Str(len, s) => StrCut(v, len, s, little, LengthBytes(len, |s|, little));
  }

  lemma UVarCut(v: Flat, bits: nat, u: nat)
    requires Typed(UVar(bits, u)) && Cut(v, VarBytes(u))
    ensures ReadVar(v, 0, 0, bits).0 == Err(OutOfRange)
  {
    hide Typed, Cut;
    TypedVar(bits, u);
    VarCut(v, u, 0, 0, bits);
  }

  lemma SVarCut(v: Flat, u: nat, bits: nat)
    requires (bits == 32 && u < 0x1_0000_0000) || (bits == 64 && u < 0x1_0000_0000_0000_0000)
    requires Cut(v, VarBytes(u))
    ensures ReadVar(v, 0, 0, bits).0 == Err(OutOfRange)
  {
    Powers();
    VarCut(v, u, 0, 0, bits);
  }

  // ---------------------------------------------------------------------------------------
  // Lists of fields
  // ---------------------------------------------------------------------------------------

  predicate AllTyped(fs: seq<Field>) {
    forall i | 0 <= i < |fs| :: Typed(fs[i])
  }

  predicate AllReadable(fs: seq<Field>) {
    AllTyped(fs) && forall i | 0 <= i < |fs| :: Readable(fs[i])
  }

  function Kinds(fs: seq<Field>): seq<Kind> {
    seq(|fs|, i requires 0 <= i < |fs| => KindOf(fs[i]))
  }

  /** The bytes of a list of fields, one after the other. */
  function EncodeAll(fs: seq<Field>, little: bool): (r: seq<Byte>)
    requires AllTyped(fs)
    ensures |r| >= |fs|
  {
    if fs == [] then [] else Encode(fs[0], little) + EncodeAll(fs[1..], little)
  }

  lemma {:induction false} EncodeAllAppend(a: seq<Field>, b: seq<Field>, little: bool)
    requires AllTyped(a) && AllTyped(b)
    ensures AllTyped(a + b) && EncodeAll(a + b, little) == EncodeAll(a, little) + EncodeAll(b, little)
  {
    hide Encode, Typed;
    if a == [] {
      assert a + b == b;
    } else {
      EncodeAllAppend(a[1..], b, little);
      assert (a + b)[1..] == a[1..] + b;
      Assoc(Encode(a[0], little), EncodeAll(a[1..], little), EncodeAll(b, little));
    }
  }

  /** The writes of one field: two for a string, one for anything else. */
  function WriteField(v: Flat, nodeSize: nat, f: Field, little: bool): (r: Flat)
    requires v.InRange() && nodeSize > 0 && Typed(f)
    ensures r.InRange() && r == FlatWrite(v, nodeSize, Encode(f, little))
  {
    if f.Str? then
      var l := LengthBytes(f.len, |f.s|, little);
      WriteTwice(v, nodeSize, l, f.s);
      FlatWrite(FlatWrite(v, nodeSize, l), nodeSize, f.s)
    else
      WriteInRange(v, nodeSize, Encode(f, little));
      FlatWrite(v, nodeSize, Encode(f, little))
  }

  function WriteAll(v: Flat, nodeSize: nat, fs: seq<Field>, little: bool): Flat
    requires v.InRange() && nodeSize > 0 && AllTyped(fs)
    decreases |fs|
  {
    if fs == [] then v else WriteAll(WriteField(v, nodeSize, fs[0], little), nodeSize, fs[1..], little)
  }

  function ReadAll(v: Flat, kinds: seq<Kind>, little: bool): (r: (Result<seq<Field>>, Flat))
    requires v.InRange()
    decreases |kinds|
  {
    if kinds == [] then (Ok([]), v)
    else
      var (f, v1) := ReadField(v, kinds[0], little);
      if f.Err? then (Err(f.fault), v1)
      else
        var (rest, v2) := ReadAll(v1, kinds[1..], little);
        (if rest.Ok? then Ok([f.value] + rest.value) else rest, v2)
  }

  lemma WriteInRange(v: Flat, nodeSize: nat, b: seq<Byte>)
    requires v.InRange() && nodeSize > 0
    ensures FlatWrite(v, nodeSize, b).InRange()
  {
    GrownBounds(v.cap, v.pos + |b|, nodeSize);
  }

  /** Two writes in a row are one write of both: the same bytes, cursor and capacity. */
  lemma WriteTwice(v: Flat, nodeSize: nat, a: seq<Byte>, b: seq<Byte>)
    requires v.InRange() && nodeSize > 0
    ensures FlatWrite(v, nodeSize, a).InRange() && FlatWrite(v, nodeSize, a + b).InRange()
    ensures FlatWrite(FlatWrite(v, nodeSize, a), nodeSize, b) == FlatWrite(v, nodeSize, a + b)
  {
    hide Grown;
    WriteInRange(v, nodeSize, a);
    WriteInRange(v, nodeSize, a + b);
    GrownTwice(v.cap, v.pos + |a|, v.pos + |a + b|, nodeSize);
    assert Written(Written(v.bytes, v.pos, a), v.pos + |a|, b) == Written(v.bytes, v.pos, a + b);
  }

  lemma GrownTwice(cap: nat, need: nat, more: nat, nodeSize: nat)
    requires nodeSize > 0 && need <= more
    ensures Grown(Grown(cap, need, nodeSize), more, nodeSize) == Grown(cap, more, nodeSize)
  {
    hide Off, CeilDiv;
    var mid := Grown(cap, need, nodeSize);
    GrownBounds(cap, need, nodeSize);
    GrownBounds(cap, more, nodeSize);
    GrownBounds(mid, more, nodeSize);
    OffNext(0, nodeSize);
    if more > cap && need > cap {
      var i, k := CeilDiv(need - cap, nodeSize), CeilDiv(more - cap, nodeSize);
      var j := if more <= mid then 0 else CeilDiv(more - mid, nodeSize);
      OffAdd(i, j, nodeSize);
      SameBlockCount(i + j, k, nodeSize, more - cap);
    }
  }

  lemma OffAdd(i: nat, j: nat, size: nat)
    ensures Off(i + j, size) == Off(i, size) + Off(j, size)
  {
    assert (i + j) * size == i * size + j * size;
  }

  /** Only one number of blocks lies within a block of x. */
  lemma SameBlockCount(i: nat, j: nat, size: nat, x: nat)
    requires x <= Off(i, size) < x + size && x <= Off(j, size) < x + size
    ensures i == j
  {
    hide Off;
    if i < j {
      OffMono(i, j, size);
    } else if j < i {
      OffMono(j, i, size);
    }
  }

  /** Writing field by field is writing all their bytes at once. */
  lemma {:induction false} WriteAllBytes(v: Flat, nodeSize: nat, fs: seq<Field>, little: bool)
    requires v.InRange() && nodeSize > 0 && AllTyped(fs)
    ensures WriteAll(v, nodeSize, fs, little) == FlatWrite(v, nodeSize, EncodeAll(fs, little))
    decreases |fs|
  {
    hide Encode, WriteField;
    if fs == [] {
      WrittenNothing(v.bytes, v.pos);
    } else {
      var b, rest := Encode(fs[0], little), fs[1..];
      var v1 := WriteField(v, nodeSize, fs[0], little);
      WriteAllBytes(v1, nodeSize, rest, little);
      WriteTwice(v, nodeSize, b, EncodeAll(rest, little));
    }
  }

  /** After rewinding, what has just been written comes next, and what was before it is as it was. */
  lemma WrittenAhead(v: Flat, nodeSize: nat, b: seq<Byte>, w: Flat)
    requires v.InRange() && nodeSize > 0 && w == FlatWrite(v, nodeSize, b)
    ensures w.InRange() && w.pos == v.pos + |b| && w.bytes[..v.pos] == v.bytes[..v.pos]
    ensures Ahead(w.(pos := v.pos), b) && Past(w.(pos := v.pos), |b|) == w
  {
    hide Grown;
    WriteInRange(v, nodeSize, b);
  }

  /** The last of a list of fields is an empty string that ends at the capacity. */
  predicate EmptyLast(fs: seq<Field>, end: Flat) {
    fs != [] && EmptyAtEnd(fs[|fs| - 1], end)
  }

  lemma {:induction false} ReadAllAhead(v: Flat, fs: seq<Field>, little: bool)
    requires AllReadable(fs) && Ahead(v, EncodeAll(fs, little))
    ensures var end := Past(v, |EncodeAll(fs, little)|);
            ReadAll(v, Kinds(fs), little) == (if EmptyLast(fs, end) then Err(NullNode) else Ok(fs), end)
    decreases |fs|
  {
    hide Encode, Typed, Readable, ReadField;
    if fs != [] {
      var f, rest := fs[0], fs[1..];
      var b := Encode(f, little);
      AheadSplit(v, b, EncodeAll(rest, little));
      FieldBack(v, f, little, b);
      assert Kinds(fs)[0] == KindOf(f) && Kinds(fs)[1..] == Kinds(rest);
      assert fs == [f] + rest;
      if rest != [] {
        ReadAllAhead(Past(v, |b|), rest, little);
        assert fs[|fs| - 1] == rest[|rest| - 1];
        assert Past(Past(v, |b|), |EncodeAll(rest, little)|) == Past(v, |EncodeAll(fs, little)|);
        assert !EmptyAtEnd(f, Past(v, |b|));
      }
    }
  }

  lemma {:induction false} ReadAllExact(v: Flat, fs: seq<Field>, little: bool)
    requires AllTyped(fs) && Ahead(v, EncodeAll(fs, little)) && ReadAll(v, Kinds(fs), little).0 == Ok(fs)
    ensures AllReadable(fs) && !EmptyLast(fs, Past(v, |EncodeAll(fs, little)|))
    decreases |fs|
  {
    hide Encode, Typed, Readable, ReadField, Kinds, KindOf, Ahead, Past, EmptyAtEnd;
    KindsTail(fs);
    if fs != [] {
      var f, rest := fs[0], fs[1..];
      var b := Encode(f, little);
      AheadSplit(v, b, EncodeAll(rest, little));
      FieldBack(v, f, little, b);
      var r, v1 := ReadField(v, KindOf(f), little).0, ReadField(v, KindOf(f), little).1;
      var all := ReadAll(v1, Kinds(rest), little).0;
      HeadTail(r.value, all.value, fs);
      ReadAllExact(v1, rest, little);
      assert fs == [f] + rest;
      assert rest != [] ==> fs[|fs| - 1] == rest[|rest| - 1];
      PastTwice(v, |b|, |EncodeAll(rest, little)|);
    }
  }

  lemma KindsTail(fs: seq<Field>)
    ensures |Kinds(fs)| == |fs|
    ensures fs != [] ==> Kinds(fs)[0] == KindOf(fs[0]) && Kinds(fs)[1..] == Kinds(fs[1..])
  {
  }

  lemma KindsHead(want: seq<Field>, fs: seq<Field>)
    requires Kinds(want) == Kinds(fs)
    ensures |want| == |fs|
    ensures fs != [] ==> KindOf(want[0]) == KindOf(fs[0]) && Kinds(want[1..]) == Kinds(fs[1..])
  {
    assert |Kinds(want)| == |Kinds(fs)|;
    if fs != [] {
      assert Kinds(want)[0] == Kinds(fs)[0];
      assert Kinds(want)[1..] == Kinds(want[1..]) && Kinds(fs)[1..] == Kinds(fs[1..]);
    }
  }

  /** The round trip: any list of fields is written at the cursor, the array rewound and the same kinds
      read. If every field is readable, the list comes back and the reading ends at the same position,
      over any chunk boundaries and in either byte order, except when the last field is an empty string
      and the writing ended at the capacity: then the last read goes through the null node. And no other
      list comes back. */
  lemma FieldsRoundTrip(v: Flat, nodeSize: nat, fs: seq<Field>, little: bool, w: Flat)
    requires v.InRange() && nodeSize > 0 && AllTyped(fs) && w == WriteAll(v, nodeSize, fs, little)
    ensures w.InRange() && w.pos == v.pos + |EncodeAll(fs, little)|
    ensures w.bytes[..v.pos] == v.bytes[..v.pos]
    ensures var r := ReadAll(w.(pos := v.pos), Kinds(fs), little);
            && (AllReadable(fs) ==> r == (if EmptyLast(fs, w) then Err(NullNode) else Ok(fs), w))
            && (r.0 == Ok(fs) <==> AllReadable(fs) && !EmptyLast(fs, w))
  {
    hide AllTyped, AllReadable, FlatWrite, Ahead, Past, EmptyLast;
    WriteAllBytes(v, nodeSize, fs, little);
    WrittenAhead(v, nodeSize, EncodeAll(fs, little), w);
    if AllReadable(fs) {
      ReadAllAhead(w.(pos := v.pos), fs, little);
    }
    if ReadAll(w.(pos := v.pos), Kinds(fs), little).0 == Ok(fs) {
      ReadAllExact(w.(pos := v.pos), fs, little);
    }
  }

  /** An array written from empty is full exactly when the bytes are a positive multiple of the node
      size, so this is when an empty string at the end cannot be read back. */
  lemma FullWhen(nodeSize: nat, b: seq<Byte>, w: Flat)
    requires nodeSize > 0 && w == FlatWrite(Flat([], 0, nodeSize), nodeSize, b)
    ensures w.pos == w.cap <==> b != [] && Rem(|b|, nodeSize) == 0
  {
    var n := |b|;
    OffNext(0, nodeSize);
    SplitPosition(n, nodeSize);
    GrownBounds(nodeSize, n, nodeSize);
    if n > nodeSize {
      var i := CeilDiv(n - nodeSize, nodeSize);
      OffAdd(1, i, nodeSize);
      if Rem(n, nodeSize) == 0 {
        SameBlockCount(1 + i, Quot(n, nodeSize), nodeSize, n);
      } else if w.cap == n {
        SplitUnique(1 + i, 0, nodeSize);
      }
    } else if n == nodeSize {
      SplitUnique(1, 0, nodeSize);
    } else if n > 0 {
      SplitUnique(0, n, nodeSize);
    }
  }
}
