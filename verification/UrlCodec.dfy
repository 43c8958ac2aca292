/** Percent-encoding of byte strings (section 2.1 of RFC 3986), with the space optionally as '+'. */
module UrlCodec {
  import opened Prelude

  const SPACE: Byte := 32
  const PERCENT: Byte := 37
  const PLUS: Byte := 43

  /** The characters that stand for themselves: - . 0-9 = A-Z _ a-z ~ (the table of the source has '='
      among them, its comment and section 2.3 of RFC 3986 have not). */
  predicate Unreserved(c: Byte) {
    c == 45 || c == 46 || 48 <= c <= 57 || c == 61 || 65 <= c <= 90 || c == 95 || 97 <= c <= 122 || c == 126
  }

  function HexDigit(v: int): Byte
    requires 0 <= v < 16
  {
    if v < 10 then 48 + v else 55 + v
  }

  predicate IsHex(c: Byte) {
    48 <= c <= 57 || 65 <= c <= 70 || 97 <= c <= 102
  }

  function HexValue(c: Byte): int {
    if 48 <= c <= 57 then c - 48
    else if 65 <= c <= 70 then c - 55
    else if 97 <= c <= 102 then c - 87
    else 0
  }

  /** What one character is encoded as. */
  function EncodeOne(c: Byte, spaceAsPlus: bool): seq<Byte> {
    if Unreserved(c) then [c]
    else if c == SPACE && spaceAsPlus then [PLUS]
    else [PERCENT, HexDigit(c / 16), HexDigit(c % 16)]
  }

  function Encode(s: seq<Byte>, spaceAsPlus: bool): seq<Byte> {
    if s == [] then [] else EncodeOne(s[0], spaceAsPlus) + Encode(s[1..], spaceAsPlus)
  }

  /** How many characters the decoder consumes at the start of s: an escape, or one. */
  function Width(s: seq<Byte>): (w: nat)
    requires s != []
    ensures 1 <= w <= |s|
  {
    if s[0] == PERCENT && |s| >= 3 && IsHex(s[1]) && IsHex(s[2]) then 3 else 1
  }

  function DecodeOne(s: seq<Byte>, spaceAsPlus: bool): Byte
    requires s != []
  {
    if s[0] == PLUS && spaceAsPlus then SPACE
    else if Width(s) == 3 then (HexValue(s[1]) * 16 + HexValue(s[2])) % 256
    else s[0]
  }

  function Decode(s: seq<Byte>, spaceAsPlus: bool): seq<Byte>
    decreases |s|
  {
    if s == [] then [] else [DecodeOne(s, spaceAsPlus)] + Decode(s[Width(s)..], spaceAsPlus)
  }

  /** s with its spaces replaced by '+'. */
  function PlusForSpace(s: seq<Byte>): (r: seq<Byte>)
    ensures |r| == |s| && forall i | 0 <= i < |s| :: r[i] == if s[i] == SPACE then PLUS else s[i]
  {
    if s == [] then [] else [if s[0] == SPACE then PLUS else s[0]] + PlusForSpace(s[1..])
  }

  lemma HexBack(v: int)
    requires 0 <= v < 16
    ensures IsHex(HexDigit(v)) && HexValue(HexDigit(v)) == v
  {
  }

  lemma DecodesOne(c: Byte, rest: seq<Byte>, f: bool, g: bool)
    ensures var e := EncodeOne(c, f) + rest;
            && e[Width(e)..] == rest
            && DecodeOne(e, g) == if c == SPACE && f && !g then PLUS else c
  {
    hide HexDigit, HexValue, IsHex;
    var e := EncodeOne(c, f) + rest;
    HexBack(c / 16);
    HexBack(c % 16);
    if |EncodeOne(c, f)| == 3 {
      assert e[0] == PERCENT && e[1] == HexDigit(c / 16) && e[2] == HexDigit(c % 16);
      assert e[3..] == rest;
    } else {
      assert e[1..] == rest;
    }
  }

  /** Decoding what was encoded gives the string back; if spaces were written as '+' and the decoder
      is not told so, they come back as '+'. */
  lemma {:induction false} DecodesEncoded(s: seq<Byte>, f: bool, g: bool)
    ensures Decode(Encode(s, f), g) == if f && !g then PlusForSpace(s) else s
  {
    if s != [] {
      DecodesEncoded(s[1..], f, g);
      DecodesOne(s[0], Encode(s[1..], f), f, g);
      assert Encode(s, f) != [];
    }
  }

  /** Round trip, for every byte string and every combination of the two flags: it succeeds exactly
      when the flags agree on spaces or there is none. */
  lemma RoundTrip(s: seq<Byte>, f: bool, g: bool)
    ensures Decode(Encode(s, f), g) == s <==> (f ==> g || SPACE !in s)
  {
    DecodesEncoded(s, f, g);
    if f && !g && SPACE in s {
      var i :| 0 <= i < |s| && s[i] == SPACE;
      assert PlusForSpace(s)[i] != s[i];
    }
  }

  /** Only characters that stand for themselves and the two markers occur in what is encoded. */
  lemma {:induction false} EncodedIsSafe(s: seq<Byte>, f: bool)
    ensures forall c | c in Encode(s, f) :: Unreserved(c) || c == PERCENT || (f && c == PLUS)
  {
    if s != [] {
      EncodedIsSafe(s[1..], f);
    }
  }

  lemma {:induction false} EncodeAppend(a: seq<Byte>, b: seq<Byte>, f: bool)
    ensures Encode(a + b, f) == Encode(a, f) + Encode(b, f)
  {
    hide EncodeOne;
    if a == [] {
      assert a + b == b;
    } else {
      EncodeAppend(a[1..], b, f);
      assert (a + b)[1..] == a[1..] + b;
      Assoc(EncodeOne(a[0], f), Encode(a[1..], f), Encode(b, f));
    }
  }

  lemma {:induction false} EncodeUnreserved(s: seq<Byte>, f: bool)
    requires forall i | 0 <= i < |s| :: Unreserved(s[i])
    ensures Encode(s, f) == s
  {
    if s != [] {
      EncodeUnreserved(s[1..], f);
    }
  }

  // ---------------------------------------------------------------------------------------
  // What is encoded and decoded, in terms of the characters
  // ---------------------------------------------------------------------------------------

  /** The characters with a 1 in the table of the source. */
  const PLAIN: string :=
    "-." + "0123456789" + "=" + "ABCDEFGHIJKLM" + "NOPQRSTUVWXYZ" + "_" + "abcdefghijklm" + "nopqrstuvwxyz" + "~"
  const UPPER: string := "0123456789ABCDEF"
  const LOWER: string := "0123456789abcdef"

  lemma PlainTable(c: Byte)
    ensures Unreserved(c) <==> c as char in PLAIN
  {
  }

  lemma UpperDigit(v: nat)
    requires v < 16
    ensures HexDigit(v) == UPPER[v] as int
  {
    assert v == 0 || v == 1 || v == 2 || v == 3 || v == 4 || v == 5 || v == 6 || v == 7
        || v == 8 || v == 9 || v == 10 || v == 11 || v == 12 || v == 13 || v == 14 || v == 15;
  }

  lemma LowerDigit(v: nat)
    requires v < 16
    ensures LOWER[v] as int == if v < 10 then 48 + v else 87 + v
  {
    assert v == 0 || v == 1 || v == 2 || v == 3 || v == 4 || v == 5 || v == 6 || v == 7
        || v == 8 || v == 9 || v == 10 || v == 11 || v == 12 || v == 13 || v == 14 || v == 15;
  }

  /** c is a hexadecimal digit of value v, in either case. */
  predicate IsDigitOf(c: Byte, v: nat)
    requires v < 16
  {
    c == UPPER[v] as int || c == LOWER[v] as int
  }

  lemma DigitHasValue(c: Byte, v: nat)
    requires v < 16 && IsDigitOf(c, v)
    ensures IsHex(c) && HexValue(c) == v
  {
    UpperDigit(v);
    LowerDigit(v);
  }

  /** A string is encoded character by character: those of the table stand for themselves, a space may
      become '+', and every other byte becomes '%' and its two digits in upper case. */
  lemma EncodesEach(a: seq<Byte>, c: Byte, b: seq<Byte>, f: bool)
    ensures Encode(a + [c] + b, f)
            == Encode(a, f)
             + (if c as char in PLAIN then [c]
                else if c == ' ' as int && f then ['+' as int]
                else ['%' as int, UPPER[c / 16] as int, UPPER[c % 16] as int])
             + Encode(b, f)
  {
    hide EncodeOne;
    EncodedAs(c, f);
    EncodeAppend(a + [c], b, f);
    EncodeAppend(a, [c], f);
    assert [c][1..] == [];
  }

  lemma EncodedAs(c: Byte, f: bool)
    ensures EncodeOne(c, f) == if c as char in PLAIN then [c]
                               else if c == ' ' as int && f then ['+' as int]
                               else ['%' as int, UPPER[c / 16] as int, UPPER[c % 16] as int]
  {
    hide Unreserved, HexDigit;
    PlainTable(c);
    UpperDigit(c / 16);
    UpperDigit(c % 16);
  }

  /** b cannot go on with an escape that a leaves open: it does not begin with a hexadecimal digit, or
      neither of the last two characters of a is '%'. */
  predicate Apart(a: seq<Byte>, b: seq<Byte>) {
    || b == []
    || (forall v: nat | v < 16 :: !IsDigitOf(b[0], v))
    || (forall i | 0 <= i < |a| && i + 2 >= |a| :: a[i] != '%' as int)
  }

  /** The decoder reads b as it would without a before it. */
  lemma {:induction false} DecodeAppend(a: seq<Byte>, b: seq<Byte>, g: bool)
    requires Apart(a, b)
    ensures Decode(a + b, g) == Decode(a, g) + Decode(b, g)
    decreases |a|
  {
    hide DecodeOne, Width, IsDigitOf, Apart;
    if a == [] {
      assert a + b == b;
    } else {
      HeadKept(a, b, g);
      var w := Width(a);
      ApartTail(a, b, w);
      DecodeAppend(a[w..], b, g);
      assert (a + b)[w..] == a[w..] + b;
      Assoc([DecodeOne(a, g)], Decode(a[w..], g), Decode(b, g));
    }
  }

  lemma ApartTail(a: seq<Byte>, b: seq<Byte>, w: nat)
    requires Apart(a, b) && w <= |a|
    ensures Apart(a[w..], b)
  {
    hide IsDigitOf;
  }

  /** What comes behind a does not change how its first character is read. */
  lemma HeadKept(a: seq<Byte>, b: seq<Byte>, g: bool)
    requires a != [] && Apart(a, b)
    ensures Width(a + b) == Width(a) && DecodeOne(a + b, g) == DecodeOne(a, g)
  {
    if b != [] && a[0] == PERCENT && |a| < 3 {
      assert a[0] == '%' as int;
      NotHex(b[0]);
      assert (a + b)[|a|] == b[0];
    }
  }

  lemma NotHex(c: Byte)
    requires forall v: nat | v < 16 :: !IsDigitOf(c, v)
    ensures !IsHex(c)
  {
    if IsHex(c) {
      var v: nat := if c <= 57 then c - 48 else if c <= 70 then c - 55 else c - 87;
      UpperDigit(v);
      LowerDigit(v);
      assert IsDigitOf(c, v);
    }
  }

  /** An escape, '%' and two hexadecimal digits in either case, is read as the byte of that value, and
      what stands around it as if it were alone. */
  lemma EscapeDecodes(a: seq<Byte>, c: Byte, x: Byte, y: Byte, b: seq<Byte>, g: bool)
    requires IsDigitOf(x, c / 16) && IsDigitOf(y, c % 16)
    ensures Decode(a + ['%' as int, x, y] + b, g) == Decode(a, g) + [c] + Decode(b, g)
  {
    hide IsHex, HexValue, IsDigitOf;
    DigitHasValue(x, c / 16);
    DigitHasValue(y, c % 16);
    var s := [PERCENT, x, y] + b;
    assert s[0] == PERCENT && s[1] == x && s[2] == y && s[3..] == b;
    PercentNoDigit(s[0]);
    DecodeAppend(a, s, g);
    assert a + ['%' as int, x, y] + b == a + s;
    Assoc(Decode(a, g), [c], Decode(b, g));
  }

  lemma PercentNoDigit(c: Byte)
    requires c == '%' as int
    ensures forall v: nat | v < 16 :: !IsDigitOf(c, v)
  {
    forall v: nat | v < 16 ensures !IsDigitOf(c, v) {
      UpperDigit(v);
      LowerDigit(v);
    }
  }

  /** The characters at the start of s are an escape. */
  predicate StartsEscape(s: seq<Byte>) {
    |s| >= 3 && s[0] == '%' as int && (exists v: nat | v < 16 :: IsDigitOf(s[1], v))
    && exists v: nat | v < 16 :: IsDigitOf(s[2], v)
  }

  /** Any other character stands for itself, except that '+' is a space if the flag says so. */
  lemma OtherDecodes(a: seq<Byte>, c: Byte, b: seq<Byte>, g: bool)
    requires !StartsEscape([c] + b) && Apart(a, [c] + b)
    ensures Decode(a + [c] + b, g) == Decode(a, g) + [if c == '+' as int && g then ' ' as int else c] + Decode(b, g)
  {
    var s := [c] + b;
    if Width(s) == 3 {
      HexHasDigit(s[1]);
      HexHasDigit(s[2]);
    }
    assert s[1..] == b;
    DecodeAppend(a, s, g);
    assert a + [c] + b == a + s;
    Assoc(Decode(a, g), [DecodeOne(s, g)], Decode(b, g));
  }

  lemma HexHasDigit(c: Byte)
    requires IsHex(c)
    ensures exists v: nat | v < 16 :: IsDigitOf(c, v)
  {
    if forall v: nat | v < 16 :: !IsDigitOf(c, v) {
      NotHex(c);
    }
  }

  // ---------------------------------------------------------------------------------------
  // The loops
  // ---------------------------------------------------------------------------------------

  /** The encoder: the output buffer is created only at the first character that changes, with a copy
      of all before it; until then, and if there is none, the input itself is the output. */
  method UrlEncode(str: seq<Byte>, spaceAsPlus: bool) returns (rt: seq<Byte>)
    ensures rt == Encode(str, spaceAsPlus)
  {
    var ss: Option<seq<Byte>> := None;
    var c := 0;
    while c < |str|
      invariant c <= |str|
      invariant ss.None? ==> forall i | 0 <= i < c :: Unreserved(str[i])
      invariant ss.Some? ==> ss.value == Encode(str[..c], spaceAsPlus)
    {
      EncodeNext(str, c, spaceAsPlus);
      if !Unreserved(str[c]) {
        if ss.None? {
          ss := Some(str[..c]);
          EncodeUnreserved(str[..c], spaceAsPlus);
        }
        if str[c] == SPACE && spaceAsPlus {
          ss := Some(ss.value + [PLUS]);
        } else {
          OneByOne(ss.value, PERCENT, HexDigit(str[c] / 16), HexDigit(str[c] % 16));
          ss := Some(ss.value + [PERCENT] + [HexDigit(str[c] / 16)] + [HexDigit(str[c] % 16)]);
        }
      } else if ss.Some? {
        ss := Some(ss.value + [str[c]]);
      }
      c := c + 1;
    }
    assert str[..c] == str;
    if ss.None? {
      EncodeUnreserved(str, spaceAsPlus);
      rt := str;
    } else {
      rt := ss.value;
    }
  }

  lemma OneByOne(s: seq<Byte>, a: Byte, b: Byte, c: Byte)
    ensures s + [a] + [b] + [c] == s + [a, b, c]
  {
  }

  lemma EncodeNext(s: seq<Byte>, c: nat, f: bool)
    requires c < |s|
    ensures Encode(s[..c + 1], f) == Encode(s[..c], f) + EncodeOne(s[c], f)
  {
    assert s[..c + 1] == s[..c] + [s[c]];
    EncodeAppend(s[..c], [s[c]], f);
    assert [s[c]][1..] == [];
  }

  lemma HeadAt(s: seq<Byte>, c: nat, g: bool)
    requires c < |s|
    ensures Width(s[c..]) == if s[c] == PERCENT && c + 2 < |s| && IsHex(s[c + 1]) && IsHex(s[c + 2]) then 3 else 1
    ensures DecodeOne(s[c..], g) == if s[c] == PLUS && g then SPACE
                                    else if Width(s[c..]) == 3 then (HexValue(s[c + 1]) * 16 + HexValue(s[c + 2])) % 256
                                    else s[c]
  {
  }

  /** The first c characters of s have been decoded into `sofar`. */
  ghost predicate Decoding(s: seq<Byte>, c: nat, sofar: seq<Byte>, g: bool) {
    c <= |s| && sofar + Decode(s[c..], g) == Decode(s, g)
  }

  lemma DecodeStep(s: seq<Byte>, c: nat, sofar: seq<Byte>, g: bool)
    requires c < |s| && Decoding(s, c, sofar, g)
    ensures Decoding(s, c + Width(s[c..]), sofar + [DecodeOne(s[c..], g)], g)
  {
    hide DecodeOne, Width;
    var left := s[c..];
    var w := Width(left);
    assert left[w..] == s[c + w..];
    Assoc(sofar, [DecodeOne(left, g)], Decode(left[w..], g));
  }

  lemma DecodeEnds(s: seq<Byte>, sofar: seq<Byte>, g: bool)
    requires Decoding(s, |s|, sofar, g)
    ensures sofar == Decode(s, g)
  {
    assert s[|s|..] == [];
  }

  lemma DecodeBegins(s: seq<Byte>, g: bool)
    ensures Decoding(s, 0, s[..0], g)
  {
    assert s[0..] == s;
  }

  /** The decoder, with the same lazily created buffer. */
  method UrlDecode(str: seq<Byte>, spaceAsPlus: bool) returns (rt: seq<Byte>)
    ensures rt == Decode(str, spaceAsPlus)
  {
    hide Decoding, DecodeOne, Width, HexValue, IsHex;
    var ss: Option<seq<Byte>> := None;
    var c := 0;
    DecodeBegins(str, spaceAsPlus);
    while c < |str|
      invariant c <= |str|
      invariant Decoding(str, c, if ss.None? then str[..c] else ss.value, spaceAsPlus)
    {
      HeadAt(str, c, spaceAsPlus);
      DecodeStep(str, c, if ss.None? then str[..c] else ss.value, spaceAsPlus);
      if str[c] == PLUS && spaceAsPlus {
        if ss.None? {
          ss := Some(str[..c]);
        }
        ss := Some(ss.value + [SPACE]);
      } else if str[c] == PERCENT && c + 2 < |str| && IsHex(str[c + 1]) && IsHex(str[c + 2]) {
        if ss.None? {
          ss := Some(str[..c]);
        }
        ss := Some(ss.value + [(HexValue(str[c + 1]) * 16 + HexValue(str[c + 2])) % 256]);
        c := c + 2;
      } else if ss.Some? {
        ss := Some(ss.value + [str[c]]);
      } else {
        assert str[..c] + [str[c]] == str[..c + 1];
      }
      c := c + 1;
    }
    DecodeEnds(str, if ss.None? then str[..c] else ss.value, spaceAsPlus);
    if ss.None? {
      assert str[..c] == str;
      rt := str;
    } else {
      rt := ss.value;
    }
  }
}
