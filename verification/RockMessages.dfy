/**
 The Rock messages: a type byte, big-endian 32-bit numbers and strings with 32-bit lengths, written
 to and parsed from a byte array of 4096-byte nodes.
 */
module RockMessages {
  import opened Prelude
  import opened ByteArrays
  import opened Codec
  import opened FieldIO

  type UInt32 = x: int | 0 <= x < 0x1_0000_0000

  const NODE_SIZE: nat := 4096

  datatype Message =
    | Request(sn: UInt32, cmd: UInt32, data: seq<Byte>)
    | Response(sn: UInt32, cmd: UInt32, result: UInt32, resultStr: seq<Byte>, data: seq<Byte>)
    | Notify(notify: UInt32, data: seq<Byte>)
  {
    function Type(): UInt32 {
      match this
      case Request(_, _, _) => 1
      case Response(_, _, _, _, _) => 2
      case Notify(_, _) => 3
    }

    /** What follows the type byte. */
    function Body(): seq<Field> {
      match this
      case Request(sn, cmd, data) => [U32(sn), U32(cmd), Str(F32, data)]
      case Response(sn, cmd, result, resultStr, data) =>
        [U32(sn), U32(cmd), U32(result), Str(F32, resultStr), Str(F32, data)]
      case Notify(notify, data) => [U32(notify), Str(F32, data)]
    }

    function Fields(): seq<Field> {
      [Num(1, false, Type())] + Body()
    }

    /** Strings of any length a size can have. */
    predicate Sized() {
      |data| < Limit(Var64) && (Response? ==> |resultStr| < Limit(Var64))
    }

    /** Strings that come back: no NUL in them, and lengths of 32 bits. */
    predicate Plain() {
      Readable(Str(F32, data)) && (Response? ==> Readable(Str(F32, resultStr)))
    }
  }

  function U32(x: UInt32): Field {
    Num(4, false, x)
  }

  /** The messages the decoder creates before parsing. */
  function Blank(t: int): Option<Message> {
    if t == 1 then Some(Request(0, 0, []))
    else if t == 2 then Some(Response(0, 0, 404, Unhandle(), []))
    else if t == 3 then Some(Notify(0, []))
    else None
  }

  /** "unhandle" */
  function Unhandle(): seq<Byte> {
    [117, 110, 104, 97, 110, 100, 108, 101]
  }

  lemma SizedTyped(m: Message)
    requires m.Sized()
    ensures AllTyped(m.Fields())
  {
    hide Typed;
    TypedParts(0, m.Type(), F32, m.data);
    match m
    case Request(sn, cmd, _) =>
      TypedParts(sn, 1, F32, []);
      TypedParts(cmd, 1, F32, []);
    case Response(sn, cmd, result, resultStr, _) =>
      TypedParts(sn, 1, F32, resultStr);
      TypedParts(cmd, 1, F32, []);
      TypedParts(result, 1, F32, []);
    case Notify(notify, _) =>
      TypedParts(notify, 1, F32, []);
  }

  lemma TypedParts(x: UInt32, t: UInt32, len: Length, s: seq<Byte>)
    requires t < 4 && |s| < Limit(Var64)
    ensures Typed(U32(x)) && Typed(Num(1, false, t)) && Typed(Str(len, s))
  {
    assert Pow256(1) == 256 && Pow256(2) == 0x1_0000 && Pow256(3) == 0x100_0000 && Pow256(4) == 0x1_0000_0000;
  }

  // ---------------------------------------------------------------------------------------
  // Parsing
  // ---------------------------------------------------------------------------------------

  /** Reads fields over the defaults `want`, one by one. The parsers catch the exception of a short
      read and report success: the fields not read keep their defaults. A null node is no exception. */
  function Fill(v: Flat, want: seq<Field>, little: bool): (r: (Result<seq<Field>>, Flat))
    requires v.InRange()
    ensures r.0.Ok? ==> |r.0.value| == |want|
    ensures r.0.Err? ==> r.0.fault != OutOfRange
    decreases |want|
  {
    if want == [] then (Ok([]), v)
    else
      var (f, v1) := ReadField(v, KindOf(want[0]), little);
      if f.Ok? then AfterField(f.value, Fill(v1, want[1..], little))
      else (if f.fault == OutOfRange then Ok(want) else Err(f.fault), v1)
  }

  function AfterField(f: Field, rest: (Result<seq<Field>>, Flat)): (Result<seq<Field>>, Flat) {
    (if rest.0.Ok? then Ok([f] + rest.0.value) else rest.0, rest.1)
  }

  /** What the decoder makes of the bytes: nothing for an unknown type, a message, or a failure. */
  datatype Outcome = Nothing | Received(m: Message) | Broken(fault: Fault)

  /** Parsing over the message `blank` has the outcome `out` and leaves the array at `end`. */
  predicate Fills(v: Flat, little: bool, blank: Message, out: Outcome, end: Flat)
    requires v.InRange()
  {
    var (fs, v1) := Fill(v, blank.Body(), little);
    && end == v1
    && if fs.Err? then out == Broken(fs.fault)
       else out.Received? && out.m.Type() == blank.Type() && out.m.Body() == fs.value
  }

  /** The type byte is read outside the parsers' try block, and decides which of them runs. */
  predicate Parses(v: Flat, little: bool, out: Outcome, end: Flat)
    requires v.InRange()
  {
    var (t, v1) := ReadField(v, KNum(1, false), little);
    if t.Err? then out == Broken(t.fault) && end == v1
    else
      var blank := Blank(t.value.v);
      if blank.None? then out == Nothing && end == v1 else Fills(v1, little, blank.value, out, end)
  }

  lemma {:induction false} FillReads(v: Flat, want: seq<Field>, kinds: seq<Kind>, little: bool)
    requires v.InRange() && kinds == Kinds(want) && ReadAll(v, kinds, little).0 != Err(OutOfRange)
    ensures Fill(v, want, little) == ReadAll(v, kinds, little)
    decreases |want|
  {
    hide ReadField;
    if want != [] {
      var (f, v1) := ReadField(v, kinds[0], little);
      assert kinds[1..] == Kinds(want[1..]);
      if f.Ok? {
        FillReads(v1, want[1..], kinds[1..], little);
      }
    }
  }

  /** One field of Fill. */
  lemma FillHead(v: Flat, want: seq<Field>, little: bool, r: Result<Field>, v1: Flat)
    requires v.InRange() && want != [] && (r, v1) == ReadField(v, KindOf(want[0]), little)
    ensures v1.InRange()
    ensures r.Ok? ==> Fill(v, want, little) == AfterField(r.value, Fill(v1, want[1..], little))
    ensures r.Err? ==> Fill(v, want, little).0 == if r.fault == OutOfRange then Ok(want) else Err(r.fault)
  {
    hide ReadField, KindOf;
  }

  /** Filling in over readable defaults gives these very fields only if they are readable. */
  lemma {:induction false} FillExact(v: Flat, want: seq<Field>, fs: seq<Field>, little: bool)
    requires AllTyped(fs) && AllReadable(want) && Kinds(want) == Kinds(fs)
    requires Ahead(v, EncodeAll(fs, little)) && Fill(v, want, little).0 == Ok(fs)
    ensures AllReadable(fs) && !EmptyLast(fs, Past(v, |EncodeAll(fs, little)|))
    decreases |fs|
  {
    hide ReadField, Encode, Typed, Readable, Ahead, Past, EmptyAtEnd, KindOf, Kinds;
    KindsHead(want, fs);
    if fs != [] {
      var f, rest := fs[0], fs[1..];
      var b := Encode(f, little);
      AheadSplit(v, b, EncodeAll(rest, little));
      FieldBack(v, f, little, b);
      var r, v1 := ReadField(v, KindOf(f), little).0, ReadField(v, KindOf(f), little).1;
      FillHead(v, want, little, r, v1);
      assert want[0] == f || r.Ok?;
      var all := Fill(v1, want[1..], little).0;
      HeadTail(r.value, all.value, fs);
      FillExact(v1, want[1..], rest, little);
      assert fs == [f] + rest;
      assert rest != [] ==> fs[|fs| - 1] == rest[|rest| - 1];
      PastTwice(v, |b|, |EncodeAll(rest, little)|);
    }
  }

  /** Of the bytes of the fields only so much is left that j fields are whole and the next one is cut. */
  predicate CutAfter(v: Flat, fs: seq<Field>, little: bool, j: nat)
    requires AllTyped(fs)
  {
    && j < |fs| && Ahead(v, EncodeAll(fs[..j], little))
    && Cut(Past(v, |EncodeAll(fs[..j], little)|), Encode(fs[j], little))
  }

  lemma {:induction false} CutPlace(v: Flat, fs: seq<Field>, little: bool) returns (j: nat)
    requires AllTyped(fs) && Cut(v, EncodeAll(fs, little))
    ensures CutAfter(v, fs, little, j)
    decreases |fs|
  {
    hide Encode, Typed;
    CutSome(v, fs, little);
    var b, rest := Encode(fs[0], little), fs[1..];
    CutSplit(v, b, EncodeAll(rest, little));
    j := 0;
    assert Cut(v, b) ==> CutAfter(v, fs, little, 0);
    if !Cut(v, b) {
      var i := CutPlace(Past(v, |b|), rest, little);
      j := i + 1;
      CutLater(v, fs, little, b, rest, i);
    }
  }

  lemma CutLater(v: Flat, fs: seq<Field>, little: bool, b: seq<Byte>, rest: seq<Field>, i: nat)
    requires fs != [] && AllTyped(fs) && b == Encode(fs[0], little) && rest == fs[1..] && Ahead(v, b)
    requires CutAfter(Past(v, |b|), rest, little, i)
    ensures CutAfter(v, fs, little, i + 1)
  {
    hide Encode, Typed, Ahead, Past, Cut;
    assert fs[..i + 1][1..] == rest[..i] && fs[i + 1] == rest[i];
    AheadJoin(v, b, EncodeAll(rest[..i], little));
    PastTwice(v, |b|, |EncodeAll(rest[..i], little)|);
  }

  /** Of fields cut short exactly the whole ones are filled in and the others keep their defaults, unless
      the last whole one is an empty string at the capacity. */
  lemma {:induction false} FillCut(v: Flat, want: seq<Field>, fs: seq<Field>, little: bool, j: nat)
    requires AllReadable(fs) && Kinds(want) == Kinds(fs) && CutAfter(v, fs, little, j)
    ensures |want| == |fs|
    ensures Fill(v, want, little).0
            == if EmptyLast(fs[..j], Past(v, |EncodeAll(fs[..j], little)|)) then Err(NullNode)
               else Ok(fs[..j] + want[j..])
    decreases |fs|
  {
    hide ReadField, Encode, Typed, Readable, EmptyAtEnd, EmptyLast, Cut, Ahead, Past, KindOf, Kinds;
    KindsHead(want, fs);
    var f, rest := fs[0], fs[1..];
    var b := Encode(f, little);
    AheadInRange(v, EncodeAll(fs[..j], little));
    var r, v1 := ReadField(v, KindOf(f), little).0, ReadField(v, KindOf(f), little).1;
    PastNone(v);
    FillHead(v, want, little, r, v1);
    if j == 0 {
      FieldCut(v, f, little, b);
      NoneEmpty(fs, v);
      assert want == fs[..0] + want[0..];
    } else {
      PrefixTail(fs, want, j);
      AheadSplit(v, b, EncodeAll(rest[..j - 1], little));
      FieldBack(v, f, little, b);
      PastTwice(v, |b|, |EncodeAll(rest[..j - 1], little)|);
      EmptyStep(v, fs[..j], little);
      if j == 1 {
        NoneEmpty(rest, Past(Past(v, |b|), |EncodeAll(rest[..0], little)|));
      }
      FillCut(Past(v, |b|), want[1..], rest, little, j - 1);
    }
  }

  lemma AheadInRange(v: Flat, b: seq<Byte>)
    requires Ahead(v, b)
    ensures v.InRange()
  {
  }

  lemma PastNone(v: Flat)
    ensures Past(v, 0) == v
  {
  }

  lemma NoneEmpty(fs: seq<Field>, end: Flat)
    ensures !EmptyLast(fs[..0], end)
  {
  }

  lemma PrefixTail<T>(s: seq<T>, t: seq<T>, j: nat)
    requires 0 < j <= |s| == |t|
    ensures s[..j][0] == s[0] && s[..j][1..] == s[1..][..j - 1]
    ensures [s[0]] + (s[1..][..j - 1] + t[1..][j - 1..]) == s[..j] + t[j..]
  {
  }

  /** Only the last of some fields can be an empty string at the capacity. */
  lemma EmptyStep(v: Flat, fs: seq<Field>, little: bool)
    requires fs != [] && AllTyped(fs) && Ahead(v, EncodeAll(fs, little))
    ensures var first := Past(v, |Encode(fs[0], little)|); var end := Past(v, |EncodeAll(fs, little)|);
            EmptyLast(fs, end) <==> if |fs| == 1 then EmptyAtEnd(fs[0], first)
                                    else EmptyLast(fs[1..], end) && !EmptyAtEnd(fs[0], first)
    ensures |fs| > 1 ==> !EmptyAtEnd(fs[0], Past(v, |Encode(fs[0], little)|))
  {
    hide Encode, Typed;
    if |fs| == 1 {
      assert EncodeAll(fs[1..], little) == [];
    } else {
      assert fs[1..][|fs| - 2] == fs[|fs| - 1];
    }
  }

  lemma CutSome(v: Flat, fs: seq<Field>, little: bool)
    requires AllTyped(fs) && Cut(v, EncodeAll(fs, little))
    ensures fs != []
  {
  }

  // ---------------------------------------------------------------------------------------
  // The round trip
  // ---------------------------------------------------------------------------------------

  function Bytes(m: Message, little: bool): seq<Byte>
    requires m.Sized()
  {
    SizedTyped(m);
    EncodeAll(m.Fields(), little)
  }

  /** The one family of messages that does not survive: a response without a body whose result string
      fills the last node. */
  predicate Lost(m: Message) {
    m.Response? && m.data == [] && (21 + |m.resultStr|) % NODE_SIZE == 0
  }

  lemma PlainReadable(m: Message)
    requires m.Sized() && m.Plain()
    ensures AllReadable(m.Fields()) && AllReadable(m.Body())
  {
    hide Typed, Readable;
    SizedTyped(m);
    forall i | 0 <= i < |m.Fields()| ensures Readable(m.Fields()[i]) {
      NumberReadable(m.Fields()[i]);
    }
    assert forall i | 0 <= i < |m.Body()| :: m.Body()[i] == m.Fields()[i + 1];
  }

  lemma NumberReadable(f: Field)
    ensures !f.Str? ==> Readable(f)
  {
  }

  lemma ReadablePlain(m: Message)
    requires m.Sized() && AllReadable(m.Body())
    ensures m.Plain()
  {
    hide Readable;
    var body := m.Body();
    assert body[|body| - 1] == Str(F32, m.data);
    if m.Response? {
      assert body[3] == Str(F32, m.resultStr);
    }
  }

  lemma BlankReadable(m: Message)
    ensures AllReadable(Blank(m.Type()).value.Body())
  {
    hide Readable;
    var blank := Blank(m.Type()).value;
    SizedTyped(blank);
    NulFreeDefaults();
    PlainReadable(blank);
  }

  lemma NulFreeDefaults()
    ensures Readable(Str(F32, [])) && Readable(Str(F32, Unhandle()))
  {
  }

  lemma BodyTells(m: Message, n: Message)
    requires m.Type() == n.Type() && m.Body() == n.Body()
    ensures m == n
  {
  }

  /** The decoder's blank message has fields of the kinds of the message sent. */
  lemma BlankKinds(m: Message)
    ensures Blank(m.Type()).Some? && Blank(m.Type()).value.Type() == m.Type()
    ensures Kinds(Blank(m.Type()).value.Body()) == Kinds(m.Body())
  {
  }

  lemma LengthStep(f: Field, rest: seq<Field>, all: seq<Field>, little: bool)
    requires Typed(f) && AllTyped(rest) && all == [f] + rest
    ensures AllTyped(all)
    ensures |EncodeAll(all, little)| == |Encode(f, little)| + |EncodeAll(rest, little)|
    ensures f.Num? ==> |Encode(f, little)| == f.w
    ensures f.Str? && f.len.F32? ==> |Encode(f, little)| == 4 + |f.s|
  {
    assert all[1..] == rest;
  }

  /** The fields of messages are numbers and strings with 32-bit lengths. */
  predicate Simple(fs: seq<Field>) {
    forall i | 0 <= i < |fs| :: fs[i].Num? || (fs[i].Str? && fs[i].len.F32?)
  }

  /** The size of the fields of a message from field k on. */
  function SizeFrom(fs: seq<Field>, k: nat): nat
    requires k <= |fs|
    decreases |fs| - k
  {
    if k == |fs| then 0
    else (if fs[k].Num? then fs[k].w else if fs[k].Str? then 4 + |fs[k].s| else 0) + SizeFrom(fs, k + 1)
  }

  lemma {:induction false} SizeIs(fs: seq<Field>, k: nat, little: bool)
    requires k <= |fs| && AllTyped(fs)
    requires Simple(fs)
    ensures AllTyped(fs[k..]) && |EncodeAll(fs[k..], little)| == SizeFrom(fs, k)
    decreases |fs| - k
  {
    hide Typed, Encode;
    if k < |fs| {
      SizeIs(fs, k + 1, little);
      LengthStep(fs[k], fs[k + 1..], fs[k..], little);
    }
  }

  lemma BytesLength(m: Message, little: bool)
    requires m.Sized()
    ensures m.Request? ==> |Bytes(m, little)| == 13 + |m.data|
    ensures m.Response? ==> |Bytes(m, little)| == 21 + |m.resultStr| + |m.data|
    ensures m.Notify? ==> |Bytes(m, little)| == 9 + |m.data|
  {
    hide Typed, Encode;
    SizedTyped(m);
    var fs := m.Fields();
    SizeIs(fs, 0, little);
    assert fs[0..] == fs;
    FieldsAre(m);
  }

  lemma FieldsAre(m: Message)
    ensures m.Request? ==> SizeFrom(m.Fields(), 0) == 13 + |m.data|
    ensures m.Response? ==> SizeFrom(m.Fields(), 0) == 21 + |m.resultStr| + |m.data|
    ensures m.Notify? ==> SizeFrom(m.Fields(), 0) == 9 + |m.data|
  {
    var fs := m.Fields();
    assert |fs| >= 3 && SizeFrom(fs, |fs|) == 0 && SizeFrom(fs, |fs| - 1) == 4 + |m.data|;
    assert SizeFrom(fs, 1) == 4 + SizeFrom(fs, 2);
    if m.Response? {
      assert SizeFrom(fs, 4) == 4 + |m.resultStr| + SizeFrom(fs, 5) && SizeFrom(fs, 3) == 4 + SizeFrom(fs, 4);
    }
  }

  /** The type byte comes back first, and leaves the fields of the body to come. */
  lemma TypeAhead(v: Flat, m: Message, little: bool) returns (v1: Flat)
    requires m.Sized() && Ahead(v, Bytes(m, little))
    ensures ReadField(v, KNum(1, false), little) == (Ok(Num(1, false, m.Type())), v1) && v1 == Past(v, 1)
    ensures AllTyped(m.Body()) && Ahead(v1, EncodeAll(m.Body(), little))
    ensures |Bytes(m, little)| == 1 + |EncodeAll(m.Body(), little)|
  {
    hide ReadField, Ahead;
    TypeFirst(m, little);
    AheadSplit(v, Encode(Num(1, false, m.Type()), little), EncodeAll(m.Body(), little));
    NumBack(v, 1, false, m.Type(), little);
    v1 := Past(v, 1);
  }

  lemma TypeFirst(m: Message, little: bool)
    requires m.Sized()
    ensures AllTyped(m.Body()) && Typed(Num(1, false, m.Type()))
    ensures Bytes(m, little) == Encode(Num(1, false, m.Type()), little) + EncodeAll(m.Body(), little)
    ensures |Encode(Num(1, false, m.Type()), little)| == 1
  {
    hide Typed;
    SizedTyped(m);
    assert m.Fields()[1..] == m.Body() && m.Fields()[0] == Num(1, false, m.Type());
    assert forall i | 0 <= i < |m.Body()| :: m.Body()[i] == m.Fields()[i + 1];
  }

  /** The bytes of a message that come next, anywhere in an array: they are parsed as the message if and
      only if its strings are plain and not both its body is empty and they end at the capacity, when
      the last read goes through the null node. */
  lemma ParsedBack(m: Message, little: bool, v: Flat, out: Outcome, end: Flat)
    requires m.Sized() && Ahead(v, Bytes(m, little)) && Parses(v, little, out, end)
    ensures var stop := Past(v, |Bytes(m, little)|); var empty := EmptyLast(m.Body(), stop);
            && (m.Plain() ==> end == stop && out == if empty then Broken(NullNode) else Received(m))
            && (out == Received(m) <==> m.Plain() && !empty)
  {
    hide ReadField, Readable, AllReadable, AllTyped, Ahead, EmptyLast, Past, Message.Body, Message.Sized, Message.Plain,
      Bytes;
    var v1 := TypeAhead(v, m, little);
    PastTwice(v, 1, |Bytes(m, little)| - 1);
    var blank := Blank(m.Type()).value;
    BlankKinds(m);
    if m.Plain() {
      PlainReadable(m);
      ReadAllAhead(v1, m.Body(), little);
      FillReads(v1, blank.Body(), Kinds(m.Body()), little);
      if out.Received? {
        BodyTells(m, out.m);
      }
    }
    if out == Received(m) {
      BlankReadable(m);
      FillExact(v1, blank.Body(), m.Body(), little);
      ReadablePlain(m);
    }
  }

  /** The round trip: a message is written into a new array, the array rewound and parsed. A message with
      plain strings comes back as it was, the cursor at the end, unless it is of the lost family; no
      other message comes back. */
  lemma MessageRoundTrip(m: Message, little: bool, w: Flat, out: Outcome, end: Flat)
    requires m.Sized() && w == FlatWrite(Flat([], 0, NODE_SIZE), NODE_SIZE, Bytes(m, little))
    requires w.InRange() && Parses(w.(pos := 0), little, out, end)
    ensures m.Plain() ==> end == w && out == if Lost(m) then Broken(NullNode) else Received(m)
    ensures out == Received(m) <==> m.Plain() && !Lost(m)
  {
    hide Parses, Message.Plain, Ahead, EmptyLast, FlatWrite, Past, Rem, Lost;
    var b := Bytes(m, little);
    WrittenAhead(Flat([], 0, NODE_SIZE), NODE_SIZE, b, w);
    ParsedBack(m, little, w.(pos := 0), out, end);
    FullWhen(NODE_SIZE, b, w);
    LostWhen(m, w, little);
  }

  /** For example a response with a result string of 4075 bytes and no body. */
  lemma LostExample(m: Message, w: Flat, out: Outcome, end: Flat)
    requires m.Response? && m.resultStr == seq(4075, _ => 65) && m.data == [] && m.Sized()
    requires w == FlatWrite(Flat([], 0, NODE_SIZE), NODE_SIZE, Bytes(m, false)) && w.InRange()
    requires Parses(w.(pos := 0), false, out, end)
    ensures out == Broken(NullNode)
  {
    hide Parses, FlatWrite, Bytes, Lost, Message.Sized, Message.Plain;
    LostIs(m);
    MessageRoundTrip(m, false, w, out, end);
  }

  lemma LostIs(m: Message)
    requires m.Response? && m.resultStr == seq(4075, _ => 65) && m.data == []
    ensures m.Sized() && m.Plain() && Lost(m)
  {
  }

  /** An empty body ends at the capacity exactly in the lost family. */
  lemma LostWhen(m: Message, w: Flat, little: bool)
    requires m.Sized() && (w.pos == w.cap <==> Bytes(m, little) != [] && Rem(|Bytes(m, little)|, NODE_SIZE) == 0)
    ensures EmptyLast(m.Body(), w) <==> Lost(m)
  {
    BytesLength(m, little);
    assert |m.Body()| >= 2 && m.Body()[|m.Body()| - 1] == Str(F32, m.data);
  }

  lemma BodySimple(m: Message)
    ensures Simple(m.Body())
  {
  }

  /** The bytes of the fields before field j. */
  lemma PrefixLength(fs: seq<Field>, little: bool, j: nat)
    requires j <= |fs| && AllTyped(fs) && Simple(fs)
    ensures |EncodeAll(fs[..j], little)| == SizeFrom(fs, 0) - SizeFrom(fs, j)
  {
    hide Typed, Encode, Simple;
    SizeIs(fs, 0, little);
    SizeIs(fs, j, little);
    EncodeAllAppend(fs[..j], fs[j..], little);
    assert fs[..j] + fs[j..] == fs == fs[0..];
  }

  lemma BodyLength(m: Message, little: bool, j: nat)
    requires m.Sized() && j <= |m.Body()| && AllTyped(m.Body())
    ensures |EncodeAll(m.Body()[..j], little)| == SizeFrom(m.Body(), 0) - SizeFrom(m.Body(), j)
  {
    hide Message.Body, AllTyped, Simple;
    BodySimple(m);
    PrefixLength(m.Body(), little, j);
  }

  /** The one message cut short that is not accepted: a response whose result string is empty, when the
      bytes end with it at the capacity. */
  predicate CutBreaks(m: Message, v: Flat) {
    m.Response? && m.resultStr == [] && |v.bytes| == v.cap == v.pos + 17
  }

  lemma CutBreaksWhen(m: Message, little: bool, v: Flat, j: nat)
    requires m.Sized() && AllTyped(m.Body()) && v.pos < |v.bytes| && CutAfter(Past(v, 1), m.Body(), little, j)
    ensures EmptyLast(m.Body()[..j], Past(Past(v, 1), |EncodeAll(m.Body()[..j], little)|)) <==> CutBreaks(m, v)
  {
    hide Typed, Encode;
    var body := m.Body();
    BodyLength(m, little, j);
    BodyLength(m, little, j + 1);
    PrefixSizes(m, little, j);
    if m.Response? && j == 4 {
      assert body[..4][3] == Str(F32, m.resultStr);
    } else if j > 0 {
      assert body[..j][j - 1].Num?;
    }
  }

  /** Where field j of a body begins and ends. */
  lemma PrefixSizes(m: Message, little: bool, j: nat)
    requires m.Sized() && j < |m.Body()| && AllTyped(m.Body())
    ensures SizeFrom(m.Body(), 0) - SizeFrom(m.Body(), j) == if m.Response? && j == 4 then 16 + |m.resultStr| else 4 * j
    ensures SizeFrom(m.Body(), j) - SizeFrom(m.Body(), j + 1) == |Encode(m.Body()[j], little)|
    ensures |Encode(m.Body()[j], little)| >= 4
    ensures m.Response? && j == 3 ==> |Encode(m.Body()[j], little)| == 4 + |m.resultStr|
  {
    BodySizes(m, j);
    var body := m.Body();
    LengthStep(body[j], [], [body[j]], little);
  }

  lemma BodySizes(m: Message, j: nat)
    requires m.Sized() && j < |m.Body()|
    ensures SizeFrom(m.Body(), 0) - SizeFrom(m.Body(), j) == if m.Response? && j == 4 then 16 + |m.resultStr| else 4 * j
  {
    var body := m.Body();
    assert body[0].Num? && SizeFrom(body, 0) == 4 + SizeFrom(body, 1);
    assert |body| >= 3 ==> SizeFrom(body, 1) == 4 + SizeFrom(body, 2);
    if m.Response? {
      assert SizeFrom(body, 2) == 4 + SizeFrom(body, 3) && SizeFrom(body, 3) == 4 + |m.resultStr| + SizeFrom(body, 4);
    }
  }

  /** Where the bytes of field j of a body are. */
  lemma FieldAt(m: Message, little: bool, j: nat, at: nat)
    requires m.Sized() && j < |m.Body()| && at == if m.Response? && j == 4 then 17 + |m.resultStr| else 1 + 4 * j
    ensures AllTyped(m.Body()) && at + |Encode(m.Body()[j], little)| <= |Bytes(m, little)|
    ensures Bytes(m, little)[at..at + |Encode(m.Body()[j], little)|] == Encode(m.Body()[j], little)
  {
    hide Typed, Encode, Message.Body, Message.Sized, Bytes;
    TypeFirst(m, little);
    BodyLength(m, little, j);
    PrefixSizes(m, little, j);
    PartAt(m.Body(), little, j);
    var t, b := Encode(Num(1, false, m.Type()), little), EncodeAll(m.Body(), little);
    SliceBehind(t, b, at - 1, |Encode(m.Body()[j], little)|);
  }

  lemma SliceBehind(a: seq<Byte>, b: seq<Byte>, at: nat, n: nat)
    requires at + n <= |b|
    ensures (a + b)[|a| + at..|a| + at + n] == b[at..at + n]
  {
  }

  lemma PartAt(fs: seq<Field>, little: bool, j: nat)
    requires AllTyped(fs) && j < |fs|
    ensures AllTyped(fs[..j])
    ensures var at, n := |EncodeAll(fs[..j], little)|, |Encode(fs[j], little)|;
            at + n <= |EncodeAll(fs, little)| && EncodeAll(fs, little)[at..at + n] == Encode(fs[j], little)
  {
    hide Typed, Encode;
    assert fs[..j] + fs[j..] == fs;
    EncodeAllAppend(fs[..j], fs[j..], little);
  }

  lemma NumberAt(m: Message, little: bool, j: nat, x: UInt32)
    requires m.Sized() && j < |m.Body()| && m.Body()[j] == U32(x) && !(m.Response? && j == 4)
    ensures OnWire(Bytes(m, little), 1 + 4 * j, 4, x, little)
  {
    hide Encode, Message.Body, Message.Sized, Bytes, IsNumber;
    FieldAt(m, little, j, 1 + 4 * j);
    EncodedNumber(4, false, x, little);
  }

  lemma StringAt(m: Message, little: bool, j: nat, s: seq<Byte>, at: nat)
    requires m.Sized() && j < |m.Body()| && m.Body()[j] == Str(F32, s)
    requires at == if m.Response? && j == 4 then 17 + |m.resultStr| else 1 + 4 * j
    ensures StringOnWire(Bytes(m, little), at, F32, s, little)
  {
    hide Message.Body, Message.Sized, Bytes, IsNumber, LengthBytes;
    FieldAt(m, little, j, at);
    LengthOnWire(F32, |s|, little);
    SliceParts(Bytes(m, little), at, LengthBytes(F32, |s|, little), s);
  }

  lemma TypeAt(m: Message, little: bool)
    requires m.Sized()
    ensures Bytes(m, little)[0] == m.Type()
  {
    hide Message.Body, Message.Sized, Bytes, Digit;
    TypeFirst(m, little);
    EncodedNumber(1, false, m.Type(), little);
    SmallDigit(m.Type());
  }

  lemma SmallDigit(t: UInt32)
    requires t < 256
    ensures Digit(t, 1, 0) == t
  {
  }

  /** The bytes of a request: 1, its number, its command, and its body behind the length of the body. */
  lemma RequestLayout(sn: UInt32, cmd: UInt32, data: seq<Byte>, little: bool, b: seq<Byte>)
    requires Request(sn, cmd, data).Sized() && b == Bytes(Request(sn, cmd, data), little)
    ensures |b| == 13 + |data| && b[0] == 1
    ensures OnWire(b, 1, 4, sn, little) && OnWire(b, 5, 4, cmd, little) && StringOnWire(b, 9, F32, data, little)
  {
    hide Message.Sized, Bytes, OnWire, StringOnWire;
    var m := Request(sn, cmd, data);
    BytesLength(m, little);
    TypeAt(m, little);
    NumberAt(m, little, 0, sn);
    NumberAt(m, little, 1, cmd);
    StringAt(m, little, 2, data, 9);
  }

  /** Of a response: 2, its number, command and result, its result string and its body. */
  lemma ResponseLayout(sn: UInt32, cmd: UInt32, result: UInt32, resultStr: seq<Byte>, data: seq<Byte>, little: bool,
                       b: seq<Byte>)
    requires Response(sn, cmd, result, resultStr, data).Sized()
    requires b == Bytes(Response(sn, cmd, result, resultStr, data), little)
    ensures |b| == 21 + |resultStr| + |data| && b[0] == 2
    ensures OnWire(b, 1, 4, sn, little) && OnWire(b, 5, 4, cmd, little) && OnWire(b, 9, 4, result, little)
    ensures StringOnWire(b, 13, F32, resultStr, little) && StringOnWire(b, 17 + |resultStr|, F32, data, little)
  {
    hide Message.Sized, Bytes, OnWire, StringOnWire;
    var m := Response(sn, cmd, result, resultStr, data);
    BytesLength(m, little);
    TypeAt(m, little);
    NumberAt(m, little, 0, sn);
    NumberAt(m, little, 1, cmd);
    NumberAt(m, little, 2, result);
    StringAt(m, little, 3, resultStr, 13);
    StringAt(m, little, 4, data, 17 + |resultStr|);
  }

  /** Of a notification: 3, what it is about, and its body. */
  lemma NotifyLayout(notify: UInt32, data: seq<Byte>, little: bool, b: seq<Byte>)
    requires Notify(notify, data).Sized() && b == Bytes(Notify(notify, data), little)
    ensures |b| == 9 + |data| && b[0] == 3
    ensures OnWire(b, 1, 4, notify, little) && StringOnWire(b, 5, F32, data, little)
  {
    hide Message.Sized, Bytes, OnWire, StringOnWire;
    var m := Notify(notify, data);
    BytesLength(m, little);
    TypeAt(m, little);
    NumberAt(m, little, 0, notify);
    StringAt(m, little, 1, data, 5);
  }

  /** The first j fields of a message, the others as in the decoder's blank message. */
  function KeptFields(m: Message, j: nat): seq<Field>
    requires j <= |m.Body()|
  {
    BlankKinds(m);
    KindsHead(Blank(m.Type()).value.Body(), m.Body());
    m.Body()[..j] + Blank(m.Type()).value.Body()[j..]
  }

  lemma CutBehindType(m: Message, little: bool, v: Flat)
    requires m.Sized() && v.InRange() && v.pos < |v.bytes| && Cut(v, Bytes(m, little))
    ensures Typed(Num(1, false, m.Type())) && AllTyped(m.Body())
    ensures |Encode(Num(1, false, m.Type()), little)| == 1 && Ahead(v, Encode(Num(1, false, m.Type()), little))
    ensures Cut(Past(v, 1), EncodeAll(m.Body(), little))
  {
    hide AllTyped, Message.Body, Message.Sized, Typed, Encode, Bytes, Past;
    TypeFirst(m, little);
    CutSplit(v, Encode(Num(1, false, m.Type()), little), EncodeAll(m.Body(), little));
  }

  /** A message cut short anywhere behind its type byte is accepted all the same: the fields that came
      whole are kept and the others have their defaults; with one exception, named by CutBreaks. */
  lemma CutIsAccepted(m: Message, little: bool, v: Flat, out: Outcome, end: Flat) returns (j: nat)
    requires m.Sized() && m.Plain() && v.InRange() && v.pos < |v.bytes| && Cut(v, Bytes(m, little))
    requires Parses(v, little, out, end)
    ensures AllTyped(m.Body()) && CutAfter(Past(v, 1), m.Body(), little, j)
    ensures if CutBreaks(m, v) then out == Broken(NullNode)
            else out.Received? && out.m.Type() == m.Type() && out.m.Body() == KeptFields(m, j)
  {
    hide ReadField, Readable, AllReadable, AllTyped, Past, EmptyLast, CutBreaks, CutAfter, Message.Body, Message.Sized,
      Message.Plain, Cut, Encode, Bytes, Ahead;
    PlainReadable(m);
    CutBehindType(m, little, v);
    NumBack(v, 1, false, m.Type(), little);
    BlankKinds(m);
    j := CutPlace(Past(v, 1), m.Body(), little);
    FillCut(Past(v, 1), Blank(m.Type()).value.Body(), m.Body(), little, j);
    CutBreaksWhen(m, little, v, j);
  }

  /** For example a request of which five bytes have come: it keeps its number and nothing else. */
  lemma CutExample(m: Message, v: Flat, out: Outcome, end: Flat)
    requires m.Request? && m.Sized() && m.Plain() && v.InRange() && v.pos == 0 && |v.bytes| == 5
    requires Cut(v, Bytes(m, false)) && Parses(v, false, out, end)
    ensures out == Received(Request(m.sn, 0, []))
  {
    hide Parses, Cut, Bytes, Typed, Encode, Message.Sized, Message.Plain;
    var j := CutIsAccepted(m, false, v, out, end);
    BodyLength(m, false, j);
    PrefixSizes(m, false, j);
    CutPlaceBounds(v, m, j);
    BodyTells(out.m, Request(m.sn, 0, []));
  }

  /** And a message of which the type byte has come and not all of the first number: all is as the decoder
      made it, which for a response is the result 404 and the string "unhandle". */
  lemma CutDefaults(m: Message, v: Flat, out: Outcome, end: Flat)
    requires m.Sized() && m.Plain() && v.InRange() && v.pos == 0 && 1 <= |v.bytes| < 5
    requires Cut(v, Bytes(m, false)) && Parses(v, false, out, end)
    ensures out == Received(match m
                            case Request(_, _, _) => Request(0, 0, [])
                            case Response(_, _, _, _, _) =>
                              Response(0, 0, 404, ['u' as int, 'n' as int, 'h' as int, 'a' as int, 'n' as int,
                                                   'd' as int, 'l' as int, 'e' as int], [])
                            case Notify(_, _) => Notify(0, []))
  {
    hide Parses, Cut, Bytes, Typed, Encode, Message.Sized, Message.Plain;
    var j := CutIsAccepted(m, false, v, out, end);
    BodyLength(m, false, j);
    PrefixSizes(m, false, j);
    CutPlaceBounds(v, m, j);
    assert KeptFields(m, 0) == Blank(m.Type()).value.Body();
    BodyTells(out.m, Blank(m.Type()).value);
  }

  lemma CutPlaceBounds(v: Flat, m: Message, j: nat)
    requires AllTyped(m.Body()) && v.pos < |v.bytes| && CutAfter(Past(v, 1), m.Body(), false, j)
    ensures v.pos + 1 + |EncodeAll(m.Body()[..j], false)| <= |v.bytes|
    ensures |v.bytes| < v.pos + 1 + |EncodeAll(m.Body()[..j], false)| + |Encode(m.Body()[j], false)|
  {
  }

  // ---------------------------------------------------------------------------------------
  // The message objects
  // ---------------------------------------------------------------------------------------

  /** i of the fields have been written. */
  ghost predicate Writing(v0: Flat, nodeSize: nat, fs: seq<Field>, little: bool, i: nat, v: Flat) {
    && v0.InRange() && v.InRange() && nodeSize > 0 && AllTyped(fs) && i <= |fs|
    && WriteAll(v0, nodeSize, fs, little) == WriteAll(v, nodeSize, fs[i..], little)
  }

  lemma WritingNone(v0: Flat, nodeSize: nat, fs: seq<Field>, little: bool)
    requires v0.InRange() && nodeSize > 0 && AllTyped(fs)
    ensures Writing(v0, nodeSize, fs, little, 0, v0)
  {
    assert fs[0..] == fs;
  }

  lemma WritingMore(v0: Flat, nodeSize: nat, fs: seq<Field>, little: bool, i: nat, v: Flat, v': Flat)
    requires Writing(v0, nodeSize, fs, little, i, v) && i < |fs| && v' == WriteField(v, nodeSize, fs[i], little)
    ensures Writing(v0, nodeSize, fs, little, i + 1, v')
  {
    hide WriteField, Typed;
    assert fs[i..][1..] == fs[i + 1..];
  }

  lemma WritingAll(v0: Flat, nodeSize: nat, fs: seq<Field>, little: bool, v: Flat)
    requires Writing(v0, nodeSize, fs, little, |fs|, v)
    ensures v == WriteAll(v0, nodeSize, fs, little)
  {
  }

  /** Writes field i of a message: a number of 1 or 4 bytes, or a string. */
  method WriteNext(ba: ByteArray, ghost v0: Flat, ghost fs: seq<Field>, ghost i: nat, f: Field)
    requires ba.Valid() && Writing(v0, ba.nodeSize, fs, ba.littleEndian, i, ba.Value())
    requires i < |fs| && f == fs[i] && ((f.Num? && !f.signed) || f.Str?)
    modifies ba, ba.Repr
    ensures ba.Valid() && fresh(ba.Repr - old(ba.Repr)) && ba.littleEndian == old(ba.littleEndian)
    ensures Writing(v0, ba.nodeSize, fs, ba.littleEndian, i + 1, ba.Value())
  {
    hide WriteField, Typed;
    ghost var v := ba.Value();
    if f.Num? {
      WriteFixed(ba, f.w, f.signed, f.v);
    } else {
      WriteString(ba, f.len, f.s);
    }
    WritingMore(v0, ba.nodeSize, fs, ba.littleEndian, i, v, ba.Value());
  }

  /** The fields `got` have been read over the defaults. */
  ghost predicate Filling(v0: Flat, want: seq<Field>, little: bool, got: seq<Field>, v: Flat) {
    && v0.InRange() && v.InRange() && |got| <= |want|
    && Fill(v0, want, little) == AfterAll(got, Fill(v, want[|got|..], little))
  }

  function AfterAll(got: seq<Field>, rest: (Result<seq<Field>>, Flat)): (Result<seq<Field>>, Flat) {
    (if rest.0.Ok? then Ok(got + rest.0.value) else rest.0, rest.1)
  }

  /** Parsing over the defaults `want` ends with these fields, or a fault that is not caught. */
  ghost predicate Filled(v0: Flat, want: seq<Field>, little: bool, fs: Result<seq<Field>>, v: Flat) {
    v0.InRange() && Fill(v0, want, little) == (fs, v)
  }

  /** What a fault behind the fields `got` makes of the message. */
  function Stop(got: seq<Field>, want: seq<Field>, fault: Fault): Result<seq<Field>>
    requires |got| <= |want|
  {
    if fault == OutOfRange then Ok(got + want[|got|..]) else Err(fault)
  }

  lemma FillingNone(v0: Flat, want: seq<Field>, little: bool)
    requires v0.InRange()
    ensures Filling(v0, want, little, [], v0)
  {
    assert want[0..] == want;
    var r := Fill(v0, want, little);
    if r.0.Ok? {
      assert [] + r.0.value == r.0.value;
    }
  }

  lemma FillingMore(v0: Flat, want: seq<Field>, little: bool, got: seq<Field>, v: Flat, f: Result<Field>, v1: Flat)
    requires Filling(v0, want, little, got, v) && |got| < |want|
    requires (f, v1) == ReadField(v, KindOf(want[|got|]), little)
    ensures f.Ok? ==> Filling(v0, want, little, got + [f.value], v1)
    ensures f.Err? ==> Filled(v0, want, little, Stop(got, want, f.fault), v1)
  {
    hide ReadField;
    var k := |got|;
    assert want[k..][1..] == want[k + 1..];
    if f.Ok? {
      var rest := Fill(v1, want[k + 1..], little);
      if rest.0.Ok? {
        assert got + ([f.value] + rest.0.value) == (got + [f.value]) + rest.0.value;
      }
    }
  }

  lemma FillingAll(v0: Flat, want: seq<Field>, little: bool, got: seq<Field>, v: Flat)
    requires Filling(v0, want, little, got, v) && |got| == |want|
    ensures Filled(v0, want, little, Ok(got), v)
  {
    assert want[|got|..] == [] && got + [] == got;
  }

  /** `ReadFUint32`, as the next field of a message. */
  method NextU32(ba: ByteArray, ghost v0: Flat, ghost want: seq<Field>, ghost got: seq<Field>)
    returns (r: Result<UInt32>)
    requires ba.Valid() && Filling(v0, want, ba.littleEndian, got, ba.Value())
    requires |got| < |want| && KindOf(want[|got|]) == KNum(4, false)
    modifies ba`cur, ba`position
    ensures ba.Valid()
    ensures r.Ok? ==> Filling(v0, want, ba.littleEndian, got + [U32(r.value)], ba.Value())
    ensures r.Err? ==> Filled(v0, want, ba.littleEndian, Stop(got, want, r.fault), ba.Value())
  {
    ghost var v := ba.Value();
    var f := ReadNumber(ba, 4, false);
    FillingMore(v0, want, ba.littleEndian, got, v, f, ba.Value());
    NumberFits(v, ba.littleEndian);
    r := if f.Ok? then Ok(f.value.v) else Err(f.fault);
  }

  lemma NumberFits(v: Flat, little: bool)
    requires v.InRange()
    ensures var f := ReadField(v, KNum(4, false), little).0;
            f.Ok? ==> f.value.Num? && 0 <= f.value.v < 0x1_0000_0000 && f.value == U32(f.value.v)
  {
    Powers();
  }

  /** `ReadStringF32`, as the next field of a message. */
  method NextString(ba: ByteArray, ghost v0: Flat, ghost want: seq<Field>, ghost got: seq<Field>)
    returns (r: Result<seq<Byte>>)
    requires ba.Valid() && Filling(v0, want, ba.littleEndian, got, ba.Value())
    requires |got| < |want| && KindOf(want[|got|]) == KStr(F32)
    modifies ba`cur, ba`position
    ensures ba.Valid()
    ensures r.Ok? ==> Filling(v0, want, ba.littleEndian, got + [Str(F32, r.value)], ba.Value())
    ensures r.Err? ==> Filled(v0, want, ba.littleEndian, Stop(got, want, r.fault), ba.Value())
  {
    hide ReadStr;
    ghost var v := ba.Value();
    r := ReadString(ba, F32);
    ghost var f := if r.Ok? then Ok(Str(F32, r.value)) else Err(r.fault);
    FillingMore(v0, want, ba.littleEndian, got, v, f, ba.Value());
  }

  /** What a caught fault leaves of a message with this body. */
  function Kept(body: seq<Field>, fault: Fault): Result<seq<Field>> {
    if fault == OutOfRange then Ok(body) else Err(fault)
  }

  /** The fields `got` before the fault and the defaults behind it make up the body. */
  lemma KeptIs(got: seq<Field>, want: seq<Field>, body: seq<Field>, fault: Fault)
    requires |got| <= |want| == |body|
    requires forall i | 0 <= i < |body| :: body[i] == if i < |got| then got[i] else want[i]
    ensures Stop(got, want, fault) == Kept(body, fault)
  {
    assert got + want[|got|..] == body;
  }

  lemma KeptNone(want: seq<Field>, fault: Fault)
    ensures Stop([], want, fault) == Kept(want, fault)
  {
    KeptIs([], want, want, fault);
  }

  lemma KeptNumber(want: seq<Field>, f: Field, fault: Fault)
    requires want != []
    ensures Stop([f], want, fault) == Kept(want[0 := f], fault)
  {
    KeptIs([f], want, want[0 := f], fault);
  }

  /** The parsers catch the exception and report success. */
  function Caught(fault: Fault): Result<bool> {
    if fault == OutOfRange then Ok(true) else Err(fault)
  }

  class RockRequest {
    var sn: UInt32
    var cmd: UInt32
    var data: seq<Byte>

    constructor ()
      ensures Value() == Request(0, 0, [])
    {
      sn, cmd, data := 0, 0, [];
    }

    ghost function Value(): Message
      reads this
    {
      Request(sn, cmd, data)
    }

    method SerializeToByteArray(ba: ByteArray)
      requires ba.Valid() && Value().Sized() && this !in ba.Repr
      modifies ba, ba.Repr
      ensures ba.Valid() && fresh(ba.Repr - old(ba.Repr)) && ba.littleEndian == old(ba.littleEndian)
      ensures AllTyped(Value().Fields())
      ensures ba.Value() == WriteAll(old(ba.Value()), ba.nodeSize, Value().Fields(), ba.littleEndian)
    {
      hide Typed, Writing, ByteArray.Valid, ByteArray.Value;
      ghost var v0, fs := ba.Value(), Value().Fields();
      SizedTyped(Value());
      SomeNode(ba);
      WritingNone(v0, ba.nodeSize, fs, ba.littleEndian);
      WriteNext(ba, v0, fs, 0, Num(1, false, 1));
      WriteNext(ba, v0, fs, 1, U32(sn));
      WriteNext(ba, v0, fs, 2, U32(cmd));
      WriteNext(ba, v0, fs, 3, Str(F32, data));
      WritingAll(v0, ba.nodeSize, fs, ba.littleEndian, ba.Value());
    }

    /** Request::ParseFromByteArray. */
    method ParseBase(ba: ByteArray, ghost v0: Flat) returns (r: Result<bool>)
      requires ba.Valid() && this !in ba.Repr && v0 == ba.Value()
      modifies this, ba`cur, ba`position
      ensures ba.Valid() && data == old(data)
      ensures r.Ok? ==> Filling(v0, old(Value()).Body(), ba.littleEndian, [U32(sn), U32(cmd)], ba.Value())
      ensures r.Err? ==> Filled(v0, old(Value()).Body(), ba.littleEndian, Kept(Value().Body(), r.fault), ba.Value())
    {
      hide Filling, Filled, ByteArray.Valid, ByteArray.Value;
      ghost var want := Value().Body();
      FillingNone(v0, want, ba.littleEndian);
      var a := NextU32(ba, v0, want, []);
      if a.Err? {
        KeptIs([], want, Value().Body(), a.fault);
        return Err(a.fault);
      }
      sn := a.value;
      assert [] + [U32(sn)] == [U32(sn)];
      var b := NextU32(ba, v0, want, [U32(sn)]);
      if b.Err? {
        KeptIs([U32(sn)], want, Value().Body(), b.fault);
        return Err(b.fault);
      }
      cmd := b.value;
      assert [U32(sn)] + [U32(cmd)] == [U32(sn), U32(cmd)];
      return Ok(true);
    }

    method ParseFromByteArray(ba: ByteArray) returns (r: Result<bool>)
      requires ba.Valid() && this !in ba.Repr
      modifies this, ba`cur, ba`position
      ensures ba.Valid() && (r.Ok? ==> r.value) && Value().Type() == old(Value()).Type()
      ensures Filled(old(ba.Value()), old(Value()).Body(), ba.littleEndian,
                     if r.Ok? then Ok(Value().Body()) else Err(r.fault), ba.Value())
    {
      hide Filling, Filled, ByteArray.Valid, ByteArray.Value;
      ghost var v0, want := ba.Value(), Value().Body();
      var base := ParseBase(ba, v0);
      if base.Err? {
        return Caught(base.fault);
      }
      var c := NextString(ba, v0, want, [U32(sn), U32(cmd)]);
      if c.Err? {
        KeptIs([U32(sn), U32(cmd)], want, Value().Body(), c.fault);
        return Caught(c.fault);
      }
      data := c.value;
      assert [U32(sn), U32(cmd)] + [Str(F32, data)] == Value().Body();
      FillingAll(v0, want, ba.littleEndian, Value().Body(), ba.Value());
      return Ok(true);
    }
  }

  class RockResponse {
    var sn: UInt32
    var cmd: UInt32
    var result: UInt32
    var resultStr: seq<Byte>
    var data: seq<Byte>

    constructor ()
      ensures Value() == Response(0, 0, 404, Unhandle(), [])
    {
      sn, cmd, result, resultStr, data := 0, 0, 404, Unhandle(), [];
    }

    ghost function Value(): Message
      reads this
    {
      Response(sn, cmd, result, resultStr, data)
    }

    method SerializeToByteArray(ba: ByteArray)
      requires ba.Valid() && Value().Sized() && this !in ba.Repr
      modifies ba, ba.Repr
      ensures ba.Valid() && fresh(ba.Repr - old(ba.Repr)) && ba.littleEndian == old(ba.littleEndian)
      ensures AllTyped(Value().Fields())
      ensures ba.Value() == WriteAll(old(ba.Value()), ba.nodeSize, Value().Fields(), ba.littleEndian)
    {
      hide Typed, Writing, ByteArray.Valid, ByteArray.Value;
      ghost var v0, fs := ba.Value(), Value().Fields();
      SizedTyped(Value());
      SomeNode(ba);
      WritingNone(v0, ba.nodeSize, fs, ba.littleEndian);
      WriteNext(ba, v0, fs, 0, Num(1, false, 2));
      WriteNext(ba, v0, fs, 1, U32(sn));
      WriteNext(ba, v0, fs, 2, U32(cmd));
      WriteNext(ba, v0, fs, 3, U32(result));
      WriteNext(ba, v0, fs, 4, Str(F32, resultStr));
      WriteNext(ba, v0, fs, 5, Str(F32, data));
      WritingAll(v0, ba.nodeSize, fs, ba.littleEndian, ba.Value());
    }

    /** The first two numbers of Response::ParseFromByteArray. */
    method ParseIds(ba: ByteArray, ghost v0: Flat) returns (r: Result<bool>)
      requires ba.Valid() && this !in ba.Repr && v0 == ba.Value()
      modifies this, ba`cur, ba`position
      ensures ba.Valid() && data == old(data) && resultStr == old(resultStr) && result == old(result)
      ensures r.Ok? ==> Filling(v0, old(Value()).Body(), ba.littleEndian, [U32(sn), U32(cmd)], ba.Value())
      ensures r.Err? ==> Filled(v0, old(Value()).Body(), ba.littleEndian, Kept(Value().Body(), r.fault), ba.Value())
    {
      hide Filling, Filled, ByteArray.Valid, ByteArray.Value;
      ghost var want := Value().Body();
      FillingNone(v0, want, ba.littleEndian);
      var a := NextU32(ba, v0, want, []);
      if a.Err? {
        KeptNone(want, a.fault);
        return Err(a.fault);
      }
      sn := a.value;
      assert [] + [U32(sn)] == [U32(sn)];
      var b := NextU32(ba, v0, want, [U32(sn)]);
      if b.Err? {
        KeptNumber(want, U32(sn), b.fault);
        assert Value().Body() == want[0 := U32(sn)];
        return Err(b.fault);
      }
      cmd := b.value;
      assert [U32(sn)] + [U32(cmd)] == [U32(sn), U32(cmd)];
      return Ok(true);
    }

    /** The numbers of Response::ParseFromByteArray. */
    method ParseNumbers(ba: ByteArray, ghost v0: Flat) returns (r: Result<bool>)
      requires ba.Valid() && this !in ba.Repr && v0 == ba.Value()
      modifies this, ba`cur, ba`position
      ensures ba.Valid() && data == old(data) && resultStr == old(resultStr)
      ensures r.Ok? ==> Filling(v0, old(Value()).Body(), ba.littleEndian, [U32(sn), U32(cmd), U32(result)], ba.Value())
      ensures r.Err? ==> Filled(v0, old(Value()).Body(), ba.littleEndian, Kept(Value().Body(), r.fault), ba.Value())
    {
      hide Filling, Filled, ByteArray.Valid, ByteArray.Value;
      ghost var want := Value().Body();
      var ids := ParseIds(ba, v0);
      if ids.Err? {
        return ids;
      }
      var c := NextU32(ba, v0, want, [U32(sn), U32(cmd)]);
      if c.Err? {
        KeptIs([U32(sn), U32(cmd)], want, Value().Body(), c.fault);
        return Err(c.fault);
      }
      result := c.value;
      assert [U32(sn), U32(cmd)] + [U32(result)] == [U32(sn), U32(cmd), U32(result)];
      return Ok(true);
    }

    /** Response::ParseFromByteArray. */
    method ParseBase(ba: ByteArray, ghost v0: Flat) returns (r: Result<bool>)
      requires ba.Valid() && this !in ba.Repr && v0 == ba.Value()
      modifies this, ba`cur, ba`position
      ensures ba.Valid() && data == old(data)
      ensures r.Ok? ==> Filling(v0, old(Value()).Body(), ba.littleEndian,
                                [U32(sn), U32(cmd), U32(result), Str(F32, resultStr)], ba.Value())
      ensures r.Err? ==> Filled(v0, old(Value()).Body(), ba.littleEndian, Kept(Value().Body(), r.fault), ba.Value())
    {
      hide Filling, Filled, ByteArray.Valid, ByteArray.Value;
      ghost var want := Value().Body();
      var numbers := ParseNumbers(ba, v0);
      if numbers.Err? {
        return numbers;
      }
      ghost var got := [U32(sn), U32(cmd), U32(result)];
      var d := NextString(ba, v0, want, got);
      if d.Err? {
        KeptIs(got, want, Value().Body(), d.fault);
        return Err(d.fault);
      }
      resultStr := d.value;
      assert got + [Str(F32, resultStr)] == [U32(sn), U32(cmd), U32(result), Str(F32, resultStr)];
      return Ok(true);
    }

    method ParseFromByteArray(ba: ByteArray) returns (r: Result<bool>)
      requires ba.Valid() && this !in ba.Repr
      modifies this, ba`cur, ba`position
      ensures ba.Valid() && (r.Ok? ==> r.value) && Value().Type() == old(Value()).Type()
      ensures Filled(old(ba.Value()), old(Value()).Body(), ba.littleEndian,
                     if r.Ok? then Ok(Value().Body()) else Err(r.fault), ba.Value())
    {
      hide Filling, Filled, ByteArray.Valid, ByteArray.Value;
      ghost var v0, want := ba.Value(), Value().Body();
      var base := ParseBase(ba, v0);
      if base.Err? {
        return Caught(base.fault);
      }
      ghost var got := [U32(sn), U32(cmd), U32(result), Str(F32, resultStr)];
      var e := NextString(ba, v0, want, got);
      if e.Err? {
        KeptIs(got, want, Value().Body(), e.fault);
        return Caught(e.fault);
      }
      data := e.value;
      assert got + [Str(F32, data)] == Value().Body();
      FillingAll(v0, want, ba.littleEndian, Value().Body(), ba.Value());
      return Ok(true);
    }
  }

  class RockNotify {
    var notify: UInt32
    var data: seq<Byte>

    constructor ()
      ensures Value() == Notify(0, [])
    {
      notify, data := 0, [];
    }

    ghost function Value(): Message
      reads this
    {
      Notify(notify, data)
    }

    method SerializeToByteArray(ba: ByteArray)
      requires ba.Valid() && Value().Sized() && this !in ba.Repr
      modifies ba, ba.Repr
      ensures ba.Valid() && fresh(ba.Repr - old(ba.Repr)) && ba.littleEndian == old(ba.littleEndian)
      ensures AllTyped(Value().Fields())
      ensures ba.Value() == WriteAll(old(ba.Value()), ba.nodeSize, Value().Fields(), ba.littleEndian)
    {
      hide Typed, Writing, ByteArray.Valid, ByteArray.Value;
      ghost var v0, fs := ba.Value(), Value().Fields();
      SizedTyped(Value());
      SomeNode(ba);
      WritingNone(v0, ba.nodeSize, fs, ba.littleEndian);
      WriteNext(ba, v0, fs, 0, Num(1, false, 3));
      WriteNext(ba, v0, fs, 1, U32(notify));
      WriteNext(ba, v0, fs, 2, Str(F32, data));
      WritingAll(v0, ba.nodeSize, fs, ba.littleEndian, ba.Value());
    }

    method ParseFromByteArray(ba: ByteArray) returns (r: Result<bool>)
      requires ba.Valid() && this !in ba.Repr
      modifies this, ba`cur, ba`position
      ensures ba.Valid() && (r.Ok? ==> r.value) && Value().Type() == old(Value()).Type()
      ensures Filled(old(ba.Value()), old(Value()).Body(), ba.littleEndian,
                     if r.Ok? then Ok(Value().Body()) else Err(r.fault), ba.Value())
    {
      hide Filling, Filled, ByteArray.Valid, ByteArray.Value;
      ghost var v0, want := ba.Value(), Value().Body();
      FillingNone(v0, want, ba.littleEndian);
      var a := NextU32(ba, v0, want, []);
      if a.Err? {
        KeptIs([], want, Value().Body(), a.fault);
        return Caught(a.fault);
      }
      notify := a.value;
      assert [] + [U32(notify)] == [U32(notify)];
      var b := NextString(ba, v0, want, [U32(notify)]);
      if b.Err? {
        KeptIs([U32(notify)], want, Value().Body(), b.fault);
        return Caught(b.fault);
      }
      data := b.value;
      assert [U32(notify)] + [Str(F32, data)] == Value().Body();
      FillingAll(v0, want, ba.littleEndian, Value().Body(), ba.Value());
      return Ok(true);
    }
  }

  // ---------------------------------------------------------------------------------------
  // Sending and receiving
  // ---------------------------------------------------------------------------------------

  /** ToByteArray of a request, rewound as the sender does. */
  method RequestBytes(msg: RockRequest) returns (ba: ByteArray)
    requires msg.Value().Sized()
    ensures fresh(ba) && ba.Valid() && fresh(ba.Repr) && !ba.littleEndian
    ensures ba.Value() == FlatWrite(Flat([], 0, NODE_SIZE), NODE_SIZE, Bytes(msg.Value(), false)).(pos := 0)
  {
    hide FlatWrite, Bytes, Typed, Message.Sized, ByteArray.Valid, ByteArray.Value;
    ba := new ByteArray(NODE_SIZE);
    NewValue(ba);
    msg.SerializeToByteArray(ba);
    Rewind(ba, msg.Value());
  }

  method ResponseBytes(msg: RockResponse) returns (ba: ByteArray)
    requires msg.Value().Sized()
    ensures fresh(ba) && ba.Valid() && fresh(ba.Repr) && !ba.littleEndian
    ensures ba.Value() == FlatWrite(Flat([], 0, NODE_SIZE), NODE_SIZE, Bytes(msg.Value(), false)).(pos := 0)
  {
    hide FlatWrite, Bytes, Typed, Message.Sized, ByteArray.Valid, ByteArray.Value;
    ba := new ByteArray(NODE_SIZE);
    NewValue(ba);
    msg.SerializeToByteArray(ba);
    Rewind(ba, msg.Value());
  }

  method NotifyBytes(msg: RockNotify) returns (ba: ByteArray)
    requires msg.Value().Sized()
    ensures fresh(ba) && ba.Valid() && fresh(ba.Repr) && !ba.littleEndian
    ensures ba.Value() == FlatWrite(Flat([], 0, NODE_SIZE), NODE_SIZE, Bytes(msg.Value(), false)).(pos := 0)
  {
    hide FlatWrite, Bytes, Typed, Message.Sized, ByteArray.Valid, ByteArray.Value;
    ba := new ByteArray(NODE_SIZE);
    NewValue(ba);
    msg.SerializeToByteArray(ba);
    Rewind(ba, msg.Value());
  }

  lemma NewValue(ba: ByteArray)
    requires ba.Valid() && ba.position == 0 && ba.size == 0
    ensures ba.Value() == Flat([], 0, ba.capacity)
  {
  }

  method Rewind(ba: ByteArray, ghost m: Message)
    requires ba.Valid() && ba.nodeSize == NODE_SIZE && !ba.littleEndian && m.Sized() && AllTyped(m.Fields())
    requires ba.Value() == WriteAll(Flat([], 0, NODE_SIZE), NODE_SIZE, m.Fields(), false)
    modifies ba`cur, ba`position, ba`size
    ensures ba.Valid() && !ba.littleEndian
    ensures ba.Value() == FlatWrite(Flat([], 0, NODE_SIZE), NODE_SIZE, Bytes(m, false)).(pos := 0)
  {
    hide FlatWrite, Typed;
    WriteAllBytes(Flat([], 0, NODE_SIZE), NODE_SIZE, m.Fields(), false);
    var ok := ba.SetPosition(0);
  }

  /** A message object of any type. */
  datatype Any = Req(request: RockRequest) | Rsp(response: RockResponse) | Ntf(notify: RockNotify)

  ghost function ValueOf(a: Any): Message
    reads if a.Req? then {a.request} else if a.Rsp? then {a.response} else {a.notify}
  {
    match a
    case Req(m) => m.Value()
    case Rsp(m) => m.Value()
    case Ntf(m) => m.Value()
  }

  /** The outcome of a parse, in terms of what was returned. */
  ghost function OutcomeOf(r: Result<Option<Any>>): Outcome
    reads if r.Ok? && r.value.Some? then
            if r.value.value.Req? then {r.value.value.request}
            else if r.value.value.Rsp? then {r.value.value.response} else {r.value.value.notify}
          else {}
  {
    match r
    case Err(e) => Broken(e)
    case Ok(None) => Nothing
    case Ok(Some(a)) => Received(ValueOf(a))
  }

  /** The end of ParseFromStream: the type byte selects the class that parses the rest. */
  method ParseMessage(ba: ByteArray) returns (r: Result<Option<Any>>)
    requires ba.Valid()
    modifies ba`cur, ba`position
    ensures ba.Valid() && Parses(old(ba.Value()), ba.littleEndian, OutcomeOf(r), ba.Value())
  {
    hide ReadField, ByteArray.Valid, ByteArray.Value, Fill;
    ghost var v0 := ba.Value();
    var t := ReadNumber(ba, 1, false);
    TypeIsNumber(v0, ba.littleEndian);
    if t.Err? {
      return Err(t.fault);
    }
    if t.value.v == 1 {
      var msg := new RockRequest();
      var ok := msg.ParseFromByteArray(ba);
      r := if ok.Ok? then Ok(Some(Req(msg))) else Err(ok.fault);
    } else if t.value.v == 2 {
      var msg := new RockResponse();
      var ok := msg.ParseFromByteArray(ba);
      r := if ok.Ok? then Ok(Some(Rsp(msg))) else Err(ok.fault);
    } else if t.value.v == 3 {
      var msg := new RockNotify();
      var ok := msg.ParseFromByteArray(ba);
      r := if ok.Ok? then Ok(Some(Ntf(msg))) else Err(ok.fault);
    } else {
      r := Ok(None);
    }
  }

  /** A request on its way from ToByteArray to the receiver's parser, transport left out: what is received
      is an equal request, if and only if its body is plain. */
  method DeliverRequest(msg: RockRequest) returns (r: Result<Option<Any>>)
    requires msg.Value().Sized()
    ensures OutcomeOf(r) == Received(msg.Value()) <==> msg.Value().Plain()
  {
    hide Parses, FlatWrite, Bytes, Message.Sized, Message.Plain, ByteArray.Valid, ByteArray.Value, OutcomeOf;
    ghost var m := msg.Value();
    var ba := RequestBytes(msg);
    r := ParseMessage(ba);
    Delivered(m, OutcomeOf(r), ba.Value());
  }

  /** A response comes back if and only if its strings are plain and it is not of the lost family; a plain
      one of the lost family breaks the parser. */
  method DeliverResponse(msg: RockResponse) returns (r: Result<Option<Any>>)
    requires msg.Value().Sized()
    ensures OutcomeOf(r) == Received(msg.Value()) <==> msg.Value().Plain() && !Lost(msg.Value())
    ensures msg.Value().Plain() && Lost(msg.Value()) ==> OutcomeOf(r) == Broken(NullNode)
  {
    hide Parses, FlatWrite, Bytes, Lost, Message.Sized, Message.Plain, ByteArray.Valid, ByteArray.Value, OutcomeOf;
    ghost var m := msg.Value();
    var ba := ResponseBytes(msg);
    r := ParseMessage(ba);
    Delivered(m, OutcomeOf(r), ba.Value());
  }

  method DeliverNotify(msg: RockNotify) returns (r: Result<Option<Any>>)
    requires msg.Value().Sized()
    ensures OutcomeOf(r) == Received(msg.Value()) <==> msg.Value().Plain()
  {
    hide Parses, FlatWrite, Bytes, Message.Sized, Message.Plain, ByteArray.Valid, ByteArray.Value, OutcomeOf;
    ghost var m := msg.Value();
    var ba := NotifyBytes(msg);
    r := ParseMessage(ba);
    Delivered(m, OutcomeOf(r), ba.Value());
  }

  lemma Delivered(m: Message, out: Outcome, end: Flat)
    requires m.Sized()
    requires var w := FlatWrite(Flat([], 0, NODE_SIZE), NODE_SIZE, Bytes(m, false)).(pos := 0);
             w.InRange() && Parses(w, false, out, end)
    ensures out == Received(m) <==> m.Plain() && !Lost(m)
    ensures m.Plain() && Lost(m) ==> out == Broken(NullNode)
    ensures !m.Response? ==> !Lost(m)
  {
    hide Parses, Bytes, Message.Sized, Message.Plain;
    var w := FlatWrite(Flat([], 0, NODE_SIZE), NODE_SIZE, Bytes(m, false));
    WriteInRange(Flat([], 0, NODE_SIZE), NODE_SIZE, Bytes(m, false));
    MessageRoundTrip(m, false, w, out, end);
  }

  lemma TypeIsNumber(v: Flat, little: bool)
    requires v.InRange()
    ensures var t := ReadField(v, KNum(1, false), little).0; t.Ok? ==> t.value.Num?
  {
  }
}
