/** The typed readers and writers of the byte array, and what a list of values written
    with them reads back as. */
module TypedStream {
  import opened Bytes
  import opened Blocks
  import opened ByteArrays
  import Varint
  import Zigzag

  // ---- Values and their encoding ----

  datatype Prefix = P16 | P32 | P64 | PVint

  /** A number of `width` bytes in a byte order, or a varint of a word of `width` bytes,
      zigzag coded when signed. */
  datatype NumberKind = Fixed(width: nat, signed: bool, order: Endian) | Var(width: nat, signed: bool)

  /** What to read next: a number, or a string with its length before it. */
  datatype Kind = KNumber(n: NumberKind) | KText(prefix: Prefix, order: Endian)

  datatype Value = Number(n: NumberKind, v: int) | Text(prefix: Prefix, order: Endian, s: seq<byte>) {
    function Kind(): Kind {
      match this
      case Number(n, _) => KNumber(n)
      case Text(prefix, order, _) => KText(prefix, order)
    }

    /** An empty string, for which the reader asks for no bytes. */
    predicate Empty() {
      Text? && s == []
    }
  }

  /** The kinds for which the source has a writer and a reader. */
  predicate Offered(n: NumberKind) {
    n.width in if n.Fixed? then {1, 2, 4, 8} else {4, 8}
  }

  /** The argument types of the writers, and strings whose length fits the prefix: the
      writers cut a longer length to the prefix's width. */
  predicate Writable(x: Value) {
    match x
    case Number(n, v) => Offered(n) && InRange(n.width, n.signed, v)
    case Text(prefix, order, s) => |s| < Range(LengthKind(prefix, order).width)
  }

  function LengthKind(prefix: Prefix, order: Endian): (n: NumberKind)
    ensures Offered(n) && !n.signed
    ensures n.Fixed? ==> n.order == order
  {
    match prefix
    case P16 => Fixed(2, false, order)
    case P32 => Fixed(4, false, order)
    case P64 => Fixed(8, false, order)
    case PVint => Var(8, false)
  }

  function EncodeNumber(n: NumberKind, v: int): (s: seq<byte>) {
    match n
    case Fixed(width, _, order) => Image(order, width, ToWord(width, v))
    case Var(width, signed) => Varint.Leb(if signed then Zigzag.EncodeZigzag(width, v) else v % Range(width))
  }

  function Encode(x: Value): seq<byte> {
    match x
    case Number(n, v) => EncodeNumber(n, v)
    case Text(prefix, order, s) => EncodeNumber(LengthKind(prefix, order), |s|) + s
  }

  /** The bytes of a string, by prefix: its length in two, four or eight bytes in the array's byte order, or
      as a varint, and then the string itself. A length that does not fit is cut. */
  lemma {:induction false} TextBytes(order: Endian, s: seq<byte>)
    ensures Encode(Text(P16, order, s)) == Image(order, 2, |s| % 0x1_0000) + s
    ensures Encode(Text(P32, order, s)) == Image(order, 4, |s| % 0x1_0000_0000) + s
    ensures Encode(Text(P64, order, s)) == Image(order, 8, |s| % 0x1_0000_0000_0000_0000) + s
    ensures Encode(Text(PVint, order, s)) == Varint.Leb(|s| % 0x1_0000_0000_0000_0000) + s
    ensures Writable(Text(P16, order, s)) <==> |s| < 0x1_0000
    ensures Writable(Text(P32, order, s)) <==> |s| < 0x1_0000_0000
    ensures Writable(Text(P64, order, s)) <==> |s| < 0x1_0000_0000_0000_0000
    ensures Writable(Text(PVint, order, s)) <==> |s| < 0x1_0000_0000_0000_0000
  {
    WordSizes();
    hide Image, Varint.Leb, Range;
  }

  lemma WordSizes()
    ensures Range(1) == 0x100 && Range(2) == 0x1_0000 && Range(4) == 0x1_0000_0000
    ensures Range(8) == 0x1_0000_0000_0000_0000
  {
    assert Range(3) == 0x100 * Range(2) && Range(5) == 0x100 * Range(4) && Range(7) == 0x100 * Range(6);
  }

  /** The bytes of a number: one, two, four or eight bytes of two's complement in the array's byte order;
      as a varint, a signed number by its zigzag code and an unsigned one as it is. */
  lemma {:induction false} NumberBytes(width: nat, signed: bool, order: Endian, v: int)
    requires width > 0 && InRange(width, signed, v)
    ensures EncodeNumber(Fixed(width, signed, order), v) == Image(order, width, if v < 0 then v + Range(width) else v)
    ensures EncodeNumber(Var(width, signed), v) ==
            Varint.Leb(if !signed then v else if v < 0 then -2 * v - 1 else 2 * v)
    ensures Writable(Number(Fixed(width, signed, order), v)) <==> width in {1, 2, 4, 8}
    ensures Writable(Number(Var(width, signed), v)) <==> width in {4, 8}
  {
    if v < 0 {
      ShiftedMod(v, Range(width));
    } else {
      SmallMod(v, Range(width));
    }
    if signed {
      Zigzag.EncodeMeaning(width, v);
    }
  }

  // ---- What the readers return ----

  /** The number of kind `n` at the front of `rest`, and how many bytes it takes. */
  function DecodeNumber(n: NumberKind, rest: seq<byte>, edge: bool): (r: Result<(int, nat)>)
    ensures r.Ok? ==> r.value.1 <= |rest|
    ensures r.Ok? && !n.signed ==> r.value.0 >= 0
  {
    match n
    case Fixed(width, signed, order) =>
      var b :- Take(rest, edge, width);
      Ok((FromWord(width, signed, FromImage(order, b)), width))
    case Var(width, signed) =>
      Varint.Pow2Range(width);
      var (u, n) :- Varint.Decode(8 * width, 0, 0, rest);
      Ok((if signed then Zigzag.DecodeZigzag(width, u) else u, n))
  }

  function Decode(k: Kind, rest: seq<byte>, edge: bool): (r: Result<(Value, nat)>)
    ensures r.Ok? ==> r.value.1 <= |rest|
  {
    match k
    case KNumber(n) =>
      var (v, c) :- DecodeNumber(n, rest, edge);
      Ok((Number(n, v), c))
    case KText(prefix, order) =>
      var (len, c) :- DecodeNumber(LengthKind(prefix, order), rest, edge);
      var s :- Take(rest[c..], edge, len);
      Ok((Text(prefix, order, s), c + len))
  }

  lemma NumberRoundTrip(n: NumberKind, v: int, tail: seq<byte>, edge: bool)
    requires n.width > 0 && InRange(n.width, n.signed, v)
    ensures |EncodeNumber(n, v)| > 0
    ensures DecodeNumber(n, EncodeNumber(n, v) + tail, edge) == Ok((v, |EncodeNumber(n, v)|))
  {
    match n {
      case Fixed(width, signed, order) =>
        assert (EncodeNumber(n, v) + tail)[..width] == EncodeNumber(n, v);
        ImageRoundTrip(order, width, ToWord(width, v));
        WordRoundTrip(width, signed, v);
      case Var(width, signed) =>
        if signed {
          Zigzag.DecodeEncode(width, v);
          Varint.DecodeWord(width, Zigzag.EncodeZigzag(width, v), tail);
        } else {
          SmallMod(v, Range(width));
          Varint.DecodeWord(width, v, tail);
        }
    }
  }

  lemma TextRoundTrip(prefix: Prefix, order: Endian, s: seq<byte>, tail: seq<byte>, edge: bool)
    requires Writable(Text(prefix, order, s))
    ensures var x := Text(prefix, order, s);
            && |Encode(x)| > 0
            && Decode(x.Kind(), Encode(x) + tail, edge) ==
               if s == [] && tail == [] && edge then NullDereference else Ok((x, |Encode(x)|))
  {
    hide EncodeNumber, DecodeNumber;
    var n := LengthKind(prefix, order);
    var head := EncodeNumber(n, |s|);
    NumberRoundTrip(n, |s|, s + tail, edge);
    var rest := head + (s + tail);
    assert Encode(Text(prefix, order, s)) + tail == rest;
    assert rest[|head|..] == s + tail;
    assert (s + tail)[..|s|] == s;
  }

  /** One value, whatever follows it, comes back; but an empty string that ends at the end
      of the last block makes the reader look at a null block. */
  lemma ValueRoundTrip(x: Value, tail: seq<byte>, edge: bool)
    requires Writable(x)
    ensures |Encode(x)| > 0
    ensures Decode(x.Kind(), Encode(x) + tail, edge) ==
            if x.Empty() && tail == [] && edge then NullDereference else Ok((x, |Encode(x)|))
  {
    match x {
      case Number(n, v) =>
        NumberRoundTrip(n, v, tail, edge);
      case Text(prefix, order, s) =>
        TextRoundTrip(prefix, order, s, tail, edge);
    }
  }

  /** The length as the writer passes it on is cut to the prefix. */
  lemma CutLength(prefix: Prefix, order: Endian, len: nat)
    ensures var n := LengthKind(prefix, order);
            InRange(n.width, n.signed, len % Range(n.width)) &&
            EncodeNumber(n, len % Range(n.width)) == EncodeNumber(n, len)
  {
    var m := Range(LengthKind(prefix, order).width);
    SmallMod(len % m, m);
  }

  /** A string that does not fit its prefix never comes back: the prefix holds a shorter length. */
  lemma LongTextIsCut(x: Value, tail: seq<byte>, edge: bool)
    requires x.Text? && !Writable(x)
    ensures var r := Decode(x.Kind(), Encode(x) + tail, edge); r.Ok? ==> r.value.0 != x
  {
    var n := LengthKind(x.prefix, x.order);
    CutLength(x.prefix, x.order, |x.s|);
    var head := EncodeNumber(n, |x.s|);
    NumberRoundTrip(n, |x.s| % Range(n.width), x.s + tail, edge);
    assert Encode(x) + tail == head + (x.s + tail);
  }

  // ---- Lists ----

  ghost predicate AllWritable(xs: seq<Value>) {
    forall k | 0 <= k < |xs| :: Writable(xs[k])
  }

  function EncodeAll(xs: seq<Value>): seq<byte> {
    if xs == [] then [] else Encode(xs[0]) + EncodeAll(xs[1..])
  }

  function Kinds(xs: seq<Value>): (ks: seq<Kind>) {
    if xs == [] then [] else [xs[0].Kind()] + Kinds(xs[1..])
  }

  predicate EndsEmpty(xs: seq<Value>) {
    xs != [] && xs[|xs| - 1].Empty()
  }

  // ---- Growth over a run of writes ----

  /** Every write of a run finds enough blocks, when it starts with this much room. */
  predicate SufficesAll(base: nat, room: nat, sizes: seq<nat>)
    requires base >= 1
    decreases sizes
  {
    sizes == [] ||
    (GrowthSuffices(base, room, sizes[0]);
     Suffices(base, room, sizes[0]) &&
     SufficesAll(base, GrownRoom(base, room, sizes[0]) - sizes[0], sizes[1..]))
  }

  /** The room that such a run leaves. */
  function RoomAfter(base: nat, room: nat, sizes: seq<nat>): nat
    requires base >= 1 && SufficesAll(base, room, sizes)
    decreases sizes
  {
    if sizes == [] then room
    else
      GrowthSuffices(base, room, sizes[0]);
      RoomAfter(base, GrownRoom(base, room, sizes[0]) - sizes[0], sizes[1..])
  }

  lemma {:induction false} SufficesSplit(base: nat, room: nat, xs: seq<nat>, ys: seq<nat>)
    requires base >= 1
    ensures SufficesAll(base, room, xs + ys) <==>
            SufficesAll(base, room, xs) && SufficesAll(base, RoomAfter(base, room, xs), ys)
    ensures SufficesAll(base, room, xs + ys) ==>
            RoomAfter(base, room, xs + ys) == RoomAfter(base, RoomAfter(base, room, xs), ys)
    decreases xs
  {
    if xs == [] {
      assert xs + ys == ys;
    } else {
      assert (xs + ys)[1..] == xs[1..] + ys;
      GrowthSuffices(base, room, xs[0]);
      if Suffices(base, room, xs[0]) {
        SufficesSplit(base, GrownRoom(base, room, xs[0]) - xs[0], xs[1..], ys);
      }
    }
  }

  /** With blocks of one byte, growth is exact and every run of writes succeeds. */
  lemma {:induction false} UnitBlocksSuffice(room: nat, sizes: seq<nat>)
    ensures SufficesAll(1, room, sizes)
    decreases sizes
  {
    if sizes != [] {
      GrowthSuffices(1, room, sizes[0]);
      UnitBlocksSuffice(GrownRoom(1, room, sizes[0]) - sizes[0], sizes[1..]);
    }
  }

  /** The sizes of the writes that one value takes. */
  function Sizes(x: Value): seq<nat> {
    match x
    case Number(n, v) => [|EncodeNumber(n, v)|]
    case Text(prefix, order, s) => [|EncodeNumber(LengthKind(prefix, order), |s|)|] + [|s|]
  }

  function AllSizes(xs: seq<Value>): seq<nat> {
    if xs == [] then [] else Sizes(xs[0]) + AllSizes(xs[1..])
  }

  // ---- The writers ----

  /** A run of writes of these sizes: it succeeds exactly when growth suffices for each,
      and then the bytes `e` lie where the cursor was and the cursor behind them. */
  twostate predicate Written(ba: ByteArray, e: seq<byte>, sizes: seq<nat>, new r: Result<()>)
    requires old(ba.Valid())
    reads ba, ba.Repr
  {
    && r == (if SufficesAll(ba.m_baseSize, old(ba.Room()), sizes) then Ok(()) else NullDereference)
    && ba.m_endian == old(ba.m_endian)
    && (r.Ok? ==>
          && ba.Valid() && fresh(ba.Repr - old(ba.Repr))
          && ba.Room() == RoomAfter(ba.m_baseSize, old(ba.Room()), sizes)
          && ba.m_position == old(ba.m_position) + |e|
          && ba.Contents() == Splice(old(ba.Contents()), old(ba.m_position), e))
  }

  method WriteBytes(ba: ByteArray, e: seq<byte>) returns (r: Result<()>)
    requires ba.Valid()
    modifies ba, ba.Repr
    ensures Written(ba, e, [|e|], r)
  {
    assert SufficesAll(ba.m_baseSize, ba.Room(), [|e|]) <==> Suffices(ba.m_baseSize, ba.Room(), |e|) by {
      GrowthSuffices(ba.m_baseSize, ba.Room(), |e|);
    }
    r := ba.Write(e);
  }

  /** `writeFint8` to `writeFuint64`. */
  method WriteFixed(ba: ByteArray, width: nat, v: int) returns (r: Result<()>)
    requires ba.Valid()
    modifies ba, ba.Repr
    ensures Written(ba, Image(ba.m_endian, width, ToWord(width, v)), [width], r)
  {
    var u := ToWord(width, v);
    SwappedImage(ba.m_host, ba.m_endian, width, u);
    if ba.m_endian != ba.m_host {
      u := Swap(width, u);
    }
    r := WriteBytes(ba, Image(ba.m_host, width, u));
  }

  /** `writeUint32` and `writeUint64`. */
  method WriteUint(ba: ByteArray, width: nat, u: nat) returns (r: Result<()>)
    requires ba.Valid() && width in {4, 8} && u < Range(width)
    modifies ba, ba.Repr
    ensures Written(ba, Varint.Leb(u), [|Varint.Leb(u)|], r)
  {
    var tmp := Varint.Encode(u, if width == 4 then 5 else 10);
    r := WriteBytes(ba, tmp);
  }

  method WriteNumber(ba: ByteArray, n: NumberKind, v: int) returns (r: Result<()>)
    requires ba.Valid() && Offered(n) && InRange(n.width, n.signed, v)
    requires n.Fixed? ==> ba.m_endian == n.order
    modifies ba, ba.Repr
    ensures Written(ba, EncodeNumber(n, v), [|EncodeNumber(n, v)|], r)
  {
    match n {
      case Fixed(width, _, _) =>
        r := WriteFixed(ba, width, v);
      case Var(width, signed) =>
        if signed {
          Zigzag.DecodeEncode(width, v);
          r := WriteUint(ba, width, Zigzag.EncodeZigzag(width, v));
        } else {
          SmallMod(v, Range(width));
          r := WriteUint(ba, width, v);
        }
    }
  }

  /** `writeStringF16/F32/F64/Vint`: the length, cut to the prefix, and then the bytes. */
  method WriteString(ba: ByteArray, prefix: Prefix, s: seq<byte>) returns (r: Result<()>)
    requires ba.Valid()
    modifies ba, ba.Repr
    ensures var x := Text(prefix, ba.m_endian, s); Written(ba, Encode(x), Sizes(x), r)
  {
    hide EncodeNumber, Splice, SufficesAll, RoomAfter, ByteArray.Cursor, ByteArray.Linked;
    ba.Bounds();
    var n := LengthKind(prefix, ba.m_endian);
    ghost var head := EncodeNumber(n, |s|);
    CutLength(prefix, ba.m_endian, |s|);
    SufficesSplit(ba.m_baseSize, ba.Room(), [|head|], [|s|]);
    SpliceTwice(ba.Contents(), ba.m_position, head, s);
    r := WriteNumber(ba, n, |s| % Range(n.width));
    if r.Ok? {
      ba.Bounds();
      r := WriteBytes(ba, s);
    }
  }

  /** Chooses the byte order and writes. */
  method WriteValue(ba: ByteArray, x: Value) returns (r: Result<()>)
    requires ba.Valid() && Writable(x)
    modifies ba, ba.Repr
    ensures r == if SufficesAll(ba.m_baseSize, old(ba.Room()), Sizes(x)) then Ok(()) else NullDereference
    ensures r.Ok? ==> ba.Valid() && fresh(ba.Repr - old(ba.Repr))
    ensures r.Ok? ==> ba.Room() == RoomAfter(ba.m_baseSize, old(ba.Room()), Sizes(x))
    ensures r.Ok? ==> ba.m_position == old(ba.m_position) + |Encode(x)|
    ensures r.Ok? ==> ba.Contents() == Splice(old(ba.Contents()), old(ba.m_position), Encode(x))
  {
    ba.SetIsLittleEndian(OrderOf(x.Kind()) == Little);
    match x {
      case Number(n, v) =>
        r := WriteNumber(ba, n, v);
      case Text(prefix, order, s) =>
        r := WriteString(ba, prefix, s);
    }
  }

  /** The byte order in which a kind is to be written and read. */
  function OrderOf(k: Kind): Endian {
    match k
    case KNumber(Fixed(_, _, order)) => order
    case KNumber(Var(_, _)) => Big
    case KText(_, order) => order
  }

  // ---- The readers ----

  /** The outcome of a reader against the decoding `d` of what lay behind the cursor. */
  twostate predicate Fetched<T>(ba: ByteArray, d: Result<(T, nat)>, new r: Result<T>)
    requires old(ba.Valid())
    reads ba, ba.Repr
  {
    && ba.Valid()
    && (match d
        case Ok((x, n)) => r == Ok(x) && ba.m_position == old(ba.m_position) + n
        case OutOfRange => r.OutOfRange?
        case NullDereference => r.NullDereference?)
  }

  /** `readFint8` to `readFuint64`. */
  method ReadFixed(ba: ByteArray, width: nat, signed: bool) returns (r: Result<int>)
    requires ba.Valid()
    modifies ba`m_position, ba`m_cur, ba`at
    ensures Fetched(ba, old(DecodeNumber(Fixed(width, signed, ba.m_endian), ba.Rest(), ba.Edge())), r)
  {
    var b :- ba.Read(width);
    SwappedRead(ba.m_host, ba.m_endian, b);
    var u := FromImage(ba.m_host, b);
    r := Ok(FromWord(width, signed, if ba.m_endian == ba.m_host then u else Swap(width, u)));
  }

  /** `readFuint8` */
  method ReadByte(ba: ByteArray) returns (r: Result<byte>)
    requires ba.Valid()
    modifies ba`m_position, ba`m_cur, ba`at
    ensures ba.Valid()
    ensures old(ba.Rest()) == [] ==> r == OutOfRange
    ensures old(ba.Rest()) != [] ==>
              && r == Ok(old(ba.Rest())[0])
              && ba.Rest() == old(ba.Rest())[1..] && ba.m_position == old(ba.m_position) + 1
  {
    ghost var rest := ba.Rest();
    var s :- ba.Read(1);
    assert s == [rest[0]];
    r := Ok(s[0]);
  }

  /** `readUint32` and `readUint64`. */
  method ReadUint(ba: ByteArray, width: nat) returns (r: Result<nat>)
    requires ba.Valid() && width > 0
    modifies ba`m_position, ba`m_cur, ba`at
    ensures r.Ok? ==> r.value < Range(width)
    ensures Fetched(ba, old(Varint.Decode(8 * width, 0, 0, ba.Rest())), r)
  {
    hide Varint.Pow2, Varint.OrIn, Varint.Decode, ReadSoFar, ByteArray.Linked, ByteArray.Cursor;
    ba.Bounds();
    Varint.Pow2Range(width);
    ghost var rest := ba.Rest();
    ghost var goal := Varint.Decode(8 * width, 0, 0, rest);
    ghost var c: nat := 0;
    NothingRead(8 * width, rest);
    var result: nat, i: nat := 0, 0;
    while i < 8 * width
      invariant ba.Valid() && ba.Rest() == rest && ba.m_position == old(ba.m_position) + c
      invariant ReadSoFar(goal, 8 * width, i, result, rest, c)
      decreases 8 * width - i
    {
      ByteRead(goal, 8 * width, i, result, rest, c);
      var b :- ReadByte(ba);
      rest := rest[1..];
      result := Varint.OrIn(8 * width, i, result, b % 0x80);
      c := c + 1;
      if b < 0x80 {
        return Ok(result);
      }
      i := i + 7;
    }
    WordRead(goal, 8 * width, i, result, rest, c);
    r := Ok(result);
  }

  /** What the decoder makes of all bytes is what it makes of the rest, with `c` bytes behind it. */
  ghost predicate ReadSoFar(goal: Result<(nat, nat)>, bits: nat, shift: nat, acc: nat, rest: seq<byte>, c: nat) {
    && acc < Varint.Pow2(bits)
    && match Varint.Decode(bits, shift, acc, rest)
       case Ok((v, n)) => goal == Ok((v, c + n))
       case OutOfRange => goal.OutOfRange?
       case NullDereference => goal.NullDereference?
  }

  lemma {:induction false} NothingRead(bits: nat, rest: seq<byte>)
    ensures 0 < Varint.Pow2(bits) && ReadSoFar(Varint.Decode(bits, 0, 0, rest), bits, 0, 0, rest, 0)
  {
  }

  lemma ByteRead(goal: Result<(nat, nat)>, bits: nat, shift: nat, acc: nat, rest: seq<byte>, c: nat)
    requires ReadSoFar(goal, bits, shift, acc, rest, c) && shift < bits
    ensures rest == [] ==> goal.OutOfRange?
    ensures rest != [] ==>
              var acc' := Varint.OrIn(bits, shift, acc, rest[0] % 0x80);
              && (rest[0] < 0x80 ==> goal == Ok((acc', c + 1)))
              && (rest[0] >= 0x80 ==> ReadSoFar(goal, bits, shift + 7, acc', rest[1..], c + 1))
  {
    hide Varint.Pow2, Varint.OrIn;
  }

  lemma {:induction false} WordRead(goal: Result<(nat, nat)>, bits: nat, shift: nat, acc: nat, rest: seq<byte>, c: nat)
    requires ReadSoFar(goal, bits, shift, acc, rest, c) && shift >= bits
    ensures goal == Ok((acc, c)) && acc < Varint.Pow2(bits)
  {
  }

  method ReadNumber(ba: ByteArray, n: NumberKind) returns (r: Result<int>)
    requires ba.Valid() && n.width > 0
    requires n.Fixed? ==> ba.m_endian == n.order
    modifies ba`m_position, ba`m_cur, ba`at
    ensures Fetched(ba, old(DecodeNumber(n, ba.Rest(), ba.Edge())), r)
  {
    match n {
      case Fixed(width, signed, _) =>
        r := ReadFixed(ba, width, signed);
      case Var(width, signed) =>
        var u :- ReadUint(ba, width);
        r := Ok(if signed then Zigzag.DecodeZigzag(width, u) else u);
    }
  }

  /** `readStringF16/F32/F64/Vint` */
  method ReadString(ba: ByteArray, prefix: Prefix) returns (r: Result<Value>)
    requires ba.Valid()
    modifies ba`m_position, ba`m_cur, ba`at
    ensures Fetched(ba, old(Decode(KText(prefix, ba.m_endian), ba.Rest(), ba.Edge())), r)
  {
    assert ba.m_size <= |ba.flat|;
    hide ByteArray.Linked, ByteArray.Cursor, DecodeNumber;
    ghost var rest := ba.Rest();
    var len :- ReadNumber(ba, LengthKind(prefix, ba.m_endian));
    assert ba.Rest() == rest[ba.m_position - old(ba.m_position)..];
    var s :- ba.Read(len);
    r := Ok(Text(prefix, ba.m_endian, s));
  }

  /** Chooses the byte order and reads. */
  method ReadValue(ba: ByteArray, k: Kind) returns (r: Result<Value>)
    requires ba.Valid() && (k.KNumber? ==> k.n.width > 0)
    modifies ba`m_position, ba`m_cur, ba`at, ba`m_endian
    ensures Fetched(ba, old(Decode(k, ba.Rest(), ba.Edge())), r)
  {
    ba.SetIsLittleEndian(OrderOf(k) == Little);
    match k {
      case KNumber(n) =>
        var v :- ReadNumber(ba, n);
        r := Ok(Number(n, v));
      case KText(prefix, _) =>
        r := ReadString(ba, prefix);
    }
  }

  // ---- A whole session ----

  /** Growth for the first value of a list and for the others. */
  lemma {:induction false} GrowthStep(base: nat, room: nat, xs: seq<Value>)
    requires base >= 1 && AllWritable(xs) && xs != []
    ensures SufficesAll(base, room, AllSizes(xs)) <==>
            SufficesAll(base, room, Sizes(xs[0])) &&
            SufficesAll(base, RoomAfter(base, room, Sizes(xs[0])), AllSizes(xs[1..]))
    ensures SufficesAll(base, room, AllSizes(xs)) ==>
            RoomAfter(base, room, AllSizes(xs)) ==
            RoomAfter(base, RoomAfter(base, room, Sizes(xs[0])), AllSizes(xs[1..]))
  {
    assert AllSizes(xs) == Sizes(xs[0]) + AllSizes(xs[1..]);
    SufficesSplit(base, room, Sizes(xs[0]), AllSizes(xs[1..]));
  }

  /** The bytes of the first value of a list and of the others. */
  lemma {:induction false} BytesStep(contents: seq<byte>, p: nat, xs: seq<Value>)
    requires p <= |contents| && AllWritable(xs) && xs != []
    ensures Splice(Splice(contents, p, Encode(xs[0])), p + |Encode(xs[0])|, EncodeAll(xs[1..])) ==
            Splice(contents, p, EncodeAll(xs))
    ensures |EncodeAll(xs)| == |Encode(xs[0])| + |EncodeAll(xs[1..])|
  {
    var (a, b) := (Encode(xs[0]), EncodeAll(xs[1..]));
    assert EncodeAll(xs) == a + b;
    SpliceTwice(contents, p, a, b);
  }

  lemma {:induction false} NothingToWrite(base: nat, room: nat, contents: seq<byte>, p: nat)
    requires base >= 1 && p <= |contents|
    ensures SufficesAll(base, room, AllSizes([])) && RoomAfter(base, room, AllSizes([])) == room
    ensures EncodeAll([]) == [] && Splice(contents, p, EncodeAll([])) == contents
  {
    SpliceNothing(contents, p);
  }

  method WriteAll(ba: ByteArray, xs: seq<Value>) returns (r: Result<()>)
    requires ba.Valid() && AllWritable(xs)
    modifies ba, ba.Repr
    ensures r == if SufficesAll(ba.m_baseSize, old(ba.Room()), AllSizes(xs)) then Ok(()) else NullDereference
    ensures r.Ok? ==> ba.Valid() && fresh(ba.Repr - old(ba.Repr))
    ensures r.Ok? ==> ba.Room() == RoomAfter(ba.m_baseSize, old(ba.Room()), AllSizes(xs))
    ensures r.Ok? ==> ba.Contents() == Splice(old(ba.Contents()), old(ba.m_position), EncodeAll(xs))
    ensures r.Ok? ==> ba.m_position == old(ba.m_position) + |EncodeAll(xs)|
    decreases |xs|
  {
    hide EncodeAll, AllSizes, SufficesAll, RoomAfter, Encode, Sizes;
    r := Ok(());
    if xs == [] {
      NothingToWrite(ba.m_baseSize, ba.Room(), ba.Contents(), ba.m_position);
    } else {
      GrowthStep(ba.m_baseSize, ba.Room(), xs);
      BytesStep(ba.Contents(), ba.m_position, xs);
      r := WriteValue(ba, xs[0]);
      if r.Ok? {
        r := WriteAll(ba, xs[1..]);
      }
    }
  }

  /** Reads one value whose bytes lie behind the cursor. */
  method ReadBack(ba: ByteArray, k: Kind, ghost x: Value, ghost tail: seq<byte>) returns (r: Result<Value>)
    requires ba.Valid() && Writable(x) && k == x.Kind() && ba.Rest() == Encode(x) + tail
    modifies ba`m_position, ba`m_cur, ba`at, ba`m_endian
    ensures ba.Valid()
    ensures r == if x.Empty() && tail == [] && ba.Edge() then NullDereference else Ok(x)
    ensures r.Ok? ==> ba.Rest() == tail
  {
    ghost var rest := ba.Rest();
    ValueRoundTrip(x, tail, ba.Edge());
    r := ReadValue(ba, k);
    if r.Ok? {
      assert ba.Rest() == rest[|Encode(x)|..];
    }
  }

  /** Reads the kinds of the values `xs` back from their bytes. An empty string at the end
      of a file that fills its last block is the one thing that cannot be read. */
  method ReadAll(ba: ByteArray, ks: seq<Kind>, ghost xs: seq<Value>) returns (r: Result<seq<Value>>)
    requires ba.Valid() && AllWritable(xs) && ks == Kinds(xs) && ba.Rest() == EncodeAll(xs)
    modifies ba`m_position, ba`m_cur, ba`at, ba`m_endian
    ensures ba.Valid()
    ensures r == if EndsEmpty(xs) && ba.Edge() then NullDereference else Ok(xs)
    ensures r.Ok? ==> ba.Rest() == []
    decreases |ks|
  {
    r := Ok([]);
    if ks != [] {
      LastOrMore(xs);
      var x :- ReadBack(ba, ks[0], xs[0], EncodeAll(xs[1..]));
      var rest :- ReadAll(ba, ks[1..], xs[1..]);
      r := Ok([x] + rest);
    }
  }

  lemma LastOrMore(xs: seq<Value>)
    requires AllWritable(xs) && xs != []
    ensures xs == [xs[0]] + xs[1..]
    ensures EncodeAll(xs[1..]) == [] <==> |xs| == 1
    ensures |xs| > 1 ==> EndsEmpty(xs[1..]) == EndsEmpty(xs)
  {
    if |xs| > 1 {
      ValueRoundTrip(xs[1], [], false);
    }
  }

  /** Write a list of values to a fresh array, go back to the start, read them. The values come
      back and the file is used up in all cases but two: some write is short of blocks, or
      the last value is an empty string and the writes leave no room behind them. */
  method Session(base: nat, host: Endian, xs: seq<Value>) returns (r: Result<seq<Value>>, left: nat)
    requires base >= 1 && AllWritable(xs)
    ensures r.Ok? <==>
            SufficesAll(base, base, AllSizes(xs)) &&
            !(EndsEmpty(xs) && RoomAfter(base, base, AllSizes(xs)) == 0)
    ensures r.Ok? ==> r.value == xs && left == 0
    ensures !r.OutOfRange?
  {
    hide EncodeAll, AllSizes, SufficesAll, RoomAfter, Kinds, EndsEmpty;
    var ba := new ByteArray(base, host);
    left := 0;
    var w := WriteAll(ba, xs);
    if !w.Ok? {
      return NullDereference, 0;
    }
    assert ba.Contents() == EncodeAll(xs);
    var p := ba.SetPosition(0);
    assert ba.Rest() == EncodeAll(xs);
    r := ReadAll(ba, Kinds(xs), xs);
    left := ba.ReadSize();
  }

  /** The second case at a real input: blocks of two bytes and one empty string, whose two length
      bytes fill the only block. Every write succeeds, and the reader looks at a null block. */
  lemma EmptyTextAtTheEnd()
    ensures var xs := [Text(P16, Big, [])];
            && AllWritable(xs) && SufficesAll(2, 2, AllSizes(xs)) && EndsEmpty(xs) && RoomAfter(2, 2, AllSizes(xs)) == 0
            && Decode(xs[0].Kind(), EncodeAll(xs), true) == NullDereference
  {
    var x := Text(P16, Big, []);
    ValueRoundTrip(x, [], true);
    assert |EncodeNumber(Fixed(2, false, Big), 0)| == 2;
    assert AllSizes([x]) == [2, 0] == Sizes(x);
    assert AllSizes([x])[1..] == [0];
    assert EncodeAll([x]) == Encode(x) == Encode(x) + [];
    assert Range(2) == 0x1_0000;
  }
}
