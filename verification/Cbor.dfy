/**
 The hand-written decoder for a subset of CBOR (RFC 8949, section 3), and the
 wire syntax it is checked against.

 Reads past the end of the data keep their JavaScript meaning: a missing byte is
 `undefined`, which the bitwise operators turn into 0 and ordinary arithmetic into
 NaN. An offset that has become NaN is `Lost`.
 */
module Cbor {
  import opened Common

  /** An offset held in a JavaScript number. */
  datatype Pos = At(i: nat) | Lost {
    function Plus(n: nat): Pos {
      match this
      case At(i) => At(i + n)
      case Lost => Lost
    }
  }

  /** What `readLength` yields for the length: a number, or what a missing byte gives. */
  datatype Length = Len(n: nat) | UndefinedLen | NaNLen {
    /** Iterations of `for (i = 0; i < length; i += 1)`. */
    function Count(): nat {
      if Len? then n else 0
    }
  }

  datatype Value =
    | Int(n: int)
    | Undefined
    | NaN
    | ByteString(bytes: Bytes)
    | Text(utf8: Bytes)
    | Array(items: seq<Value>)
    | Map(entries: seq<Entry>)
    | Bool(b: bool)
    | Null

  datatype Entry = Entry(key: Value, value: Value)

  datatype Error = UnsupportedLength | Truncated | UnsupportedValue

  datatype Decoded = Decoded(value: Value, offset: Pos)

  datatype DecodedAll = DecodedAll(values: seq<Value>, offset: Pos)

  datatype LengthRead = LengthRead(length: Length, offset: Pos)

  // ---------------------------------------------------------------- the JavaScript Map

  /** Keys that `Map` compares by value; byte strings, arrays and maps compare by identity. */
  predicate Primitive(v: Value) {
    !v.ByteString? && !v.Array? && !v.Map?
  }

  predicate SameKey(a: Value, b: Value) {
    Primitive(a) && a == b
  }

  function MapSet(entries: seq<Entry>, key: Value, value: Value): seq<Entry> {
    if entries == [] then [Entry(key, value)]
    else if SameKey(entries[0].key, key) then [Entry(entries[0].key, value)] + entries[1..]
    else [entries[0]] + MapSet(entries[1..], key, value)
  }

  function MapGet(entries: seq<Entry>, key: Value): Value {
    if entries == [] then Undefined
    else if SameKey(entries[0].key, key) then entries[0].value
    else MapGet(entries[1..], key)
  }

  /** The map left by setting the pairs of a flat list key, value, key, value, ... in order. */
  function BuildMap(flat: seq<Value>): seq<Entry>
    requires |flat| % 2 == 0
  {
    if flat == [] then []
    else MapSet(BuildMap(flat[..|flat| - 2]), flat[|flat| - 2], flat[|flat| - 1])
  }

  /** The value of the last pair whose key is `key`, without building any map. */
  function LastValue(flat: seq<Value>, key: Value): Value
    requires |flat| % 2 == 0
  {
    if flat == [] then Undefined
    else if flat[|flat| - 2] == key then flat[|flat| - 1]
    else LastValue(flat[..|flat| - 2], key)
  }

  lemma {:induction false} GetAfterSet(entries: seq<Entry>, key: Value, value: Value, probe: Value)
    requires Primitive(probe)
    ensures MapGet(MapSet(entries, key, value), probe) ==
            if key == probe then value else MapGet(entries, probe)
  {
    if entries != [] && !SameKey(entries[0].key, key) {
      GetAfterSet(entries[1..], key, value, probe);
    }
  }

  /** Looking a primitive key up in the decoded map finds the last pair sent for it. */
  lemma {:induction false} MapGetIsLastValue(flat: seq<Value>, probe: Value)
    requires |flat| % 2 == 0 && Primitive(probe)
    ensures MapGet(BuildMap(flat), probe) == LastValue(flat, probe)
  {
    if flat != [] {
      var front := flat[..|flat| - 2];
      MapGetIsLastValue(front, probe);
      GetAfterSet(BuildMap(front), flat[|flat| - 2], flat[|flat| - 1], probe);
    }
  }

  // ---------------------------------------------------------------- reading

  predicate InBounds(data: Bytes, pos: Pos) {
    pos.At? && pos.i < |data|
  }

  /** `data[pos]` as an operand of a bitwise operator. */
  function BitsAt(data: Bytes, pos: Pos): Byte {
    if InBounds(data, pos) then data[pos.i] else 0
  }

  function Room(data: Bytes, pos: Pos): nat {
    if InBounds(data, pos) then |data| - pos.i else 0
  }

  function ReadLength(data: Bytes, offset: Pos, additional: nat): Result<LengthRead, Error> {
    if additional < 24 then
      Ok(LengthRead(Len(additional), offset))
    else if additional == 24 then
      var length := if InBounds(data, offset) then Len(data[offset.i]) else UndefinedLen;
      Ok(LengthRead(length, offset.Plus(1)))
    else if additional == 25 then
      Ok(LengthRead(Len(BitsAt(data, offset) * 256 + BitsAt(data, offset.Plus(1))), offset.Plus(2)))
    else if additional == 26 then
      var low := BitsAt(data, offset.Plus(1)) * 65536 + BitsAt(data, offset.Plus(2)) * 256
                 + BitsAt(data, offset.Plus(3));
      var length := if InBounds(data, offset) then Len(data[offset.i] * 0x1000000 + low) else NaNLen;
      Ok(LengthRead(length, offset.Plus(4)))
    else
      Err(UnsupportedLength)
  }

  /** Offsets only move forward, and NaN never becomes a number again. */
  predicate Advances(from: Pos, to: Pos) {
    to.At? ==> from.At? && from.i < to.i
  }

  predicate AdvancesOrStays(from: Pos, to: Pos) {
    to == from || Advances(from, to)
  }

  function IntValue(major: nat, length: Length): Value {
    match length
    case Len(n) => if major == 0 then Int(n) else Int(-1 - n)
    case UndefinedLen => if major == 0 then Undefined else NaN
    case NaNLen => NaN
  }

  /** The bytes of a byte or text string; `slice(offset, NaN)` is empty. */
  function ReadString(data: Bytes, offset: Pos, length: Length): Result<(Bytes, Pos), Error> {
    if length.Len? && offset.At? then
      if offset.i + length.n > |data| then Err(Truncated)
      else Ok((data[offset.i..offset.i + length.n], At(offset.i + length.n)))
    else
      Ok(([], Lost))
  }

  function SimpleValue(additional: nat): Result<Value, Error> {
    if additional == 20 then Ok(Bool(false))
    else if additional == 21 then Ok(Bool(true))
    else if additional == 22 then Ok(Null)
    else Err(UnsupportedValue)
  }

  /** What the decoder returns for the item at `start`. */
  function Decode(data: Bytes, start: Pos): (r: Result<Decoded, Error>)
    ensures r.Ok? ==> Advances(start, r.value.offset)
    decreases Room(data, start), 0, 0
  {
    var initial := BitsAt(data, start);
    var major, additional := initial / 32, initial % 32;
    if major == 7 then
      match SimpleValue(additional)
      case Ok(v) => Ok(Decoded(v, start.Plus(1)))
      case Err(e) => Err(e)
    else
      match ReadLength(data, start.Plus(1), additional)
      case Err(e) => Err(e)
      case Ok(len) =>
        if major <= 1 then Ok(Decoded(IntValue(major, len.length), len.offset))
        else DecodeBody(data, major, len)
  }

  /** What follows the head of a string, array, map or tag. */
  function DecodeBody(data: Bytes, major: nat, len: LengthRead): (r: Result<Decoded, Error>)
    ensures r.Ok? ==> AdvancesOrStays(len.offset, r.value.offset)
    decreases Room(data, len.offset), 2, 0
  {
    if major <= 3 then
      match ReadString(data, len.offset, len.length)
      case Ok(str) => Ok(Decoded(if major == 2 then ByteString(str.0) else Text(str.0), str.1))
      case Err(e) => Err(e)
    else if major == 4 then
      match DecodeAll(data, len.offset, len.length.Count())
      case Ok(all) => Ok(Decoded(Array(all.values), all.offset))
      case Err(e) => Err(e)
    else if major == 5 then
      match DecodeAll(data, len.offset, 2 * len.length.Count())
      case Ok(all) => Ok(Decoded(Map(BuildMap(all.values)), all.offset))
      case Err(e) => Err(e)
    else
      Decode(data, len.offset)
  }

  function DecodeAll(data: Bytes, start: Pos, n: nat): (r: Result<DecodedAll, Error>)
    ensures r.Ok? ==> |r.value.values| == n && AdvancesOrStays(start, r.value.offset)
    decreases Room(data, start), 1, n
  {
    if n == 0 then Ok(DecodedAll([], start))
    else
      match Decode(data, start)
      case Err(e) => Err(e)
      case Ok(first) =>
        match DecodeAll(data, first.offset, n - 1)
        case Err(e) => Err(e)
        case Ok(rest) => Ok(DecodedAll([first.value] + rest.values, rest.offset))
  }

  // ---------------------------------------------------------------- the decoder as written

  function Prepend(values: seq<Value>, r: Result<DecodedAll, Error>): Result<DecodedAll, Error> {
    match r
    case Ok(all) => Ok(DecodedAll(values + all.values, all.offset))
    case Err(e) => Err(e)
  }

  lemma PrependNothing(r: Result<DecodedAll, Error>)
    ensures Prepend([], r) == r
  {
    if r.Ok? { assert [] + r.value.values == r.value.values; }
  }

  lemma DecodeAllStep(data: Bytes, values: seq<Value>, offset: Pos, n: nat)
    requires n > 0
    ensures Decode(data, offset).Err? ==>
              Prepend(values, DecodeAll(data, offset, n)) == Err(Decode(data, offset).error)
    ensures Decode(data, offset).Ok? ==>
              var first := Decode(data, offset).value;
              Prepend(values, DecodeAll(data, offset, n)) ==
              Prepend(values + [first.value], DecodeAll(data, first.offset, n - 1))
  {
    if Decode(data, offset).Ok? {
      var first := Decode(data, offset).value;
      var rest := DecodeAll(data, first.offset, n - 1);
      if rest.Ok? {
        assert values + ([first.value] + rest.value.values) == values + [first.value] + rest.value.values;
      }
    }
  }

  lemma DecodePairStep(data: Bytes, flat: seq<Value>, offset: Pos, n: nat, key: Decoded, value: Decoded)
    requires n >= 2 && Decode(data, offset) == Ok(key) && Decode(data, key.offset) == Ok(value)
    ensures Prepend(flat, DecodeAll(data, offset, n)) ==
            Prepend(flat + [key.value] + [value.value], DecodeAll(data, value.offset, n - 2))
  {
    DecodeAllStep(data, flat, offset, n);
    DecodeAllStep(data, flat + [key.value], key.offset, n - 1);
  }

  lemma DecodePairFails(data: Bytes, flat: seq<Value>, offset: Pos, n: nat)
    requires n >= 2
    ensures Decode(data, offset).Err? ==>
              Prepend(flat, DecodeAll(data, offset, n)) == Err(Decode(data, offset).error)
    ensures Decode(data, offset).Ok? && Decode(data, Decode(data, offset).value.offset).Err? ==>
              Prepend(flat, DecodeAll(data, offset, n)) == Err(Decode(data, Decode(data, offset).value.offset).error)
  {
    DecodeAllStep(data, flat, offset, n);
    if Decode(data, offset).Ok? {
      var key := Decode(data, offset).value;
      DecodeAllStep(data, flat + [key.value], key.offset, n - 1);
    }
  }

  lemma BuildMapSnoc(flat: seq<Value>, key: Value, value: Value)
    requires |flat| % 2 == 0
    ensures BuildMap(flat + [key] + [value]) == MapSet(BuildMap(flat), key, value)
  {
    var all := flat + [key] + [value];
    assert all[..|all| - 2] == flat;
  }

  method DecodeCborValue(data: Bytes, startOffset: Pos) returns (r: Result<Decoded, Error>)
    ensures r == Decode(data, startOffset)
    decreases Room(data, startOffset), 0
  {
    var initial := BitsAt(data, startOffset);
    var major := initial / 32;
    var additional := initial % 32;
    var offset := startOffset.Plus(1);

    if major == 7 {
      var value :- SimpleValue(additional);
      return Ok(Decoded(value, offset));
    }
    var len :- ReadLength(data, offset, additional);
    offset := len.offset;

    if major == 0 || major == 1 {
      return Ok(Decoded(IntValue(major, len.length), offset));
    }
    if major == 2 || major == 3 {
      var str :- ReadString(data, offset, len.length);
      return Ok(Decoded(if major == 2 then ByteString(str.0) else Text(str.0), str.1));
    }
    if major == 4 {
      r := DecodeArrayItems(data, offset, len.length.Count());
    } else if major == 5 {
      r := DecodeMapEntries(data, offset, len.length.Count());
    } else {
      r := DecodeCborValue(data, offset);
    }
  }

  /** The loop of the array branch. */
  method DecodeArrayItems(data: Bytes, start: Pos, count: nat) returns (r: Result<Decoded, Error>)
    ensures r == match DecodeAll(data, start, count)
                 case Ok(all) => Ok(Decoded(Array(all.values), all.offset))
                 case Err(e) => Err(e)
    decreases Room(data, start), 1
  {
    var offset := start;
    var values: seq<Value> := [];
    PrependNothing(DecodeAll(data, offset, count));
    for i := 0 to count
      invariant AdvancesOrStays(start, offset)
      invariant DecodeAll(data, start, count) == Prepend(values, DecodeAll(data, offset, count - i))
    {
      DecodeAllStep(data, values, offset, count - i);
      var decoded :- DecodeCborValue(data, offset);
      values := values + [decoded.value];
      offset := decoded.offset;
    }
    assert values + [] == values;
    return Ok(Decoded(Array(values), offset));
  }

  /** The loop of the map branch. */
  method DecodeMapEntries(data: Bytes, start: Pos, count: nat) returns (r: Result<Decoded, Error>)
    ensures r == match DecodeAll(data, start, 2 * count)
                 case Ok(all) => Ok(Decoded(Map(BuildMap(all.values)), all.offset))
                 case Err(e) => Err(e)
    decreases Room(data, start), 1
  {
    var offset := start;
    var entries: seq<Entry> := [];
    ghost var flat: seq<Value> := [];
    PrependNothing(DecodeAll(data, offset, 2 * count));
    for i := 0 to count
      invariant AdvancesOrStays(start, offset)
      invariant |flat| == 2 * i && entries == BuildMap(flat)
      invariant DecodeAll(data, start, 2 * count) == Prepend(flat, DecodeAll(data, offset, 2 * (count - i)))
    {
      ghost var left := 2 * (count - i);
      DecodePairFails(data, flat, offset, left);
      var key :- DecodeCborValue(data, offset);
      var value :- DecodeCborValue(data, key.offset);
      DecodePairStep(data, flat, offset, left, key, value);
      offset := value.offset;
      BuildMapSnoc(flat, key.value, value.value);
      entries := MapSet(entries, key.value, value.value);
      flat := flat + [key.value] + [value.value];
    }
    assert flat + [] == flat;
    return Ok(Decoded(Map(entries), offset));
  }

  // ---------------------------------------------------------------- wire syntax

  /** How many bytes follow the initial byte of a head. */
  datatype Width = Inline | One | Two | Four

  /** A well-formed data item of the subset, with the head width its sender chose. */
  datatype Item =
    | UIntItem(w: Width, arg: nat)
    | NIntItem(w: Width, arg: nat)
    | BytesItem(w: Width, content: Bytes)
    | TextItem(w: Width, content: Bytes)
    | ArrayItem(w: Width, items: seq<Item>)
    | MapItem(w: Width, items: seq<Item>)  // key, value, key, value, ...
    | TagItem(w: Width, arg: nat, inner: Item)
    | FalseItem
    | TrueItem
    | NullItem

  predicate Fits(w: Width, arg: nat) {
    match w
    case Inline => arg < 24
    case One => arg < 0x100
    case Two => arg < 0x1_0000
    case Four => arg < 0x1_0000_0000
  }

  predicate Legal(t: Item) {
    match t
    case UIntItem(w, arg) => Fits(w, arg)
    case NIntItem(w, arg) => Fits(w, arg)
    case BytesItem(w, content) => Fits(w, |content|)
    case TextItem(w, content) => Fits(w, |content|)
    case ArrayItem(w, items) => Fits(w, |items|) && forall c | c in items :: Legal(c)
    case MapItem(w, items) =>
      |items| % 2 == 0 && Fits(w, |items| / 2) && forall c | c in items :: Legal(c)
    case TagItem(w, arg, inner) => Fits(w, arg) && Legal(inner)
    case _ => true
  }

  /** The initial byte and the argument bytes of a head, most significant first. */
  function Head(major: nat, w: Width, arg: nat): (h: Bytes)
    requires major < 8 && Fits(w, arg)
    ensures |h| >= 1
  {
    match w
    case Inline => [major * 32 + arg]
    case One => [major * 32 + 24, arg]
    case Two => [major * 32 + 25, arg / 0x100, arg % 0x100]
    case Four =>
      [major * 32 + 26, arg / 0x100_0000, arg / 0x1_0000 % 0x100, arg / 0x100 % 0x100, arg % 0x100]
  }

  function Serialize(t: Item): (s: Bytes)
    requires Legal(t)
    ensures |s| >= 1
    decreases t, 1
  {
    match t
    case UIntItem(w, arg) => Head(0, w, arg)
    case NIntItem(w, arg) => Head(1, w, arg)
    case BytesItem(w, content) => Head(2, w, |content|) + content
    case TextItem(w, content) => Head(3, w, |content|) + content
    case ArrayItem(w, items) => Head(4, w, |items|) + SerializeAll(items)
    case MapItem(w, items) => Head(5, w, |items| / 2) + SerializeAll(items)
    case TagItem(w, arg, inner) => Head(6, w, arg) + Serialize(inner)
    case FalseItem => [7 * 32 + 20]
    case TrueItem => [7 * 32 + 21]
    case NullItem => [7 * 32 + 22]
  }

  function SerializeAll(ts: seq<Item>): Bytes
    requires forall t | t in ts :: Legal(t)
    decreases ts, 0
  {
    if ts == [] then [] else Serialize(ts[0]) + SerializeAll(ts[1..])
  }

  /** The value an item denotes; a tag denotes what it wraps. */
  function Meaning(t: Item): Value
    requires Legal(t)
    decreases t, 1
  {
    match t
    case UIntItem(w, arg) => Int(arg)
    case NIntItem(w, arg) => Int(-1 - arg)
    case BytesItem(w, content) => ByteString(content)
    case TextItem(w, content) => Text(content)
    case ArrayItem(w, items) => Array(MeaningAll(items))
    case MapItem(w, items) => Map(BuildMap(MeaningAll(items)))
    case TagItem(w, arg, inner) => Meaning(inner)
    case FalseItem => Bool(false)
    case TrueItem => Bool(true)
    case NullItem => Null
  }

  function MeaningAll(ts: seq<Item>): (vs: seq<Value>)
    requires forall t | t in ts :: Legal(t)
    ensures |vs| == |ts|
    decreases ts, 0
  {
    if ts == [] then [] else [Meaning(ts[0])] + MeaningAll(ts[1..])
  }

  // ---------------------------------------------------------------- decode inverts serialize

  /** An initial byte of this major type, and behind it a length of `arg`, ending at `next`. */
  predicate HeadAt(data: Bytes, at: nat, major: nat, arg: nat, next: nat) {
    && at < |data|
    && data[at] / 32 == major
    && ReadLength(data, At(at + 1), data[at] % 32) == Ok(LengthRead(Len(arg), At(next)))
  }

  lemma FourBytesJoin(n: nat)
    requires n < 0x1_0000_0000
    ensures n / 0x100_0000 < 0x100
    ensures n / 0x100_0000 * 0x100_0000 + (n / 0x1_0000 % 0x100 * 65536 + n / 0x100 % 0x100 * 256 + n % 0x100) == n
  {}

  lemma ReadHead(data: Bytes, at: nat, major: nat, w: Width, arg: nat)
    requires major < 8 && Fits(w, arg) && Occurs(data, at, Head(major, w, arg))
    ensures HeadAt(data, at, major, arg, at + |Head(major, w, arg)|)
  {
    var h := Head(major, w, arg);
    OccursAt(data, at, h, 0);
    match w
    case Inline =>
    case One =>
      OccursAt(data, at, h, 1);
    case Two =>
      OccursAt(data, at, h, 1);
      OccursAt(data, at, h, 2);
    case Four =>
      OccursAt(data, at, h, 1);
      OccursAt(data, at, h, 2);
      OccursAt(data, at, h, 3);
      OccursAt(data, at, h, 4);
      FourBytesJoin(arg);
  }

  lemma DecodeInt(data: Bytes, at: nat, major: nat, arg: nat, next: nat)
    requires major <= 1 && HeadAt(data, at, major, arg, next)
    ensures Decode(data, At(at)) == Ok(Decoded(IntValue(major, Len(arg)), At(next)))
  {}

  lemma DecodeBehindHead(data: Bytes, at: nat, major: nat, arg: nat, next: nat)
    requires 2 <= major <= 6 && HeadAt(data, at, major, arg, next)
    ensures Decode(data, At(at)) == DecodeBody(data, major, LengthRead(Len(arg), At(next)))
  {}

  lemma DecodeString(data: Bytes, at: nat, major: nat, next: nat, content: Bytes)
    requires 2 <= major <= 3 && HeadAt(data, at, major, |content|, next) && Occurs(data, next, content)
    ensures Decode(data, At(at)) ==
            Ok(Decoded(if major == 2 then ByteString(content) else Text(content), At(next + |content|)))
  {
    DecodeBehindHead(data, at, major, |content|, next);
    assert ReadString(data, At(next), Len(|content|)) == Ok((content, At(next + |content|)));
  }

  lemma DecodeSimple(data: Bytes, at: nat)
    requires at < |data| && data[at] / 32 == 7
    ensures Decode(data, At(at)) ==
            match SimpleValue(data[at] % 32)
            case Ok(v) => Ok(Decoded(v, At(at + 1)))
            case Err(e) => Err(e)
  {}

  /** The bytes of a head followed by what it introduces. */
  lemma SplitAfterHead(data: Bytes, at: nat, major: nat, w: Width, arg: nat, body: Bytes) returns (next: nat)
    requires major < 8 && Fits(w, arg) && Occurs(data, at, Head(major, w, arg) + body)
    ensures next == at + |Head(major, w, arg)| && next + |body| == at + |Head(major, w, arg) + body|
    ensures Occurs(data, at, Head(major, w, arg)) && HeadAt(data, at, major, arg, next) && Occurs(data, next, body)
  {
    OccursSplit(data, at, Head(major, w, arg), body);
    ReadHead(data, at, major, w, arg);
    next := at + |Head(major, w, arg)|;
  }

  lemma DecodeIntItem(t: Item, data: Bytes, at: nat)
    requires t.UIntItem? || t.NIntItem?
    requires Legal(t) && Occurs(data, at, Serialize(t))
    ensures Decode(data, At(at)) == Ok(Decoded(Meaning(t), At(at + |Serialize(t)|)))
  {
    var major := if t.UIntItem? then 0 else 1;
    ReadHead(data, at, major, t.w, t.arg);
    DecodeInt(data, at, major, t.arg, at + |Head(major, t.w, t.arg)|);
  }

  lemma DecodeStringItem(t: Item, data: Bytes, at: nat)
    requires t.BytesItem? || t.TextItem?
    requires Legal(t) && Occurs(data, at, Serialize(t))
    ensures Decode(data, At(at)) == Ok(Decoded(Meaning(t), At(at + |Serialize(t)|)))
  {
    var major := if t.BytesItem? then 2 else 3;
    var next := SplitAfterHead(data, at, major, t.w, |t.content|, t.content);
    DecodeString(data, at, major, next, t.content);
  }

  lemma DecodeLeaf(t: Item, data: Bytes, at: nat)
    requires !t.ArrayItem? && !t.MapItem? && !t.TagItem?
    requires Legal(t) && Occurs(data, at, Serialize(t))
    ensures Decode(data, At(at)) == Ok(Decoded(Meaning(t), At(at + |Serialize(t)|)))
  {
    if t.UIntItem? || t.NIntItem? {
      DecodeIntItem(t, data, at);
    } else if t.BytesItem? || t.TextItem? {
      DecodeStringItem(t, data, at);
    } else {
      assert data[at] == data[at..at + 1][0] == Serialize(t)[0];
      DecodeSimple(data, at);
    }
  }

  /** `t` is what the bytes at `at` encode, and the decoder agrees. */
  ghost predicate Explains(t: Item, data: Bytes, at: nat) {
    && Legal(t)
    && Occurs(data, at, Serialize(t))
    && Decode(data, At(at)) == Ok(Decoded(Meaning(t), At(at + |Serialize(t)|)))
  }

  ghost predicate ExplainsAll(ts: seq<Item>, data: Bytes, at: nat) {
    && (forall t | t in ts :: Legal(t))
    && Occurs(data, at, SerializeAll(ts))
    && DecodeAll(data, At(at), |ts|) == Ok(DecodedAll(MeaningAll(ts), At(at + |SerializeAll(ts)|)))
  }

  lemma ExplainTag(data: Bytes, at: nat, w: Width, arg: nat, next: nat, inner: Item)
    requires Fits(w, arg) && Occurs(data, at, Head(6, w, arg))
    requires next == at + |Head(6, w, arg)| && HeadAt(data, at, 6, arg, next)
    requires Explains(inner, data, next)
    ensures Explains(TagItem(w, arg, inner), data, at)
  {
    OccursJoin(data, at, Head(6, w, arg), Serialize(inner));
    DecodeBehindHead(data, at, 6, arg, next);
  }

  lemma DecodeList(data: Bytes, at: nat, major: nat, arg: nat, next: nat, values: seq<Value>, end: Pos)
    requires 4 <= major <= 5 && HeadAt(data, at, major, arg, next) && |values| == if major == 4 then arg else 2 * arg
    requires DecodeAll(data, At(next), |values|) == Ok(DecodedAll(values, end))
    ensures Decode(data, At(at)) == Ok(Decoded(if major == 4 then Array(values) else Map(BuildMap(values)), end))
  {
    DecodeBehindHead(data, at, major, arg, next);
  }

  lemma MapParts(w: Width, arg: nat, items: seq<Item>)
    requires |items| == 2 * arg && Fits(w, arg) && forall t | t in items :: Legal(t)
    ensures Legal(MapItem(w, items)) && Serialize(MapItem(w, items)) == Head(5, w, arg) + SerializeAll(items)
    ensures Meaning(MapItem(w, items)) == Map(BuildMap(MeaningAll(items)))
  {}

  lemma ExplainArray(data: Bytes, at: nat, w: Width, next: nat, items: seq<Item>)
    requires Fits(w, |items|) && Occurs(data, at, Head(4, w, |items|))
    requires next == at + |Head(4, w, |items|)| && HeadAt(data, at, 4, |items|, next)
    requires ExplainsAll(items, data, next)
    ensures Explains(ArrayItem(w, items), data, at)
  {
    OccursJoin(data, at, Head(4, w, |items|), SerializeAll(items));
    DecodeList(data, at, 4, |items|, next, MeaningAll(items), At(next + |SerializeAll(items)|));
  }

  lemma ExplainMap(data: Bytes, at: nat, w: Width, arg: nat, next: nat, items: seq<Item>)
    requires |items| == 2 * arg && Fits(w, arg) && Occurs(data, at, Head(5, w, arg))
    requires next == at + |Head(5, w, arg)| && HeadAt(data, at, 5, arg, next)
    requires ExplainsAll(items, data, next)
    ensures Explains(MapItem(w, items), data, at)
  {
    OccursJoin(data, at, Head(5, w, arg), SerializeAll(items));
    DecodeList(data, at, 5, arg, next, MeaningAll(items), At(next + |SerializeAll(items)|));
    MapParts(w, arg, items);
  }

  /**
   Decoding an item at any offset, whatever surrounds it, gives its meaning and the
   offset just past it.
   */
  lemma {:induction false} DecodeInvertsSerialize(t: Item, data: Bytes, at: nat)
    requires Legal(t) && Occurs(data, at, Serialize(t))
    ensures Decode(data, At(at)) == Ok(Decoded(Meaning(t), At(at + |Serialize(t)|)))
    decreases t, 1
  {
    if t.ArrayItem? {
      DecodeInvertsArray(t.w, t.items, data, at);
    } else if t.MapItem? {
      DecodeInvertsMap(t.w, t.items, data, at);
    } else if t.TagItem? {
      DecodeInvertsTag(t.w, t.arg, t.inner, data, at);
    } else {
      DecodeLeaf(t, data, at);
    }
  }

  lemma {:induction false} DecodeInvertsArray(w: Width, items: seq<Item>, data: Bytes, at: nat)
    requires Legal(ArrayItem(w, items)) && Occurs(data, at, Serialize(ArrayItem(w, items)))
    ensures Explains(ArrayItem(w, items), data, at)
    decreases ArrayItem(w, items), 0
  {
    var next := SplitAfterHead(data, at, 4, w, |items|, SerializeAll(items));
    DecodeAllInvertsSerializeAll(items, data, next);
    ExplainArray(data, at, w, next, items);
  }

  lemma {:induction false} DecodeInvertsMap(w: Width, items: seq<Item>, data: Bytes, at: nat)
    requires Legal(MapItem(w, items)) && Occurs(data, at, Serialize(MapItem(w, items)))
    ensures Explains(MapItem(w, items), data, at)
    decreases MapItem(w, items), 0
  {
    var next := SplitAfterHead(data, at, 5, w, |items| / 2, SerializeAll(items));
    DecodeAllInvertsSerializeAll(items, data, next);
    ExplainMap(data, at, w, |items| / 2, next, items);
  }

  lemma {:induction false} DecodeInvertsTag(w: Width, arg: nat, inner: Item, data: Bytes, at: nat)
    requires Legal(TagItem(w, arg, inner)) && Occurs(data, at, Serialize(TagItem(w, arg, inner)))
    ensures Explains(TagItem(w, arg, inner), data, at)
    decreases TagItem(w, arg, inner), 0
  {
    var next := SplitAfterHead(data, at, 6, w, arg, Serialize(inner));
    DecodeInvertsSerialize(inner, data, next);
    ExplainTag(data, at, w, arg, next, inner);
  }

  /** The results for a first item and for those behind it, joined. */
  function Joined(first: Result<Decoded, Error>, rest: Result<DecodedAll, Error>): Result<DecodedAll, Error> {
    match first
    case Err(e) => Err(e)
    case Ok(f) =>
      match rest
      case Err(e) => Err(e)
      case Ok(all) => Ok(DecodedAll([f.value] + all.values, all.offset))
  }

  lemma DecodeAllIsJoined(data: Bytes, at: nat, count: nat, offset: Pos)
    requires count > 0 && (Decode(data, At(at)).Ok? ==> Decode(data, At(at)).value.offset == offset)
    ensures DecodeAll(data, At(at), count) == Joined(Decode(data, At(at)), DecodeAll(data, offset, count - 1))
  {}

  lemma {:induction false} ItemsSplit(ts: seq<Item>, more: seq<Item>, data: Bytes, at: nat, next: nat)
    requires (forall t | t in ts :: Legal(t)) && Occurs(data, at, SerializeAll(ts))
    requires ts != [] && more == ts[1..] && next == at + |Serialize(ts[0])|
    ensures (forall t | t in more :: Legal(t)) && |more| == |ts| - 1
    ensures Occurs(data, at, Serialize(ts[0])) && Occurs(data, next, SerializeAll(more))
    ensures at + |SerializeAll(ts)| == next + |SerializeAll(more)|
    ensures MeaningAll(ts) == [Meaning(ts[0])] + MeaningAll(more)
  {
    OccursSplit(data, at, Serialize(ts[0]), SerializeAll(more));
  }

  lemma {:induction false} DecodeAllInvertsSerializeAll(ts: seq<Item>, data: Bytes, at: nat)
    requires (forall t | t in ts :: Legal(t)) && Occurs(data, at, SerializeAll(ts))
    ensures DecodeAll(data, At(at), |ts|) ==
            Ok(DecodedAll(MeaningAll(ts), At(at + |SerializeAll(ts)|)))
    decreases ts, 0
  {
    if ts != [] {
      var more, next := ts[1..], at + |Serialize(ts[0])|;
      ItemsSplit(ts, more, data, at, next);
      DecodeInvertsSerialize(ts[0], data, at);
      DecodeAllInvertsSerializeAll(more, data, next);
      DecodeAllIsJoined(data, at, |ts|, At(next));
    }
  }

  // ---------------------------------------------------------------- serialize inverts decode

  lemma FourBytesSplit(a: Byte, b: Byte, c: Byte, d: Byte, n: nat)
    requires n == a * 0x100_0000 + b * 0x1_0000 + c * 0x100 + d
    ensures n < 0x1_0000_0000
    ensures n / 0x100_0000 == a && n / 0x1_0000 % 0x100 == b && n / 0x100 % 0x100 == c && n % 0x100 == d
  {
    assert n / 0x100 == a * 0x1_0000 + b * 0x100 + c;
    assert n / 0x1_0000 == a * 0x100 + b;
  }

  /** The data holds the head that was read, and its length is what was read. */
  predicate HeadRead(data: Bytes, at: nat, w: Width, arg: nat)
    requires at < |data|
  {
    && data[at] / 32 < 8 && Fits(w, arg) && Occurs(data, at, Head(data[at] / 32, w, arg))
    && HeadAt(data, at, data[at] / 32, arg, at + |Head(data[at] / 32, w, arg)|)
  }

  lemma RecoverShortHead(data: Bytes, at: nat) returns (w: Width, arg: nat)
    requires at < |data| && data[at] % 32 <= 24 && (data[at] % 32 == 24 ==> at + 2 <= |data|)
    ensures HeadRead(data, at, w, arg)
  {
    if data[at] % 32 < 24 {
      w, arg := Inline, data[at] % 32;
      assert data[at..at + 1] == [data[at]];
    } else {
      w, arg := One, data[at + 1];
      assert data[at..at + 2] == [data[at], data[at + 1]];
    }
  }

  lemma RecoverTwoByteHead(data: Bytes, at: nat) returns (arg: nat)
    requires at + 3 <= |data| && data[at] % 32 == 25
    ensures HeadRead(data, at, Two, arg)
  {
    arg := (data[at + 1] as nat) * 256 + data[at + 2] as nat;
    assert data[at..at + 3] == [data[at], data[at + 1], data[at + 2]];
  }

  lemma RecoverFourByteHead(data: Bytes, at: nat) returns (arg: nat)
    requires at + 5 <= |data| && data[at] % 32 == 26
    ensures HeadRead(data, at, Four, arg)
  {
    arg := (data[at + 1] as nat) * 0x100_0000 + (data[at + 2] as nat) * 0x1_0000
           + (data[at + 3] as nat) * 0x100 + data[at + 4] as nat;
    FourBytesSplit(data[at + 1], data[at + 2], data[at + 3], data[at + 4], arg);
    assert data[at..at + 5] == [data[at], data[at + 1], data[at + 2], data[at + 3], data[at + 4]];
  }

  /** A length read inside the data came from a head there. */
  lemma RecoverHead(data: Bytes, at: nat) returns (w: Width, arg: nat)
    requires at < |data|
    requires var len := ReadLength(data, At(at + 1), data[at] % 32);
             len.Ok? && len.value.offset.i <= |data|
    ensures HeadRead(data, at, w, arg)
  {
    if data[at] % 32 <= 24 {
      w, arg := RecoverShortHead(data, at);
    } else if data[at] % 32 == 25 {
      w := Two;
      arg := RecoverTwoByteHead(data, at);
    } else {
      w := Four;
      arg := RecoverFourByteHead(data, at);
    }
  }

  ghost predicate EndsInside(data: Bytes, offset: Pos) {
    offset.At? && offset.i <= |data|
  }

  ghost predicate DecodesInside(data: Bytes, at: nat) {
    Decode(data, At(at)).Ok? && EndsInside(data, Decode(data, At(at)).value.offset)
  }

  /** A decode that succeeds inside the data, other than of a simple value, began with a head. */
  lemma DecodeReadsHead(data: Bytes, at: nat) returns (w: Width, arg: nat, next: nat)
    requires DecodesInside(data, at) && data[at] / 32 != 7
    ensures Fits(w, arg) && Occurs(data, at, Head(data[at] / 32, w, arg))
    ensures next == at + |Head(data[at] / 32, w, arg)| && HeadAt(data, at, data[at] / 32, arg, next)
    ensures data[at] / 32 >= 2 ==>
              Decode(data, At(at)) == DecodeBody(data, data[at] / 32, LengthRead(Len(arg), At(next)))
    ensures next <= |data|
  {
    w, arg := RecoverHead(data, at);
    next := at + |Head(data[at] / 32, w, arg)|;
  }

  lemma ExplainSimple(data: Bytes, at: nat) returns (t: Item)
    requires DecodesInside(data, at) && data[at] / 32 == 7
    ensures Explains(t, data, at)
  {
    DecodeSimple(data, at);
    var additional := data[at] % 32;
    t := if additional == 20 then FalseItem else if additional == 21 then TrueItem else NullItem;
    assert data[at..at + 1] == [data[at]] == Serialize(t);
  }

  lemma ExplainInt(data: Bytes, at: nat) returns (t: Item)
    requires DecodesInside(data, at) && data[at] / 32 <= 1
    ensures Explains(t, data, at)
  {
    var w, arg, next := DecodeReadsHead(data, at);
    t := if data[at] / 32 == 0 then UIntItem(w, arg) else NIntItem(w, arg);
  }

  lemma ExplainString(data: Bytes, at: nat) returns (t: Item)
    requires DecodesInside(data, at) && 2 <= data[at] / 32 <= 3
    ensures Explains(t, data, at)
  {
    var w, arg, next := DecodeReadsHead(data, at);
    var content := data[next..next + arg];
    DecodeString(data, at, data[at] / 32, next, content);
    OccursJoin(data, at, Head(data[at] / 32, w, arg), content);
    t := if data[at] / 32 == 2 then BytesItem(w, content) else TextItem(w, content);
  }

  /** A result that ends inside the data was really encoded by the bytes it covers. */
  lemma {:induction false} SerializeInvertsDecode(data: Bytes, at: nat) returns (t: Item)
    requires DecodesInside(data, at)
    ensures Explains(t, data, at)
    decreases Room(data, At(at)), 0, 0
  {
    var major := data[at] / 32;
    if major == 7 {
      t := ExplainSimple(data, at);
    } else if major <= 1 {
      t := ExplainInt(data, at);
    } else if major <= 3 {
      t := ExplainString(data, at);
    } else {
      var w, arg, next := DecodeReadsHead(data, at);
      if major == 6 {
        var inner := SerializeInvertsDecode(data, next);
        t := TagItem(w, arg, inner);
        ExplainTag(data, at, w, arg, next, inner);
      } else if major == 4 {
        var items := SerializeAllInvertsDecodeAll(data, next, arg);
        t := ArrayItem(w, items);
        ExplainArray(data, at, w, next, items);
      } else {
        var items := SerializeAllInvertsDecodeAll(data, next, 2 * arg);
        t := MapItem(w, items);
        ExplainMap(data, at, w, arg, next, items);
      }
    }
  }

  lemma {:induction false} SerializeAllInvertsDecodeAll(data: Bytes, at: nat, n: nat) returns (ts: seq<Item>)
    requires at <= |data|
    requires DecodeAll(data, At(at), n).Ok? && EndsInside(data, DecodeAll(data, At(at), n).value.offset)
    ensures |ts| == n && ExplainsAll(ts, data, at)
    decreases Room(data, At(at)), 1, n
  {
    if n == 0 {
      ts := [];
    } else {
      var first := Decode(data, At(at)).value;
      assert AdvancesOrStays(first.offset, DecodeAll(data, first.offset, n - 1).value.offset);
      var t := SerializeInvertsDecode(data, at);
      var more := SerializeAllInvertsDecodeAll(data, first.offset.i, n - 1);
      ts := [t] + more;
      assert ts[1..] == more;
      OccursJoin(data, at, Serialize(t), SerializeAll(more));
    }
  }

  predicate IsEncoding(t: Item, data: Bytes, at: nat, value: Value, end: nat) {
    Legal(t) && Meaning(t) == value && end == at + |Serialize(t)| && Occurs(data, at, Serialize(t))
  }

  /** The decoder returns a value and an offset inside the data exactly when those bytes encode it. */
  lemma DecodesExactlyWhatIsEncoded(data: Bytes, at: nat, value: Value, end: nat)
    requires end <= |data|
    ensures Decode(data, At(at)) == Ok(Decoded(value, At(end))) <==>
            exists t :: IsEncoding(t, data, at, value, end)
  {
    if Decode(data, At(at)) == Ok(Decoded(value, At(end))) {
      var t := SerializeInvertsDecode(data, at);
      assert IsEncoding(t, data, at, value, end);
    }
    forall t | IsEncoding(t, data, at, value, end)
      ensures Decode(data, At(at)) == Ok(Decoded(value, At(end)))
    {
      DecodeInvertsSerialize(t, data, at);
    }
  }

  /** No item's bytes can be read as another item, shorter, longer, or with another meaning. */
  lemma SerializeIsUnambiguous(a: Item, b: Item, afterA: Bytes, afterB: Bytes)
    requires Legal(a) && Legal(b) && Serialize(a) + afterA == Serialize(b) + afterB
    ensures Meaning(a) == Meaning(b) && Serialize(a) == Serialize(b) && afterA == afterB
  {
    var data := Serialize(a) + afterA;
    assert data[0..|Serialize(a)|] == Serialize(a);
    assert data[0..|Serialize(b)|] == Serialize(b) by { assert data == Serialize(b) + afterB; }
    DecodeInvertsSerialize(a, data, 0);
    DecodeInvertsSerialize(b, data, 0);
    assert afterA == data[|Serialize(a)|..] == (Serialize(b) + afterB)[|Serialize(b)|..] == afterB;
  }
}
