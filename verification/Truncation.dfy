/**
 What the CBOR decoder makes of an item whose bytes stop short. A missing byte reads as 0 or as
 nothing at all, so most cuts are accepted; this module says which are not, what the others decode
 to, and that nothing else is ever accepted.
 */
module Truncation {
  import opened Common
  import opened Cbor

  /** The data from `at` on is the first `n` bytes of `s`, and not all of it. */
  predicate IsCut(data: Bytes, at: nat, s: Bytes, n: nat) {
    n < |s| && at + n == |data| && data[at..] == s[..n]
  }

  /** There is nothing to read from here on. */
  predicate Beyond(data: Bytes, pos: Pos) {
    pos.At? ==> pos.i >= |data|
  }

  /** Bytes that are not there have been read. */
  predicate Past(data: Bytes, pos: Pos) {
    pos.At? ==> pos.i > |data|
  }

  function Zeros(n: nat): (vs: seq<Value>)
    ensures |vs| == n
  {
    if n == 0 then [] else [Int(0)] + Zeros(n - 1)
  }

  lemma NothingIsZero(data: Bytes, pos: Pos)
    requires Beyond(data, pos)
    ensures Decode(data, pos) == Ok(Decoded(Int(0), pos.Plus(1))) && Past(data, pos.Plus(1))
  {}

  lemma {:induction false} NothingIsZeros(data: Bytes, pos: Pos, n: nat)
    requires Beyond(data, pos)
    ensures DecodeAll(data, pos, n) == Ok(DecodedAll(Zeros(n), pos.Plus(n)))
    decreases n
  {
    if n > 0 {
      NothingIsZero(data, pos);
      NothingIsZeros(data, pos.Plus(1), n - 1);
    }
  }

  // ---------------------------------------------------------------- cut heads

  function HeadLength(w: Width): nat {
    match w
    case Inline => 1
    case One => 2
    case Two => 3
    case Four => 5
  }

  /** The length read from the first `n` bytes of a head. */
  function CutLength(w: Width, arg: nat, n: nat): Length
    requires 1 <= n < HeadLength(w)
  {
    match w
    case One => UndefinedLen
    case Two => Len(if n == 1 then 0 else arg / 0x100 * 0x100)
    case Four =>
      if n == 1 then NaNLen
      else if n == 2 then Len(arg / 0x100_0000 * 0x100_0000)
      else if n == 3 then Len(arg / 0x1_0000 * 0x1_0000)
      else Len(arg / 0x100 * 0x100)
  }

  /** A cut head, and the length and offset read from it. */
  predicate CutHeadAt(data: Bytes, at: nat, major: nat, length: Length, next: nat) {
    && at < |data| < next
    && data[at] / 32 == major
    && ReadLength(data, At(at + 1), data[at] % 32) == Ok(LengthRead(length, At(next)))
  }

  lemma HighBytes(n: nat)
    requires n < 0x1_0000_0000
    ensures n / 0x100_0000 < 0x100
    ensures n / 0x100_0000 * 0x100_0000 + n / 0x1_0000 % 0x100 * 65536 == n / 0x1_0000 * 0x1_0000
    ensures n / 0x100_0000 * 0x100_0000 + (n / 0x1_0000 % 0x100 * 65536 + n / 0x100 % 0x100 * 256) == n / 0x100 * 0x100
  {
    FourBytesJoin(n);
  }

  lemma ReadCutHead(data: Bytes, at: nat, major: nat, w: Width, arg: nat, n: nat)
    requires major < 7 && Fits(w, arg) && 1 <= n < HeadLength(w) && IsCut(data, at, Head(major, w, arg), n)
    ensures CutHeadAt(data, at, major, CutLength(w, arg, n), at + HeadLength(w))
  {
    var h := Head(major, w, arg);
    assert forall k | 0 <= k < n :: data[at + k] == data[at..][k] == h[k];
    if w.Four? {
      HighBytes(arg);
    }
  }

  function AsArray(all: Result<DecodedAll, Error>): Result<Decoded, Error> {
    match all
    case Ok(a) => Ok(Decoded(Array(a.values), a.offset))
    case Err(e) => Err(e)
  }

  function AsMap(all: Result<DecodedAll, Error>): Result<Decoded, Error>
    requires all.Ok? ==> |all.value.values| % 2 == 0
  {
    match all
    case Ok(a) => Ok(Decoded(Map(BuildMap(a.values)), a.offset))
    case Err(e) => Err(e)
  }

  /**
   What data that ends with an initial byte of a one-byte or four-byte length is read as: no number at all,
   so that arrays and maps have nothing in them. A two-byte length of which nothing is there is zero.
   */
  lemma {:induction false} MissingLengthIs(data: Bytes, at: nat)
    requires |data| == at + 1
    ensures data[at] == 0x18 ==> Decode(data, At(at)) == Ok(Decoded(Undefined, At(at + 2)))
    ensures data[at] == 0x38 ==> Decode(data, At(at)) == Ok(Decoded(NaN, At(at + 2)))
    ensures data[at] == 0x98 ==> Decode(data, At(at)) == Ok(Decoded(Array([]), At(at + 2)))
    ensures data[at] == 0xB8 ==> Decode(data, At(at)) == Ok(Decoded(Map([]), At(at + 2)))
    ensures data[at] == 0x19 ==> Decode(data, At(at)) == Ok(Decoded(Int(0), At(at + 3)))
    ensures data[at] == 0x39 ==> Decode(data, At(at)) == Ok(Decoded(Int(-1), At(at + 3)))
    ensures data[at] in {0x1A, 0x3A} ==> Decode(data, At(at)) == Ok(Decoded(NaN, At(at + 5)))
    ensures data[at] == 0x9A ==> Decode(data, At(at)) == Ok(Decoded(Array([]), At(at + 5)))
    ensures data[at] == 0xBA ==> Decode(data, At(at)) == Ok(Decoded(Map([]), At(at + 5)))
  {
    var none := DecodedAll([], At(at + 2));
    assert DecodeAll(data, At(at + 2), 0) == Ok(none) && DecodeAll(data, At(at + 5), 0).value.values == [];
    assert BuildMap([]) == [];
  }

  // ---------------------------------------------------------------- which cuts are rejected

  /**
   Whether the first `n` bytes of an item are rejected: they stop in the content of a byte or text string,
   or in its head, after the initial byte of a two-byte length or after a byte of a four-byte length.
   */
  predicate CutRejected(t: Item, n: nat)
    requires Legal(t)
    decreases t, 1
  {
    match t
    case BytesItem(w, _) => StringCutRejected(w, n)
    case TextItem(w, _) => StringCutRejected(w, n)
    case ArrayItem(w, items) => n >= HeadLength(w) && CutRejectedIn(items, n - HeadLength(w))
    case MapItem(w, items) => n >= HeadLength(w) && CutRejectedIn(items, n - HeadLength(w))
    case TagItem(w, _, inner) => n >= HeadLength(w) && CutRejected(inner, n - HeadLength(w))
    case _ => false
  }

  predicate StringCutRejected(w: Width, n: nat) {
    n >= HeadLength(w) || (w.Two? && n >= 1) || (w.Four? && n >= 2)
  }

  predicate CutRejectedIn(ts: seq<Item>, n: nat)
    requires forall t | t in ts :: Legal(t)
    decreases ts, 0
  {
    ts != [] &&
    if n < |Serialize(ts[0])| then CutRejected(ts[0], n) else CutRejectedIn(ts[1..], n - |Serialize(ts[0])|)
  }

  /** What the first `n` bytes of an item mean to the decoder, when it accepts them. */
  function CutMeaning(t: Item, n: nat): Value
    requires Legal(t)
    decreases t, 1
  {
    if n == 0 then Int(0)
    else
      match t
      case UIntItem(w, arg) => if n < HeadLength(w) then IntValue(0, CutLength(w, arg, n)) else Meaning(t)
      case NIntItem(w, arg) => if n < HeadLength(w) then IntValue(1, CutLength(w, arg, n)) else Meaning(t)
      case BytesItem(_, _) => ByteString([])
      case TextItem(_, _) => Text([])
      case ArrayItem(w, items) =>
        Array(if n < HeadLength(w) then Zeros(CutLength(w, |items|, n).Count())
              else CutMeanings(items, n - HeadLength(w)))
      case MapItem(w, items) =>
        Map(BuildMap(if n < HeadLength(w) then Zeros(2 * CutLength(w, |items| / 2, n).Count())
                     else CutMeanings(items, n - HeadLength(w))))
      case TagItem(w, arg, inner) => if n < HeadLength(w) then Int(0) else CutMeaning(inner, n - HeadLength(w))
      case _ => Meaning(t)
  }

  /** The items before the cut, the one that is cut, and a zero for each that is missing. */
  function CutMeanings(ts: seq<Item>, n: nat): (vs: seq<Value>)
    requires forall t | t in ts :: Legal(t)
    ensures |vs| == |ts|
    decreases ts, 0
  {
    if ts == [] then []
    else if n < |Serialize(ts[0])| then [CutMeaning(ts[0], n)] + Zeros(|ts| - 1)
    else [Meaning(ts[0])] + CutMeanings(ts[1..], n - |Serialize(ts[0])|)
  }

  /** This result is what the definitions above say of the first `n` bytes of `t`, at the end of the data. */
  ghost predicate CutAgrees(t: Item, n: nat, data: Bytes, r: Result<Decoded, Error>)
    requires Legal(t)
  {
    if CutRejected(t, n) then r == Err(Truncated)
    else r.Ok? && r.value.value == CutMeaning(t, n) && Past(data, r.value.offset)
  }

  ghost predicate CutAgreesIn(ts: seq<Item>, n: nat, data: Bytes, r: Result<DecodedAll, Error>)
    requires forall t | t in ts :: Legal(t)
  {
    if CutRejectedIn(ts, n) then r == Err(Truncated)
    else r.Ok? && r.value.values == CutMeanings(ts, n) && Past(data, r.value.offset)
  }

  /** A cut behind the head is a cut of what the head introduces. */
  lemma CutBehindHead(data: Bytes, at: nat, major: nat, w: Width, arg: nat, body: Bytes, n: nat)
    requires major < 7 && Fits(w, arg) && HeadLength(w) <= n
    requires IsCut(data, at, Head(major, w, arg) + body, n)
    ensures HeadAt(data, at, major, arg, at + HeadLength(w))
    ensures IsCut(data, at + HeadLength(w), body, n - HeadLength(w))
  {
    var h := Head(major, w, arg);
    assert (h + body)[..n] == h + body[..n - |h|];
    assert data[at..][..|h|] == h && data[at..][|h|..] == body[..n - |h|];
    assert data[at..at + |h|] == h && data[at + |h|..] == body[..n - |h|];
    ReadHead(data, at, major, w, arg);
  }

  lemma CutInHead(data: Bytes, at: nat, major: nat, w: Width, arg: nat, body: Bytes, n: nat)
    requires major < 7 && Fits(w, arg) && 1 <= n < HeadLength(w)
    requires IsCut(data, at, Head(major, w, arg) + body, n)
    ensures CutHeadAt(data, at, major, CutLength(w, arg, n), at + HeadLength(w))
  {
    assert (Head(major, w, arg) + body)[..n] == Head(major, w, arg)[..n];
    ReadCutHead(data, at, major, w, arg, n);
  }

  lemma CutInt(t: Item, n: nat, data: Bytes, at: nat)
    requires Legal(t) && (t.UIntItem? || t.NIntItem?) && n >= 1 && IsCut(data, at, Serialize(t), n)
    ensures CutAgrees(t, n, data, Decode(data, At(at)))
  {
    ReadCutHead(data, at, if t.UIntItem? then 0 else 1, t.w, t.arg, n);
  }

  lemma DecodeCutStringHead(data: Bytes, at: nat, major: nat, length: Length, next: nat)
    requires 2 <= major <= 3 && CutHeadAt(data, at, major, length, next)
    ensures length.Len? ==> Decode(data, At(at)) == Err(Truncated)
    ensures !length.Len? ==>
              Decode(data, At(at)) == Ok(Decoded(if major == 2 then ByteString([]) else Text([]), Lost))
  {}

  lemma {:induction false} DecodeCutContent(data: Bytes, at: nat, major: nat, arg: nat, next: nat)
    requires 2 <= major <= 3 && HeadAt(data, at, major, arg, next) && next + arg > |data|
    ensures Decode(data, At(at)) == Err(Truncated)
  {}

  lemma CutString(t: Item, n: nat, data: Bytes, at: nat)
    requires Legal(t) && (t.BytesItem? || t.TextItem?) && n >= 1 && IsCut(data, at, Serialize(t), n)
    ensures CutAgrees(t, n, data, Decode(data, At(at)))
  {
    var major, next := if t.BytesItem? then 2 else 3, at + HeadLength(t.w);
    if n < HeadLength(t.w) {
      CutInHead(data, at, major, t.w, |t.content|, t.content, n);
      DecodeCutStringHead(data, at, major, CutLength(t.w, |t.content|, n), next);
    } else {
      CutBehindHead(data, at, major, t.w, |t.content|, t.content, n);
      DecodeCutContent(data, at, major, |t.content|, next);
    }
  }

  /** The value that a list of this major type decodes to. */
  function ListOf(major: nat, values: seq<Value>): Value
    requires 4 <= major <= 5 && (major == 5 ==> |values| % 2 == 0)
  {
    if major == 4 then Array(values) else Map(BuildMap(values))
  }

  function ListCount(major: nat, length: Length): (n: nat)
    ensures major == 5 ==> n % 2 == 0
  {
    if major == 4 then length.Count() else 2 * length.Count()
  }

  lemma {:induction false} DecodeCutListHead(data: Bytes, at: nat, major: nat, length: Length, next: nat)
    requires 4 <= major <= 5 && CutHeadAt(data, at, major, length, next)
    ensures var count := ListCount(major, length);
            Decode(data, At(at)) == Ok(Decoded(ListOf(major, Zeros(count)), At(next + count)))
  {
    var count := ListCount(major, length);
    NothingIsZeros(data, At(next), count);
    DecodeBehindCutHead(data, at, major, length, next);
    BodyIsList(data, major, length, next, Zeros(count), At(next + count));
  }

  lemma {:induction false} BodyIsList(
    data: Bytes, major: nat, length: Length, next: nat, values: seq<Value>, end: Pos)
    requires 4 <= major <= 5 && |values| == ListCount(major, length)
    requires DecodeAll(data, At(next), |values|) == Ok(DecodedAll(values, end))
    ensures DecodeBody(data, major, LengthRead(length, At(next))) == Ok(Decoded(ListOf(major, values), end))
  {}

  lemma DecodeBehindCutHead(data: Bytes, at: nat, major: nat, length: Length, next: nat)
    requires 2 <= major <= 6 && CutHeadAt(data, at, major, length, next)
    ensures Decode(data, At(at)) == DecodeBody(data, major, LengthRead(length, At(next)))
  {}

  lemma CutInListHead(t: Item, n: nat, data: Bytes, at: nat)
    requires Legal(t) && (t.ArrayItem? || t.MapItem?) && 1 <= n < HeadLength(t.w) && IsCut(data, at, Serialize(t), n)
    ensures CutAgrees(t, n, data, Decode(data, At(at)))
  {
    var major, arg := if t.ArrayItem? then 4 else 5, if t.ArrayItem? then |t.items| else |t.items| / 2;
    CutInHead(data, at, major, t.w, arg, SerializeAll(t.items), n);
    DecodeCutListHead(data, at, major, CutLength(t.w, arg, n), at + HeadLength(t.w));
  }

  lemma CutInTagHead(t: Item, n: nat, data: Bytes, at: nat)
    requires Legal(t) && t.TagItem? && 1 <= n < HeadLength(t.w) && IsCut(data, at, Serialize(t), n)
    ensures CutAgrees(t, n, data, Decode(data, At(at)))
  {
    CutInHead(data, at, 6, t.w, t.arg, Serialize(t.inner), n);
    NothingIsZero(data, At(at + HeadLength(t.w)));
  }

  lemma CutBehindArrayHead(w: Width, items: seq<Item>, n: nat, data: Bytes, all: Result<DecodedAll, Error>)
    requires Legal(ArrayItem(w, items)) && HeadLength(w) <= n && CutAgreesIn(items, n - HeadLength(w), data, all)
    ensures CutAgrees(ArrayItem(w, items), n, data, AsArray(all))
  {}

  lemma CutBehindMapHead(w: Width, items: seq<Item>, n: nat, data: Bytes, all: Result<DecodedAll, Error>)
    requires Legal(MapItem(w, items)) && HeadLength(w) <= n && CutAgreesIn(items, n - HeadLength(w), data, all)
    requires all.Ok? ==> |all.value.values| % 2 == 0
    ensures CutAgrees(MapItem(w, items), n, data, AsMap(all))
  {
    CutMapMeaning(w, items, n);
  }

  lemma CutMapMeaning(w: Width, items: seq<Item>, n: nat)
    requires Legal(MapItem(w, items)) && HeadLength(w) <= n
    ensures CutRejected(MapItem(w, items), n) <==> CutRejectedIn(items, n - HeadLength(w))
    ensures CutMeaning(MapItem(w, items), n) == Map(BuildMap(CutMeanings(items, n - HeadLength(w))))
  {}

  lemma CutBehindTagHead(w: Width, arg: nat, inner: Item, n: nat, data: Bytes, r: Result<Decoded, Error>)
    requires Legal(TagItem(w, arg, inner)) && HeadLength(w) <= n && CutAgrees(inner, n - HeadLength(w), data, r)
    ensures CutAgrees(TagItem(w, arg, inner), n, data, r)
  {}

  lemma {:induction false} DecodeOfCutList(t: Item, n: nat, data: Bytes, at: nat)
    requires Legal(t) && (t.ArrayItem? || t.MapItem?) && HeadLength(t.w) <= n && IsCut(data, at, Serialize(t), n)
    ensures CutAgrees(t, n, data, Decode(data, At(at)))
    decreases t, 0
  {
    var major, arg := if t.ArrayItem? then 4 else 5, if t.ArrayItem? then |t.items| else |t.items| / 2;
    var next := at + HeadLength(t.w);
    CutBehindHead(data, at, major, t.w, arg, SerializeAll(t.items), n);
    DecodeOfCutIn(t.items, n - HeadLength(t.w), data, next);
    var all := DecodeAll(data, At(next), |t.items|);
    DecodeBehindHead(data, at, major, arg, next);
    if t.ArrayItem? {
      CutBehindArrayHead(t.w, t.items, n, data, all);
    } else {
      CutBehindMapHead(t.w, t.items, n, data, all);
    }
  }

  lemma {:induction false} DecodeOfCutTag(t: Item, n: nat, data: Bytes, at: nat)
    requires Legal(t) && t.TagItem? && HeadLength(t.w) <= n && IsCut(data, at, Serialize(t), n)
    ensures CutAgrees(t, n, data, Decode(data, At(at)))
    decreases t, 0
  {
    var next := at + HeadLength(t.w);
    CutBehindHead(data, at, 6, t.w, t.arg, Serialize(t.inner), n);
    DecodeOfCut(t.inner, n - HeadLength(t.w), data, next);
    DecodeBehindHead(data, at, 6, t.arg, next);
    CutBehindTagHead(t.w, t.arg, t.inner, n, data, Decode(data, At(next)));
  }

  /**
   Decoding data that stops inside an item: rejected exactly where `CutRejected` says, and otherwise
   the value that `CutMeaning` says, with an offset past the end of the data.
   */
  lemma {:induction false} DecodeOfCut(t: Item, n: nat, data: Bytes, at: nat)
    requires Legal(t) && IsCut(data, at, Serialize(t), n)
    ensures CutAgrees(t, n, data, Decode(data, At(at)))
    decreases t, 1
  {
    if n == 0 {
      NothingIsZero(data, At(at));
      NoCutAtStart(t);
    } else if t.UIntItem? || t.NIntItem? {
      CutInt(t, n, data, at);
    } else if t.BytesItem? || t.TextItem? {
      CutString(t, n, data, at);
    } else if t.TagItem? {
      if n < HeadLength(t.w) {
        CutInTagHead(t, n, data, at);
      } else {
        DecodeOfCutTag(t, n, data, at);
      }
    } else if t.ArrayItem? || t.MapItem? {
      if n < HeadLength(t.w) {
        CutInListHead(t, n, data, at);
      } else {
        DecodeOfCutList(t, n, data, at);
      }
    }
  }

  lemma NoCutAtStart(t: Item)
    requires Legal(t)
    ensures !CutRejected(t, 0)
  {}

  lemma CutWithinItem(data: Bytes, at: nat, first: Bytes, rest: Bytes, n: nat)
    requires IsCut(data, at, first + rest, n) && n < |first|
    ensures IsCut(data, at, first, n)
  {
    assert (first + rest)[..n] == first[..n];
  }

  lemma CutBehindItem(data: Bytes, at: nat, first: Bytes, rest: Bytes, n: nat, m: nat, next: nat)
    requires IsCut(data, at, first + rest, n) && n == |first| + m && next == at + |first|
    ensures Occurs(data, at, first) && IsCut(data, next, rest, m)
  {
    assert (first + rest)[..n] == first + rest[..m];
    assert data[at..][..|first|] == first && data[at..][|first|..] == rest[..m];
    assert data[at..next] == first && data[next..] == rest[..m];
  }

  lemma CutInFirst(ts: seq<Item>, n: nat, data: Bytes, first: Result<Decoded, Error>, rest: Result<DecodedAll, Error>)
    requires (forall t | t in ts :: Legal(t)) && ts != [] && n < |Serialize(ts[0])| && CutAgrees(ts[0], n, data, first)
    requires first.Ok? ==> rest == Ok(DecodedAll(Zeros(|ts| - 1), first.value.offset.Plus(|ts| - 1)))
    ensures CutAgreesIn(ts, n, data, Joined(first, rest))
  {}

  lemma CutBehindFirst(ts: seq<Item>, more: seq<Item>, n: nat, m: nat)
    requires (forall t | t in ts :: Legal(t)) && ts != [] && more == ts[1..] && n == |Serialize(ts[0])| + m
    ensures CutRejectedIn(ts, n) <==> CutRejectedIn(more, m)
    ensures CutMeanings(ts, n) == [Meaning(ts[0])] + CutMeanings(more, m)
  {}

  lemma {:induction false} DecodeOfCutInFirst(ts: seq<Item>, n: nat, data: Bytes, at: nat)
    requires (forall t | t in ts :: Legal(t)) && ts != [] && n < |Serialize(ts[0])|
    requires CutAgrees(ts[0], n, data, Decode(data, At(at)))
    ensures CutAgreesIn(ts, n, data, DecodeAll(data, At(at), |ts|))
  {
    var first := Decode(data, At(at));
    var offset := if first.Ok? then first.value.offset else Lost;
    DecodeAllIsJoined(data, at, |ts|, offset);
    if first.Ok? {
      NothingIsZeros(data, offset, |ts| - 1);
    }
    CutInFirst(ts, n, data, first, DecodeAll(data, offset, |ts| - 1));
  }

  lemma DecodeOfCutBehindFirst(ts: seq<Item>, more: seq<Item>, n: nat, m: nat, data: Bytes, at: nat, next: nat)
    requires (forall t | t in ts :: Legal(t)) && ts != [] && more == ts[1..] && n == |Serialize(ts[0])| + m
    requires Decode(data, At(at)) == Ok(Decoded(Meaning(ts[0]), At(next)))
    requires CutAgreesIn(more, m, data, DecodeAll(data, At(next), |more|))
    ensures CutAgreesIn(ts, n, data, DecodeAll(data, At(at), |ts|))
  {
    CutBehindFirst(ts, more, n, m);
    DecodeAllIsJoined(data, at, |ts|, At(next));
  }

  lemma CutOfFirst(ts: seq<Item>, n: nat, data: Bytes, at: nat)
    requires (forall t | t in ts :: Legal(t)) && IsCut(data, at, SerializeAll(ts), n) && n < |Serialize(ts[0])|
    ensures IsCut(data, at, Serialize(ts[0]), n)
  {
    CutWithinItem(data, at, Serialize(ts[0]), SerializeAll(ts[1..]), n);
  }

  lemma {:induction false} CutOfMore(ts: seq<Item>, more: seq<Item>, n: nat, m: nat, data: Bytes, at: nat, next: nat)
    requires (forall t | t in ts :: Legal(t)) && IsCut(data, at, SerializeAll(ts), n) && more == ts[1..]
    requires n == |Serialize(ts[0])| + m && next == at + |Serialize(ts[0])|
    ensures (forall t | t in more :: Legal(t)) && IsCut(data, next, SerializeAll(more), m)
    ensures Decode(data, At(at)) == Ok(Decoded(Meaning(ts[0]), At(next)))
  {
    CutBehindItem(data, at, Serialize(ts[0]), SerializeAll(more), n, m, next);
    DecodeInvertsSerialize(ts[0], data, at);
  }

  lemma {:induction false} DecodeOfCutIn(ts: seq<Item>, n: nat, data: Bytes, at: nat)
    requires (forall t | t in ts :: Legal(t)) && IsCut(data, at, SerializeAll(ts), n)
    ensures CutAgreesIn(ts, n, data, DecodeAll(data, At(at), |ts|))
    decreases ts, 0
  {
    var head := |Serialize(ts[0])|;
    if n < head {
      CutOfFirst(ts, n, data, at);
      DecodeOfCut(ts[0], n, data, at);
      DecodeOfCutInFirst(ts, n, data, at);
    } else {
      var more, m, next := ts[1..], n - head, at + head;
      CutOfMore(ts, more, n, m, data, at, next);
      DecodeOfCutIn(more, m, data, next);
      DecodeOfCutBehindFirst(ts, more, n, m, data, at, next);
    }
  }

  /** Exactly which proper beginnings of an item's bytes are rejected. */
  lemma TruncatedIsRejectedIff(t: Item, n: nat)
    requires Legal(t) && n < |Serialize(t)|
    ensures Decode(Serialize(t)[..n], At(0)).Err? <==> CutRejected(t, n)
  {
    var data := Serialize(t)[..n];
    assert data[0..] == Serialize(t)[..n];
    DecodeOfCut(t, n, data, 0);
  }

  // ---------------------------------------------------------------- nothing else is accepted

  /** Enough items of one byte for what the decoder reads past the end. */
  function ZeroItems(n: nat): (ts: seq<Item>)
    ensures |ts| == n && forall t | t in ts :: Legal(t)
  {
    if n == 0 then [] else [UIntItem(Inline, 0)] + ZeroItems(n - 1)
  }

  /** A length read partly past the data came from a cut head: of a length whose missing bytes are zero. */
  lemma {:induction false} RecoverCutHead(data: Bytes, at: nat) returns (w: Width, arg: nat, n: nat)
    requires at < |data| && data[at] / 32 < 7
    requires var len := ReadLength(data, At(at + 1), data[at] % 32);
             len.Ok? && len.value.offset.i > |data|
    ensures Fits(w, arg) && 1 <= n < HeadLength(w) && IsCut(data, at, Head(data[at] / 32, w, arg), n)
    ensures ReadLength(data, At(at + 1), data[at] % 32) ==
            Ok(LengthRead(CutLength(w, arg, n), At(at + HeadLength(w))))
    ensures CutLength(w, arg, n) == Len(arg) || (!CutLength(w, arg, n).Len? && arg == 0)
  {
    var additional := data[at] % 32;
    n := |data| - at;
    assert data[at..][0] == data[at];
    if additional == 24 {
      w, arg := One, 0;
    } else if additional == 25 {
      w, arg := Two, if n == 1 then 0 else (data[at + 1] as nat) * 0x100;
    } else {
      w := Four;
      var a: nat := if n <= 1 then 0 else data[at + 1];
      var b: nat := if n <= 2 then 0 else data[at + 2];
      var c: nat := if n <= 3 then 0 else data[at + 3];
      arg := a * 0x100_0000 + b * 0x1_0000 + c * 0x100;
      FourBytesSplit(a, b, c, 0, arg);
    }
    ReadCutHead(data, at, data[at] / 32, w, arg, n);
  }

  /** The data from `at` on is a cut of this item. */
  ghost predicate CutOf(t: Item, n: nat, data: Bytes, at: nat) {
    Legal(t) && IsCut(data, at, Serialize(t), n)
  }

  ghost predicate CutOfAll(ts: seq<Item>, n: nat, data: Bytes, at: nat) {
    (forall t | t in ts :: Legal(t)) && IsCut(data, at, SerializeAll(ts), n)
  }

  lemma CutHeadOnly(data: Bytes, at: nat, head: Bytes, body: Bytes, n: nat)
    requires IsCut(data, at, head, n)
    ensures IsCut(data, at, head + body, n)
  {
    assert (head + body)[..n] == head[..n];
  }

  lemma CutBehind(data: Bytes, at: nat, head: Bytes, body: Bytes, n: nat)
    requires Occurs(data, at, head) && IsCut(data, at + |head|, body, n)
    ensures IsCut(data, at, head + body, |head| + n)
  {
    assert (head + body)[..|head| + n] == head + body[..n];
    assert data[at..] == data[at..at + |head|] + data[at + |head|..];
  }

  /** The data ends before the head that begins at `at` does. */
  predicate StopsInHead(data: Bytes, at: nat)
    requires at < |data|
  {
    var len := ReadLength(data, At(at + 1), data[at] % 32);
    len.Ok? && len.value.offset.i > |data|
  }

  lemma NotSimple(data: Bytes, at: nat)
    requires at < |data| && Decode(data, At(at)).Ok? && !EndsInside(data, Decode(data, At(at)).value.offset)
    ensures data[at] / 32 < 7
  {
    if data[at] / 32 == 7 { DecodeSimple(data, at); }
  }

  /** An item with this head, and these items behind it where there are any. */
  function ItemWith(major: nat, w: Width, arg: nat, items: seq<Item>): Item {
    if major == 0 then UIntItem(w, arg)
    else if major == 1 then NIntItem(w, arg)
    else if major == 2 then BytesItem(w, [])
    else if major == 3 then TextItem(w, [])
    else if major == 4 then ArrayItem(w, items)
    else if major == 5 then MapItem(w, items)
    else TagItem(w, arg, UIntItem(Inline, 0))
  }

  function BodyWith(major: nat, items: seq<Item>): Bytes
    requires forall t | t in items :: Legal(t)
  {
    if 4 <= major <= 5 then SerializeAll(items)
    else if major == 6 then Serialize(UIntItem(Inline, 0))
    else []
  }

  lemma {:induction false} SerializeItemWith(major: nat, w: Width, arg: nat, items: seq<Item>)
    requires major < 7 && Fits(w, arg) && (2 <= major <= 3 ==> arg == 0)
    requires forall t | t in items :: Legal(t)
    requires (major == 4 ==> |items| == arg) && (major == 5 ==> |items| == 2 * arg)
    ensures Legal(ItemWith(major, w, arg, items))
    ensures Serialize(ItemWith(major, w, arg, items)) == Head(major, w, arg) + BodyWith(major, items)
  {
    if major <= 1 {
      assert Head(major, w, arg) + [] == Head(major, w, arg);
    }
  }

  /** Data that stops in a head, of anything but a simple value, is a cut of some item. */
  lemma RecoverFromCutHead(data: Bytes, at: nat) returns (t: Item, n: nat)
    requires at < |data| && data[at] / 32 < 7 && Decode(data, At(at)).Ok? && StopsInHead(data, at)
    ensures CutOf(t, n, data, at)
  {
    var w, arg;
    w, arg, n := RecoverCutHead(data, at);
    var major := data[at] / 32;
    if 2 <= major <= 3 {
      DecodeCutStringHead(data, at, major, CutLength(w, arg, n), at + HeadLength(w));
    }
    var items := ZeroItems(if major == 5 then 2 * arg else arg);
    t := ItemWith(major, w, arg, items);
    SerializeItemWith(major, w, arg, items);
    CutHeadOnly(data, at, Head(major, w, arg), BodyWith(major, items), n);
  }

  /** The head read before what runs past the end of the data is that of an array, a map or a tag. */
  lemma RecoverHeadBeforeCut(data: Bytes, at: nat) returns (w: Width, arg: nat, next: nat)
    requires at < |data| && data[at] / 32 < 7
    requires Decode(data, At(at)).Ok? && !EndsInside(data, Decode(data, At(at)).value.offset)
    requires !StopsInHead(data, at)
    ensures Fits(w, arg) && Occurs(data, at, Head(data[at] / 32, w, arg))
    ensures next == at + |Head(data[at] / 32, w, arg)| <= |data|
    ensures data[at] / 32 >= 4
    ensures Decode(data, At(at)) == DecodeBody(data, data[at] / 32, LengthRead(Len(arg), At(next)))
  {
    w, arg := RecoverHead(data, at);
    next := at + |Head(data[at] / 32, w, arg)|;
    NotString(data, at, data[at] / 32, arg, next);
  }

  lemma NotString(data: Bytes, at: nat, major: nat, arg: nat, next: nat)
    requires major < 7 && HeadAt(data, at, major, arg, next) && next <= |data|
    requires Decode(data, At(at)).Ok? && !EndsInside(data, Decode(data, At(at)).value.offset)
    ensures major >= 4
  {}

  lemma CutTag(data: Bytes, at: nat, w: Width, arg: nat, inner: Item, m: nat)
    requires Fits(w, arg) && Occurs(data, at, Head(6, w, arg)) && CutOf(inner, m, data, at + |Head(6, w, arg)|)
    ensures CutOf(TagItem(w, arg, inner), |Head(6, w, arg)| + m, data, at)
  {
    CutBehind(data, at, Head(6, w, arg), Serialize(inner), m);
  }

  lemma CutArray(data: Bytes, at: nat, w: Width, items: seq<Item>, m: nat)
    requires Fits(w, |items|) && Occurs(data, at, Head(4, w, |items|))
    requires CutOfAll(items, m, data, at + |Head(4, w, |items|)|)
    ensures CutOf(ArrayItem(w, items), |Head(4, w, |items|)| + m, data, at)
  {
    CutBehind(data, at, Head(4, w, |items|), SerializeAll(items), m);
  }

  lemma CutMap(data: Bytes, at: nat, w: Width, arg: nat, items: seq<Item>, m: nat)
    requires |items| == 2 * arg && Fits(w, arg) && Occurs(data, at, Head(5, w, arg))
    requires CutOfAll(items, m, data, at + |Head(5, w, arg)|)
    ensures CutOf(MapItem(w, items), |Head(5, w, arg)| + m, data, at)
  {
    CutBehind(data, at, Head(5, w, arg), SerializeAll(items), m);
  }

  /** Whatever is accepted with an offset past the end of the data is a cut of some item. */
  lemma {:induction false} RecoverCut(data: Bytes, at: nat) returns (t: Item, n: nat)
    requires at <= |data| && Decode(data, At(at)).Ok? && !EndsInside(data, Decode(data, At(at)).value.offset)
    ensures CutOf(t, n, data, at)
    decreases Room(data, At(at)), 0, 1
  {
    if at == |data| {
      t, n := UIntItem(Inline, 0), 0;
    } else {
      NotSimple(data, at);
      if StopsInHead(data, at) {
        t, n := RecoverFromCutHead(data, at);
      } else {
        var w, arg, next := RecoverHeadBeforeCut(data, at);
        t, n := RecoverBehindHead(data, at, data[at] / 32, w, arg, next);
      }
    }
  }

  lemma {:induction false} RecoverBehindHead(data: Bytes, at: nat, major: nat, w: Width, arg: nat, next: nat)
    returns (t: Item, n: nat)
    requires 4 <= major < 7 && Fits(w, arg) && Occurs(data, at, Head(major, w, arg)) && at < |data|
    requires next == at + |Head(major, w, arg)| <= |data|
    requires DecodeBody(data, major, LengthRead(Len(arg), At(next))).Ok?
    requires !EndsInside(data, DecodeBody(data, major, LengthRead(Len(arg), At(next))).value.offset)
    ensures CutOf(t, n, data, at)
    decreases Room(data, At(at)), 0, 0
  {
    if major == 6 {
      var inner, m := RecoverCut(data, next);
      t, n := TagItem(w, arg, inner), |Head(6, w, arg)| + m;
      CutTag(data, at, w, arg, inner, m);
    } else if major == 4 {
      var items, m := RecoverCutAll(data, next, arg);
      t, n := ArrayItem(w, items), |Head(4, w, arg)| + m;
      CutArray(data, at, w, items, m);
    } else {
      var items, m := RecoverCutAll(data, next, 2 * arg);
      t, n := MapItem(w, items), |Head(5, w, arg)| + m;
      CutMap(data, at, w, arg, items, m);
    }
  }

  lemma {:induction false} RecoverCutAll(data: Bytes, at: nat, count: nat) returns (ts: seq<Item>, n: nat)
    requires at <= |data|
    requires DecodeAll(data, At(at), count).Ok? && !EndsInside(data, DecodeAll(data, At(at), count).value.offset)
    ensures |ts| == count && CutOfAll(ts, n, data, at)
    decreases Room(data, At(at)), 1, count
  {
    var first := Decode(data, At(at)).value;
    if EndsInside(data, first.offset) {
      var t := SerializeInvertsDecode(data, at);
      var rest, m := RecoverCutAll(data, first.offset.i, count - 1);
      ts, n := [t] + rest, |Serialize(t)| + m;
      assert ts[1..] == rest;
      CutBehind(data, at, Serialize(t), SerializeAll(rest), m);
    } else {
      var t, m := RecoverCut(data, at);
      ts, n := [t] + ZeroItems(count - 1), m;
      assert ts[1..] == ZeroItems(count - 1);
      CutHeadOnly(data, at, Serialize(t), SerializeAll(ZeroItems(count - 1)), m);
    }
  }

  ghost predicate IsWhole(t: Item, data: Bytes, at: nat) {
    Legal(t) && Occurs(data, at, Serialize(t))
  }

  /** The decoder accepts exactly what begins with an item, and the cuts of items that are not rejected. */
  lemma AcceptsExactly(data: Bytes, at: nat)
    requires at <= |data|
    ensures Decode(data, At(at)).Ok? <==>
            || (exists t :: IsWhole(t, data, at))
            || (exists t, n :: CutOf(t, n, data, at) && !CutRejected(t, n))
  {
    if Decode(data, At(at)).Ok? {
      if EndsInside(data, Decode(data, At(at)).value.offset) {
        assert Advances(At(at), Decode(data, At(at)).value.offset);
        var t := SerializeInvertsDecode(data, at);
        assert IsWhole(t, data, at);
      } else {
        var t, n := RecoverCut(data, at);
        DecodeOfCut(t, n, data, at);
      }
    }
    forall t | IsWhole(t, data, at) ensures Decode(data, At(at)).Ok? {
      DecodeInvertsSerialize(t, data, at);
    }
    forall t, n | CutOf(t, n, data, at) && !CutRejected(t, n) ensures Decode(data, At(at)).Ok? {
      DecodeOfCut(t, n, data, at);
    }
  }
}
