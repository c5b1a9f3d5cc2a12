/**
 Composite keys: several fields packed into one byte string that sorts by
 `memcmp` and can be taken apart again.

 Fixed-length fields are stored as they are. A variable-length field is stored
 with its null bytes handled and followed by a null delimiter; its length goes
 to a trailer, which is written and read back to front.
 */
module CompositeKeys {
  import opened ByteStrings

  datatype NullHandling = EscapeNullBytes | AllowNullBytes | DenyNullBytes

  datatype KeyError =
    | FieldContainsNullByte
    | FieldTooLong
    | UnexpectedEof
    | InvalidData
    | UnescapedNullPanic
    | CursorsCrossedPanic

  // A field as the encoder sees it: the constant length of its type, if it has one, and its ordered bytes.
  datatype Field = Field(length: Option<nat>, bytes: Bytes)

  const MAX_LENGTH: nat := 0xFFFF

  // A type that declares a constant length must encode every value in that length.
  predicate WellSized(f: Field) {
    f.length.Some? ==> |f.bytes| == f.length.value
  }

  // ---------------------------------------------------------------- null bytes

  function Escape(b: Bytes): Bytes {
    if b == [] then [] else (if b[0] == 0 then [0, 0] else [b[0]]) + Escape(b[1..])
  }

  // The inverse: nothing when a null byte is not doubled.
  function Unescape(b: Bytes): Option<Bytes> {
    if b == [] then Some([])
    else if b[0] != 0 then
      match Unescape(b[1..])
      case None => None
      case Some(rest) => Some([b[0]] + rest)
    else if |b| >= 2 && b[1] == 0 then
      match Unescape(b[2..])
      case None => None
      case Some(rest) => Some([0] + rest)
    else None
  }

  function Handled(nulls: NullHandling, b: Bytes): Result<Bytes, KeyError> {
    match nulls
    case EscapeNullBytes => Ok(Escape(b))
    case AllowNullBytes => Ok(b)
    case DenyNullBytes => if 0 in b then Err(FieldContainsNullByte) else Ok(b)
  }

  function Unhandled(nulls: NullHandling, b: Bytes): Result<Bytes, KeyError> {
    if nulls.EscapeNullBytes? then
      match Unescape(b)
      case None => Err(UnescapedNullPanic)
      case Some(raw) => Ok(raw)
    else Ok(b)
  }

  // ---------------------------------------------------------------- encoding

  predicate Encodable(nulls: NullHandling, f: Field) {
    f.length.Some? || (Handled(nulls, f.bytes).Ok? && |Handled(nulls, f.bytes).value| <= MAX_LENGTH)
  }

  predicate AllEncodable(nulls: NullHandling, fs: seq<Field>) {
    forall i :: 0 <= i < |fs| ==> Encodable(nulls, fs[i])
  }

  predicate AllWellSized(fs: seq<Field>) {
    forall i :: 0 <= i < |fs| ==> WellSized(fs[i])
  }

  function FieldBytes(nulls: NullHandling, f: Field): Bytes
    requires Encodable(nulls, f)
  {
    if f.length.Some? then f.bytes else Handled(nulls, f.bytes).value + [0]
  }

  function Body(nulls: NullHandling, fs: seq<Field>): Bytes
    requires AllEncodable(nulls, fs)
  {
    if fs == [] then [] else FieldBytes(nulls, fs[0]) + Body(nulls, fs[1..])
  }

  // The lengths of the variable fields, in order.
  function Lengths(nulls: NullHandling, fs: seq<Field>): (r: seq<nat>)
    requires AllEncodable(nulls, fs)
    ensures forall i :: 0 <= i < |r| ==> r[i] <= MAX_LENGTH
  {
    if fs == [] then []
    else (if fs[0].length.Some? then [] else [|Handled(nulls, fs[0].bytes).value|]) + Lengths(nulls, fs[1..])
  }

  // Seven bits per byte, most significant first; every byte but the first has its high bit set.
  function EncodeLength(n: nat): (r: Bytes)
    requires n <= MAX_LENGTH
    ensures r != [] && (r[0] == 0 <==> n == 0)
  {
    if n <= 0x7F then [n]
    else if n <= 0x3FFF then [n / 128, n % 128 + 128]
    else [n / 16384, n / 128 % 128 + 128, n % 128 + 128]
  }

  // The length of the first variable field comes last.
  function Trailer(lengths: seq<nat>): Bytes
    requires forall i :: 0 <= i < |lengths| ==> lengths[i] <= MAX_LENGTH
  {
    if lengths == [] then [] else Trailer(lengths[1..]) + EncodeLength(lengths[0])
  }

  function Encoded(nulls: NullHandling, fs: seq<Field>): Bytes
    requires AllEncodable(nulls, fs)
  {
    Body(nulls, fs) + Trailer(Lengths(nulls, fs))
  }

  // ---------------------------------------------------------------- decoding

  // A length read backwards from the end of `w`, and how many bytes it took.
  function ReadLength(w: Bytes): (r: Option<(nat, nat)>)
    ensures r.Some? ==> 1 <= r.value.1 <= |w|
  {
    if w == [] then None
    else
      var last := w[|w| - 1];
      if last < 128 then Some((last, 1))
      else match ReadLength(w[..|w| - 1])
        case None => None
        case Some((length, used)) => Some((last - 128 + 128 * length, used + 1))
  }

  // The decoder's two cursors: fields are taken from `offset` up, lengths from `end` down.
  datatype Cursor = Cursor(offset: nat, end: nat)

  function DecodeField(nulls: NullHandling, bytes: Bytes, c: Cursor, length: Option<nat>)
    : (r: (Result<Bytes, KeyError>, Cursor))
    requires c.end <= |bytes|
    ensures r.1.end <= |bytes|
  {
    if length.Some? then TakeField(nulls, bytes, c, length.value, false)
    else if c.offset > c.end then (Err(CursorsCrossedPanic), c)
    else match ReadLength(bytes[c.offset..c.end])
      case None => (Err(UnexpectedEof), c)
      case Some((n, used)) => TakeField(nulls, bytes, Cursor(c.offset, c.end - used), n, true)
  }

  function TakeField(nulls: NullHandling, bytes: Bytes, c: Cursor, n: nat, variable: bool)
    : (r: (Result<Bytes, KeyError>, Cursor))
    requires c.end <= |bytes|
    ensures r.1.end <= |bytes|
  {
    if c.offset + n > c.end then (Err(UnexpectedEof), c)
    else
      var raw := bytes[c.offset..c.offset + n];
      if !variable then (Ok(raw), Cursor(c.offset + n, c.end))
      else match Unhandled(nulls, raw)
        case Err(e) => (Err(e), c)
        case Ok(value) => (Ok(value), Cursor(c.offset + n + 1, c.end))
  }

  // Decodes fields of the given types one after another.
  function DecodeAll(nulls: NullHandling, bytes: Bytes, c: Cursor, types: seq<Option<nat>>)
    : Result<(seq<Bytes>, Cursor), KeyError>
    requires c.end <= |bytes|
    decreases |types|
  {
    if types == [] then Ok(([], c))
    else match DecodeField(nulls, bytes, c, types[0])
      case (Err(e), _) => Err(e)
      case (Ok(value), c1) =>
        match DecodeAll(nulls, bytes, c1, types[1..])
        case Err(e) => Err(e)
        case Ok((rest, c2)) => Ok(([value] + rest, c2))
  }

  function Types(fs: seq<Field>): seq<Option<nat>> {
    seq(|fs|, i requires 0 <= i < |fs| => fs[i].length)
  }

  function Values(fs: seq<Field>): seq<Bytes> {
    seq(|fs|, i requires 0 <= i < |fs| => fs[i].bytes)
  }

  // ---------------------------------------------------------------- escaping is invertible

  lemma {:induction false} UnescapeEscape(b: Bytes)
    ensures Unescape(Escape(b)) == Some(b)
  {
    if b != [] {
      UnescapeEscape(b[1..]);
      var e := Escape(b);
      assert b == [b[0]] + b[1..];
      if b[0] == 0 {
        assert e[2..] == Escape(b[1..]);
      } else {
        assert e[1..] == Escape(b[1..]);
      }
    }
  }

  lemma {:induction false} EscapeUnescape(e: Bytes)
    requires Unescape(e).Some?
    ensures Escape(Unescape(e).value) == e
    decreases |e|
  {
    if e != [] {
      var b := Unescape(e).value;
      if e[0] != 0 {
        EscapeUnescape(e[1..]);
        assert b[1..] == Unescape(e[1..]).value;
      } else {
        EscapeUnescape(e[2..]);
        assert b[1..] == Unescape(e[2..]).value;
        assert e == [0, 0] + e[2..];
      }
    }
  }

  // `b[i..j]` is a maximal run of null bytes.
  ghost predicate MaximalNulls(b: Bytes, i: nat, j: nat) {
    && i < j <= |b|
    && (forall k :: i <= k < j ==> b[k] == 0)
    && (i == 0 || b[i - 1] != 0)
    && (j == |b| || b[j] != 0)
  }

  ghost predicate EvenRuns(b: Bytes) {
    forall i: nat, j: nat :: MaximalNulls(b, i, j) ==> (j - i) % 2 == 0
  }

  // Number of null bytes at the front.
  function Leading(b: Bytes): (n: nat)
    ensures n <= |b|
    ensures forall k :: 0 <= k < n ==> b[k] == 0
    ensures n < |b| ==> b[n] != 0
  {
    if b == [] || b[0] != 0 then 0 else 1 + Leading(b[1..])
  }

  lemma LeadingPair(b: Bytes)
    requires |b| >= 2 && b[0] == 0 && b[1] == 0
    ensures Leading(b) == 2 + Leading(b[2..])
    ensures b[2..][Leading(b[2..])..] == b[Leading(b)..]
  {
    assert b[1..][1..] == b[2..];
  }

  // Unescaping succeeds iff the nulls at the front are even in number and what follows them can be unescaped.
  ghost predicate EvenFront(b: Bytes) {
    Unescape(b).Some? <==> Leading(b) % 2 == 0 && Unescape(b[Leading(b)..]).Some?
  }

  lemma PairNeedsEvenFront(b: Bytes)
    requires |b| >= 2 && b[0] == 0 && b[1] == 0 && EvenFront(b[2..])
    ensures EvenFront(b)
  {
    LeadingPair(b);
    assert Unescape(b).Some? <==> Unescape(b[2..]).Some?;
  }

  lemma {:induction false} UnescapeNeedsEvenFront(b: Bytes)
    ensures EvenFront(b)
    decreases |b|
  {
    if b == [] || b[0] != 0 {
      assert b[0..] == b;
    } else if |b| >= 2 && b[1] == 0 {
      UnescapeNeedsEvenFront(b[2..]);
      PairNeedsEvenFront(b);
    } else {
      OneNullFront(b);
    }
  }

  lemma OneNullFront(b: Bytes)
    requires b != [] && b[0] == 0 && (|b| == 1 || b[1] != 0)
    ensures Leading(b) == 1 && Unescape(b).None?
  {
    assert Leading(b[1..]) == 0;
  }

  lemma EvenRunsStep(b: Bytes, n: nat)
    requires n <= |b| && (n == 0 || n == |b| || b[n] != 0 || b[n - 1] != 0)
    requires EvenRuns(b)
    ensures EvenRuns(b[n..])
  {
    forall i: nat, j: nat | MaximalNulls(b[n..], i, j) ensures (j - i) % 2 == 0 {
      assert forall k :: n + i <= k < n + j ==> b[k] == b[n..][k - n];
      if i == 0 && n > 0 {
        assert b[n] == b[n..][0] == 0;
      } else if i > 0 {
        assert b[n + i - 1] == b[n..][i - 1];
      }
      assert j < |b[n..]| ==> b[n + j] == b[n..][j];
      assert MaximalNulls(b, n + i, n + j);
    }
  }

  // Unescaping meets an undoubled null byte iff some maximal run of null bytes has odd length.
  lemma {:induction false} UnescapeExactly(b: Bytes)
    ensures Unescape(b).Some? <==> EvenRuns(b)
    decreases |b|
  {
    if b == [] {
      assert EvenRuns(b);
    } else {
      var n := Leading(b);
      UnescapeNeedsEvenFront(b);
      var rest := b[n..];
      if rest != [] {
        UnescapeExactly(rest[1..]);
        assert rest[0] == b[n] != 0;
        assert rest[1..] == b[n + 1..];
      }
      if EvenRuns(b) {
        assert n > 0 ==> MaximalNulls(b, 0, n);
        if rest != [] {
          EvenRunsStep(b, n + 1);
        }
      }
      if n % 2 == 0 && (rest != [] ==> EvenRuns(b[n + 1..])) {
        EvenRunsFromParts(b, n);
      }
    }
  }

  lemma EvenRunsFromParts(b: Bytes, n: nat)
    requires n == Leading(b) && n % 2 == 0
    requires n < |b| ==> EvenRuns(b[n + 1..])
    ensures EvenRuns(b)
  {
    forall i: nat, j: nat | MaximalNulls(b, i, j) ensures (j - i) % 2 == 0 {
      if i <= n {
        FirstRun(b, i, j);
      } else {
        LaterRun(b, n, i, j);
      }
    }
  }

  lemma FirstRun(b: Bytes, i: nat, j: nat)
    requires MaximalNulls(b, i, j) && i <= Leading(b)
    ensures i == 0 && j == Leading(b)
  {
  }

  lemma LaterRun(b: Bytes, n: nat, i: nat, j: nat)
    requires MaximalNulls(b, i, j) && n < i && b[n] != 0
    ensures MaximalNulls(b[n + 1..], i - n - 1, j - n - 1)
  {
    var tail := b[n + 1..];
    assert forall k :: n + 1 <= k < |b| ==> tail[k - n - 1] == b[k];
  }

  lemma HandlingRoundTrip(nulls: NullHandling, b: Bytes)
    requires Handled(nulls, b).Ok?
    ensures Unhandled(nulls, Handled(nulls, b).value) == Ok(b)
  {
    UnescapeEscape(b);
  }

  // ---------------------------------------------------------------- what can be encoded

  // Escaping adds one byte per null byte.
  lemma {:induction false} EscapedSize(b: Bytes)
    ensures |Escape(b)| == |b| + multiset(b)[0]
  {
    if b != [] {
      EscapedSize(b[1..]);
      assert multiset(b) == multiset{b[0]} + multiset(b[1..]) by {
        assert b == [b[0]] + b[1..];
      }
    }
  }

  // A variable field is encodable iff it fits in 65535 bytes, counting null bytes twice when they are escaped, and has
  // no null byte when they are denied. Without escaping it is stored as it is, in front of its delimiter.
  lemma EncodableMeans(nulls: NullHandling, f: Field)
    ensures f.length.Some? ==> Encodable(nulls, f) && FieldBytes(nulls, f) == f.bytes
    ensures f.length.None? && nulls.EscapeNullBytes? ==>
      (Encodable(nulls, f) <==> |f.bytes| + multiset(f.bytes)[0] <= 0xFFFF)
    ensures f.length.None? && nulls.AllowNullBytes? ==> (Encodable(nulls, f) <==> |f.bytes| <= 0xFFFF)
    ensures f.length.None? && nulls.DenyNullBytes? ==> (Encodable(nulls, f) <==> 0 !in f.bytes && |f.bytes| <= 0xFFFF)
    ensures f.length.None? && !nulls.EscapeNullBytes? && Encodable(nulls, f) ==> FieldBytes(nulls, f) == f.bytes + [0]
  {
    EscapedSize(f.bytes);
  }

  // Lengths take one, two or three bytes; only the first of them has its high bit clear.
  lemma LengthShape(n: nat)
    requires n <= 0xFFFF
    ensures
      var e := EncodeLength(n);
      && |e| == (if n < 128 then 1 else if n < 16384 then 2 else 3)
      && e[0] < 128 && forall i :: 1 <= i < |e| ==> e[i] >= 128
  {
  }

  // ---------------------------------------------------------------- the round trip

  lemma ReadLengthEnd(w: Bytes, b: Byte)
    requires b < 128
    ensures ReadLength(w + [b]) == Some((b, 1))
  {
  }

  lemma ReadLengthMore(w: Bytes, b: Byte, n: nat, used: nat)
    requires b >= 128 && ReadLength(w) == Some((n, used))
    ensures ReadLength(w + [b]) == Some((b - 128 + 128 * n, used + 1))
  {
    assert (w + [b])[..|w|] == w;
  }

  lemma LengthRoundTrip(w: Bytes, n: nat)
    requires n <= MAX_LENGTH
    ensures ReadLength(w + EncodeLength(n)) == Some((n, |EncodeLength(n)|))
  {
    var e := EncodeLength(n);
    ReadLengthEnd(w, e[0]);
    if 0x7F < n <= 0x3FFF {
      ReadLengthMore(w + [e[0]], e[1], n / 128, 1);
      assert w + e == w + [e[0]] + [e[1]];
    } else if n > 0x3FFF {
      ReadLengthMore(w + [e[0]], e[1], n / 16384, 1);
      ReadLengthMore(w + [e[0]] + [e[1]], e[2], n / 128, 2);
      assert w + e == w + [e[0]] + [e[1]] + [e[2]];
    }
  }

  // The part of the trailer that belongs to one field.
  function LengthBytes(nulls: NullHandling, f: Field): Bytes
    requires Encodable(nulls, f)
  {
    if f.length.Some? then [] else EncodeLength(|Handled(nulls, f.bytes).value|)
  }

  lemma TrailerStep(nulls: NullHandling, fs: seq<Field>)
    requires fs != [] && AllEncodable(nulls, fs)
    ensures Trailer(Lengths(nulls, fs)) == Trailer(Lengths(nulls, fs[1..])) + LengthBytes(nulls, fs[0])
  {
    var ls := Lengths(nulls, fs);
    if fs[0].length.Some? {
      assert ls == Lengths(nulls, fs[1..]);
    } else {
      assert ls[1..] == Lengths(nulls, fs[1..]);
    }
  }

  lemma Middle(bytes: Bytes, offset: nat, end: nat, a: Bytes, b: Bytes, c: Bytes, from: nat, to: nat)
    requires offset <= end <= |bytes| && bytes[offset..end] == a + b + c
    requires from == offset + |a| && to == end - |c|
    ensures from <= to && bytes[from..to] == b
  {
    var w := bytes[offset..end];
    assert |w| == end - offset;
    assert forall i :: 0 <= i < |b| ==> w[|a| + i] == b[i];
  }

  // Decoding one field moves both cursors past it; what lies between them is left.
  lemma DecodeOne(nulls: NullHandling, bytes: Bytes, c: Cursor, f: Field, between: Bytes) returns (c1: Cursor)
    requires WellSized(f) && Encodable(nulls, f)
    requires c.offset <= c.end <= |bytes|
    requires bytes[c.offset..c.end] == FieldBytes(nulls, f) + between + LengthBytes(nulls, f)
    ensures c1.offset == c.offset + |FieldBytes(nulls, f)|
    ensures c1.offset <= c1.end <= |bytes| && bytes[c1.offset..c1.end] == between
    ensures DecodeField(nulls, bytes, c, f.length) == (Ok(f.bytes), c1)
  {
    var field, length := FieldBytes(nulls, f), LengthBytes(nulls, f);
    assert |field| + |between| + |length| == c.end - c.offset by {
      assert |bytes[c.offset..c.end]| == c.end - c.offset;
    }
    c1 := Cursor(c.offset + |field|, c.end - |length|);
    Middle(bytes, c.offset, c.end, field, between, length, c1.offset, c1.end);
    TakeOne(nulls, bytes, c, f, between);
  }

  lemma SliceFront(bytes: Bytes, from: nat, to: nat, a: Bytes, b: Bytes)
    requires from <= to <= |bytes| && bytes[from..to] == a + b
    ensures from + |a| + |b| == to && bytes[from..from + |a|] == a
  {
    var w := bytes[from..to];
    assert |w| == to - from;
    assert forall i :: 0 <= i < |a| ==> w[i] == a[i];
  }

  lemma TakeFixed(nulls: NullHandling, bytes: Bytes, c: Cursor, value: Bytes, between: Bytes)
    requires c.offset <= c.end <= |bytes| && bytes[c.offset..c.end] == value + between
    ensures DecodeField(nulls, bytes, c, Some(|value|)) == (Ok(value), Cursor(c.offset + |value|, c.end))
  {
    SliceFront(bytes, c.offset, c.end, value, between);
  }

  lemma TakeVariable(nulls: NullHandling, bytes: Bytes, c: Cursor, h: Bytes, value: Bytes, rest: Bytes, length: Bytes)
    requires Unhandled(nulls, h) == Ok(value) && |h| <= MAX_LENGTH && length == EncodeLength(|h|) && rest != []
    requires c.offset <= c.end <= |bytes| && bytes[c.offset..c.end] == h + rest + length
    ensures DecodeField(nulls, bytes, c, None) == (Ok(value), Cursor(c.offset + |h| + 1, c.end - |length|))
  {
    LengthRoundTrip(h + rest, |h|);
    assert ReadLength(bytes[c.offset..c.end]) == Some((|h|, |length|));
    assert h + rest + length == h + (rest + length);
    SliceFront(bytes, c.offset, c.end, h, rest + length);
  }

  lemma TakeDelimited(nulls: NullHandling, bytes: Bytes, c: Cursor, h: Bytes, value: Bytes, between: Bytes)
    requires Unhandled(nulls, h) == Ok(value) && |h| <= MAX_LENGTH
    requires c.offset <= c.end <= |bytes| && bytes[c.offset..c.end] == (h + [0]) + between + EncodeLength(|h|)
    ensures DecodeField(nulls, bytes, c, None) == (Ok(value), Cursor(c.offset + |h| + 1, c.end - |EncodeLength(|h|)|))
  {
    assert (h + [0]) + between == h + ([0] + between);
    TakeVariable(nulls, bytes, c, h, value, [0] + between, EncodeLength(|h|));
  }

  lemma TakeOne(nulls: NullHandling, bytes: Bytes, c: Cursor, f: Field, between: Bytes)
    requires WellSized(f) && Encodable(nulls, f)
    requires c.offset <= c.end <= |bytes|
    requires bytes[c.offset..c.end] == FieldBytes(nulls, f) + between + LengthBytes(nulls, f)
    ensures
      DecodeField(nulls, bytes, c, f.length) ==
        (Ok(f.bytes), Cursor(c.offset + |FieldBytes(nulls, f)|, c.end - |LengthBytes(nulls, f)|))
  {
    if f.length.Some? {
      assert f.bytes + between + [] == f.bytes + between;
      TakeFixed(nulls, bytes, c, f.bytes, between);
    } else {
      HandlingRoundTrip(nulls, f.bytes);
      TakeDelimited(nulls, bytes, c, Handled(nulls, f.bytes).value, f.bytes, between);
    }
  }

  lemma Regroup(f: Bytes, b: Bytes, t: Bytes, l: Bytes)
    ensures (f + b) + (t + l) == f + (b + t) + l
  {
  }

  // The first field and its length are the two ends of an encoding.
  lemma Peel(nulls: NullHandling, fs: seq<Field>)
    requires fs != [] && AllEncodable(nulls, fs)
    ensures Encoded(nulls, fs) == FieldBytes(nulls, fs[0]) + Encoded(nulls, fs[1..]) + LengthBytes(nulls, fs[0])
  {
    TrailerStep(nulls, fs);
    Regroup(FieldBytes(nulls, fs[0]), Body(nulls, fs[1..]), Trailer(Lengths(nulls, fs[1..])),
            LengthBytes(nulls, fs[0]));
  }

  lemma DecodeAllStep(nulls: NullHandling, bytes: Bytes, c: Cursor, types: seq<Option<nat>>,
                      value: Bytes, c1: Cursor, tail: seq<Option<nat>>, rest: seq<Bytes>, c2: Cursor)
    requires c.end <= |bytes| && types != [] && types[1..] == tail
    requires DecodeField(nulls, bytes, c, types[0]) == (Ok(value), c1)
    requires DecodeAll(nulls, bytes, c1, tail) == Ok((rest, c2))
    ensures DecodeAll(nulls, bytes, c, types) == Ok(([value] + rest, c2))
  {
  }

  // Where the cursors are after the first `n` of the fields that start at `offset`.
  function Boundary(nulls: NullHandling, offset: nat, fs: seq<Field>, n: nat): Cursor
    requires AllEncodable(nulls, fs) && n <= |fs|
  {
    Cursor(offset + |Body(nulls, fs[..n])|, offset + |Body(nulls, fs)| + |Trailer(Lengths(nulls, fs[n..]))|)
  }

  lemma BoundaryStep(nulls: NullHandling, offset: nat, fs: seq<Field>, n: nat)
    requires AllEncodable(nulls, fs) && 0 < n <= |fs|
    ensures Boundary(nulls, offset, fs, n) == Boundary(nulls, offset + |FieldBytes(nulls, fs[0])|, fs[1..], n - 1)
  {
    PrefixBody(nulls, fs, n);
  }

  lemma DecodeFromStep(nulls: NullHandling, bytes: Bytes, c: Cursor, c1: Cursor, c2: Cursor, fs: seq<Field>, n: nat)
    requires 0 < n <= |fs| && c.end <= |bytes|
    requires DecodeField(nulls, bytes, c, fs[0].length) == (Ok(fs[0].bytes), c1)
    requires DecodeAll(nulls, bytes, c1, Types(fs[1..][..n - 1])) == Ok((Values(fs[1..][..n - 1]), c2))
    ensures DecodeAll(nulls, bytes, c, Types(fs[..n])) == Ok((Values(fs[..n]), c2))
  {
    PrefixValues(fs, n);
    DecodeAllStep(nulls, bytes, c, Types(fs[..n]), fs[0].bytes, c1, Types(fs[1..][..n - 1]),
                  Values(fs[1..][..n - 1]), c2);
  }

  // Between the cursors lies the encoding of the fields.
  ghost predicate Spells(nulls: NullHandling, bytes: Bytes, c: Cursor, fs: seq<Field>) {
    && AllWellSized(fs) && AllEncodable(nulls, fs)
    && c.offset <= c.end <= |bytes| && bytes[c.offset..c.end] == Encoded(nulls, fs)
  }

  lemma DecodeFirst(nulls: NullHandling, bytes: Bytes, c: Cursor, fs: seq<Field>) returns (c1: Cursor)
    requires fs != [] && Spells(nulls, bytes, c, fs)
    ensures DecodeField(nulls, bytes, c, fs[0].length) == (Ok(fs[0].bytes), c1)
    ensures c1.offset == c.offset + |FieldBytes(nulls, fs[0])|
    ensures Spells(nulls, bytes, c1, fs[1..])
  {
    Peel(nulls, fs);
    c1 := DecodeOne(nulls, bytes, c, fs[0], Encoded(nulls, fs[1..]));
  }

  lemma DecodeNone(nulls: NullHandling, bytes: Bytes, c: Cursor, fs: seq<Field>)
    requires Spells(nulls, bytes, c, fs)
    ensures DecodeAll(nulls, bytes, c, Types(fs[..0])) == Ok((Values(fs[..0]), Boundary(nulls, c.offset, fs, 0)))
  {
    assert fs[0..] == fs;
    assert |bytes[c.offset..c.end]| == c.end - c.offset;
    assert Types(fs[..0]) == [] && Values(fs[..0]) == [];
  }

  // Decoding the first `n` fields yields them and leaves the cursors at the n-th field boundary.
  ghost predicate DecodesUpTo(nulls: NullHandling, bytes: Bytes, c: Cursor, fs: seq<Field>, n: nat)
    requires AllEncodable(nulls, fs) && n <= |fs| && c.end <= |bytes|
  {
    DecodeAll(nulls, bytes, c, Types(fs[..n])) == Ok((Values(fs[..n]), Boundary(nulls, c.offset, fs, n)))
  }

  lemma DecodeOneMore(nulls: NullHandling, bytes: Bytes, c: Cursor, c1: Cursor, fs: seq<Field>, n: nat)
    requires AllEncodable(nulls, fs) && 0 < n <= |fs| && c.end <= |bytes|
    requires DecodeField(nulls, bytes, c, fs[0].length) == (Ok(fs[0].bytes), c1)
    requires c1.offset == c.offset + |FieldBytes(nulls, fs[0])|
    requires DecodesUpTo(nulls, bytes, c1, fs[1..], n - 1)
    ensures DecodesUpTo(nulls, bytes, c, fs, n)
  {
    BoundaryStep(nulls, c.offset, fs, n);
    DecodeFromStep(nulls, bytes, c, c1, Boundary(nulls, c1.offset, fs[1..], n - 1), fs, n);
  }

  lemma {:induction false} DecodeFrom(nulls: NullHandling, bytes: Bytes, c: Cursor, fs: seq<Field>, n: nat)
    requires Spells(nulls, bytes, c, fs) && n <= |fs|
    ensures DecodesUpTo(nulls, bytes, c, fs, n)
    decreases n
  {
    if n == 0 {
      DecodeNone(nulls, bytes, c, fs);
    } else {
      var c1 := DecodeFirst(nulls, bytes, c, fs);
      DecodeFrom(nulls, bytes, c1, fs[1..], n - 1);
      DecodeOneMore(nulls, bytes, c, c1, fs, n);
    }
  }

  lemma PrefixValues(fs: seq<Field>, n: nat)
    requires 0 < n <= |fs|
    ensures Types(fs[..n])[0] == fs[0].length && Types(fs[..n])[1..] == Types(fs[1..][..n - 1])
    ensures Values(fs[..n]) == [fs[0].bytes] + Values(fs[1..][..n - 1])
  {
    assert fs[..n][1..] == fs[1..][..n - 1];
  }

  lemma PrefixBody(nulls: NullHandling, fs: seq<Field>, n: nat)
    requires AllEncodable(nulls, fs) && 0 < n <= |fs|
    ensures Body(nulls, fs[..n]) == FieldBytes(nulls, fs[0]) + Body(nulls, fs[1..][..n - 1])
    ensures fs[1..][n - 1..] == fs[n..]
  {
    assert fs[..n][1..] == fs[1..][..n - 1];
  }

  lemma {:induction false} BodyConcat(nulls: NullHandling, a: seq<Field>, b: seq<Field>)
    requires AllEncodable(nulls, a) && AllEncodable(nulls, b)
    ensures AllEncodable(nulls, a + b) && Body(nulls, a + b) == Body(nulls, a) + Body(nulls, b)
  {
    if a == [] {
      assert a + b == b;
    } else {
      var head, front, back := FieldBytes(nulls, a[0]), Body(nulls, a[1..]), Body(nulls, b);
      assert (a + b)[1..] == a[1..] + b;
      BodyConcat(nulls, a[1..], b);
      assert head + (front + back) == (head + front) + back;
    }
  }

  lemma BodySplit(nulls: NullHandling, fs: seq<Field>, n: nat)
    requires AllEncodable(nulls, fs) && n <= |fs|
    ensures Body(nulls, fs) == Body(nulls, fs[..n]) + Body(nulls, fs[n..])
  {
    assert fs == fs[..n] + fs[n..];
    BodyConcat(nulls, fs[..n], fs[n..]);
  }

  // Decoding what was encoded gives the fields back in order; before every field the cursors have not
  // crossed, and after the last one they meet.
  lemma CodecRoundTrip(nulls: NullHandling, fs: seq<Field>, n: nat)
    requires AllWellSized(fs) && AllEncodable(nulls, fs) && n <= |fs|
    ensures
      var bytes := Encoded(nulls, fs);
      var r := DecodeAll(nulls, bytes, Cursor(0, |bytes|), Types(fs[..n]));
      && r.Ok? && r.value.0 == Values(fs[..n])
      && r.value.1.offset <= r.value.1.end
      && (n == |fs| ==> r.value.1.offset == r.value.1.end)
  {
    var bytes := Encoded(nulls, fs);
    assert bytes[0..|bytes|] == bytes;
    DecodeFrom(nulls, bytes, Cursor(0, |bytes|), fs, n);
    BodySplit(nulls, fs, n);
    assert n == |fs| ==> fs[n..] == [];
  }
}
