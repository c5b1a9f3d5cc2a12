/** `CompositeKeyEncoder` and `CompositeKeyDecoder`, proved against module `CompositeKeys`. */
module CompositeKeyCodec {
  import opened ByteStrings
  import opened CompositeKeys
  import opened CompositeKeyFaults

  // ---------------------------------------------------------------- null handlers

  // The escaping loop of `handle_nulls`.
  method EscapeBytes(unescaped: Bytes) returns (r: Bytes)
    ensures r == Escape(unescaped)
  {
    if 0 !in unescaped {
      NothingToEscape(unescaped);
      return unescaped;
    }
    r := [];
    for i := 0 to |unescaped|
      invariant r == Escape(unescaped[..i])
    {
      EscapeSnoc(unescaped[..i], unescaped[i]);
      assert unescaped[..i + 1] == unescaped[..i] + [unescaped[i]];
      if unescaped[i] == 0 {
        r := r + [0, 0];
      } else {
        r := r + [unescaped[i]];
      }
    }
    assert unescaped[..|unescaped|] == unescaped;
  }

  lemma {:induction false} EscapeSnoc(a: Bytes, x: Byte)
    ensures Escape(a + [x]) == Escape(a) + if x == 0 then [0, 0] else [x]
  {
    if a != [] {
      assert (a + [x])[1..] == a[1..] + [x];
      EscapeSnoc(a[1..], x);
    }
  }

  // `handle_nulls` of the three policies.
  method HandleNulls(nulls: NullHandling, encoded: Bytes) returns (r: Result<Bytes, KeyError>)
    ensures r == Handled(nulls, encoded)
    ensures nulls.AllowNullBytes? ==> r == Ok(encoded)
    ensures nulls.DenyNullBytes? ==> r == if 0 in encoded then Err(FieldContainsNullByte) else Ok(encoded)
    ensures nulls.EscapeNullBytes? ==> r.Ok? && |r.value| == |encoded| + multiset(encoded)[0]
  {
    match nulls {
      case EscapeNullBytes =>
        var escaped := EscapeBytes(encoded);
        EscapedSize(encoded);
        r := Ok(escaped);
      case AllowNullBytes => r := Ok(encoded);
      case DenyNullBytes => r := if 0 in encoded then Err(FieldContainsNullByte) else Ok(encoded);
    }
  }

  lemma {:induction false} NothingToEscape(b: Bytes)
    requires 0 !in b
    ensures Escape(b) == b && Unescape(b) == Some(b)
  {
    if b != [] {
      NothingToEscape(b[1..]);
    }
  }

  // The index of the first null byte at or after `start`.
  method FindNull(b: Bytes, start: nat) returns (r: Option<nat>)
    requires start <= |b|
    ensures r.None? ==> 0 !in b[start..]
    ensures r.Some? ==> start <= r.value < |b| && b[r.value] == 0 && 0 !in b[start..r.value]
  {
    for i := start to |b|
      invariant 0 !in b[start..i]
    {
      if b[i] == 0 {
        return Some(i);
      }
    }
    r := None;
  }

  lemma {:induction false} UnescapeSkips(a: Bytes, b: Bytes)
    requires 0 !in a
    ensures Unescape(a + b) == match Unescape(b) case None => None case Some(rest) => Some(a + rest)
  {
    if a == [] {
      assert a + b == b;
      assert Unescape(b).Some? ==> [] + Unescape(b).value == Unescape(b).value;
    } else {
      assert (a + b)[1..] == a[1..] + b;
      UnescapeSkips(a[1..], b);
      if Unescape(b).Some? {
        assert [a[0]] + (a[1..] + Unescape(b).value) == a + Unescape(b).value;
      }
    }
  }

  // The bytes before `index` are final; the rest is still escaped.
  ghost predicate Resumes(encoded: Bytes, bytes: Bytes, index: nat)
  {
    && index <= |bytes|
    && Unescape(encoded) ==
         match Unescape(bytes[index..])
         case None => None
         case Some(rest) => Some(bytes[..index] + rest)
  }

  lemma ResumesAt(encoded: Bytes, bytes: Bytes, index: nat, next: nat)
    requires Resumes(encoded, bytes, index)
    requires index <= next <= |bytes| && 0 !in bytes[index..next]
    ensures Resumes(encoded, bytes, next)
  {
    assert bytes[index..] == bytes[index..next] + bytes[next..];
    UnescapeSkips(bytes[index..next], bytes[next..]);
    if Unescape(bytes[next..]).Some? {
      var rest := Unescape(bytes[next..]).value;
      assert bytes[..index] + (bytes[index..next] + rest) == bytes[..next] + rest;
    }
  }

  // Removing one of two null bytes in place resumes after the one that stays.
  lemma RemoveResumes(encoded: Bytes, bytes: Bytes, index: nat, removed: Bytes)
    requires Resumes(encoded, bytes, index)
    requires index + 1 < |bytes| && bytes[index] == 0 && bytes[index + 1] == 0
    requires removed == bytes[..index] + bytes[index + 1..]
    ensures Resumes(encoded, removed, index + 1)
  {
    assert bytes[index..][2..] == bytes[index + 2..] == removed[index + 1..];
    if Unescape(removed[index + 1..]).Some? {
      var rest := Unescape(removed[index + 1..]).value;
      assert removed[..index + 1] == bytes[..index] + [0];
      assert bytes[..index] + ([0] + rest) == removed[..index + 1] + rest;
    }
  }

  // `decode_nulls_if_needed`: removes every second null byte of a pair in place. The source stops with
  // `todo!` at a null byte that is not doubled.
  method UnescapeInPlace(encoded: Bytes) returns (r: Option<Bytes>)
    ensures r == Unescape(encoded)
  {
    var found := FindNull(encoded, 0);
    if found.None? {
      assert encoded[0..] == encoded;
      NothingToEscape(encoded);
      return Some(encoded);
    }
    var bytes := encoded;
    var index: nat := found.value;
    assert Resumes(encoded, bytes, 0) by {
      assert encoded[0..] == encoded && encoded[..0] == [];
      assert Unescape(encoded).Some? ==> [] + Unescape(encoded).value == Unescape(encoded).value;
    }
    ResumesAt(encoded, bytes, 0, index);
    while true
      invariant index < |bytes| && bytes[index] == 0
      invariant Resumes(encoded, bytes, index)
      decreases |bytes|
    {
      var next := index + 1;
      if next < |bytes| && bytes[next] == 0 {
        var removed := bytes[..index] + bytes[index + 1..];
        RemoveResumes(encoded, bytes, index, removed);
        bytes := removed;
        index := next;
      } else {
        assert |bytes[index..]| >= 2 ==> bytes[index..][1] == bytes[next];
        assert Unescape(bytes[index..]).None?;
        return None;
      }
      var again := FindNull(bytes, index);
      if again.None? {
        ResumesAt(encoded, bytes, index, |bytes|);
        assert bytes[|bytes|..] == [] && bytes[..|bytes|] + [] == bytes;
        return Some(bytes);
      }
      ResumesAt(encoded, bytes, index, again.value);
      index := again.value;
    }
  }

  // ---------------------------------------------------------------- encoder

  // The bytes a field is stored with: its null bytes handled, if it is variable and not too long.
  method PrepareField(nulls: NullHandling, f: Field) returns (r: Result<Bytes, KeyError>)
    ensures r.Ok? <==> Encodable(nulls, f)
    ensures r.Ok? ==> r.value == if f.length.Some? then f.bytes else Handled(nulls, f.bytes).value
    ensures r == Err(FieldContainsNullByte) <==> f.length.None? && nulls.DenyNullBytes? && 0 in f.bytes
    ensures r.Err? ==> r.error == FieldContainsNullByte || r.error == FieldTooLong
  {
    if f.length.Some? {
      return Ok(f.bytes);
    }
    var handled := HandleNulls(nulls, f.bytes);
    if handled.Ok? && |handled.value| > MAX_LENGTH {
      return Err(FieldTooLong);
    }
    r := handled;
  }

  class CompositeKeyEncoder {
    const nulls: NullHandling
    var bytes: Bytes
    var encodedLengths: seq<nat>
    // The fields encoded so far.
    ghost var fields: seq<Field>

    ghost predicate Valid()
      reads this
    {
      AllEncodable(nulls, fields) && bytes == Body(nulls, fields) && encodedLengths == Lengths(nulls, fields)
    }

    constructor (nulls: NullHandling)
      ensures Valid() && fields == [] && this.nulls == nulls
    {
      this.nulls := nulls;
      bytes, encodedLengths, fields := [], [], [];
    }

    // A field that cannot be encoded leaves the encoder as it was.
    method Encode(f: Field) returns (r: Result<(), KeyError>)
      requires Valid()
      modifies this
      ensures Valid()
      ensures r.Ok? <==> Encodable(nulls, f)
      ensures r.Ok? ==> fields == old(fields) + [f]
      ensures r.Err? ==> unchanged(this)
      ensures r == Err(FieldContainsNullByte) <==> f.length.None? && nulls.DenyNullBytes? && 0 in f.bytes
      ensures r.Err? ==> r.error == FieldContainsNullByte || r.error == FieldTooLong
    {
      var prepared := PrepareField(nulls, f);
      if prepared.Err? {
        return Err(prepared.error);
      }
      var encoded := prepared.value;
      if f.length.None? {
        encodedLengths := encodedLengths + [|encoded|];
      }
      bytes := bytes + encoded;
      if f.length.None? {
        // The delimiter makes "a" sort before "aa".
        assert bytes + [0] == old(bytes) + (encoded + [0]);
        bytes := bytes + [0];
      }
      BodySnoc(nulls, fields, f);
      LengthsSnoc(nulls, fields, f);
      fields := fields + [f];
      r := Ok(());
    }

    // Appends the lengths, the last field's first.
    method Finish() returns (r: Bytes)
      requires Valid()
      ensures r == Encoded(nulls, fields)
    {
      r := bytes;
      var i := |encodedLengths|;
      while i > 0
        invariant 0 <= i <= |encodedLengths|
        invariant r == bytes + Trailer(encodedLengths[i..])
      {
        i := i - 1;
        var length := encodedLengths[i];
        assert encodedLengths[i..][1..] == encodedLengths[i + 1..];
        var encoded := PushLength(r, length);
        assert r + EncodeLength(length) == bytes + (Trailer(encodedLengths[i + 1..]) + EncodeLength(length));
        r := encoded;
      }
      assert encodedLengths[0..] == encodedLengths;
    }
  }

  // Shifts and masks of the source, on numbers: `>> 7` divides by 128 and `| 0x80` adds 128.
  method PushLength(bytes: Bytes, length: nat) returns (r: Bytes)
    requires length <= MAX_LENGTH
    ensures r == bytes + EncodeLength(length)
  {
    if length <= 0x7F {
      r := bytes + [length];
    } else if length <= 0x3FFF {
      r := bytes + [length / 128] + [length % 128 + 128];
    } else {
      r := bytes + [length / 16384] + [length / 128 % 128 + 128] + [length % 128 + 128];
    }
  }

  lemma BodySnoc(nulls: NullHandling, fs: seq<Field>, f: Field)
    requires AllEncodable(nulls, fs) && Encodable(nulls, f)
    ensures AllEncodable(nulls, fs + [f])
    ensures Body(nulls, fs + [f]) == Body(nulls, fs) + FieldBytes(nulls, f)
  {
    BodyConcat(nulls, fs, [f]);
    assert [f][1..] == [];
  }

  lemma {:induction false} LengthsSnoc(nulls: NullHandling, fs: seq<Field>, f: Field)
    requires AllEncodable(nulls, fs) && Encodable(nulls, f)
    ensures AllEncodable(nulls, fs + [f])
    ensures Lengths(nulls, fs + [f]) ==
      Lengths(nulls, fs) + if f.length.Some? then [] else [|Handled(nulls, f.bytes).value|]
  {
    if fs == [] {
      assert fs + [f] == [f] && [f][1..] == [];
    } else {
      assert (fs + [f])[1..] == fs[1..] + [f];
      LengthsSnoc(nulls, fs[1..], f);
    }
  }

  // ---------------------------------------------------------------- decoder

  function Pow128(i: nat): (p: nat)
    ensures p >= 1
  {
    if i == 0 then 1 else 128 * Pow128(i - 1)
  }

  // The loop that reads a length from the tail.
  method ReadLengthBackwards(window: Bytes) returns (r: Option<(nat, nat)>)
    ensures r == ReadLength(window)
  {
    var length: nat, scale := 0, 1;
    assert window[..|window|] == window;
    for index := 0 to |window|
      invariant scale == Pow128(index)
      invariant ReadLength(window) ==
        match ReadLength(window[..|window| - index])
        case None => None
        case Some((n, used)) => Some((length + scale * n, used + index))
    {
      var byte := window[|window| - 1 - index];
      assert window[..|window| - index][..|window| - index - 1] == window[..|window| - index - 1];
      if byte < 128 {
        return Some((length + scale * byte, index + 1));
      }
      ghost var more := ReadLength(window[..|window| - index - 1]);
      if more.Some? {
        Distribute(scale, byte - 128, more.value.0);
      }
      length := length + scale * (byte - 128);
      scale := 128 * scale;
    }
    r := None;
  }

  lemma Distribute(scale: nat, a: int, n: nat)
    ensures scale * (a + 128 * n) == scale * a + 128 * scale * n
  {
  }

  class CompositeKeyDecoder {
    const nulls: NullHandling
    const bytes: Bytes
    var offset: nat
    var end: nat

    ghost predicate Valid()
      reads this
    {
      end <= |bytes|
    }

    constructor (nulls: NullHandling, bytes: Bytes)
      ensures Valid() && this.nulls == nulls && this.bytes == bytes && offset == 0 && end == |bytes|
    {
      this.nulls := nulls;
      this.bytes := bytes;
      offset := 0;
      end := |bytes|;
    }

    // Decodes one field of a type with the given constant length, if any. Slicing from an offset beyond the end
    // is a panic in the source.
    method Decode(length: Option<nat>) returns (r: Result<Bytes, KeyError>)
      requires Valid()
      modifies this
      ensures Valid()
      ensures (r, Cursor(offset, end)) == DecodeField(nulls, bytes, Cursor(old(offset), old(end)), length)
    {
      var n: nat;
      if length.Some? {
        n := length.value;
      } else {
        if offset > end {
          return Err(CursorsCrossedPanic);
        }
        var read := ReadLengthBackwards(bytes[offset..end]);
        if read.None? {
          return Err(UnexpectedEof);
        }
        end := end - read.value.1;
        n := read.value.0;
      }
      var stop := offset + n;
      if stop > end {
        return Err(UnexpectedEof);
      }
      var field := bytes[offset..stop];
      if length.None? && nulls.EscapeNullBytes? {
        var raw := UnescapeInPlace(field);
        if raw.None? {
          return Err(UnescapedNullPanic);
        }
        field := raw.value;
      }
      offset := stop;
      if length.None? {
        offset := offset + 1;
      }
      r := Ok(field);
    }

    method Finish() returns (r: Result<(), KeyError>)
      ensures r.Ok? <==> offset == end
    {
      r := if offset == end then Ok(()) else Err(InvalidData);
    }
  }

  // ---------------------------------------------------------------- tuples

  // `as_ord_bytes` of a tuple.
  method EncodeTuple(nulls: NullHandling, fields: seq<Field>) returns (r: Result<Bytes, KeyError>)
    ensures r.Ok? <==> AllEncodable(nulls, fields)
    ensures r.Ok? ==> r.value == Encoded(nulls, fields)
  {
    var encoder := new CompositeKeyEncoder(nulls);
    for i := 0 to |fields|
      invariant fresh(encoder) && encoder.Valid() && encoder.nulls == nulls && encoder.fields == fields[..i]
    {
      var encoded := encoder.Encode(fields[i]);
      if encoded.Err? {
        return Err(encoded.error);
      }
      assert fields[..i + 1] == fields[..i] + [fields[i]];
    }
    assert fields[..|fields|] == fields;
    var bytes := encoder.Finish();
    r := Ok(bytes);
  }

  // `from_ord_bytes` of a tuple: decodes every field and insists that nothing is left.
  method DecodeTuple(nulls: NullHandling, bytes: Bytes, types: seq<Option<nat>>)
    returns (r: Result<seq<Bytes>, KeyError>)
    ensures r == Decoded(nulls, bytes, types)
    ensures r == Err(CursorsCrossedPanic) <==> exists j: nat :: CrossesAt(nulls, bytes, Cursor(0, |bytes|), types, j)
    ensures r == Err(UnescapedNullPanic) <==> exists j: nat :: OddNullsAt(nulls, bytes, Cursor(0, |bytes|), types, j)
  {
    CrossingPanicsExactly(nulls, bytes, Cursor(0, |bytes|), types);
    UnescapingPanicsExactly(nulls, bytes, Cursor(0, |bytes|), types);
    var decoder := new CompositeKeyDecoder(nulls, bytes);
    var values: seq<Bytes> := [];
    ghost var start := Cursor(0, |bytes|);
    for i := 0 to |types|
      invariant fresh(decoder) && decoder.Valid() && decoder.nulls == nulls && decoder.bytes == bytes
      invariant DecodeAll(nulls, bytes, start, types[..i]) == Ok((values, Cursor(decoder.offset, decoder.end)))
    {
      DecodeSnoc(nulls, bytes, start, types[..i], types[i]);
      assert types[..i + 1] == types[..i] + [types[i]];
      var value := decoder.Decode(types[i]);
      if value.Err? {
        DecodeFailure(nulls, bytes, start, types, i + 1);
        return Err(value.error);
      }
      values := values + [value.value];
    }
    assert types[..|types|] == types;
    var finished := decoder.Finish();
    r := if finished.Ok? then Ok(values) else Err(InvalidData);
  }

  // Encoding a tuple and decoding it by the same types gives it back iff every field is encodable and every fixed
  // field has its declared length. With a field that is too short there is no result at all.
  method RoundTripTuple(nulls: NullHandling, fields: seq<Field>) returns (r: Result<seq<Bytes>, KeyError>)
    ensures r == Ok(Values(fields)) <==> AllEncodable(nulls, fields) && AllWellSized(fields)
    ensures NoneTooLong(fields) ==> (r.Ok? <==> AllEncodable(nulls, fields) && AllWellSized(fields))
  {
    var encoded := EncodeTuple(nulls, fields);
    if encoded.Err? {
      return Err(encoded.error);
    }
    r := DecodeTuple(nulls, encoded.value, Types(fields));
    RoundTripExactly(nulls, fields);
    if NoneTooLong(fields) {
      ShortFieldsFail(nulls, fields);
    }
  }

  lemma {:induction false} DecodeFailure(nulls: NullHandling, bytes: Bytes, c: Cursor, types: seq<Option<nat>>, n: nat)
    requires c.end <= |bytes| && n <= |types|
    requires DecodeAll(nulls, bytes, c, types[..n]).Err?
    ensures DecodeAll(nulls, bytes, c, types) == DecodeAll(nulls, bytes, c, types[..n])
    decreases n
  {
    if n > 0 && DecodeField(nulls, bytes, c, types[0]).0.Ok? {
      assert types[..n][1..] == types[1..][..n - 1];
      DecodeFailure(nulls, bytes, DecodeField(nulls, bytes, c, types[0]).1, types[1..], n - 1);
    }
  }

  lemma {:induction false} DecodeSnoc(nulls: NullHandling, bytes: Bytes, c: Cursor, types: seq<Option<nat>>,
                                      last: Option<nat>)
    requires c.end <= |bytes|
    requires DecodeAll(nulls, bytes, c, types).Ok?
    ensures
      var (values, c1) := DecodeAll(nulls, bytes, c, types).value;
      c1.end <= |bytes| &&
      DecodeAll(nulls, bytes, c, types + [last]) ==
        match DecodeField(nulls, bytes, c1, last)
        case (Err(e), _) => Err(e)
        case (Ok(value), c2) => Ok((values + [value], c2))
    decreases |types|
  {
    if types == [] {
      assert types + [last] == [last] && [last][1..] == [];
      var (field, c1) := DecodeField(nulls, bytes, c, last);
      assert DecodeAll(nulls, bytes, c1, []) == Ok(([], c1));
      assert field.Ok? ==> [field.value] + [] == [] + [field.value];
    } else {
      var c1 := DecodeField(nulls, bytes, c, types[0]).1;
      assert (types + [last])[1..] == types[1..] + [last];
      DecodeSnoc(nulls, bytes, c1, types[1..], last);
      var first := DecodeField(nulls, bytes, c, types[0]).0.value;
      var rest := DecodeAll(nulls, bytes, c1, types[1..]).value.0;
      forall x: Bytes ensures [first] + (rest + [x]) == ([first] + rest) + [x] {
      }
    }
  }
}
