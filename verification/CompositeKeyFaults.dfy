/**
 What the decoder makes of keys that do not fit: fields that are shorter than
 their type declares, and bytes the encoder never wrote.
 */
module CompositeKeyFaults {
  import opened ByteStrings
  import opened CompositeKeys

  // What `from_ord_bytes` of a tuple returns: all fields, and nothing left.
  function Decoded(nulls: NullHandling, bytes: Bytes, types: seq<Option<nat>>): Result<seq<Bytes>, KeyError> {
    match DecodeAll(nulls, bytes, Cursor(0, |bytes|), types)
    case Err(e) => Err(e)
    case Ok((values, c)) => if c.offset == c.end then Ok(values) else Err(InvalidData)
  }

  // ---------------------------------------------------------------- fields of the wrong size

  // No fixed field has more bytes than its type declares; it may have fewer, as an absent optional integer does.
  predicate NoneTooLong(fs: seq<Field>) {
    forall i :: 0 <= i < |fs| ==> fs[i].length.Some? ==> |fs[i].bytes| <= fs[i].length.value
  }

  // A length that is cut off has only continuation bytes left.
  lemma {:induction false} ReadLengthCut(w: Bytes)
    requires forall i :: 0 <= i < |w| ==> w[i] >= 128
    ensures ReadLength(w) == None
  {
    if w != [] {
      ReadLengthCut(w[..|w| - 1]);
    }
  }

  // Reading a length from behind other bytes, of which all, some or none lie in the window.
  lemma ReadLengthAtEnd(bytes: Bytes, from: nat, middle: nat, to: nat, n: nat)
    requires middle <= to <= |bytes| && from <= to && n <= MAX_LENGTH
    requires bytes[middle..to] == EncodeLength(n)
    ensures ReadLength(bytes[from..to]) == if from <= middle then Some((n, |EncodeLength(n)|)) else None
  {
    var e := EncodeLength(n);
    if from <= middle {
      assert bytes[from..to] == bytes[from..middle] + e;
      LengthRoundTrip(bytes[from..middle], n);
    } else {
      assert bytes[from..to] == e[from - middle..];
      ReadLengthCut(bytes[from..to]);
    }
  }

  // The lengths of the fields `fs` are all that is left of the trailer, which starts at `base`.
  ghost predicate LengthsLeft(nulls: NullHandling, bytes: Bytes, end: nat, base: nat, fs: seq<Field>)
    requires AllEncodable(nulls, fs)
  {
    base <= end <= |bytes| && bytes[base..end] == Trailer(Lengths(nulls, fs))
  }

  // The front cursor is beyond where the fields `fs` start, or will be because one of them is short.
  ghost predicate Ahead(nulls: NullHandling, offset: nat, base: nat, fs: seq<Field>)
    requires AllEncodable(nulls, fs)
  {
    offset + |Body(nulls, fs)| > base || (offset + |Body(nulls, fs)| == base && !AllWellSized(fs))
  }

  lemma TrailerEnd(bytes: Bytes, base: nat, end: nat, front: Bytes, back: Bytes)
    requires base <= end <= |bytes| && bytes[base..end] == front + back
    ensures base + |front| + |back| == end
    ensures bytes[base..end - |back|] == front && bytes[end - |back|..end] == back
  {
    var w := bytes[base..end];
    assert |w| == end - base;
    assert w[..|front|] == front && w[|front|..] == back;
  }

  // Where the cursors go when the length of the next field is the one that was written for it.
  lemma FieldMoves(nulls: NullHandling, bytes: Bytes, c: Cursor, f: Field, middle: nat)
    requires Encodable(nulls, f) && c.end <= |bytes|
    requires middle + |LengthBytes(nulls, f)| == c.end && bytes[middle..c.end] == LengthBytes(nulls, f)
    requires DecodeField(nulls, bytes, c, f.length).0.Ok?
    ensures DecodeField(nulls, bytes, c, f.length).1 ==
            Cursor(c.offset + if f.length.Some? then f.length.value else |FieldBytes(nulls, f)|, middle)
  {
    if f.length.None? {
      ReadLengthAtEnd(bytes, c.offset, middle, c.end, |Handled(nulls, f.bytes).value|);
    }
  }

  // The lengths stay in step with the fields even when the bytes of the fields do not.
  lemma LengthsStep(nulls: NullHandling, bytes: Bytes, c: Cursor, base: nat, fs: seq<Field>)
    requires AllEncodable(nulls, fs) && fs != []
    requires LengthsLeft(nulls, bytes, c.end, base, fs)
    requires DecodeField(nulls, bytes, c, fs[0].length).0.Ok?
    ensures
      var c1 := DecodeField(nulls, bytes, c, fs[0].length).1;
      && LengthsLeft(nulls, bytes, c1.end, base, fs[1..])
      && c1.offset == c.offset + if fs[0].length.Some? then fs[0].length.value else |FieldBytes(nulls, fs[0])|
  {
    var front, back := Trailer(Lengths(nulls, fs[1..])), LengthBytes(nulls, fs[0]);
    TrailerStep(nulls, fs);
    TrailerEnd(bytes, base, c.end, front, back);
    FieldMoves(nulls, bytes, c, fs[0], c.end - |back|);
  }

  lemma AheadStep(nulls: NullHandling, offset: nat, base: nat, fs: seq<Field>, taken: nat)
    requires AllEncodable(nulls, fs) && NoneTooLong(fs) && fs != []
    requires taken == if fs[0].length.Some? then fs[0].length.value else |FieldBytes(nulls, fs[0])|
    requires Ahead(nulls, offset, base, fs)
    ensures Ahead(nulls, offset + taken, base, fs[1..])
  {
    assert |Body(nulls, fs)| == |FieldBytes(nulls, fs[0])| + |Body(nulls, fs[1..])|;
    if AllWellSized(fs[1..]) && WellSized(fs[0]) {
      WellSizedCons(fs);
    }
  }

  lemma WellSizedCons(fs: seq<Field>)
    requires fs != [] && WellSized(fs[0]) && AllWellSized(fs[1..])
    ensures AllWellSized(fs)
  {
    forall i | 0 <= i < |fs| ensures WellSized(fs[i]) {
      assert i > 0 ==> fs[i] == fs[1..][i - 1];
    }
  }

  lemma {:induction false} AheadStaysAhead(nulls: NullHandling, bytes: Bytes, c: Cursor, base: nat, fs: seq<Field>)
    requires AllEncodable(nulls, fs) && NoneTooLong(fs)
    requires LengthsLeft(nulls, bytes, c.end, base, fs) && Ahead(nulls, c.offset, base, fs)
    ensures
      var r := DecodeAll(nulls, bytes, c, Types(fs));
      r.Ok? ==> r.value.1.offset > r.value.1.end
    decreases |fs|
  {
    if fs != [] {
      assert Types(fs)[1..] == Types(fs[1..]);
      var (r, c1) := DecodeField(nulls, bytes, c, fs[0].length);
      if r.Ok? {
        LengthsStep(nulls, bytes, c, base, fs);
        AheadStep(nulls, c.offset, base, fs, c1.offset - c.offset);
        AheadStaysAhead(nulls, bytes, c1, base, fs[1..]);
      }
    }
  }

  lemma WellSizedDecodes(nulls: NullHandling, fs: seq<Field>)
    requires AllEncodable(nulls, fs) && AllWellSized(fs)
    ensures Decoded(nulls, Encoded(nulls, fs), Types(fs)) == Ok(Values(fs))
  {
    CodecRoundTrip(nulls, fs, |fs|);
    assert fs[..|fs|] == fs;
  }

  lemma TrailerBehindBody(nulls: NullHandling, fs: seq<Field>)
    requires AllEncodable(nulls, fs)
    ensures LengthsLeft(nulls, Encoded(nulls, fs), |Encoded(nulls, fs)|, |Body(nulls, fs)|, fs)
  {
    var body, trailer := Body(nulls, fs), Trailer(Lengths(nulls, fs));
    assert (body + trailer)[|body|..|body + trailer|] == trailer;
  }

  lemma ShortDecodeFails(nulls: NullHandling, fs: seq<Field>)
    requires AllEncodable(nulls, fs) && NoneTooLong(fs) && !AllWellSized(fs)
    ensures Decoded(nulls, Encoded(nulls, fs), Types(fs)).Err?
  {
    var bytes, base := Encoded(nulls, fs), |Body(nulls, fs)|;
    TrailerBehindBody(nulls, fs);
    AheadStaysAhead(nulls, bytes, Cursor(0, |bytes|), base, fs);
  }

  // With fields that are not too long, a key decodes iff every fixed field has exactly the declared length: the
  // decoder never takes a short field's neighbour for its missing bytes without noticing in the end.
  lemma ShortFieldsFail(nulls: NullHandling, fs: seq<Field>)
    requires AllEncodable(nulls, fs) && NoneTooLong(fs)
    ensures Decoded(nulls, Encoded(nulls, fs), Types(fs)).Ok? <==> AllWellSized(fs)
  {
    if AllWellSized(fs) {
      WellSizedDecodes(nulls, fs);
    } else {
      ShortDecodeFails(nulls, fs);
    }
  }

  // A fixed field is decoded to as many bytes as its type declares.
  lemma {:induction false} DecodedSizes(nulls: NullHandling, bytes: Bytes, c: Cursor, types: seq<Option<nat>>, i: nat)
    requires c.end <= |bytes| && i < |types| && types[i].Some?
    requires DecodeAll(nulls, bytes, c, types).Ok?
    ensures
      var values := DecodeAll(nulls, bytes, c, types).value.0;
      |values| == |types| && |values[i]| == types[i].value
    decreases |types|
  {
    var (_, c1) := DecodeField(nulls, bytes, c, types[0]);
    DecodedCount(nulls, bytes, c1, types[1..]);
    if i > 0 {
      DecodedSizes(nulls, bytes, c1, types[1..], i - 1);
    }
  }

  lemma {:induction false} DecodedCount(nulls: NullHandling, bytes: Bytes, c: Cursor, types: seq<Option<nat>>)
    requires c.end <= |bytes| && DecodeAll(nulls, bytes, c, types).Ok?
    ensures |DecodeAll(nulls, bytes, c, types).value.0| == |types|
    decreases |types|
  {
    if types != [] {
      DecodedCount(nulls, bytes, DecodeField(nulls, bytes, c, types[0]).1, types[1..]);
    }
  }

  // A tuple of any fields comes back from its key iff every fixed field has exactly the declared length.
  lemma RoundTripExactly(nulls: NullHandling, fs: seq<Field>)
    requires AllEncodable(nulls, fs)
    ensures Decoded(nulls, Encoded(nulls, fs), Types(fs)) == Ok(Values(fs)) <==> AllWellSized(fs)
  {
    var bytes := Encoded(nulls, fs);
    if AllWellSized(fs) {
      WellSizedDecodes(nulls, fs);
    } else if Decoded(nulls, bytes, Types(fs)) == Ok(Values(fs)) {
      var i :| 0 <= i < |fs| && !WellSized(fs[i]);
      DecodedSizes(nulls, bytes, Cursor(0, |bytes|), Types(fs), i);
    }
  }

  // ---------------------------------------------------------------- cursors that cross

  // A variable field read here leaves no room for its delimiter: it reaches up to the bytes of its own length.
  ghost predicate FillsGap(nulls: NullHandling, bytes: Bytes, c: Cursor) {
    && c.offset <= c.end <= |bytes|
    && var length := ReadLength(bytes[c.offset..c.end]);
    && length.Some? && c.offset + length.value.0 + length.value.1 == c.end
    && (nulls.EscapeNullBytes? ==> EvenRuns(bytes[c.offset..c.offset + length.value.0]))
  }

  // The cursors cross, by one, exactly at a variable field that fills the gap between them.
  lemma CursorsCrossExactly(nulls: NullHandling, bytes: Bytes, c: Cursor, length: Option<nat>)
    requires c.offset <= c.end <= |bytes|
    ensures
      var c' := DecodeField(nulls, bytes, c, length).1;
      && c'.offset <= c'.end + 1
      && (c'.offset > c'.end <==> length.None? && FillsGap(nulls, bytes, c))
  {
    if length.None? {
      VariableCrosses(nulls, bytes, c, ReadLength(bytes[c.offset..c.end]));
    }
  }

  lemma VariableCrosses(nulls: NullHandling, bytes: Bytes, c: Cursor, read: Option<(nat, nat)>)
    requires c.offset <= c.end <= |bytes| && read == ReadLength(bytes[c.offset..c.end])
    ensures
      var c' := DecodeField(nulls, bytes, c, None).1;
      c'.offset <= c'.end + 1 && (c'.offset > c'.end <==> FillsGap(nulls, bytes, c))
  {
    if read.Some? && c.offset + read.value.0 <= c.end - read.value.1 {
      var raw := bytes[c.offset..c.offset + read.value.0];
      assert Unhandled(nulls, raw).Ok? <==> nulls.EscapeNullBytes? ==> EvenRuns(raw) by {
        UnescapeExactly(raw);
      }
    }
  }

  // Behind crossed cursors nothing can be read: a fixed field is out of bytes, a variable one panics.
  lemma CrossedFails(nulls: NullHandling, bytes: Bytes, c: Cursor, types: seq<Option<nat>>)
    requires c.offset > c.end && c.end <= |bytes| && types != []
    ensures DecodeAll(nulls, bytes, c, types) ==
            Err(if types[0].None? then CursorsCrossedPanic else UnexpectedEof)
  {
  }

  // After the first `j` fields the cursors stand where the next variable field fills the gap, and a variable field
  // follows it.
  ghost predicate CrossesAt(nulls: NullHandling, bytes: Bytes, c: Cursor, types: seq<Option<nat>>, j: nat)
    requires c.end <= |bytes|
  {
    && j + 1 < |types| && types[j].None? && types[j + 1].None?
    && var before := DecodeAll(nulls, bytes, c, types[..j]);
       before.Ok? && FillsGap(nulls, bytes, before.value.1)
  }

  lemma CrossesLater(nulls: NullHandling, bytes: Bytes, c: Cursor, types: seq<Option<nat>>, j: nat)
    requires c.end <= |bytes| && 0 < j && types != []
    requires DecodeField(nulls, bytes, c, types[0]).0.Ok?
    ensures CrossesAt(nulls, bytes, c, types, j) <==>
            CrossesAt(nulls, bytes, DecodeField(nulls, bytes, c, types[0]).1, types[1..], j - 1)
  {
    if j < |types| {
      assert types[..j][1..] == types[1..][..j - 1];
    }
  }

  // On arbitrary bytes, decoding panics on crossed cursors iff two variable fields follow one another of which the
  // first fills the gap.
  lemma {:induction false} CrossingPanicsExactly(nulls: NullHandling, bytes: Bytes, c: Cursor, types: seq<Option<nat>>)
    requires c.offset <= c.end <= |bytes|
    ensures DecodeAll(nulls, bytes, c, types) == Err(CursorsCrossedPanic) <==>
            exists j: nat :: CrossesAt(nulls, bytes, c, types, j)
    decreases |types|
  {
    if types != [] {
      var (r, c1) := DecodeField(nulls, bytes, c, types[0]);
      CursorsCrossExactly(nulls, bytes, c, types[0]);
      assert types[..0] == [];
      if r.Err? {
        NothingAfterFailure(nulls, bytes, c, types);
      } else if c1.offset > c1.end {
        CrossesFirst(nulls, bytes, c, types);
      } else {
        CrossingPanicsExactly(nulls, bytes, c1, types[1..]);
        if j: nat :| CrossesAt(nulls, bytes, c, types, j) {
          CrossesLater(nulls, bytes, c, types, j);
        }
        if j: nat :| CrossesAt(nulls, bytes, c1, types[1..], j) {
          CrossesLater(nulls, bytes, c, types, j + 1);
        }
      }
    }
  }

  lemma NothingAfterFailure(nulls: NullHandling, bytes: Bytes, c: Cursor, types: seq<Option<nat>>)
    requires c.offset <= c.end <= |bytes| && types != []
    requires DecodeField(nulls, bytes, c, types[0]).0.Err?
    ensures forall j: nat :: !CrossesAt(nulls, bytes, c, types, j)
  {
    CursorsCrossExactly(nulls, bytes, c, types[0]);
    forall j: nat | j + 1 < |types| ensures !CrossesAt(nulls, bytes, c, types, j) {
      assert j > 0 ==> types[..j][0] == types[0];
    }
  }

  lemma CrossesFirst(nulls: NullHandling, bytes: Bytes, c: Cursor, types: seq<Option<nat>>)
    requires c.offset <= c.end <= |bytes| && types != []
    requires types[0].None? && FillsGap(nulls, bytes, c)
    ensures DecodeAll(nulls, bytes, c, types) == Err(CursorsCrossedPanic) <==> |types| > 1 && types[1].None?
    ensures CrossesAt(nulls, bytes, c, types, 0) <==> |types| > 1 && types[1].None?
    ensures forall j: nat :: j > 0 ==> !CrossesAt(nulls, bytes, c, types, j)
  {
    var c1 := DecodeField(nulls, bytes, c, types[0]).1;
    CursorsCrossExactly(nulls, bytes, c, types[0]);
    assert types[..0] == [];
    if |types| > 1 {
      CrossedFails(nulls, bytes, c1, types[1..]);
    }
    forall j: nat | 0 < j && j + 1 < |types| ensures !CrossesAt(nulls, bytes, c, types, j) {
      var front := types[..j];
      assert front[0] == types[0];
      if j > 1 {
        CrossedFails(nulls, bytes, c1, front[1..]);
        assert DecodeAll(nulls, bytes, c, front).Err?;
      } else {
        assert DecodeField(nulls, bytes, c, front[0]).0.Ok?;
        assert front[1..] == [] && DecodeAll(nulls, bytes, c1, front[1..]) == Ok(([], c1));
        assert DecodeAll(nulls, bytes, c, front).value.1 == c1;
      }
    }
  }

  // The shortest such bytes: one null byte, read as two variable fields.
  lemma CrossingWitness()
    ensures DecodeAll(EscapeNullBytes, [0], Cursor(0, 1), [None, None]) == Err(CursorsCrossedPanic)
  {
    assert [0][0..1] == [0];
    assert ReadLength([0]) == Some((0, 1));
    var types: seq<Option<nat>> := [None, None];
    CrossedFails(EscapeNullBytes, [0], Cursor(1, 0), types[1..]);
  }

  // ---------------------------------------------------------------- null bytes that are not doubled

  // A variable field read here fits, and some run of null bytes in it is odd.
  ghost predicate OddNulls(nulls: NullHandling, bytes: Bytes, c: Cursor) {
    && nulls.EscapeNullBytes? && c.offset <= c.end <= |bytes|
    && var length := ReadLength(bytes[c.offset..c.end]);
    && length.Some? && c.offset + length.value.0 + length.value.1 <= c.end
    && !EvenRuns(bytes[c.offset..c.offset + length.value.0])
  }

  lemma OddNullsExactly(nulls: NullHandling, bytes: Bytes, c: Cursor, length: Option<nat>)
    requires c.end <= |bytes|
    ensures DecodeField(nulls, bytes, c, length).0 == Err(UnescapedNullPanic) <==>
            length.None? && OddNulls(nulls, bytes, c)
  {
    if length.None? && c.offset <= c.end {
      var read := ReadLength(bytes[c.offset..c.end]);
      if read.Some? && c.offset + read.value.0 <= c.end - read.value.1 {
        UnescapeExactly(bytes[c.offset..c.offset + read.value.0]);
      }
    }
  }

  // After the first `j` fields comes a variable one with an odd run of null bytes.
  ghost predicate OddNullsAt(nulls: NullHandling, bytes: Bytes, c: Cursor, types: seq<Option<nat>>, j: nat)
    requires c.end <= |bytes|
  {
    && j < |types| && types[j].None?
    && var before := DecodeAll(nulls, bytes, c, types[..j]);
       before.Ok? && OddNulls(nulls, bytes, before.value.1)
  }

  lemma OddNullsLater(nulls: NullHandling, bytes: Bytes, c: Cursor, types: seq<Option<nat>>, j: nat)
    requires c.end <= |bytes| && 0 < j && types != []
    ensures OddNullsAt(nulls, bytes, c, types, j) <==>
            && DecodeField(nulls, bytes, c, types[0]).0.Ok?
            && OddNullsAt(nulls, bytes, DecodeField(nulls, bytes, c, types[0]).1, types[1..], j - 1)
  {
    if j < |types| {
      assert types[..j][0] == types[0] && types[..j][1..] == types[1..][..j - 1];
    }
  }

  // On arbitrary bytes, decoding stops at an undoubled null byte iff some variable field that fits, behind fields that
  // decode, holds an odd run of null bytes.
  lemma {:induction false} UnescapingPanicsExactly(nulls: NullHandling, bytes: Bytes, c: Cursor,
                                                   types: seq<Option<nat>>)
    requires c.end <= |bytes|
    ensures DecodeAll(nulls, bytes, c, types) == Err(UnescapedNullPanic) <==>
            exists j: nat :: OddNullsAt(nulls, bytes, c, types, j)
    decreases |types|
  {
    if types != [] {
      var (r, c1) := DecodeField(nulls, bytes, c, types[0]);
      OddNullsExactly(nulls, bytes, c, types[0]);
      assert types[..0] == [];
      assert OddNullsAt(nulls, bytes, c, types, 0) <==> r == Err(UnescapedNullPanic);
      if r.Ok? {
        UnescapingPanicsExactly(nulls, bytes, c1, types[1..]);
        if j: nat :| OddNullsAt(nulls, bytes, c1, types[1..], j) {
          OddNullsLater(nulls, bytes, c, types, j + 1);
        }
      }
      if j: nat :| OddNullsAt(nulls, bytes, c, types, j) && j > 0 {
        OddNullsLater(nulls, bytes, c, types, j);
      }
    }
  }

  // A field of one null byte, followed by a delimiter and its length.
  lemma UnescapingWitness()
    ensures DecodeAll(EscapeNullBytes, [0, 0, 1], Cursor(0, 3), [None]) == Err(UnescapedNullPanic)
  {
    var bytes: Bytes := [0, 0, 1];
    assert bytes[0..3] == bytes && ReadLength(bytes) == Some((1, 1));
    assert bytes[0..1] == [0] && Unescape([0]) == None;
  }

  // An absent optional integer of four bytes encodes to one byte instead of five.
  lemma ShortFieldWitness()
    ensures Decoded(EscapeNullBytes, Encoded(EscapeNullBytes, [Field(Some(5), [0])]), [Some(5)]).Err?
  {
    var fs := [Field(Some(5), [0])];
    assert Types(fs) == [Some(5)];
    assert !WellSized(fs[0]);
    ShortFieldsFail(EscapeNullBytes, fs);
  }

  // ---------------------------------------------------------------- running out of bytes, and bytes left over

  // A field is out of bytes iff it does not fit between the cursors, or its length cannot be read.
  lemma EndOfInputExactly(nulls: NullHandling, bytes: Bytes, c: Cursor, length: Option<nat>)
    requires c.end <= |bytes|
    ensures DecodeField(nulls, bytes, c, length).0 == Err(UnexpectedEof) <==>
      match length
      case Some(n) => c.offset + n > c.end
      case None =>
        && c.offset <= c.end
        && var read := ReadLength(bytes[c.offset..c.end]);
           read.None? || c.offset + read.value.0 + read.value.1 > c.end
  {
  }

  // The bytes fixed fields take together.
  function Size(types: seq<Option<nat>>): nat
    requires forall i :: 0 <= i < |types| ==> types[i].Some?
  {
    if types == [] then 0 else types[0].value + Size(types[1..])
  }

  function Joined(values: seq<Bytes>): Bytes {
    if values == [] then [] else values[0] + Joined(values[1..])
  }

  lemma {:induction false} FixedFrom(nulls: NullHandling, bytes: Bytes, c: Cursor, types: seq<Option<nat>>)
    requires c.offset <= c.end <= |bytes| && forall i :: 0 <= i < |types| ==> types[i].Some?
    ensures
      var r, to := DecodeAll(nulls, bytes, c, types), c.offset + Size(types);
      if to > c.end then r == Err(UnexpectedEof)
      else r.Ok? && r.value.1 == Cursor(to, c.end) && Joined(r.value.0) == bytes[c.offset..to]
    decreases |types|
  {
    if types != [] {
      var n := types[0].value;
      if c.offset + n <= c.end {
        var c1 := Cursor(c.offset + n, c.end);
        FixedFrom(nulls, bytes, c1, types[1..]);
        if c1.offset + Size(types[1..]) <= c.end {
          var to := c.offset + Size(types);
          assert bytes[c.offset..c1.offset] + bytes[c1.offset..to] == bytes[c.offset..to];
          var rest := DecodeAll(nulls, bytes, c1, types[1..]).value.0;
          assert ([bytes[c.offset..c1.offset]] + rest)[1..] == rest;
        }
      }
    }
  }

  // Bytes decode to a tuple of fixed fields iff there are exactly as many as the fields take; then the fields are the
  // bytes, one after another. Fewer are an end of input, more are invalid data.
  lemma FixedTuplesExactly(nulls: NullHandling, bytes: Bytes, types: seq<Option<nat>>)
    requires forall i :: 0 <= i < |types| ==> types[i].Some?
    ensures
      var r := Decoded(nulls, bytes, types);
      && (r.Ok? <==> |bytes| == Size(types))
      && (r.Ok? ==> Joined(r.value) == bytes && |r.value| == |types| &&
                    forall i :: 0 <= i < |types| ==> |r.value[i]| == types[i].value)
      && (r == Err(UnexpectedEof) <==> |bytes| < Size(types))
      && (r == Err(InvalidData) <==> |bytes| > Size(types))
  {
    var start := Cursor(0, |bytes|);
    FixedFrom(nulls, bytes, start, types);
    assert bytes[0..|bytes|] == bytes;
    if DecodeAll(nulls, bytes, start, types).Ok? {
      DecodedCount(nulls, bytes, start, types);
      forall i | 0 <= i < |types| ensures |DecodeAll(nulls, bytes, start, types).value.0[i]| == types[i].value {
        DecodedSizes(nulls, bytes, start, types, i);
      }
    }
  }
}
