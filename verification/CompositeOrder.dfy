/** How composite keys sort. */
module CompositeOrder {
  import opened ByteStrings
  import opened CompositeKeys

  // `b` is `a` followed by a null byte and anything.
  predicate NullExtends(a: Bytes, b: Bytes) {
    a < b && b[|a|] == 0
  }

  // Two tuples of the same type, encodable, that agree up to field `k` and differ in it.
  ghost predicate FirstDifference(nulls: NullHandling, f: seq<Field>, g: seq<Field>, k: nat) {
    && AllEncodable(nulls, f) && AllEncodable(nulls, g)
    && AllWellSized(f) && AllWellSized(g)
    && |f| == |g| && Types(f) == Types(g)
    && k < |f| && f[..k] == g[..k] && f[k].bytes != g[k].bytes
  }

  // Tuples compare field by field, a field by its ordered bytes.
  predicate TupleLess(f: seq<Field>, g: seq<Field>)
    requires |f| == |g|
  {
    f != [] && (Less(f[0].bytes, g[0].bytes) || (f[0].bytes == g[0].bytes && TupleLess(f[1..], g[1..])))
  }

  lemma {:induction false} TupleLessAt(f: seq<Field>, g: seq<Field>, k: nat)
    requires |f| == |g| && k < |f| && f[..k] == g[..k] && f[k].bytes != g[k].bytes
    ensures TupleLess(f, g) <==> Less(f[k].bytes, g[k].bytes)
    decreases k
  {
    if k > 0 {
      assert f[0] == f[..k][0] && g[0] == g[..k][0];
      assert f[1..][..k - 1] == f[..k][1..] && g[1..][..k - 1] == g[..k][1..];
      TupleLessAt(f[1..], g[1..], k - 1);
      LessIrreflexive(f[0].bytes);
    }
  }

  // Everything after field `k`: the later fields and the trailer.
  function Rest(nulls: NullHandling, f: seq<Field>, k: nat): Bytes
    requires AllEncodable(nulls, f) && k < |f|
  {
    Body(nulls, f[k + 1..]) + Trailer(Lengths(nulls, f))
  }

  lemma EncodedAt(nulls: NullHandling, f: seq<Field>, k: nat)
    requires AllEncodable(nulls, f) && k < |f|
    ensures Body(nulls, f) == Body(nulls, f[..k]) + (FieldBytes(nulls, f[k]) + Body(nulls, f[k + 1..]))
    ensures Encoded(nulls, f) == Body(nulls, f[..k]) + (FieldBytes(nulls, f[k]) + Rest(nulls, f, k))
  {
    BodySplit(nulls, f, k);
    assert f[k..][0] == f[k] && f[k..][1..] == f[k + 1..];
    Associate(Body(nulls, f[..k]), FieldBytes(nulls, f[k]), Body(nulls, f[k + 1..]), Trailer(Lengths(nulls, f)));
  }

  lemma Associate(a: Bytes, b: Bytes, c: Bytes, d: Bytes)
    ensures (a + (b + c)) + d == a + (b + (c + d))
  {
  }

  // ---------------------------------------------------------------- escaping and order

  lemma {:induction false} EscapeConcat(a: Bytes, b: Bytes)
    ensures Escape(a + b) == Escape(a) + Escape(b)
  {
    if a == [] {
      assert a + b == b;
    } else {
      assert (a + b)[1..] == a[1..] + b;
      EscapeConcat(a[1..], b);
    }
  }

  lemma EscapeFront(b: Bytes)
    requires b != []
    ensures Escape(b) != [] && Escape(b)[0] == b[0]
  {
  }

  // Handling null bytes preserves a settled order.
  lemma HandledSettled(nulls: NullHandling, a: Bytes, b: Bytes)
    requires Handled(nulls, a).Ok? && Handled(nulls, b).Ok?
    requires SettledLess(a, b)
    ensures SettledLess(Handled(nulls, a).value, Handled(nulls, b).value)
  {
    if nulls.EscapeNullBytes? {
      var i: nat :| DivergeAt(a, b, i) && a[i] < b[i];
      EscapeConcat(a[..i], a[i..]);
      EscapeConcat(b[..i], b[i..]);
      assert a == a[..i] + a[i..] && b == b[..i] + b[i..];
      EscapeFront(a[i..]);
      EscapeFront(b[i..]);
      assert DivergeAt(Escape(a[i..]), Escape(b[i..]), 0);
      SettledUnderPrefix(Escape(a[..i]), Escape(a[i..]), Escape(b[i..]));
    }
  }

  // Handling null bytes maps a proper prefix to a proper prefix, followed by the same byte.
  lemma HandledPrefix(nulls: NullHandling, a: Bytes, b: Bytes)
    requires Handled(nulls, a).Ok? && Handled(nulls, b).Ok?
    requires a < b
    ensures Handled(nulls, a).value < Handled(nulls, b).value
    ensures Handled(nulls, b).value[|Handled(nulls, a).value|] == b[|a|]
  {
    if nulls.EscapeNullBytes? {
      var rest := b[|a|..];
      assert b == a + rest;
      EscapeConcat(a, rest);
      EscapeFront(rest);
    }
  }

  // ---------------------------------------------------------------- the order theorem

  // The bytes of two different fields of one type, settled unless one extends the other by a null byte.
  lemma FieldSettled(nulls: NullHandling, a: Field, b: Field)
    requires Encodable(nulls, a) && Encodable(nulls, b) && WellSized(a) && WellSized(b)
    requires a.length == b.length && Less(a.bytes, b.bytes)
    requires a.length.None? ==> !NullExtends(a.bytes, b.bytes)
    ensures SettledLess(FieldBytes(nulls, a), FieldBytes(nulls, b))
  {
    LessCases(a.bytes, b.bytes);
    if a.length.None? {
      var ha, hb := Handled(nulls, a.bytes).value, Handled(nulls, b.bytes).value;
      if SettledLess(a.bytes, b.bytes) {
        HandledSettled(nulls, a.bytes, b.bytes);
        SettledStays(ha, hb, [0], [0]);
      } else {
        HandledPrefix(nulls, a.bytes, b.bytes);
        var x, y := ha + [0], hb + [0];
        assert y[|ha|] == hb[|ha|] == b.bytes[|a.bytes|] > 0;
        assert x[..|ha|] == ha == hb[..|ha|] == y[..|ha|];
        assert DivergeAt(x, y, |ha|) && x[|ha|] < y[|ha|];
      }
    }
  }

  lemma SettledFromField(nulls: NullHandling, f: seq<Field>, g: seq<Field>, k: nat)
    requires FirstDifference(nulls, f, g, k)
    requires Less(f[k].bytes, g[k].bytes)
    requires f[k].length.None? ==> !NullExtends(f[k].bytes, g[k].bytes)
    ensures SettledLess(Body(nulls, f), Body(nulls, g))
    ensures Less(Encoded(nulls, f), Encoded(nulls, g))
  {
    assert Types(f)[k] == f[k].length && Types(g)[k] == g[k].length;
    var p, x, y := Body(nulls, f[..k]), Body(nulls, f[k + 1..]), Body(nulls, g[k + 1..]);
    FieldSettled(nulls, f[k], g[k]);
    SettledStays(FieldBytes(nulls, f[k]), FieldBytes(nulls, g[k]), x, y);
    SettledUnderPrefix(p, FieldBytes(nulls, f[k]) + x, FieldBytes(nulls, g[k]) + y);
    EncodedAt(nulls, f, k);
    EncodedAt(nulls, g, k);
    SettledStays(Body(nulls, f), Body(nulls, g), Trailer(Lengths(nulls, f)), Trailer(Lengths(nulls, g)));
  }

  // Composite keys sort like the tuples they encode, and already their field bytes settle the order, so
  // that the length trailer never does - unless the first differing field is variable and one of the two
  // values is the other followed by a null byte.
  lemma CompositeOrderHolds(nulls: NullHandling, f: seq<Field>, g: seq<Field>, k: nat)
    requires FirstDifference(nulls, f, g, k)
    requires f[k].length.None? ==> !NullExtends(f[k].bytes, g[k].bytes) && !NullExtends(g[k].bytes, f[k].bytes)
    ensures Less(Encoded(nulls, f), Encoded(nulls, g)) <==> TupleLess(f, g)
    ensures SettledLess(Body(nulls, f), Body(nulls, g)) || SettledLess(Body(nulls, g), Body(nulls, f))
  {
    TupleLessAt(f, g, k);
    LessTotal(f[k].bytes, g[k].bytes);
    assert Types(f)[k] == f[k].length && Types(g)[k] == g[k].length;
    if Less(f[k].bytes, g[k].bytes) {
      SettledFromField(nulls, f, g, k);
    } else {
      SettledFromField(nulls, g, f, k);
      LessAsymmetric(Encoded(nulls, g), Encoded(nulls, f));
    }
  }

  lemma {:induction false} DifferenceExists(f: seq<Field>, g: seq<Field>) returns (k: nat)
    requires |f| == |g| && Types(f) == Types(g) && f != g
    ensures k < |f| && f[..k] == g[..k] && f[k].bytes != g[k].bytes
  {
    assert Types(f)[0] == f[0].length && Types(g)[0] == g[0].length;
    if f[0] != g[0] {
      k := 0;
    } else {
      assert f == [f[0]] + f[1..] && g == [g[0]] + g[1..];
      assert Types(f[1..]) == Types(f)[1..] && Types(g[1..]) == Types(g)[1..];
      var i := DifferenceExists(f[1..], g[1..]);
      k := i + 1;
      assert f[..k] == [f[0]] + f[1..][..i] && g[..k] == [g[0]] + g[1..][..i];
    }
  }

  lemma {:induction false} TupleLessIrreflexive(f: seq<Field>)
    ensures !TupleLess(f, f)
  {
    if f != [] {
      LessIrreflexive(f[0].bytes);
      TupleLessIrreflexive(f[1..]);
    }
  }

  predicate NullFree(f: seq<Field>) {
    forall i :: 0 <= i < |f| ==> f[i].length.None? ==> 0 !in f[i].bytes
  }

  // Without null bytes in variable fields, encoding is an order embedding under every policy.
  lemma NullFreeOrder(nulls: NullHandling, f: seq<Field>, g: seq<Field>)
    requires AllEncodable(nulls, f) && AllEncodable(nulls, g) && AllWellSized(f) && AllWellSized(g)
    requires |f| == |g| && Types(f) == Types(g) && NullFree(f) && NullFree(g)
    ensures Less(Encoded(nulls, f), Encoded(nulls, g)) <==> TupleLess(f, g)
    ensures Encoded(nulls, f) == Encoded(nulls, g) <==> f == g
  {
    if f == g {
      LessIrreflexive(Encoded(nulls, f));
      TupleLessIrreflexive(f);
    } else {
      var k := DifferenceExists(f, g);
      assert Types(f)[k] == f[k].length && Types(g)[k] == g[k].length;
      CompositeOrderHolds(nulls, f, g, k);
      TupleLessAt(f, g, k);
      TupleLessAt(g, f, k);
      CompositeOrderHolds(nulls, g, f, k);
      LessTotal(f[k].bytes, g[k].bytes);
      LessIrreflexive(Encoded(nulls, f));
    }
  }

  // Denying null bytes keeps the sort order of all keys it accepts.
  lemma DenyingOrder(f: seq<Field>, g: seq<Field>)
    requires AllEncodable(DenyNullBytes, f) && AllEncodable(DenyNullBytes, g) && AllWellSized(f) && AllWellSized(g)
    requires |f| == |g| && Types(f) == Types(g)
    ensures Less(Encoded(DenyNullBytes, f), Encoded(DenyNullBytes, g)) <==> TupleLess(f, g)
    ensures Encoded(DenyNullBytes, f) == Encoded(DenyNullBytes, g) <==> f == g
  {
    forall i | 0 <= i < |f| ensures f[i].length.None? ==> 0 !in f[i].bytes {
      EncodableMeans(DenyNullBytes, f[i]);
    }
    forall i | 0 <= i < |g| ensures g[i].length.None? ==> 0 !in g[i].bytes {
      EncodableMeans(DenyNullBytes, g[i]);
    }
    NullFreeOrder(DenyNullBytes, f, g);
  }

  // What stands in the longer encoding where the shorter one has its delimiter behind it.
  function AfterNull(nulls: NullHandling, g: seq<Field>, k: nat, n: nat): Bytes
    requires AllEncodable(nulls, g) && k < |g| && n < |g[k].bytes|
  {
    var tail := Handled(nulls, g[k].bytes[n + 1..]);
    (if nulls.EscapeNullBytes? then [0] else []) + (if tail.Ok? then tail.value else []) + [0] + Rest(nulls, g, k)
  }

  // In the exceptional case the encodings sort correctly exactly when what follows the delimiter in the
  // shorter field's encoding sorts before what follows the null byte in the longer one's.
  lemma CompositeOrderException(nulls: NullHandling, f: seq<Field>, g: seq<Field>, k: nat)
    requires FirstDifference(nulls, f, g, k)
    requires f[k].length.None? && NullExtends(f[k].bytes, g[k].bytes)
    ensures TupleLess(f, g)
    ensures Less(Encoded(nulls, f), Encoded(nulls, g)) <==>
            Less(Rest(nulls, f, k), AfterNull(nulls, g, k, |f[k].bytes|))
  {
    var a, b := f[k].bytes, g[k].bytes;
    assert Types(f)[k] == f[k].length && Types(g)[k] == g[k].length;
    TupleLessAt(f, g, k);
    var tail := b[|a| + 1..];
    assert Less(a, b) by {
      assert b == a + b[|a|..];
      ExtensionIsGreater(a, b[|a|..]);
    }
    var h := Handled(nulls, a).value;
    var t := HandledNullExtension(nulls, a, b);
    EncodedAt(nulls, f, k);
    EncodedAt(nulls, g, k);
    Exposed(Body(nulls, f[..k]), h, if nulls.EscapeNullBytes? then [0] else [], t,
            Rest(nulls, f, k), Rest(nulls, g, k));
  }

  lemma HandledNullExtension(nulls: NullHandling, a: Bytes, b: Bytes) returns (t: Bytes)
    requires NullExtends(a, b) && Handled(nulls, a).Ok? && Handled(nulls, b).Ok?
    ensures Handled(nulls, b[|a| + 1..]) == Ok(t)
    ensures Handled(nulls, b).value ==
      Handled(nulls, a).value + ([0] + ((if nulls.EscapeNullBytes? then [0] else []) + t))
  {
    assert b[|a|] in b;
    var tail := b[|a| + 1..];
    t := Handled(nulls, tail).value;
    assert b == a + ([0] + tail);
    if nulls.EscapeNullBytes? {
      EscapeConcat(a, [0] + tail);
      assert ([0] + tail)[1..] == tail;
      assert Escape([0] + tail) == [0] + ([0] + t);
    }
  }

  lemma Exposed(p: Bytes, h: Bytes, extra: Bytes, t: Bytes, rf: Bytes, rg: Bytes)
    ensures Less(p + ((h + [0]) + rf), p + ((h + ([0] + (extra + t)) + [0]) + rg)) <==>
            Less(rf, extra + t + [0] + rg)
  {
    var q := p + h + [0];
    assert p + ((h + [0]) + rf) == q + rf;
    assert p + ((h + ([0] + (extra + t)) + [0]) + rg) == q + (extra + t + [0] + rg);
    LessCancelsPrefix(q, rf, extra + t + [0] + rg);
  }

  // ---------------------------------------------------------------- deciding the exceptional case on the fields

  // How bytes begin: the number of leading null bytes, and the byte after them.
  datatype Front = Front(nulls: nat, next: Option<Byte>)

  function FrontOf(b: Bytes): Front {
    Front(Leading(b), if Leading(b) < |b| then Some(b[Leading(b)]) else None)
  }

  // The front of bytes that begin like `first` and go on like `second`.
  function Then(first: Front, second: Front): Front {
    if first.next.Some? then first else Front(first.nulls + second.nulls, second.next)
  }

  function FieldFront(nulls: NullHandling, f: Field): Front {
    var front := FrontOf(f.bytes);
    if f.length.Some? then front
    else Then(Front(if nulls.EscapeNullBytes? then 2 * front.nulls else front.nulls, front.next), Front(1, None))
  }

  function FieldsFront(nulls: NullHandling, fs: seq<Field>): Front {
    if fs == [] then Front(0, None) else Then(FieldFront(nulls, fs[0]), FieldsFront(nulls, fs[1..]))
  }

  function LengthsFront(lengths: seq<nat>): Front
    requires forall i :: 0 <= i < |lengths| ==> lengths[i] <= MAX_LENGTH
  {
    if lengths == [] then Front(0, None)
    else
      var n := lengths[0];
      Then(LengthsFront(lengths[1..]), if n == 0 then Front(1, None) else Front(0, Some(EncodeLength(n)[0])))
  }

  // What follows field `k`, seen on the fields: the later fields, then the lengths of all variable ones.
  function Following(nulls: NullHandling, f: seq<Field>, k: nat): Front
    requires AllEncodable(nulls, f) && k < |f|
  {
    Then(FieldsFront(nulls, f[k + 1..]), LengthsFront(Lengths(nulls, f)))
  }

  // What follows the null byte at position `n` of variable field `k`: its second half if it is escaped, the
  // rest of the field, and what follows the field.
  function FollowingNull(nulls: NullHandling, g: seq<Field>, k: nat, n: nat): Front
    requires AllEncodable(nulls, g) && k < |g| && n < |g[k].bytes|
  {
    Then(Front(if nulls.EscapeNullBytes? then 1 else 0, None),
         Then(FieldFront(nulls, Field(None, g[k].bytes[n + 1..])), Following(nulls, g, k)))
  }

  // What comes behind a front.
  function Behind(b: Bytes, front: Front): Bytes {
    if front.nulls < |b| then b[front.nulls + 1..] else []
  }

  lemma {:induction false} FrontConcat(a: Bytes, b: Bytes)
    ensures FrontOf(a + b) == Then(FrontOf(a), FrontOf(b))
  {
    if a == [] {
      assert a + b == b;
    } else {
      assert (a + b)[1..] == a[1..] + b;
      FrontConcat(a[1..], b);
    }
  }

  lemma {:induction false} EscapedFront(b: Bytes)
    ensures FrontOf(Escape(b)) == Front(2 * Leading(b), FrontOf(b).next)
  {
    if b != [] && b[0] == 0 {
      EscapedFront(b[1..]);
      FrontConcat([0, 0], Escape(b[1..]));
      assert [0, 0][1..] == [0] && FrontOf([0, 0]) == Front(2, None);
    }
  }

  lemma FieldFrontHolds(nulls: NullHandling, f: Field)
    requires Encodable(nulls, f)
    ensures FrontOf(FieldBytes(nulls, f)) == FieldFront(nulls, f)
  {
    if f.length.None? {
      EscapedFront(f.bytes);
      FrontConcat(Handled(nulls, f.bytes).value, [0]);
      assert FrontOf([0]) == Front(1, None);
    }
  }

  lemma {:induction false} FieldsFrontHolds(nulls: NullHandling, fs: seq<Field>)
    requires AllEncodable(nulls, fs)
    ensures FrontOf(Body(nulls, fs)) == FieldsFront(nulls, fs)
  {
    if fs != [] {
      FieldFrontHolds(nulls, fs[0]);
      FieldsFrontHolds(nulls, fs[1..]);
      FrontConcat(FieldBytes(nulls, fs[0]), Body(nulls, fs[1..]));
    }
  }

  lemma {:induction false} LengthsFrontHolds(lengths: seq<nat>)
    requires forall i :: 0 <= i < |lengths| ==> lengths[i] <= MAX_LENGTH
    ensures FrontOf(Trailer(lengths)) == LengthsFront(lengths)
    ensures (exists i :: 0 <= i < |lengths| && lengths[i] > 0) ==> LengthsFront(lengths).next.Some?
  {
    if lengths != [] {
      LengthsFrontHolds(lengths[1..]);
      FrontConcat(Trailer(lengths[1..]), EncodeLength(lengths[0]));
      assert lengths[0] == 0 ==> FrontOf(EncodeLength(0)) == Front(1, None);
      if i :| 0 < i < |lengths| && lengths[i] > 0 {
        assert lengths[1..][i - 1] > 0;
      }
    }
  }

  lemma FollowingHolds(nulls: NullHandling, f: seq<Field>, k: nat)
    requires AllEncodable(nulls, f) && k < |f|
    ensures FrontOf(Rest(nulls, f, k)) == Following(nulls, f, k)
  {
    FieldsFrontHolds(nulls, f[k + 1..]);
    LengthsFrontHolds(Lengths(nulls, f));
    FrontConcat(Body(nulls, f[k + 1..]), Trailer(Lengths(nulls, f)));
  }

  lemma FollowingNullHolds(nulls: NullHandling, g: seq<Field>, k: nat, n: nat)
    requires AllEncodable(nulls, g) && k < |g| && n < |g[k].bytes| && g[k].length.None?
    requires Encodable(nulls, Field(None, g[k].bytes[n + 1..]))
    ensures FrontOf(AfterNull(nulls, g, k, n)) == FollowingNull(nulls, g, k, n)
  {
    var field, extra := Field(None, g[k].bytes[n + 1..]), if nulls.EscapeNullBytes? then [0] else [];
    FieldFrontHolds(nulls, field);
    FollowingHolds(nulls, g, k);
    FrontsConcat(extra, Handled(nulls, field.bytes).value, Rest(nulls, g, k));
  }

  lemma FrontsConcat(extra: Bytes, h: Bytes, rest: Bytes)
    requires extra == [] || extra == [0]
    ensures FrontOf(extra + h + [0] + rest) ==
            Then(Front(|extra|, None), Then(FrontOf(h + [0]), FrontOf(rest)))
  {
    assert extra + h + [0] + rest == extra + ((h + [0]) + rest);
    FrontConcat(h + [0], rest);
    FrontConcat(extra, (h + [0]) + rest);
    assert FrontOf(extra) == Front(|extra|, None);
  }

  // The length of a variable field that is not empty makes what follows any field end in a non-null byte.
  lemma {:induction false} LengthListed(nulls: NullHandling, f: seq<Field>, k: nat)
    requires AllEncodable(nulls, f) && k < |f| && f[k].length.None? && Handled(nulls, f[k].bytes).value != []
    ensures exists i :: 0 <= i < |Lengths(nulls, f)| && Lengths(nulls, f)[i] > 0
    decreases k
  {
    var ls := Lengths(nulls, f);
    if k == 0 {
      assert ls[0] > 0;
    } else {
      LengthListed(nulls, f[1..], k - 1);
      var i :| 0 <= i < |Lengths(nulls, f[1..])| && Lengths(nulls, f[1..])[i] > 0;
      assert ls[if f[0].length.Some? then i else i + 1] > 0;
    }
  }

  // Fronts that differ decide the order.
  lemma FrontsDecide(a: Bytes, b: Bytes)
    requires FrontOf(b).next.Some?
    ensures
      var x, y := FrontOf(a), FrontOf(b);
      Less(a, b) <==>
        || x.next.None?
        || x.nulls > y.nulls
        || (x.nulls == y.nulls && x.next.value < y.next.value)
        || (x == y && Less(Behind(a, x), Behind(b, y)))
  {
    var x, y := FrontOf(a), FrontOf(b);
    if x.next.None? && x.nulls <= y.nulls {
      OnlyNullsFirst(a, b);
    } else if x == y {
      SameFront(a, b, x.nulls + 1);
    } else {
      var i := if x.nulls < y.nulls then x.nulls else y.nulls;
      assert a[..i] == b[..i];
      DivergenceDecides(a, b, i);
    }
  }

  lemma OnlyNullsFirst(a: Bytes, b: Bytes)
    requires |a| == Leading(a) <= Leading(b) < |b|
    ensures Less(a, b)
  {
    NullsArePrefix(a, b);
    ExtensionIsGreater(a, b[|a|..]);
  }

  lemma NullsArePrefix(a: Bytes, b: Bytes)
    requires |a| == Leading(a) <= Leading(b)
    ensures b == a + b[|a|..]
  {
    assert forall i :: 0 <= i < |a| ==> a[i] == 0 == b[i];
    assert b[..|a|] == a;
  }

  lemma SameFront(a: Bytes, b: Bytes, n: nat)
    requires n <= |a| && n <= |b| && forall i :: 0 <= i < n ==> a[i] == b[i]
    ensures Less(a, b) == Less(a[n..], b[n..])
  {
    assert a == a[..n] + a[n..] && b == a[..n] + b[n..];
    LessCancelsPrefix(a[..n], a[n..], b[n..]);
  }

  // The exceptional case, decided on the fields: count the null bytes that follow, on one side the delimiter of the
  // shorter value and on the other side the null byte that extends it, and take the byte after them. The encodings
  // sort like the tuples iff the shorter side has nothing but null bytes, or has more of them, or as many and then a
  // smaller byte. Only where both fronts are the same does the comparison go on behind them.
  lemma CompositeOrderDecided(nulls: NullHandling, f: seq<Field>, g: seq<Field>, k: nat)
    requires FirstDifference(nulls, f, g, k)
    requires f[k].length.None? && NullExtends(f[k].bytes, g[k].bytes)
    ensures TupleLess(f, g)
    ensures
      var n := |f[k].bytes|;
      var x, y := Following(nulls, f, k), FollowingNull(nulls, g, k, n);
      y.next.Some? &&
      (Less(Encoded(nulls, f), Encoded(nulls, g)) <==>
        || x.next.None?
        || x.nulls > y.nulls
        || (x.nulls == y.nulls && x.next.value < y.next.value)
        || (x == y && Less(Behind(Rest(nulls, f, k), x), Behind(AfterNull(nulls, g, k, n), y))))
  {
    var n := |f[k].bytes|;
    assert Types(f)[k] == f[k].length && Types(g)[k] == g[k].length;
    CompositeOrderException(nulls, f, g, k);
    FollowingHolds(nulls, f, k);
    TailEncodable(nulls, f[k].bytes, g[k].bytes);
    FollowingNullHolds(nulls, g, k, n);
    FollowingHasLength(nulls, g, k);
    FrontsDecide(Rest(nulls, f, k), AfterNull(nulls, g, k, n));
  }

  lemma TailEncodable(nulls: NullHandling, a: Bytes, b: Bytes)
    requires NullExtends(a, b) && Handled(nulls, a).Ok? && Encodable(nulls, Field(None, b))
    ensures Encodable(nulls, Field(None, b[|a| + 1..]))
  {
    var t := HandledNullExtension(nulls, a, b);
  }

  lemma FollowingHasLength(nulls: NullHandling, g: seq<Field>, k: nat)
    requires AllEncodable(nulls, g) && k < |g| && g[k].length.None? && g[k].bytes != []
    ensures Following(nulls, g, k).next.Some?
  {
    EscapeFront(g[k].bytes);
    LengthListed(nulls, g, k);
    LengthsFrontHolds(Lengths(nulls, g));
  }

  // Escaping misorders ("a",) and ("a\0",).
  lemma EscapingMisordersOneField()
    ensures
      var f, g := [Field(None, [97])], [Field(None, [97, 0])];
      TupleLess(f, g) && !Less(Encoded(EscapeNullBytes, f), Encoded(EscapeNullBytes, g))
  {
    var f, g := [Field(None, [97])], [Field(None, [97, 0])];
    EscapedLength([97]);
    EscapedLength([97, 0]);
    OneFieldOrder([97], [97, 0]);
    ExtensionIsGreater([97], [0]);
  }

  // It misorders ("x", "") and ("x", "\0") as well, although a null byte follows the shorter value's delimiter.
  lemma EscapingMisordersEmptyField()
    ensures
      var f, g := [Field(None, [120]), Field(None, [])], [Field(None, [120]), Field(None, [0])];
      TupleLess(f, g) && !Less(Encoded(EscapeNullBytes, f), Encoded(EscapeNullBytes, g))
  {
    var f, g := [Field(None, [120]), Field(None, [])], [Field(None, [120]), Field(None, [0])];
    EmptyFieldKeys();
    DivergenceDecides([120, 0, 0, 0, 1], [120, 0, 0, 0, 0, 2, 1], 4);
    assert f[..1] == g[..1];
    TupleLessAt(f, g, 1);
  }

  lemma EscapedLiterals()
    ensures Escape([120]) == [120] && Escape([]) == [] && Escape([0]) == [0, 0] && Escape([65]) == [65]
  {
  }

  lemma EscapedPairs()
    ensures Escape([0, 65]) == [0, 0, 65] && Escape([120, 0]) == [120, 0, 0]
  {
    EscapedLiterals();
    EscapeConcat([0], [65]);
    EscapeConcat([120], [0]);
    assert [0] + [65] == [0, 65] && [120] + [0] == [120, 0];
  }

  lemma EmptyFieldKeys()
    ensures Encoded(EscapeNullBytes, [Field(None, [120]), Field(None, [])]) == [120, 0, 0, 0, 1]
    ensures Encoded(EscapeNullBytes, [Field(None, [120]), Field(None, [0])]) == [120, 0, 0, 0, 0, 2, 1]
  {
    EscapedLiterals();
    TwoFields(EscapeNullBytes, [120], [], [120], []);
    TwoFields(EscapeNullBytes, [120], [0], [120], [0, 0]);
  }

  // Allowing null bytes sorts that pair correctly: escaping is what misorders it.
  lemma AllowingSortsEmptyField()
    ensures
      var f, g := [Field(None, [120]), Field(None, [])], [Field(None, [120]), Field(None, [0])];
      TupleLess(f, g) && Less(Encoded(AllowNullBytes, f), Encoded(AllowNullBytes, g))
  {
    var f, g := [Field(None, [120]), Field(None, [])], [Field(None, [120]), Field(None, [0])];
    AllowedFieldKeys();
    ExtensionIsGreater([120, 0, 0, 0, 1], [1]);
    assert [120, 0, 0, 0, 1] + [1] == [120, 0, 0, 0, 1, 1];
    assert f[..1] == g[..1];
    TupleLessAt(f, g, 1);
  }

  lemma AllowedFieldKeys()
    ensures Encoded(AllowNullBytes, [Field(None, [120]), Field(None, [])]) == [120, 0, 0, 0, 1]
    ensures Encoded(AllowNullBytes, [Field(None, [120]), Field(None, [0])]) == [120, 0, 0, 0, 1, 1]
  {
    TwoFields(AllowNullBytes, [120], [], [120], []);
    TwoFields(AllowNullBytes, [120], [0], [120], [0]);
  }

  // The fields of ("x", "\0A") and ("x\0", "A") have the same bytes, so that only the lengths behind them, which
  // misorder the two, tell them apart.
  lemma EscapingTies()
    ensures
      var f, g := [Field(None, [120]), Field(None, [0, 65])], [Field(None, [120, 0]), Field(None, [65])];
      && Encoded(EscapeNullBytes, f) == [120, 0, 0, 0, 65, 0] + [3, 1]
      && Encoded(EscapeNullBytes, g) == [120, 0, 0, 0, 65, 0] + [1, 3]
      && TupleLess(f, g) && !Less(Encoded(EscapeNullBytes, f), Encoded(EscapeNullBytes, g))
  {
    var f, g := [Field(None, [120]), Field(None, [0, 65])], [Field(None, [120, 0]), Field(None, [65])];
    TieLeft();
    TieRight();
    TieDecided();
    ExtensionIsGreater([120], [0]);
    assert [120] + [0] == [120, 0];
  }

  lemma TieLeft()
    ensures |Escape([120])| == 1 && |Escape([0, 65])| == 3
    ensures Encoded(EscapeNullBytes, [Field(None, [120]), Field(None, [0, 65])]) == [120, 0, 0, 0, 65, 0] + [3, 1]
  {
    EscapedLiterals();
    EscapedPairs();
    TwoFields(EscapeNullBytes, [120], [0, 65], [120], [0, 0, 65]);
  }

  lemma TieRight()
    ensures |Escape([120, 0])| == 3 && |Escape([65])| == 1
    ensures Encoded(EscapeNullBytes, [Field(None, [120, 0]), Field(None, [65])]) == [120, 0, 0, 0, 65, 0] + [1, 3]
  {
    EscapedLiterals();
    EscapedPairs();
    TwoFields(EscapeNullBytes, [120, 0], [65], [120, 0, 0], [65]);
  }

  lemma TieDecided()
    ensures !Less([120, 0, 0, 0, 65, 0] + [3, 1], [120, 0, 0, 0, 65, 0] + [1, 3])
  {
    LessCancelsPrefix([120, 0, 0, 0, 65, 0], [3, 1], [1, 3]);
  }

  lemma TwoFields(nulls: NullHandling, a: Bytes, b: Bytes, ea: Bytes, eb: Bytes)
    requires Handled(nulls, a) == Ok(ea) && Handled(nulls, b) == Ok(eb) && |ea| < 128 && |eb| < 128
    ensures Encoded(nulls, [Field(None, a), Field(None, b)]) == (ea + [0]) + ((eb + [0]) + [|eb|]) + [|ea|]
  {
    var fs := [Field(None, a), Field(None, b)];
    assert fs[1..] == [fs[1]];
    Peel(nulls, fs);
    Peel(nulls, [fs[1]]);
    assert [fs[1]][1..] == [] && Encoded(nulls, []) == [];
    assert (eb + [0]) + [] == eb + [0];
  }

  lemma {:induction false} EscapedLength(b: Bytes)
    ensures |b| <= |Escape(b)| <= 2 * |b|
    ensures 0 !in b ==> Escape(b) == b
    ensures (forall i :: 0 <= i < |b| ==> b[i] == 0) ==> |Escape(b)| == 2 * |b|
  {
    if b != [] {
      EscapedLength(b[1..]);
      assert b == [b[0]] + b[1..];
    }
  }

  // For keys of one variable field, escaping preserves the order exactly when it is not the case that a
  // non-empty value is compared with itself followed by a null byte.
  lemma OneFieldOrder(a: Bytes, b: Bytes)
    requires a != b
    requires Encodable(EscapeNullBytes, Field(None, a)) && Encodable(EscapeNullBytes, Field(None, b))
    ensures
      var ea, eb := Encoded(EscapeNullBytes, [Field(None, a)]), Encoded(EscapeNullBytes, [Field(None, b)]);
      (Less(ea, eb) <==> Less(a, b)) <==> !((NullExtends(a, b) && a != []) || (NullExtends(b, a) && b != []))
  {
    var f, g := [Field(None, a)], [Field(None, b)];
    assert Types(f) == Types(g);
    assert FirstDifference(EscapeNullBytes, f, g, 0) && FirstDifference(EscapeNullBytes, g, f, 0);
    assert TupleLess(f, g) <==> Less(a, b);
    if NullExtends(a, b) {
      OneFieldException(a, b);
      ExtensionIsGreater(a, b[|a|..]);
      assert a + b[|a|..] == b;
    } else if NullExtends(b, a) {
      OneFieldException(b, a);
      ExtensionIsGreater(b, a[|b|..]);
      assert b + a[|b|..] == a;
      LessTotal(Encoded(EscapeNullBytes, f), Encoded(EscapeNullBytes, g));
      OneFieldInjective(a, b);
      LessAsymmetric(b, a);
      if Less(Encoded(EscapeNullBytes, g), Encoded(EscapeNullBytes, f)) {
        LessAsymmetric(Encoded(EscapeNullBytes, g), Encoded(EscapeNullBytes, f));
      }
    } else {
      CompositeOrderHolds(EscapeNullBytes, f, g, 0);
    }
  }

  lemma OneFieldRest(a: Bytes)
    requires Encodable(EscapeNullBytes, Field(None, a))
    ensures Rest(EscapeNullBytes, [Field(None, a)], 0) == EncodeLength(|Escape(a)|)
  {
    var f := [Field(None, a)];
    assert f[1..] == [];
    assert Lengths(EscapeNullBytes, f) == [|Escape(a)|];
    assert [|Escape(a)|][1..] == [];
    assert Trailer([|Escape(a)|]) == EncodeLength(|Escape(a)|);
  }

  lemma OneFieldException(a: Bytes, b: Bytes)
    requires NullExtends(a, b)
    requires Encodable(EscapeNullBytes, Field(None, a)) && Encodable(EscapeNullBytes, Field(None, b))
    ensures Less(Encoded(EscapeNullBytes, [Field(None, a)]), Encoded(EscapeNullBytes, [Field(None, b)])) <==> a == []
  {
    var f, g := [Field(None, a)], [Field(None, b)];
    assert Types(f) == Types(g);
    assert FirstDifference(EscapeNullBytes, f, g, 0);
    CompositeOrderException(EscapeNullBytes, f, g, 0);
    OneFieldRest(a);
    LengthAgainstNull(a, Rest(EscapeNullBytes, f, 0), AfterNull(EscapeNullBytes, g, 0, |a|));
  }

  // The length of an empty field is a null byte, and that of any other field begins with a greater one.
  lemma LengthAgainstNull(a: Bytes, r: Bytes, s: Bytes)
    requires |Escape(a)| <= MAX_LENGTH && r == EncodeLength(|Escape(a)|)
    requires |s| > 1 && s[0] == 0
    ensures Less(r, s) <==> a == []
  {
    if a == [] {
      assert r == [0];
      assert s == r + s[1..];
      ExtensionIsGreater(r, s[1..]);
    } else {
      EscapeFront(a);
      assert r[0] > 0;
    }
  }

  lemma OneFieldInjective(a: Bytes, b: Bytes)
    requires a != b
    requires Encodable(EscapeNullBytes, Field(None, a)) && Encodable(EscapeNullBytes, Field(None, b))
    ensures Encoded(EscapeNullBytes, [Field(None, a)]) != Encoded(EscapeNullBytes, [Field(None, b)])
  {
    var f, g := [Field(None, a)], [Field(None, b)];
    CodecRoundTrip(EscapeNullBytes, f, 1);
    CodecRoundTrip(EscapeNullBytes, g, 1);
    assert Types(f[..1]) == Types(g[..1]);
    assert Values(f[..1])[0] == a && Values(g[..1])[0] == b;
  }
}
