/** Prefix ranges: the half-open interval that holds exactly the keys starting with a prefix. */
module PrefixRanges {
  import opened ByteStrings

  // Keys from `start` on, up to but not including `end` if there is one.
  datatype Range = Range(start: Bytes, end: Option<Bytes>)

  // ---------------------------------------------------------------- byte strings

  // `end` is `start` cut after some element, that element replaced by a greater one with none between
  // that any key starting with `start` could need: all elements cut off are greatest.
  ghost predicate Bumped(start: seq<int>, end: seq<int>, k: nat) {
    && k < |start| && |end| == k + 1 && end[..k] == start[..k] && start[k] < end[k]
  }

  lemma PrefixAtMost(p: seq<int>, s: seq<int>)
    requires p <= s
    ensures AtMost(p, s)
  {
    if p != s {
      ExtensionIsGreater(p, s[|p|..]);
      assert p + s[|p|..] == s;
    }
  }

  // Between `p` and the bumped string lie only strings that agree with `p` before position `k`, and there
  // lie between the old and the new element.
  lemma BetweenAgrees(p: seq<int>, end: seq<int>, k: nat, s: seq<int>)
    requires Bumped(p, end, k)
    requires AtMost(p, s) && Less(s, end)
    ensures |s| > k && s[..k] == p[..k] && p[k] <= s[k] < end[k]
  {
    assert p == p[..k] + p[k..] && end == p[..k] + end[k..];
    LessCases(s, end);
    if s < end {
      // A proper prefix of `end` is a prefix of `p[..k]` and so smaller than `p`.
      assert s <= p[..k] <= p;
      ProperPrefixIsLess(s, p);
      LessAsymmetric(s, p);
    }
    var i: nat :| DivergeAt(s, end, i) && s[i] < end[i];
    if i < k {
      assert s[i] < end[i] == end[..k][i] == p[i];
      assert s[..i] == end[..i] == end[..k][..i] == p[..k][..i] == p[..i];
      DivergenceDecides(s, p, i);
      LessAsymmetric(s, p);
    }
    assert s[..k] == end[..k] == p[..k];
    if s[k] < p[k] {
      DivergenceDecides(s, p, k);
      LessAsymmetric(s, p);
    }
  }

  lemma ProperPrefixIsLess(s: seq<int>, p: seq<int>)
    requires s <= p && s != p
    ensures Less(s, p)
  {
    ExtensionIsGreater(s, p[|s|..]);
    assert s + p[|s|..] == p;
  }

  lemma PrefixBelowBump(p: seq<int>, end: seq<int>, k: nat, s: seq<int>)
    requires Bumped(p, end, k) && p <= s
    ensures Less(s, end)
  {
    assert s[..k] == p[..k] == end[..k] && s[k] == p[k];
    DivergenceDecides(s, end, k);
  }

  // With nothing greater than `top` beyond position `k`, a string that agrees with `p` up to `k` and is not
  // smaller starts with `p`.
  lemma {:induction false} AllTopIsPrefix(p: seq<int>, s: seq<int>, top: int)
    requires forall i :: 0 <= i < |p| ==> p[i] == top
    requires forall i :: 0 <= i < |s| ==> s[i] <= top
    requires AtMost(p, s)
    ensures p <= s
  {
    if p != [] && p != s {
      AllTopIsPrefix(p[1..], s[1..], top);
      assert p == [p[0]] + p[1..] && s == [s[0]] + s[1..];
    }
  }

  lemma BetweenIsPrefix(p: seq<int>, end: seq<int>, k: nat, s: seq<int>, top: int)
    requires Bumped(p, end, k) && (forall x: int :: p[k] < x < end[k] ==> x !in s)
    requires forall i :: k < i < |p| ==> p[i] == top
    requires forall i :: 0 <= i < |s| ==> s[i] <= top
    requires AtMost(p, s) && Less(s, end)
    ensures p <= s
  {
    BetweenAgrees(p, end, k, s);
    assert s[k] in s;
    TakeOneMore(p, s, k);
    TopTailIsPrefix(p[..k + 1], p[k + 1..], s[k + 1..], top, p, s);
  }

  lemma TakeOneMore(p: seq<int>, s: seq<int>, k: nat)
    requires k < |p| && k < |s| && s[..k] == p[..k] && s[k] == p[k]
    ensures p == p[..k + 1] + p[k + 1..] && s == p[..k + 1] + s[k + 1..]
  {
    assert s[..k + 1] == s[..k] + [s[k]];
    assert p[..k + 1] == p[..k] + [p[k]];
  }

  // The same below a common beginning.
  lemma TopTailIsPrefix(q: seq<int>, a: seq<int>, b: seq<int>, top: int, p: seq<int>, s: seq<int>)
    requires p == q + a && s == q + b && AtMost(p, s)
    requires forall i :: 0 <= i < |a| ==> a[i] == top
    requires forall i :: 0 <= i < |b| ==> b[i] <= top
    ensures p <= s
  {
    LessCancelsPrefix(q, a, b);
    assert p == s ==> a == p[|q|..] == b;
    AllTopIsPrefix(a, b, top);
  }

  lemma BumpedExactly(p: seq<int>, end: seq<int>, k: nat, s: seq<int>, top: int)
    requires Bumped(p, end, k) && (forall x: int :: p[k] < x < end[k] ==> x !in s)
    requires forall i :: k < i < |p| ==> p[i] == top
    requires forall i :: 0 <= i < |s| ==> s[i] <= top
    ensures (AtMost(p, s) && Less(s, end)) <==> p <= s
  {
    if p <= s {
      PrefixAtMost(p, s);
      PrefixBelowBump(p, end, k, s);
    } else if AtMost(p, s) && Less(s, end) {
      BetweenIsPrefix(p, end, k, s, top);
    }
  }

  // `next_byte_sequence`: drops trailing 0xFF bytes and adds one to the last byte left.
  method NextByteSequence(start: Bytes) returns (r: Option<Bytes>)
    ensures r.None? <==> forall i :: 0 <= i < |start| ==> start[i] == 255
    ensures forall s: Bytes :: AtMost(start, s) && (r.Some? ==> Less(s, r.value)) <==> start <= s
  {
    var end := start;
    while end != []
      invariant end <= start
      invariant forall i :: |end| <= i < |start| ==> start[i] == 255
      decreases |end|
    {
      var last := end[|end| - 1];
      end := end[..|end| - 1];
      if last < 255 {
        ghost var k := |end|;
        end := end + [last + 1];
        forall s: Bytes ensures AtMost(start, s) && Less(s, end) <==> start <= s {
          assert Bumped(start, end, k);
          BumpedExactly(start, end, k, s, 255);
        }
        return Some(end);
      }
    }
    forall s: Bytes ensures AtMost(start, s) <==> start <= s {
      if start <= s {
        PrefixAtMost(start, s);
      } else if AtMost(start, s) {
        AllTopIsPrefix(start, s, 255);
      }
    }
    r := None;
  }

  // `to_prefix_range` of byte strings: a key is in the range iff it starts with the prefix.
  method ToPrefixRange(prefix: Bytes) returns (r: Range)
    ensures r.start == prefix
    ensures forall s: Bytes :: AtMost(r.start, s) && (r.end.Some? ==> Less(s, r.end.value)) <==> prefix <= s
  {
    var next := NextByteSequence(prefix);
    r := Range(prefix, next);
  }

  // ---------------------------------------------------------------- UTF-8

  // A Unicode scalar value: any code point but a surrogate.
  type Scalar = c: int | 0 <= c < 0xD800 || 0xE000 <= c < 0x11_0000

  type Str = seq<Scalar>

  const MAX_SCALAR: int := 0x10_FFFF

  // Section 3 of RFC 3629.
  function Utf8Char(c: Scalar): (b: Bytes)
    ensures 1 <= |b| <= 4
  {
    if c < 0x80 then [c]
    else if c < 0x800 then [0xC0 + c / 64, 0x80 + c % 64]
    else if c < 0x1_0000 then [0xE0 + c / 4096, 0x80 + c / 64 % 64, 0x80 + c % 64]
    else [0xF0 + c / 262144, 0x80 + c / 4096 % 64, 0x80 + c / 64 % 64, 0x80 + c % 64]
  }

  function Utf8(s: Str): Bytes {
    if s == [] then [] else Utf8Char(s[0]) + Utf8(s[1..])
  }

  predicate Continuation(b: Byte) {
    0x80 <= b < 0xC0
  }

  // The bits of a byte behind its mark.
  function Bits(b: int, mark: int): int {
    b - mark
  }

  // The table in section 3 of RFC 3629: how long an encoding is, how its bytes are marked, and how the bits behind the
  // marks give the character back.
  lemma Utf8Table(c: Scalar)
    ensures
      var b := Utf8Char(c);
      && (c < 0x80 ==> b == [c])
      && (0x80 <= c < 0x800 ==>
            |b| == 2 && 0xC0 <= b[0] < 0xE0 && Continuation(b[1]) && c == Bits(b[0], 0xC0) * 64 + Bits(b[1], 0x80))
      && (0x800 <= c < 0x1_0000 ==>
            |b| == 3 && 0xE0 <= b[0] < 0xF0 && Continuation(b[1]) && Continuation(b[2]) &&
            c == Bits(b[0], 0xE0) * 4096 + Bits(b[1], 0x80) * 64 + Bits(b[2], 0x80))
      && (0x1_0000 <= c ==>
            |b| == 4 && 0xF0 <= b[0] < 0xF8 && Continuation(b[1]) && Continuation(b[2]) && Continuation(b[3]) &&
            c == Bits(b[0], 0xF0) * 262144 + Bits(b[1], 0x80) * 4096 + Bits(b[2], 0x80) * 64 + Bits(b[3], 0x80))
    ensures Utf8([c]) == Utf8Char(c)
  {
    Nested64(c);
    assert [c][1..] == [];
  }

  // The first byte grows with the length of the encoding.
  lemma LeadByte(c: Scalar)
    ensures
      var b := Utf8Char(c);
      && (|b| == 1 ==> b[0] < 0xC0)
      && (|b| == 2 ==> 0xC0 <= b[0] < 0xE0)
      && (|b| == 3 ==> 0xE0 <= b[0] < 0xF0)
      && (|b| == 4 ==> 0xF0 <= b[0])
  {
  }

  lemma Split64(c: nat, d: nat)
    requires c < d
    ensures c / 64 < d / 64 || (c / 64 == d / 64 && c % 64 < d % 64)
  {
  }

  lemma Nested64(c: nat)
    ensures c / 4096 == c / 64 / 64 && c / 262144 == c / 4096 / 64
  {
  }

  // The first differing byte decides when every byte before it agrees.
  lemma SettledAt(a: Bytes, b: Bytes, i: nat)
    requires i < |a| && i < |b| && a[i] < b[i]
    requires forall j :: 0 <= j < i ==> a[j] == b[j]
    ensures SettledLess(a, b)
  {
    assert a[..i] == b[..i];
    assert DivergeAt(a, b, i);
  }

  // Encodings of the same length.
  lemma SameLengthSettled(c: Scalar, d: Scalar)
    requires c < d && |Utf8Char(c)| == |Utf8Char(d)|
    ensures SettledLess(Utf8Char(c), Utf8Char(d))
  {
    if |Utf8Char(c)| == 4 {
      FourBytesSettled(c, d);
    } else {
      var a, b := Utf8Char(c), Utf8Char(d);
      var n := |a| - 1;
      Split64(c, d);
      Nested64(c);
      Nested64(d);
      if n == 0 || c / 64 == d / 64 {
        SettledAt(a, b, n);
      } else {
        Split64(c / 64, d / 64);
        SettledAt(a, b, if n == 2 && c / 4096 == d / 4096 then 1 else 0);
      }
    }
  }

  lemma FourBytesSettled(c: Scalar, d: Scalar)
    requires 0x1_0000 <= c < d
    ensures SettledLess(Utf8Char(c), Utf8Char(d))
  {
    Split64(c, d);
    Nested64(c);
    Nested64(d);
    if c / 64 < d / 64 {
      Split64(c / 64, d / 64);
    }
    if c / 4096 < d / 4096 {
      Split64(c / 4096, d / 4096);
    }
    SettledAt(Utf8Char(c), Utf8Char(d),
              if c / 64 == d / 64 then 3 else if c / 4096 == d / 4096 then 2
              else if c / 262144 == d / 262144 then 1 else 0);
  }

  // Encodings of different scalar values differ at a position both have, in the order of the values.
  lemma CharSettled(c: Scalar, d: Scalar)
    requires c < d
    ensures SettledLess(Utf8Char(c), Utf8Char(d))
  {
    if |Utf8Char(c)| == |Utf8Char(d)| {
      SameLengthSettled(c, d);
    } else {
      LeadByte(c);
      LeadByte(d);
      assert DivergeAt(Utf8Char(c), Utf8Char(d), 0) && Utf8Char(c)[0] < Utf8Char(d)[0];
    }
  }

  lemma {:induction false} Utf8Concat(s: Str, t: Str)
    ensures Utf8(s + t) == Utf8(s) + Utf8(t)
  {
    if s == [] {
      assert s + t == t;
    } else {
      assert (s + t)[1..] == s[1..] + t;
      Utf8Concat(s[1..], t);
    }
  }

  // UTF-8 preserves the order of scalar values (section 1 of RFC 3629).
  lemma {:induction false} Utf8Order(s: Str, t: Str)
    ensures Less(Utf8(s), Utf8(t)) <==> Less(s, t)
  {
    if s == [] || t == [] {
    } else if s[0] == t[0] {
      LessCancelsPrefix(Utf8Char(s[0]), Utf8(s[1..]), Utf8(t[1..]));
      Utf8Order(s[1..], t[1..]);
    } else if s[0] < t[0] {
      CharSettled(s[0], t[0]);
      SettledStays(Utf8Char(s[0]), Utf8Char(t[0]), Utf8(s[1..]), Utf8(t[1..]));
    } else {
      CharSettled(t[0], s[0]);
      SettledStays(Utf8Char(t[0]), Utf8Char(s[0]), Utf8(t[1..]), Utf8(s[1..]));
      LessAsymmetric(Utf8(t), Utf8(s));
    }
  }

  lemma Utf8Injective(s: Str, t: Str)
    requires Utf8(s) == Utf8(t)
    ensures s == t
  {
    Utf8Order(s, t);
    Utf8Order(t, s);
    LessIrreflexive(Utf8(s));
    LessTotal(s, t);
  }

  lemma Utf8Snoc(p: Str, n: nat)
    requires n < |p|
    ensures Utf8(p[..n + 1]) == Utf8(p[..n]) + Utf8Char(p[n])
  {
    assert p[..n + 1] == p[..n] + [p[n]];
    Utf8Concat(p[..n], [p[n]]);
    assert [p[n]][1..] == [];
  }

  // Replacing the encoding from character `n` on by another character.
  lemma Utf8Splice(p: Str, n: nat, c: Scalar)
    requires n <= |p|
    ensures |Utf8(p[..n])| <= |Utf8(p)|
    ensures Utf8(p)[..|Utf8(p[..n])|] + Utf8Char(c) == Utf8(p[..n] + [c])
  {
    assert p == p[..n] + p[n..];
    Utf8Concat(p[..n], p[n..]);
    Utf8Concat(p[..n], [c]);
    assert [c][1..] == [];
  }

  // The scalar value after `c`, stepping over the surrogates.
  function NextScalar(c: Scalar): (d: Scalar)
    requires c < MAX_SCALAR
    ensures d == c + 1 || (c == 0xD7FF && d == 0xE000)
  {
    if c == 0xD7FF then 0xE000 else c + 1
  }

  // The reverse loop over characters shared by `to_prefix_range` and `next_string_sequence`. `bytes` stands for
  // the spliced buffer; it is always the encoding of a string, so that neither `unwrap` can fail.
  method NextString(p: Str) returns (end: Option<Bytes>, ghost text: Str)
    ensures end.None? <==> forall i :: 0 <= i < |p| ==> p[i] == MAX_SCALAR
    ensures end.Some? ==> end.value == Utf8(text)
    ensures forall s: Str :: AtMost(Utf8(p), Utf8(s)) && (end.Some? ==> Less(Utf8(s), end.value)) <==> p <= s
  {
    var bytes := Utf8(p);
    text := p;
    var n, index := |p|, |bytes|;
    assert p[..|p|] == p;
    while n > 0
      invariant 0 <= n <= |p|
      invariant index == |Utf8(p[..n])|
      invariant forall i :: n <= i < |p| ==> p[i] == MAX_SCALAR
    {
      n := n - 1;
      var c := p[n];
      Utf8Snoc(p, n);
      index := index - |Utf8Char(c)|;
      var next: int := (c as int) + 1;
      if next == 0xD800 {
        next := 0xE000;
      } else if next > MAX_SCALAR {
        continue;
      }
      assert next == NextScalar(c);
      Utf8Splice(p, n, next);
      text := p[..n] + [next];
      bytes := bytes[..index] + Utf8Char(next);
      forall s: Str ensures AtMost(Utf8(p), Utf8(s)) && Less(Utf8(s), bytes) <==> p <= s {
        StringRangeExactly(p, text, n, s);
      }
      return Some(bytes), text;
    }
    forall s: Str ensures AtMost(Utf8(p), Utf8(s)) <==> p <= s {
      UnboundedStringRange(p, s);
    }
    end := None;
  }

  lemma StringAtMost(p: Str, s: Str)
    ensures AtMost(Utf8(p), Utf8(s)) <==> AtMost(p, s)
  {
    Utf8Order(p, s);
    if Utf8(p) == Utf8(s) {
      Utf8Injective(p, s);
    }
  }

  lemma StringRangeExactly(p: Str, text: Str, n: nat, s: Str)
    requires n < |p| && p[n] < MAX_SCALAR
    requires text == p[..n] + [NextScalar(p[n])]
    requires forall i :: n < i < |p| ==> p[i] == MAX_SCALAR
    ensures AtMost(Utf8(p), Utf8(s)) && Less(Utf8(s), Utf8(text)) <==> p <= s
  {
    StringAtMost(p, s);
    Utf8Order(s, text);
    assert Bumped(p, text, n);
    BumpedExactly(p, text, n, s, MAX_SCALAR);
  }

  lemma UnboundedStringRange(p: Str, s: Str)
    requires forall i :: 0 <= i < |p| ==> p[i] == MAX_SCALAR
    ensures AtMost(Utf8(p), Utf8(s)) <==> p <= s
  {
    StringAtMost(p, s);
    if p <= s {
      PrefixAtMost(p, s);
    } else if AtMost(p, s) {
      AllTopIsPrefix(p, s, MAX_SCALAR);
    }
  }

  // `to_prefix_range` of strings.
  method ToStringPrefixRange(p: Str) returns (r: Range)
    ensures r.start == Utf8(p)
    ensures forall s: Str :: AtMost(r.start, Utf8(s)) && (r.end.Some? ==> Less(Utf8(s), r.end.value)) <==> p <= s
  {
    var end, _ := NextString(p);
    r := Range(Utf8(p), end);
  }

  // `next_string_sequence`: the same bound, or the empty string when there is none.
  method NextStringSequence(p: Str) returns (r: Bytes, ghost text: Str)
    ensures r == Utf8(text)
    ensures r == [] <==> forall i :: 0 <= i < |p| ==> p[i] == MAX_SCALAR
    ensures forall s: Str :: AtMost(Utf8(p), Utf8(s)) && (r != [] ==> Less(Utf8(s), r)) <==> p <= s
  {
    var end;
    end, text := NextString(p);
    if end.None? {
      text := [];
      return [], text;
    }
    r := end.value;
  }
}
