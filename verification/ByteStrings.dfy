/**
 Byte strings, the `memcmp` order every tree of the database is sorted by, and
 the big-endian encoding of fixed-width integers.
 */
module ByteStrings {

  datatype Option<+T> = None | Some(value: T)

  datatype Result<+T, +E> = Ok(value: T) | Err(error: E)

  type Byte = b: int | 0 <= b < 256

  type Bytes = seq<Byte>

  // Strict lexicographic order; on bytes this is `memcmp`. Scalar values compare the same way.
  predicate Less(a: seq<int>, b: seq<int>) {
    b != [] && (a == [] || a[0] < b[0] || (a[0] == b[0] && Less(a[1..], b[1..])))
  }

  predicate AtMost(a: seq<int>, b: seq<int>) {
    a == b || Less(a, b)
  }

  // `a` and `b` first differ at `i`, a position both of them have.
  ghost predicate DivergeAt(a: seq<int>, b: seq<int>, i: nat) {
    i < |a| && i < |b| && a[..i] == b[..i] && a[i] != b[i]
  }

  // The order of `a` and `b` is settled by a byte they both have, so nothing appended to either can change it.
  ghost predicate SettledLess(a: seq<int>, b: seq<int>) {
    exists i: nat :: DivergeAt(a, b, i) && a[i] < b[i]
  }

  lemma {:induction false} LessIrreflexive(a: seq<int>)
    ensures !Less(a, a)
  {
    if a != [] {
      LessIrreflexive(a[1..]);
    }
  }

  lemma {:induction false} LessTotal(a: seq<int>, b: seq<int>)
    ensures Less(a, b) || a == b || Less(b, a)
  {
    if a != [] && b != [] && a[0] == b[0] {
      LessTotal(a[1..], b[1..]);
      assert a == [a[0]] + a[1..] && b == [b[0]] + b[1..];
    }
  }

  lemma {:induction false} LessTransitive(a: seq<int>, b: seq<int>, c: seq<int>)
    requires Less(a, b) && Less(b, c)
    ensures Less(a, c)
  {
    if a != [] && a[0] == b[0] && b[0] == c[0] {
      LessTransitive(a[1..], b[1..], c[1..]);
    }
  }

  lemma LessAsymmetric(a: seq<int>, b: seq<int>)
    requires Less(a, b)
    ensures !Less(b, a) && a != b
  {
    LessIrreflexive(a);
    if Less(b, a) {
      LessTransitive(a, b, a);
    }
  }

  // A common prefix does not take part in the comparison.
  lemma {:induction false} LessCancelsPrefix(p: seq<int>, a: seq<int>, b: seq<int>)
    ensures Less(p + a, p + b) == Less(a, b)
  {
    if p == [] {
      assert p + a == a && p + b == b;
    } else {
      assert (p + a)[1..] == p[1..] + a && (p + b)[1..] == p[1..] + b;
      LessCancelsPrefix(p[1..], a, b);
    }
  }

  lemma DivergenceDecides(a: seq<int>, b: seq<int>, i: nat)
    requires DivergeAt(a, b, i)
    ensures Less(a, b) == (a[i] < b[i])
    ensures a != b
  {
    assert a == a[..i] + a[i..] && b == a[..i] + b[i..];
    LessCancelsPrefix(a[..i], a[i..], b[i..]);
  }

  lemma SettledStays(a: seq<int>, b: seq<int>, x: seq<int>, y: seq<int>)
    requires SettledLess(a, b)
    ensures SettledLess(a + x, b + y)
    ensures Less(a + x, b + y)
  {
    var i: nat :| DivergeAt(a, b, i) && a[i] < b[i];
    assert (a + x)[..i] == a[..i] && (b + y)[..i] == b[..i];
    assert DivergeAt(a + x, b + y, i);
    DivergenceDecides(a + x, b + y, i);
  }

  lemma SettledUnderPrefix(p: seq<int>, a: seq<int>, b: seq<int>)
    requires SettledLess(a, b)
    ensures SettledLess(p + a, p + b)
  {
    var i: nat :| DivergeAt(a, b, i) && a[i] < b[i];
    assert (p + a)[..|p| + i] == p + a[..i];
    assert (p + b)[..|p| + i] == p + b[..i];
    assert DivergeAt(p + a, p + b, |p| + i) && (p + a)[|p| + i] < (p + b)[|p| + i];
  }

  lemma ExtensionIsGreater(a: seq<int>, x: seq<int>)
    requires x != []
    ensures Less(a, a + x)
  {
    assert a == a + [];
    LessCancelsPrefix(a, [], x);
  }

  // Smaller means settled smaller, or a proper prefix.
  lemma {:induction false} LessCases(a: seq<int>, b: seq<int>)
    requires Less(a, b)
    ensures SettledLess(a, b) || (a < b)
  {
    if a != [] {
      if a[0] < b[0] {
        assert DivergeAt(a, b, 0);
      } else {
        LessCases(a[1..], b[1..]);
        if SettledLess(a[1..], b[1..]) {
          SettledUnderPrefix([a[0]], a[1..], b[1..]);
          assert [a[0]] + a[1..] == a && [a[0]] + b[1..] == b;
        }
      }
    }
  }

  // The last key of a tree is its `memcmp` maximum.
  predicate IsLastKey(keys: set<Bytes>, last: Bytes) {
    last in keys && forall k :: k in keys ==> AtMost(k, last)
  }

  lemma {:induction false} LastKeyExists(keys: set<Bytes>)
    requires keys != {}
    ensures exists last :: IsLastKey(keys, last)
    decreases |keys|
  {
    var x :| x in keys;
    var rest := keys - {x};
    if rest == {} {
      assert keys == {x};
      assert IsLastKey(keys, x);
    } else {
      LastKeyExists(rest);
      var m: Bytes :| IsLastKey(rest, m);
      LessTotal(x, m);
      if Less(m, x) {
        forall k | k in keys ensures AtMost(k, x) {
          if k != x && k != m {
            assert AtMost(k, m);
            LessTransitive(k, m, x);
          }
        }
        assert IsLastKey(keys, x);
      } else {
        assert IsLastKey(keys, m);
      }
    }
  }

  lemma LastKeyUnique(keys: set<Bytes>, a: Bytes, b: Bytes)
    requires IsLastKey(keys, a) && IsLastKey(keys, b)
    ensures a == b
  {
    if a != b {
      LessAsymmetric(a, b);
    }
  }

  // 256 to the power of `width`: how many values a `width`-byte integer has.
  function Capacity(width: nat): (c: nat)
    ensures c >= 1
  {
    if width == 0 then 1 else 256 * Capacity(width - 1)
  }

  // `to_be_bytes`
  function BigEndian(width: nat, x: nat): (b: Bytes)
    requires x < Capacity(width)
    ensures |b| == width
  {
    if width == 0 then [] else BigEndian(width - 1, x / 256) + [x % 256]
  }

  // `from_be_bytes`
  function FromBigEndian(b: Bytes): (x: nat)
    ensures x < Capacity(|b|)
  {
    if b == [] then 0 else 256 * FromBigEndian(b[..|b| - 1]) + b[|b| - 1]
  }

  lemma {:induction false} BigEndianRoundTrip(width: nat, x: nat)
    requires x < Capacity(width)
    ensures FromBigEndian(BigEndian(width, x)) == x
  {
    if width > 0 {
      BigEndianRoundTrip(width - 1, x / 256);
      var b := BigEndian(width, x);
      assert b[..width - 1] == BigEndian(width - 1, x / 256);
    }
  }

  // Unsigned primitives sort as numbers.
  lemma {:induction false} UnsignedOrder(a: Bytes, b: Bytes)
    requires |a| == |b|
    ensures Less(a, b) <==> FromBigEndian(a) < FromBigEndian(b)
    decreases |a|
  {
    if a != [] {
      var n := |a| - 1;
      UnsignedOrder(a[..n], b[..n]);
      assert a == a[..n] + [a[n]] && b == b[..n] + [b[n]];
      if a[..n] == b[..n] {
        LessCancelsPrefix(a[..n], [a[n]], [b[n]]);
      } else {
        LessTotal(a[..n], b[..n]);
        if Less(a[..n], b[..n]) {
          LessCases(a[..n], b[..n]);
          SettledStays(a[..n], b[..n], [a[n]], [b[n]]);
        } else {
          LessCases(b[..n], a[..n]);
          SettledStays(b[..n], a[..n], [b[n]], [a[n]]);
          LessAsymmetric(b, a);
          LessAsymmetric(b[..n], a[..n]);
          UnsignedOrder(b[..n], a[..n]);
        }
      }
    }
  }

  // Two's complement, as the signed primitives encode themselves.
  function TwosComplement(width: nat, x: int): (u: nat)
    requires width > 0 && -2 * x <= Capacity(width) && 2 * x < Capacity(width)
    ensures u < Capacity(width)
  {
    if x < 0 then x + Capacity(width) else x
  }

  // Signed primitives sort as numbers exactly within one sign.
  lemma SignedOrder(width: nat, x: int, y: int)
    requires width > 0 && x != y
    requires -2 * x <= Capacity(width) && 2 * x < Capacity(width)
    requires -2 * y <= Capacity(width) && 2 * y < Capacity(width)
    ensures (Less(BigEndian(width, TwosComplement(width, x)), BigEndian(width, TwosComplement(width, y))) <==> x < y)
            <==> (x < 0 <==> y < 0)
  {
    var u, v := TwosComplement(width, x), TwosComplement(width, y);
    BigEndianRoundTrip(width, u);
    BigEndianRoundTrip(width, v);
    UnsignedOrder(BigEndian(width, u), BigEndian(width, v));
  }
}
