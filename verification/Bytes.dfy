/** Octets, fixed-width integers as ranges, the octet-wise order of Rust strings
    and byte vectors, and the big-endian reading of a byte string. */
module Bytes {

  type byte = x: int | 0 <= x < 0x100
  type u16 = x: int | 0 <= x < 0x1_0000
  type u32 = x: int | 0 <= x < 0x1_0000_0000
  type u64 = x: int | 0 <= x < 0x1_0000_0000_0000_0000

  /** ECU names, as the octets of their UTF-8 form. */
  type Name = seq<byte>

  /** An enumeration of a set of names. */
  predicate Distinct(names: seq<Name>) { forall i, j :: 0 <= i < j < |names| ==> names[i] != names[j] }

  datatype Option<+T> = None | Some(value: T)

  datatype Result<+T, +E> = Success(value: T) | Failure(error: E)

  /** Lexicographic order: the `Ord` of `[u8]`, `Vec<u8>` and `str`. */
  predicate LexLeq(a: seq<byte>, b: seq<byte>) {
    a == [] || (b != [] && (a[0] < b[0] || (a[0] == b[0] && LexLeq(a[1..], b[1..]))))
  }

  lemma LexTotal(a: seq<byte>, b: seq<byte>)
    ensures LexLeq(a, b) || LexLeq(b, a)
  {
    if a != [] && b != [] {
      LexTotal(a[1..], b[1..]);
    }
  }

  lemma {:induction false} LexAntisymmetric(a: seq<byte>, b: seq<byte>)
    requires LexLeq(a, b) && LexLeq(b, a)
    ensures a == b
  {
    if a != [] {
      LexAntisymmetric(a[1..], b[1..]);
      assert a == [a[0]] + a[1..] && b == [b[0]] + b[1..];
    }
  }

  lemma {:induction false} LexTransitive(a: seq<byte>, b: seq<byte>, c: seq<byte>)
    requires LexLeq(a, b) && LexLeq(b, c)
    ensures LexLeq(a, c)
  {
    if a != [] && a[0] == b[0] && b[0] == c[0] {
      LexTransitive(a[1..], b[1..], c[1..]);
    }
  }

  /** 256 to the power n. */
  function Pow256(n: nat): (p: nat)
    ensures p >= 1
  {
    if n == 0 then 1 else 0x100 * Pow256(n - 1)
  }

  /** Numeric value of a byte string, most significant byte first. */
  function BigEndian(s: seq<byte>): (v: nat)
    ensures v < Pow256(|s|)
  {
    if s == [] then 0
    else
      HeadBound(s[0], Pow256(|s| - 1), BigEndian(s[1..]));
      s[0] * Pow256(|s| - 1) + BigEndian(s[1..])
  }

  lemma HeadBound(head: byte, weight: nat, rest: nat)
    requires rest < weight
    ensures 0 <= head * weight + rest < 0x100 * weight
  {
    var gap: nat := 0xFF - head;
    assert 0x100 * weight == head * weight + gap * weight + weight;
    assert gap * weight >= 0 && head * weight >= 0;
  }

  /** Fixed-width big-endian encoding; inverse of BigEndian on values that fit. */
  function Encode(v: nat, width: nat): (s: seq<byte>)
    requires v < Pow256(width)
    ensures |s| == width
    ensures BigEndian(s) == v
  {
    if width == 0 then []
    else
      var weight := Pow256(width - 1);
      Quotient(v, weight);
      var head: byte := v / weight;
      var rest := Encode(v % weight, width - 1);
      assert ([head] + rest)[1..] == rest;
      [head] + rest
  }

  lemma Quotient(v: nat, weight: nat)
    requires weight >= 1 && v < 0x100 * weight
    ensures 0 <= v / weight < 0x100
    ensures 0 <= v % weight < weight
    ensures v == v / weight * weight + v % weight
  {
  }

  /** Leading zero bytes do not change the value. */
  lemma {:induction false} LeadingZeros(n: nat, s: seq<byte>)
    ensures BigEndian(seq(n, _ => 0) + s) == BigEndian(s)
  {
    if n == 0 {
      assert seq(0, _ => 0) + s == s;
    } else {
      LeadingZeros(n - 1, s);
      assert (seq(n, _ => 0) + s)[1..] == seq(n - 1, _ => 0) + s;
    }
  }

  /** On equal lengths the octet-wise order is the numeric order. */
  lemma {:induction false} LexIsNumeric(a: seq<byte>, b: seq<byte>)
    requires |a| == |b|
    ensures LexLeq(a, b) <==> BigEndian(a) <= BigEndian(b)
  {
    if a != [] {
      LexIsNumeric(a[1..], b[1..]);
      var weight := Pow256(|a| - 1);
      if a[0] < b[0] {
        Separate(a[0], b[0], weight, BigEndian(a[1..]), BigEndian(b[1..]));
      } else if b[0] < a[0] {
        Separate(b[0], a[0], weight, BigEndian(b[1..]), BigEndian(a[1..]));
      }
    }
  }

  lemma Separate(x: byte, y: byte, weight: nat, restX: nat, restY: nat)
    requires x < y && restX < weight
    ensures x * weight + restX < y * weight + restY
  {
    var gap: nat := y - x - 1;
    assert y * weight == x * weight + gap * weight + weight;
    assert gap * weight >= 0;
  }
}
