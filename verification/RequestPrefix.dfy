/** Sequential coded constants of a service request, and matching a raw request against them. */
module RequestPrefix {
  import opened Bytes

  const U32_MAX: u32 := 0xFFFF_FFFF

  // -- the database's view of a request parameter

  datatype StandardLength = StandardLength(bitLength: u32, condensed: bool, bitMask: Option<seq<byte>>)

  datatype CodedType = CodedType(isUint32: bool, standardLength: Option<StandardLength>)

  /** `codedValue` is absent when the database has none or it does not parse as a u32. */
  datatype CodedConst = CodedConst(codedType: Option<CodedType>, codedValue: Option<u32>)

  datatype Param = Param(bytePosition: Option<u32>, bitPosition: Option<u32>, codedConst: Option<CodedConst>)

  datatype RawConst = RawConst(bytePosition: u32, value: u32, bitLength: u32)

  /** The fewest bytes that hold the constant's bits. */
  function ByteCount(c: RawConst): (n: nat)
    ensures 8 * (n - 1) < c.bitLength as int <= 8 * n
  {
    (c.bitLength as int + 7) / 8
  }

  function UnwrapOr(o: Option<u32>, d: u32): u32 { if o.Some? then o.value else d }

  /** The constant a parameter contributes at (position, bit 0), if it is one. */
  function ConstAt(p: Param, position: u32): Option<RawConst> {
    if UnwrapOr(p.bytePosition, 0) != position || UnwrapOr(p.bitPosition, 0) != 0 then None
    else if p.codedConst.None? || p.codedConst.value.codedType.None? then None
    else
      var t := p.codedConst.value.codedType.value;
      if !t.isUint32 || t.standardLength.None? then None
      else
        var l := t.standardLength.value;
        if l.condensed || (l.bitMask.Some? && l.bitMask.value != []) then None
        else if p.codedConst.value.codedValue.None? then None
        else Some(RawConst(position, p.codedConst.value.codedValue.value, l.bitLength))
  }

  /** The first parameter that yields a constant there. */
  function FindAt(params: seq<Param>, position: u32): (r: Option<RawConst>)
    ensures r.Some? ==> r.value.bytePosition == position
    ensures r.Some? <==> exists i :: 0 <= i < |params| && ConstAt(params[i], position).Some?
  {
    if params == [] then None
    else
      var first := ConstAt(params[0], position);
      if first.Some? then first
      else
        var r := FindAt(params[1..], position);
        assert r.Some? ==> exists i :: 0 <= i < |params| - 1 && ConstAt(params[1..][i], position).Some?;
        assert forall i :: 0 < i < |params| ==> params[i] == params[1..][i - 1];
        r
  }

  /** Which parameters are constants there: an unmasked, uncondensed 32-bit unsigned constant of standard
      length with a value, at that byte and bit 0, an absent position counting as 0. */
  lemma ConstAtExactly(p: Param, position: u32, c: RawConst)
    ensures ConstAt(p, position) == Some(c) <==>
            && c.bytePosition == position
            && (p.bytePosition == Some(position) || (p.bytePosition.None? && position == 0))
            && (p.bitPosition == Some(0) || p.bitPosition.None?)
            && exists mask :: (mask == None || mask == Some([])) && p.codedConst == Coded(c, mask)
  {
    if ConstAt(p, position) == Some(c) {
      var mask := p.codedConst.value.codedType.value.standardLength.value.bitMask;
      assert p.codedConst == Coded(c, mask);
    }
  }

  function Coded(c: RawConst, mask: Option<seq<byte>>): Option<CodedConst> {
    Some(CodedConst(Some(CodedType(true, Some(StandardLength(c.bitLength, false, mask)))), Some(c.value)))
  }

  /** The search returns the first such parameter in the database's order. */
  lemma {:induction false} FindsFirst(params: seq<Param>, position: u32, i: nat)
    requires i < |params| && ConstAt(params[i], position).Some?
    requires forall k :: 0 <= k < i ==> ConstAt(params[k], position).None?
    ensures FindAt(params, position) == ConstAt(params[i], position)
  {
    if i > 0 {
      FindsFirst(params[1..], position, i - 1);
    }
  }

  // -- extraction

  function Next(c: RawConst): (p: u32)
    ensures p >= c.bytePosition
  {
    if c.bytePosition as int + ByteCount(c) > U32_MAX then U32_MAX else c.bytePosition as int + ByteCount(c)
  }

  /** The walk from this position comes back to where it is: a constant without bits, or one at the
      last position. */
  predicate Stuck(params: seq<Param>, position: u32)
    decreases U32_MAX - position
  {
    var c := FindAt(params, position);
    c.Some? && (Next(c.value) == position || Stuck(params, Next(c.value)))
  }

  /** The constants met by the walk, each once. */
  function Layout(params: seq<Param>, position: u32): seq<RawConst>
    decreases U32_MAX - position
  {
    var c := FindAt(params, position);
    if c.None? then []
    else if Next(c.value) == position then [c.value]
    else [c.value] + Layout(params, Next(c.value))
  }

  /** Position before pass k of the loop, unless the loop has ended by then. */
  function PassAt(params: seq<Param>, position: u32, k: nat): Option<u32>
    decreases k
  {
    if k == 0 then Some(position)
    else
      var c := FindAt(params, position);
      if c.None? then None else PassAt(params, Next(c.value), k - 1)
  }

  /** The extraction loop ends exactly when it meets neither a constant of bit length zero nor one
      at the largest position. */
  lemma {:induction false} EndsUnlessStuck(params: seq<Param>, position: u32)
    ensures (exists k: nat :: PassAt(params, position, k).None?) <==> !Stuck(params, position)
    decreases U32_MAX - position
  {
    var c := FindAt(params, position);
    if c.None? {
      assert PassAt(params, position, 1).None?;
      assert exists j: nat :: PassAt(params, position, j).None?;
    } else if Next(c.value) == position {
      forall k: nat ensures PassAt(params, position, k).Some? {
        StaysPut(params, position, k);
      }
    } else {
      var next := Next(c.value);
      EndsUnlessStuck(params, next);
      assert Stuck(params, position) == Stuck(params, next);
      if !Stuck(params, next) {
        var k: nat :| PassAt(params, next, k).None?;
        assert PassAt(params, position, k + 1) == PassAt(params, next, k);
        assert exists j: nat :: PassAt(params, position, j).None?;
      } else {
        forall k: nat ensures PassAt(params, position, k).Some? {
          assert k == 0 || PassAt(params, next, k - 1).Some?;
        }
      }
    }
  }

  lemma {:induction false} StaysPut(params: seq<Param>, position: u32, k: nat)
    requires var c := FindAt(params, position); c.Some? && Next(c.value) == position
    ensures PassAt(params, position, k) == Some(position)
  {
    if k > 0 { StaysPut(params, position, k - 1); }
  }

  /** A request whose only parameter is a SID of bit length zero. */
  const ZERO_LENGTH := Param(Some(0), Some(0),
    Some(CodedConst(Some(CodedType(true, Some(StandardLength(0, false, None)))), Some(0x22))))

  /** On it the loop never ends: every pass finds the same constant at byte 0. */
  lemma ZeroLengthNeverEnds()
    ensures Stuck([ZERO_LENGTH], 0)
    ensures forall k: nat :: PassAt([ZERO_LENGTH], 0, k) == Some(0)
  {
    assert FindAt([ZERO_LENGTH], 0) == Some(RawConst(0, 0x22, 0));
    forall k: nat ensures PassAt([ZERO_LENGTH], 0, k) == Some(0) {
      StaysPut([ZERO_LENGTH], 0, k);
    }
  }

  /** A sufficient check on the database alone. */
  lemma {:induction false} PositiveLengthsEnd(params: seq<Param>, position: u32)
    requires forall i, p: u32 :: 0 <= i < |params| && ConstAt(params[i], p).Some? ==>
               ConstAt(params[i], p).value.bitLength > 0 && p < U32_MAX
    ensures !Stuck(params, position)
    decreases U32_MAX - position
  {
    var c := FindAt(params, position);
    if c.Some? {
      FoundIsConst(params, position);
      if Next(c.value) != position { PositiveLengthsEnd(params, Next(c.value)); }
    }
  }

  lemma {:induction false} FoundIsConst(params: seq<Param>, position: u32)
    requires FindAt(params, position).Some?
    ensures exists i :: 0 <= i < |params| && ConstAt(params[i], position) == FindAt(params, position)
  {
    if ConstAt(params[0], position).None? {
      FoundIsConst(params[1..], position);
      var i :| 0 <= i < |params| - 1 && ConstAt(params[1..][i], position) == FindAt(params[1..], position);
      assert params[i + 1] == params[1..][i];
    }
  }

  lemma LayoutNext(params: seq<Param>, c: RawConst, before: seq<RawConst>)
    requires FindAt(params, c.bytePosition) == Some(c) && !Stuck(params, c.bytePosition)
    ensures Next(c) > c.bytePosition && !Stuck(params, Next(c))
    ensures before + Layout(params, c.bytePosition) == (before + [c]) + Layout(params, Next(c))
  {
    assert Layout(params, c.bytePosition) == [c] + Layout(params, Next(c));
  }

  /** Extraction, on the databases on which the loop ends. */
  method ExtractSequentialCodedConsts(params: seq<Param>) returns (consts: seq<RawConst>)
    requires !Stuck(params, 0)
    ensures consts == Layout(params, 0)
  {
    consts := [];
    var position: u32 := 0;
    var c := FindAt(params, position);
    while c.Some?
      invariant c == FindAt(params, position)
      invariant !Stuck(params, position)
      invariant consts + Layout(params, position) == Layout(params, 0)
      decreases U32_MAX - position, c.Some?
    {
      LayoutNext(params, c.value, consts);
      consts := consts + [c.value];
      position := Next(c.value);
      c := FindAt(params, position);
    }
  }

  /** Offset of constant i when the constants before it are laid end to end. */
  function Offset(consts: seq<RawConst>, i: nat): nat
    requires i <= |consts|
  {
    if i == 0 then 0 else Offset(consts, i - 1) + ByteCount(consts[i - 1])
  }

  /** What extraction returns: gapless constants of positive width, each the database's first at its
      position, up to a position that has none. */
  lemma LayoutIsGapless(params: seq<Param>)
    requires !Stuck(params, 0)
    ensures var consts := Layout(params, 0);
            && (forall i :: 0 <= i < |consts| ==>
                  && consts[i].bytePosition == Offset(consts, i) && ByteCount(consts[i]) > 0
                  && FindAt(params, consts[i].bytePosition) == Some(consts[i]))
            && FindAt(params, Saturated(Offset(consts, |consts|))).None?
  {
    GaplessFrom(params, 0);
    var consts := Layout(params, 0);
    forall i | 0 <= i <= |consts| ensures Offset(consts, i) == OffsetFrom(consts, 0, i) {
      OffsetsAgree(consts, i);
    }
  }

  function Saturated(n: nat): u32 { if n > U32_MAX then U32_MAX else n }

  function OffsetFrom(consts: seq<RawConst>, base: nat, i: nat): nat
    requires i <= |consts|
  {
    if i == 0 then base else OffsetFrom(consts[1..], base + ByteCount(consts[0]), i - 1)
  }

  lemma {:induction false} OffsetFromEnd(consts: seq<RawConst>, base: nat, i: nat)
    requires 0 < i <= |consts|
    ensures OffsetFrom(consts, base, i) == OffsetFrom(consts, base, i - 1) + ByteCount(consts[i - 1])
  {
    if i > 1 { OffsetFromEnd(consts[1..], base + ByteCount(consts[0]), i - 1); }
  }

  lemma {:induction false} OffsetsAgree(consts: seq<RawConst>, i: nat)
    requires i <= |consts|
    ensures Offset(consts, i) == OffsetFrom(consts, 0, i)
  {
    if i > 0 {
      OffsetsAgree(consts, i - 1);
      OffsetFromEnd(consts, 0, i);
    }
  }

  /** These constants lie end to end from a position, up to one that has none. */
  ghost predicate Gapless(params: seq<Param>, consts: seq<RawConst>, position: nat) {
    && (forall i :: 0 <= i < |consts| ==>
          && consts[i].bytePosition == OffsetFrom(consts, position, i) && ByteCount(consts[i]) > 0
          && FindAt(params, consts[i].bytePosition) == Some(consts[i]))
    && FindAt(params, Saturated(OffsetFrom(consts, position, |consts|))).None?
  }

  lemma {:induction false} GaplessFrom(params: seq<Param>, position: u32)
    requires !Stuck(params, position)
    ensures Gapless(params, Layout(params, position), position)
    decreases U32_MAX - position
  {
    var c := FindAt(params, position);
    if c.Some? {
      var next := Next(c.value);
      var rest := Layout(params, next);
      GaplessFrom(params, next);
      assert Layout(params, position) == [c.value] + rest;
      if position as int + ByteCount(c.value) > U32_MAX {
        NothingAtEnd(params);
        GaplessLast(params, c.value);
      } else {
        GaplessNext(params, c.value, rest);
      }
    }
  }

  /** A walk that comes to the last position and goes on would never leave it. */
  lemma NothingAtEnd(params: seq<Param>)
    requires !Stuck(params, U32_MAX)
    ensures Layout(params, U32_MAX) == [] && FindAt(params, U32_MAX).None?
  {
    var c := FindAt(params, U32_MAX);
    assert c.Some? ==> Next(c.value) == U32_MAX;
  }

  lemma GaplessLast(params: seq<Param>, c: RawConst)
    requires FindAt(params, c.bytePosition) == Some(c) && FindAt(params, U32_MAX).None?
    requires c.bytePosition as int + ByteCount(c) > U32_MAX
    ensures Gapless(params, [c], c.bytePosition)
  {
    assert [c][1..] == [];
    assert OffsetFrom([c], c.bytePosition, 1) == c.bytePosition as int + ByteCount(c);
  }

  lemma GaplessNext(params: seq<Param>, c: RawConst, rest: seq<RawConst>)
    requires FindAt(params, c.bytePosition) == Some(c) && ByteCount(c) > 0
    requires Gapless(params, rest, c.bytePosition as int + ByteCount(c))
    ensures Gapless(params, [c] + rest, c.bytePosition)
  {
    var consts, base := [c] + rest, c.bytePosition as int + ByteCount(c);
    assert consts[1..] == rest;
    forall i | 0 <= i < |consts|
      ensures consts[i].bytePosition == OffsetFrom(consts, c.bytePosition, i) && ByteCount(consts[i]) > 0
      ensures FindAt(params, consts[i].bytePosition) == Some(consts[i])
    {
      if i > 0 {
        assert consts[i] == rest[i - 1];
        assert OffsetFrom(consts, c.bytePosition, i) == OffsetFrom(rest, base, i - 1);
      }
    }
    assert OffsetFrom(consts, c.bytePosition, |consts|) == OffsetFrom(rest, base, |rest|);
  }

  // -- matching

  function Zeros(n: nat): (z: seq<byte>)
    ensures |z| == n
  {
    seq(n, _ => 0)
  }

  /** The match, said without the loop: every constant inside the request has at most four bytes and
      equals its stretch, and the one the request ends in has at most four bytes. */
  ghost predicate Accepts(consts: seq<RawConst>, request: seq<byte>) {
    forall i :: 0 <= i < |consts| ==> AcceptsAt(consts, request, i)
  }

  ghost predicate AcceptsAt(consts: seq<RawConst>, request: seq<byte>, i: nat)
    requires i < |consts|
  {
    && (Offset(consts, i) <= |request| ==> ByteCount(consts[i]) <= 4)
    && (Offset(consts, i + 1) <= |request| ==>
          BigEndian(request[Offset(consts, i)..Offset(consts, i + 1)]) == consts[i].value)
  }

  lemma {:induction false} OffsetMonotone(consts: seq<RawConst>, i: nat, j: nat)
    requires i <= j <= |consts|
    ensures Offset(consts, i) <= Offset(consts, j)
  {
    if i < j { OffsetMonotone(consts, i, j - 1); }
  }

  method MatchesRequestPrefix(consts: seq<RawConst>, request: seq<byte>) returns (matches: bool)
    ensures matches <==> Accepts(consts, request)
  {
    var byteIdx := 0;
    var n := 0;
    while n < |consts|
      invariant 0 <= n <= |consts|
      invariant byteIdx == Offset(consts, n) <= |request|
      invariant forall i :: 0 <= i < n ==> AcceptsAt(consts, request, i)
    {
      var count := ByteCount(consts[n]);
      if count > 4 {
        assert !AcceptsAt(consts, request, n);
        return false;
      }
      var end := byteIdx + count;
      assert end == Offset(consts, n + 1);
      if end > |request| {
        forall i | n < i < |consts| ensures Offset(consts, i) > |request| {
          OffsetMonotone(consts, n + 1, i);
        }
        return true;
      }
      var buf := new byte[4](_ => 0);
      var start := 4 - count;
      forall i | start <= i < 4 {
        buf[i] := request[byteIdx + i - start];
      }
      assert buf[..] == Zeros(start) + request[byteIdx..end];
      LeadingZeros(start, request[byteIdx..end]);
      if consts[n].value != BigEndian(buf[..]) {
        assert !AcceptsAt(consts, request, n);
        return false;
      }
      byteIdx := end;
      n := n + 1;
    }
    return true;
  }

  /** Cutting bytes off the end never loses a match. */
  lemma PrefixClosed(consts: seq<RawConst>, request: seq<byte>, n: nat)
    requires n <= |request| && Accepts(consts, request)
    ensures Accepts(consts, request[..n])
  {
    forall i | 0 <= i < |consts| ensures AcceptsAt(consts, request[..n], i) {
      assert AcceptsAt(consts, request, i);
      if Offset(consts, i + 1) <= n {
        var from, to := Offset(consts, i), Offset(consts, i + 1);
        assert request[..n][from..to] == request[from..to];
      }
    }
  }

  // -- the encoding of the constants

  /** The constants are ones a request can carry. */
  ghost predicate Encodable(consts: seq<RawConst>) {
    forall i :: 0 <= i < |consts| ==> ByteCount(consts[i]) <= 4 && consts[i].value < Pow256(ByteCount(consts[i]))
  }

  function Encoding(consts: seq<RawConst>, n: nat): (e: seq<byte>)
    requires n <= |consts| && forall i :: 0 <= i < n ==> consts[i].value < Pow256(ByteCount(consts[i]))
    ensures |e| == Offset(consts, n)
  {
    if n == 0 then [] else Encoding(consts, n - 1) + Encode(consts[n - 1].value, ByteCount(consts[n - 1]))
  }

  /** Big-endian reading is injective on strings of one length. */
  lemma BigEndianInjective(a: seq<byte>, b: seq<byte>)
    requires |a| == |b|
    ensures BigEndian(a) == BigEndian(b) <==> a == b
  {
    LexIsNumeric(a, b);
    LexIsNumeric(b, a);
    if BigEndian(a) == BigEndian(b) { LexAntisymmetric(a, b); }
  }

  lemma ConstMatches(consts: seq<RawConst>, request: seq<byte>, i: nat)
    requires Encodable(consts) && i < |consts| && Offset(consts, i + 1) <= |request|
    ensures AcceptsAt(consts, request, i) <==>
            request[Offset(consts, i)..Offset(consts, i + 1)] == Encode(consts[i].value, ByteCount(consts[i]))
  {
    var c := consts[i];
    var code, part := Encode(c.value, ByteCount(c)), request[Offset(consts, i)..Offset(consts, i + 1)];
    BigEndianInjective(part, code);
  }

  lemma ExtendPrefix(a: seq<byte>, b: seq<byte>, request: seq<byte>)
    requires |a| + |b| <= |request|
    ensures a + b <= request <==> a <= request && request[|a|..|a| + |b|] == b
  {
    if a + b <= request {
      assert request[|a|..|a| + |b|] == (a + b)[|a|..];
    }
  }

  /** The constants wholly inside a request match exactly when it begins with their encoding. */
  lemma {:induction false} MatchedPart(consts: seq<RawConst>, request: seq<byte>, n: nat)
    requires Encodable(consts) && n <= |consts| && Offset(consts, n) <= |request|
    ensures (forall i :: 0 <= i < n ==> AcceptsAt(consts, request, i)) <==> Encoding(consts, n) <= request
  {
    if n > 0 {
      var c := consts[n - 1];
      MatchedPart(consts, request, n - 1);
      ConstMatches(consts, request, n - 1);
      ExtendPrefix(Encoding(consts, n - 1), Encode(c.value, ByteCount(c)), request);
    }
  }

  /** A request long enough for all constants is accepted exactly when they can be encoded and it
      begins with their encoding; in particular a service accepts its own requests. */
  lemma FullRequest(consts: seq<RawConst>, request: seq<byte>)
    requires Offset(consts, |consts|) <= |request|
    ensures Accepts(consts, request) <==> Encodable(consts) && Encoding(consts, |consts|) <= request
  {
    if Accepts(consts, request) { AcceptedIsEncodable(consts, request); }
    if Encodable(consts) { MatchedPart(consts, request, |consts|); }
  }

  lemma AcceptedIsEncodable(consts: seq<RawConst>, request: seq<byte>)
    requires Offset(consts, |consts|) <= |request| && Accepts(consts, request)
    ensures Encodable(consts)
  {
    forall i | 0 <= i < |consts|
      ensures ByteCount(consts[i]) <= 4 && consts[i].value < Pow256(ByteCount(consts[i]))
    {
      OffsetMonotone(consts, i + 1, |consts|);
      assert AcceptsAt(consts, request, i);
    }
  }

  /** A request that ends inside constant n is accepted on the constants before it alone. */
  lemma CutRequest(consts: seq<RawConst>, request: seq<byte>, n: nat)
    requires Encodable(consts) && n < |consts| && Offset(consts, n) <= |request| < Offset(consts, n + 1)
    ensures Accepts(consts, request) <==> Encoding(consts, n) <= request
  {
    MatchedPart(consts, request, n);
    forall i | n <= i < |consts| ensures AcceptsAt(consts, request, i) {
      BeyondEnd(consts, request, n, i);
    }
  }

  lemma BeyondEnd(consts: seq<RawConst>, request: seq<byte>, n: nat, i: nat)
    requires Encodable(consts) && n <= i < |consts| && |request| < Offset(consts, n + 1)
    ensures AcceptsAt(consts, request, i)
  {
    OffsetMonotone(consts, n + 1, i + 1);
  }

  /** The documented meaning: all the bytes provided agree with the constants. */
  ghost predicate Agrees(consts: seq<RawConst>, request: seq<byte>)
    requires Encodable(consts)
  {
    var code := Encoding(consts, |consts|);
    request <= code || code <= request
  }

  lemma {:induction false} EncodingPrefix(consts: seq<RawConst>, i: nat, j: nat)
    requires Encodable(consts) && i <= j <= |consts|
    ensures Encoding(consts, i) <= Encoding(consts, j)
  {
    if i < j {
      EncodingPrefix(consts, i, j - 1);
      EncodingNext(consts, j);
      PrefixTransitive(Encoding(consts, i), Encoding(consts, j - 1), Encoding(consts, j));
    }
  }

  lemma PrefixTransitive(a: seq<byte>, b: seq<byte>, c: seq<byte>)
    requires a <= b && b <= c
    ensures a <= c
  {
  }

  lemma EncodingNext(consts: seq<RawConst>, j: nat)
    requires Encodable(consts) && 0 < j <= |consts|
    ensures Encoding(consts, j - 1) <= Encoding(consts, j)
  {
  }

  /** The constant in which a request of this length ends. */
  lemma {:induction false} EndsIn(consts: seq<RawConst>, length: nat, m: nat) returns (n: nat)
    requires m <= |consts| && length < Offset(consts, m)
    ensures n < m && Offset(consts, n) <= length < Offset(consts, n + 1)
  {
    if Offset(consts, m - 1) <= length { n := m - 1; } else { n := EndsIn(consts, length, m - 1); }
  }

  ghost predicate AtBoundary(consts: seq<RawConst>, length: nat) {
    length >= Offset(consts, |consts|) || exists i :: 0 <= i <= |consts| && Offset(consts, i) == length
  }

  /** Agreement is always accepted. */
  lemma AgreeingIsAccepted(consts: seq<RawConst>, request: seq<byte>)
    requires Encodable(consts) && Agrees(consts, request)
    ensures Accepts(consts, request)
  {
    if |request| >= Offset(consts, |consts|) {
      FullRequest(consts, request);
    } else {
      var n := EndsIn(consts, |request|, |consts|);
      CutRequest(consts, request, n);
      EncodingPrefix(consts, n, |consts|);
    }
  }

  /** The last constant is not compared with a request that ends inside it: acceptance is agreement for
      all requests of a length exactly when that length falls on a boundary between constants or covers
      them all. */
  lemma AcceptanceIsAgreement(consts: seq<RawConst>, length: nat)
    requires Encodable(consts)
    ensures (forall r: seq<byte> :: |r| == length ==> (Accepts(consts, r) <==> Agrees(consts, r)))
            <==> AtBoundary(consts, length)
  {
    if AtBoundary(consts, length) {
      forall r: seq<byte> | |r| == length ensures Accepts(consts, r) <==> Agrees(consts, r) {
        if Agrees(consts, r) { AgreeingIsAccepted(consts, r); }
        if Accepts(consts, r) { AcceptedAtBoundaryAgrees(consts, r); }
      }
    } else {
      var r := Mismatch(consts, length);
      assert |r| == length && !(Accepts(consts, r) <==> Agrees(consts, r));
    }
  }

  lemma AcceptedAtBoundaryAgrees(consts: seq<RawConst>, request: seq<byte>)
    requires Encodable(consts) && AtBoundary(consts, |request|) && Accepts(consts, request)
    ensures Agrees(consts, request)
  {
    if |request| >= Offset(consts, |consts|) {
      FullRequest(consts, request);
    } else {
      var i :| 0 <= i <= |consts| && Offset(consts, i) == |request|;
      MatchedPart(consts, request, i);
      EncodingPrefix(consts, i, |consts|);
    }
  }

  /** An accepted request that differs from the constants in its last byte. */
  lemma Mismatch(consts: seq<RawConst>, length: nat) returns (r: seq<byte>)
    requires Encodable(consts) && !AtBoundary(consts, length)
    ensures |r| == length && Accepts(consts, r) && !Agrees(consts, r)
  {
    var code := Encoding(consts, |consts|);
    var n := EndsIn(consts, length, |consts|);
    assert Offset(consts, n) < length;
    var other: byte := if code[length - 1] == 0 then 1 else 0;
    r := code[..length - 1] + [other];
    EncodingPrefix(consts, n, |consts|);
    assert Encoding(consts, n) <= r;
    CutRequest(consts, r, n);
    assert r[length - 1] != code[length - 1];
  }
}
