/** Range check of byte-field values (`within_limits`, ByteField case). */
module ByteFieldLimits {
  import opened Bytes

  /** `pad_msb_to_len`: zero bytes in front up to the target length. */
  function PadMsb(bytes: seq<byte>, target: nat): (r: seq<byte>)
    ensures |bytes| <= target ==> |r| == target
    ensures BigEndian(r) == BigEndian(bytes)
  {
    var missing := if target >= |bytes| then target - |bytes| else 0;
    LeadingZeros(missing, bytes);
    seq(missing, _ => 0) + bytes
  }

  function Max(a: nat, b: nat): nat { if a >= b then a else b }

  function Length(limit: Option<seq<byte>>): nat { if limit.Some? then |limit.value| else 0 }

  /** A limit that does not parse to bytes is dropped, so it arrives here as None.
      The interval type of a limit plays no part for byte fields. */
  predicate WithinLimits(v: seq<byte>, upper: Option<seq<byte>>, lower: Option<seq<byte>>) {
    var n := Max(|v|, Max(Length(upper), Length(lower)));
    && (upper.Some? ==> LexLeq(PadMsb(v, n), PadMsb(upper.value, n)))
    && (lower.Some? ==> LexLeq(PadMsb(lower.value, n), PadMsb(v, n)))
  }

  /** Padded lexicographic comparison is big-endian comparison, for any three lengths. */
  lemma WithinLimitsIsNumeric(v: seq<byte>, upper: Option<seq<byte>>, lower: Option<seq<byte>>)
    ensures WithinLimits(v, upper, lower) <==>
            && (upper.Some? ==> BigEndian(v) <= BigEndian(upper.value))
            && (lower.Some? ==> BigEndian(lower.value) <= BigEndian(v))
  {
    var n := Max(|v|, Max(Length(upper), Length(lower)));
    if upper.Some? {
      LexIsNumeric(PadMsb(v, n), PadMsb(upper.value, n));
    }
    if lower.Some? {
      LexIsNumeric(PadMsb(lower.value, n), PadMsb(v, n));
    }
  }
}
