/** Fixed-width little-endian decoders, and what a decoded value reveals about its raw bytes. */
module Decode {
  import opened Base
  import opened Metrics

  type byte = x: int | 0 <= x < 256

  // ---------------------------------------------------------------- little-endian words

  function LittleEndian(raw: seq<byte>): nat {
    if raw == [] then 0 else raw[0] + 256 * LittleEndian(raw[1..])
  }

  function Encode(value: nat, width: nat): seq<byte> {
    if width == 0 then [] else [value % 256] + Encode(value / 256, width - 1)
  }

  function Pow256(width: nat): nat {
    if width == 0 then 1 else 256 * Pow256(width - 1)
  }

  lemma {:induction false} LittleEndianBound(raw: seq<byte>)
    ensures LittleEndian(raw) < Pow256(|raw|)
  {
    if raw != [] { LittleEndianBound(raw[1..]); }
  }

  /** Encoding undoes decoding ... */
  lemma {:induction false} EncodeDecode(raw: seq<byte>)
    ensures Encode(LittleEndian(raw), |raw|) == raw
  {
    if raw != [] {
      EncodeDecode(raw[1..]);
      assert LittleEndian(raw) % 256 == raw[0] && LittleEndian(raw) / 256 == LittleEndian(raw[1..]);
    }
  }

  /** ... and decoding undoes encoding for every value that fits the width. */
  lemma {:induction false} DecodeEncode(value: nat, width: nat)
    requires value < Pow256(width)
    ensures |Encode(value, width)| == width && LittleEndian(Encode(value, width)) == value
  {
    if width > 0 { DecodeEncode(value / 256, width - 1); }
  }

  lemma LittleEndianInjective(a: seq<byte>, b: seq<byte>)
    requires |a| == |b| && LittleEndian(a) == LittleEndian(b)
    ensures a == b
  {
    EncodeDecode(a);
    EncodeDecode(b);
  }

  lemma {:induction false} WordBound32(raw: seq<byte>)
    requires |raw| == 4
    ensures LittleEndian(raw) < TWO_32
  {
    LittleEndianBound(raw);
    assert Pow256(4) == 256 * Pow256(3) == 65536 * Pow256(2);
  }

  /** Byte order: the least significant byte comes first. */
  lemma LeastByteFirst(a: byte, b: byte, c: byte, d: byte)
    ensures LittleEndian([a, b, c, d]) == a + 0x100 * b + 0x1_0000 * c + 0x100_0000 * d
    ensures Encode(0x0102_0304, 4) == [4, 3, 2, 1] && Encode(1, 4) == [1, 0, 0, 0]
  {
    var raw: seq<byte> := [a, b, c, d];
    assert raw[1..] == [b, c, d] && raw[1..][1..] == [c, d] && raw[1..][1..][1..] == [d];
    assert LittleEndian([d]) == d;
    assert LittleEndian([c, d]) == c + 256 * d;
    assert LittleEndian([b, c, d]) == b + 256 * LittleEndian([c, d]);
    assert Encode(1, 1) == [1] && Encode(0x0102, 2) == [2, 1] && Encode(0x01_0203, 3) == [3, 2, 1];
    assert Encode(0, 1) == [0] && Encode(0, 2) == [0, 0] && Encode(0, 3) == [0, 0, 0];
  }

  lemma {:induction false} WordBound64(raw: seq<byte>)
    requires |raw| == 8
    ensures LittleEndian(raw) < TWO_64
  {
    LittleEndianBound(raw);
    assert Pow256(8) == 65536 * Pow256(6);
    assert Pow256(6) == 65536 * Pow256(4);
    assert Pow256(4) == 65536 * Pow256(2);
  }

  // ---------------------------------------------------------------- typed values

  datatype Decoded =
    | Uint32(n: int) | Uint64(n: int) | Int32(n: int) | Int64(n: int)
    | Timeval(sec: int, usec: int)
    | Loadavg(load1: real, load5: real, load15: real)
    | SwapUsage(total: int, avail: int, used: int, flags: int)
    | Clockinfo(hz: int, tick: int, spare: int, profhz: int, stathz: int)

  /** Byte length demanded of a fixed-width type. */
  function Width(t: ValueType): Option<nat> {
    match t
    case TypeUint32 => Some(4)
    case TypeInt32 => Some(4)
    case TypeUint64 => Some(8)
    case TypeInt64 => Some(8)
    case TypeTimeval => Some(16)
    case TypeLoadavg => Some(24)
    case TypeSwap => Some(32)
    case TypeClock => Some(20)
    case _ => None
  }

  /** The scale that the load words are divided by; a zero scale counts as 2048. */
  function LoadScale(raw: seq<byte>): (scale: nat)
    requires |raw| == 24
    ensures scale > 0
  {
    var fscale := LittleEndian(raw[16..24]);
    if fscale == 0 then 2048 else fscale
  }

  /** The exact quotient that the floating-point division rounds. */
  function LoadQuotient(word: seq<byte>, scale: nat): real
    requires scale > 0
  {
    LittleEndian(word) as real / scale as real
  }

  function DecodeLoadavg(raw: seq<byte>): Decoded
    requires |raw| == 24
  {
    var scale := LoadScale(raw);
    Loadavg(LoadQuotient(raw[0..4], scale), LoadQuotient(raw[4..8], scale), LoadQuotient(raw[8..12], scale))
  }

  function DecodeAs(t: ValueType, raw: seq<byte>): Decoded
    requires Width(t) == Some(|raw|)
  {
    match t
    case TypeUint32 => Uint32(LittleEndian(raw))
    case TypeInt32 => Int32(Wrap32(LittleEndian(raw)))
    case TypeUint64 => Uint64(LittleEndian(raw))
    case TypeInt64 => Int64(Wrap64(LittleEndian(raw)))
    case TypeTimeval => Timeval(LittleEndian(raw[0..8]), LittleEndian(raw[8..16]))
    case TypeLoadavg => DecodeLoadavg(raw)
    case TypeSwap =>
      SwapUsage(LittleEndian(raw[0..8]), LittleEndian(raw[8..16]),
                LittleEndian(raw[16..24]), LittleEndian(raw[24..32]))
    case TypeClock =>
      Clockinfo(Wrap32(LittleEndian(raw[0..4])), Wrap32(LittleEndian(raw[4..8])),
                Wrap32(LittleEndian(raw[8..12])), Wrap32(LittleEndian(raw[12..16])),
                Wrap32(LittleEndian(raw[16..20])))
  }

  lemma Int32Injective(a: seq<byte>, b: seq<byte>)
    requires |a| == |b| == 4
    ensures Wrap32(LittleEndian(a)) == Wrap32(LittleEndian(b)) <==> a == b
  {
    WordBound32(a);
    WordBound32(b);
    if LittleEndian(a) == LittleEndian(b) { LittleEndianInjective(a, b); }
  }

  lemma Int64Injective(a: seq<byte>, b: seq<byte>)
    requires |a| == |b| == 8
    ensures Wrap64(LittleEndian(a)) == Wrap64(LittleEndian(b)) <==> a == b
  {
    WordBound64(a);
    WordBound64(b);
    if LittleEndian(a) == LittleEndian(b) { LittleEndianInjective(a, b); }
  }

  lemma WordInjective(a: seq<byte>, b: seq<byte>)
    requires |a| == |b|
    ensures LittleEndian(a) == LittleEndian(b) <==> a == b
  {
    if LittleEndian(a) == LittleEndian(b) { LittleEndianInjective(a, b); }
  }

  /** The same word read at the same place in both byte strings. */
  predicate Agree(a: seq<byte>, b: seq<byte>, lo: nat, hi: nat)
    requires lo <= hi <= |a| == |b|
  {
    a[lo..hi] == b[lo..hi]
  }

  lemma SwapWords(a: seq<byte>, b: seq<byte>)
    requires |a| == |b| == 32
    ensures a == b <==> Agree(a, b, 0, 8) && Agree(a, b, 8, 16) && Agree(a, b, 16, 24) && Agree(a, b, 24, 32)
  {
    assert a == a[0..8] + a[8..16] + a[16..24] + a[24..32];
    assert b == b[0..8] + b[8..16] + b[16..24] + b[24..32];
  }

  lemma ClockWords(a: seq<byte>, b: seq<byte>)
    requires |a| == |b| == 20
    ensures a == b <==> Agree(a, b, 0, 4) && Agree(a, b, 4, 8) && Agree(a, b, 8, 12)
                        && Agree(a, b, 12, 16) && Agree(a, b, 16, 20)
  {
    assert a == a[0..4] + a[4..8] + a[8..12] + a[12..16] + a[16..20];
    assert b == b[0..4] + b[4..8] + b[8..12] + b[12..16] + b[16..20];
  }

  lemma ClockFields(a: seq<byte>, b: seq<byte>)
    requires |a| == |b| == 20
    ensures DecodeAs(TypeClock, a).hz == DecodeAs(TypeClock, b).hz <==> Agree(a, b, 0, 4)
    ensures DecodeAs(TypeClock, a).tick == DecodeAs(TypeClock, b).tick <==> Agree(a, b, 4, 8)
    ensures DecodeAs(TypeClock, a).spare == DecodeAs(TypeClock, b).spare <==> Agree(a, b, 8, 12)
    ensures DecodeAs(TypeClock, a).profhz == DecodeAs(TypeClock, b).profhz <==> Agree(a, b, 12, 16)
    ensures DecodeAs(TypeClock, a).stathz == DecodeAs(TypeClock, b).stathz <==> Agree(a, b, 16, 20)
  {
    Int32Injective(a[0..4], b[0..4]);
    Int32Injective(a[4..8], b[4..8]);
    Int32Injective(a[8..12], b[8..12]);
    Int32Injective(a[12..16], b[12..16]);
    Int32Injective(a[16..20], b[16..20]);
  }

  lemma SwapFields(a: seq<byte>, b: seq<byte>)
    requires |a| == |b| == 32
    ensures DecodeAs(TypeSwap, a).total == DecodeAs(TypeSwap, b).total <==> Agree(a, b, 0, 8)
    ensures DecodeAs(TypeSwap, a).avail == DecodeAs(TypeSwap, b).avail <==> Agree(a, b, 8, 16)
    ensures DecodeAs(TypeSwap, a).used == DecodeAs(TypeSwap, b).used <==> Agree(a, b, 16, 24)
    ensures DecodeAs(TypeSwap, a).flags == DecodeAs(TypeSwap, b).flags <==> Agree(a, b, 24, 32)
  {
    WordInjective(a[0..8], b[0..8]);
    WordInjective(a[8..16], b[8..16]);
    WordInjective(a[16..24], b[16..24]);
    WordInjective(a[24..32], b[24..32]);
  }

  /** Every fixed-width type but the load averages decodes without loss: raw bytes and values change together. */
  lemma RawChangeIsDecodedChange(t: ValueType, a: seq<byte>, b: seq<byte>)
    requires Width(t) == Some(|a|) && |a| == |b| && t != TypeLoadavg
    ensures DecodeAs(t, a) == DecodeAs(t, b) <==> a == b
  {
    match t {
      case TypeUint32 => WordInjective(a, b);
      case TypeUint64 => WordInjective(a, b);
      case TypeInt32 => Int32Injective(a, b);
      case TypeInt64 => Int64Injective(a, b);
      case TypeTimeval =>
        WordInjective(a[0..8], b[0..8]);
        WordInjective(a[8..16], b[8..16]);
        assert a == a[0..8] + a[8..16] && b == b[0..8] + b[8..16];
      case TypeSwap =>
        SwapFields(a, b);
        SwapWords(a, b);
      case TypeClock =>
        ClockFields(a, b);
        ClockWords(a, b);
    }
  }

  lemma QuotientsAgree(x: int, s: int, y: int, r: int)
    requires s > 0 && r > 0
    ensures x as real / s as real == y as real / r as real <==> x * r == y * s
  {
    var p, q := x as real / s as real, y as real / r as real;
    assert p * s as real == x as real && q * r as real == y as real;
    assert (x * r) as real == x as real * r as real && (y * s) as real == y as real * s as real;
    assert x as real * r as real == p * (s as real * r as real);
    assert y as real * s as real == q * (s as real * r as real);
    if x * r == y * s {
      CancelFactor(p, q, s as real * r as real);
    }
  }

  lemma CancelFactor(p: real, q: real, factor: real)
    requires factor > 0.0 && p * factor == q * factor
    ensures p == q
  {
    assert (p - q) * factor == 0.0;
  }

  /** The word from `lo` on stands for the same load in both readings, each under its own scale. */
  predicate SameLoad(a: seq<byte>, b: seq<byte>, lo: nat)
    requires |a| == |b| == 24 && lo <= 8
  {
    LittleEndian(a[lo..lo + 4]) * LoadScale(b) == LittleEndian(b[lo..lo + 4]) * LoadScale(a)
  }

  predicate SameLoads(a: seq<byte>, b: seq<byte>)
    requires |a| == |b| == 24
  {
    SameLoad(a, b, 0) && SameLoad(a, b, 4) && SameLoad(a, b, 8)
  }

  /**
   * The load averages are the one lossy type: two readings decode alike exactly when each word times the other
   * reading's scale agrees. The four padding bytes never matter.
   */
  lemma LoadavgChange(a: seq<byte>, b: seq<byte>)
    requires |a| == |b| == 24
    ensures DecodeAs(TypeLoadavg, a) == DecodeAs(TypeLoadavg, b) <==> SameLoads(a, b)
  {
    var s, r := LoadScale(a), LoadScale(b);
    QuotientsAgree(LittleEndian(a[0..4]), s, LittleEndian(b[0..4]), r);
    QuotientsAgree(LittleEndian(a[4..8]), s, LittleEndian(b[4..8]), r);
    QuotientsAgree(LittleEndian(a[8..12]), s, LittleEndian(b[8..12]), r);
  }
}
