/** One live metric read: which sysctl is asked, how its bytes are typed, and which failures are reported. */
module LiveRead {
  import opened Base
  import opened Metrics
  import opened Decode

  datatype ReadError =
    | SysctlFailed(message: string)
    | WrongLength(source: string, expected: nat, got: nat)
    | UnsupportedType(text: string)

  datatype Value =
    | RawValue(raw: seq<byte>)
    | StringValue(text: seq<byte>)
    | NumberValue(number: Decoded)
    | TimevalValue(sec: int, usec: int)
    | LoadavgValue(load1: int, load5: int, load15: int)  // in hundredths
    | SwapValue(total: int, avail: int, used: int)
    | ClockValue(hz: int, tick: int, profhz: int, stathz: int)
    | ComputedValue(fields: map<string, string>)

  /** `category` is None for a metric outside the registry. */
  datatype Metric = Metric(name: string, category: Option<Category>, outcome: Result<Value, ReadError>)

  /** What the kernel answers when a sysctl is read by name. */
  type RawRead = string -> Result<seq<byte>, string>

  /** What a server-side aggregate evaluates to. */
  type Computed = string -> Result<Value, ReadError>

  // ---------------------------------------------------------------- table form

  /** The sysctl behind a metric: three struct types always read one fixed sysctl. */
  function Source(t: ValueType, name: string): string {
    match t
    case TypeLoadavg => "vm.loadavg"
    case TypeSwap => "vm.swapusage"
    case TypeClock => "kern.clockrate"
    case _ => name
  }

  function StripNul(raw: seq<byte>): seq<byte> {
    if |raw| > 0 && raw[|raw| - 1] == 0 then raw[..|raw| - 1] else raw
  }

  /** Two-decimal printing: the nearest hundredth, and of two equally near ones the even one. */
  function Hundredths(x: real): int {
    var below := (100.0 * x).Floor;
    var rest := 100.0 * x - below as real;
    if rest < 0.5 || (rest == 0.5 && below % 2 == 0) then below else below + 1
  }

  /**
   * The part of a decoded struct that a response carries: swap flags and the clock's spare word are dropped, and
   * loads are cut to two decimals.
   */
  function Present(d: Decoded): Value {
    match d
    case Timeval(sec, usec) => TimevalValue(sec, usec)
    case Loadavg(load1, load5, load15) => LoadavgValue(Hundredths(load1), Hundredths(load5), Hundredths(load15))
    case SwapUsage(total, avail, used, _) => SwapValue(total, avail, used)
    case Clockinfo(hz, tick, _, profhz, stathz) => ClockValue(hz, tick, profhz, stathz)
    case _ => NumberValue(d)
  }

  /** The value of type `t` that the bytes `raw` of `source` stand for. */
  function Typed(t: ValueType, source: string, raw: seq<byte>): Result<Value, ReadError> {
    match Width(t)
    case Some(w) =>
      if |raw| != w then Err(WrongLength(source, w, |raw|)) else Ok(Present(DecodeAs(t, raw)))
    case None =>
      if t == TypeString then Ok(StringValue(StripNul(raw))) else Ok(RawValue(raw))
  }

  /** A name outside the registry is read raw. */
  function TypeOf(info: Option<Info>): ValueType {
    if info.Some? then info.value.valueType else TypeRaw
  }

  /** A live read, by table: resolve the source, read it, type it. */
  function LiveOutcome(info: Option<Info>, name: string, read: RawRead, computed: Computed): Result<Value, ReadError> {
    var t := TypeOf(info);
    if t == TypeComputed then computed(name)
    else if t.TypeOther? then Err(UnsupportedType(t.text))
    else
      match read(Source(t, name))
      case Err(message) => Err(SysctlFailed(message))
      case Ok(raw) => Typed(t, Source(t, name), raw)
  }

  function LiveMetric(info: Option<Info>, name: string, read: RawRead, computed: Computed): Metric {
    Metric(name,
           if info.Some? then Some(info.value.category) else None,
           LiveOutcome(info, name, read, computed))
  }

  // ---------------------------------------------------------------- the decoders of the MIB cache

  function GetFixed(t: ValueType, source: string, read: RawRead): Result<Decoded, ReadError>
    requires Width(t).Some?
  {
    match read(source)
    case Err(message) => Err(SysctlFailed(message))
    case Ok(raw) =>
      if |raw| != Width(t).value then Err(WrongLength(source, Width(t).value, |raw|))
      else Ok(DecodeAs(t, raw))
  }

  /** GetInt32 reads an unsigned word first and reinterprets it. */
  function GetInt32(source: string, read: RawRead): Result<Decoded, ReadError> {
    match GetFixed(TypeUint32, source, read)
    case Ok(word) => Ok(Int32(Wrap32(word.n)))
    case Err(e) => Err(e)
  }

  function GetInt64(source: string, read: RawRead): Result<Decoded, ReadError> {
    match GetFixed(TypeUint64, source, read)
    case Ok(word) => Ok(Int64(Wrap64(word.n)))
    case Err(e) => Err(e)
  }

  // ---------------------------------------------------------------- branch form

  /** readMetricLive: one branch a type, filling the fields of the metric as it goes. */
  method ReadMetricLive(info: Option<Info>, name: string, read: RawRead, computed: Computed) returns (m: Metric)
    ensures m == LiveMetric(info, name, read, computed)
  {
    m := Metric(name, None, Err(UnsupportedType("")));
    if info.Some? {
      m := m.(category := Some(info.value.category));
    }
    if info.None? {
      match read(name) {
        case Err(message) => m := m.(outcome := Err(SysctlFailed(message)));
        case Ok(raw) => m := m.(outcome := Ok(RawValue(raw)));
      }
      return;
    }
    if info.value.valueType == TypeComputed {
      m := m.(outcome := computed(name));
      return;
    }
    var decoded: Result<Decoded, ReadError>;
    match info.value.valueType {
      case TypeString =>
        match read(name) {
          case Err(message) => m := m.(outcome := Err(SysctlFailed(message)));
          case Ok(raw) => m := m.(outcome := Ok(StringValue(StripNul(raw))));
        }
        return;
      case TypeRaw =>
        match read(name) {
          case Err(message) => m := m.(outcome := Err(SysctlFailed(message)));
          case Ok(raw) => m := m.(outcome := Ok(RawValue(raw)));
        }
        return;
      case TypeOther(text) =>
        m := m.(outcome := Err(UnsupportedType(text)));
        return;
      case TypeUint64 => decoded := GetFixed(TypeUint64, name, read);
      case TypeUint32 => decoded := GetFixed(TypeUint32, name, read);
      case TypeInt32 => decoded := GetInt32(name, read);
      case TypeInt64 => decoded := GetInt64(name, read);
      case TypeTimeval => decoded := GetFixed(TypeTimeval, name, read);
      case TypeLoadavg => decoded := GetFixed(TypeLoadavg, "vm.loadavg", read);
      case TypeSwap => decoded := GetFixed(TypeSwap, "vm.swapusage", read);
      case TypeClock => decoded := GetFixed(TypeClock, "kern.clockrate", read);
    }
    match decoded {
      case Err(e) => m := m.(outcome := Err(e));
      case Ok(d) => m := m.(outcome := Ok(Present(d)));
    }
  }

  // ---------------------------------------------------------------- what a kernel value answers

  /** The two's complement word of a signed value. */
  function TwosComplement(v: int, modulus: nat): nat
    requires 0 <= v + modulus
  {
    if v < 0 then v + modulus else v
  }

  lemma Word4(v: nat)
    requires v < TWO_32
    ensures |Encode(v, 4)| == 4 && LittleEndian(Encode(v, 4)) == v
  {
    Pow256Of4();
    DecodeEncode(v, 4);
  }

  lemma Word8(v: nat)
    requires v < TWO_64
    ensures |Encode(v, 8)| == 8 && LittleEndian(Encode(v, 8)) == v
  {
    Pow256Of8();
    DecodeEncode(v, 8);
  }

  lemma Pow256Of4()
    ensures Pow256(4) == TWO_32
  {
    assert Pow256(4) == 65536 * Pow256(2);
  }

  lemma Pow256Of8()
    ensures Pow256(8) == TWO_64
  {
    Pow256Of4();
    assert Pow256(6) == 65536 * Pow256(4);
    assert Pow256(8) == 65536 * Pow256(6);
  }

  lemma SignedWord4(v: int)
    requires -TWO_31 <= v < TWO_31
    ensures var raw := Encode(TwosComplement(v, TWO_32), 4); |raw| == 4 && Wrap32(LittleEndian(raw)) == v
  {
    Word4(TwosComplement(v, TWO_32));
  }

  lemma SignedWord8(v: int)
    requires -TWO_63 <= v < TWO_63
    ensures var raw := Encode(TwosComplement(v, TWO_64), 8); |raw| == 8 && Wrap64(LittleEndian(raw)) == v
  {
    Word8(TwosComplement(v, TWO_64));
  }

  /** A number that the kernel holds under the metric's own name is answered as that number. */
  lemma NumberAnswers(info: Info, name: string, read: RawRead, computed: Computed, v: int)
    ensures info.valueType == TypeUint32 && 0 <= v < 0x1_0000_0000 && read(name) == Ok(Encode(v, 4)) ==>
              LiveOutcome(Some(info), name, read, computed) == Ok(NumberValue(Uint32(v)))
    ensures info.valueType == TypeUint64 && 0 <= v < 0x1_0000_0000_0000_0000 && read(name) == Ok(Encode(v, 8)) ==>
              LiveOutcome(Some(info), name, read, computed) == Ok(NumberValue(Uint64(v)))
    ensures info.valueType == TypeInt32 && -0x8000_0000 <= v < 0x8000_0000
            && read(name) == Ok(Encode(TwosComplement(v, 0x1_0000_0000), 4)) ==>
              LiveOutcome(Some(info), name, read, computed) == Ok(NumberValue(Int32(v)))
    ensures info.valueType == TypeInt64 && -0x8000_0000_0000_0000 <= v < 0x8000_0000_0000_0000
            && read(name) == Ok(Encode(TwosComplement(v, 0x1_0000_0000_0000_0000), 8)) ==>
              LiveOutcome(Some(info), name, read, computed) == Ok(NumberValue(Int64(v)))
  {
    if 0 <= v < TWO_32 { Word4(v); }
    if 0 <= v < TWO_64 { Word8(v); }
    if -TWO_31 <= v < TWO_31 { SignedWord4(v); }
    if -TWO_63 <= v < TWO_63 { SignedWord8(v); }
  }

  /** Two uint64 words: seconds, then microseconds. */
  lemma TimevalAnswers(info: Info, name: string, read: RawRead, computed: Computed, sec: nat, usec: nat)
    requires sec < 0x1_0000_0000_0000_0000 && usec < 0x1_0000_0000_0000_0000
    requires info.valueType == TypeTimeval && read(name) == Ok(Encode(sec, 8) + Encode(usec, 8))
    ensures LiveOutcome(Some(info), name, read, computed) == Ok(TimevalValue(sec, usec))
  {
    var first, second := Encode(sec, 8), Encode(usec, 8);
    Word8(sec);
    Word8(usec);
    assert (first + second)[0..8] == first && (first + second)[8..16] == second;
  }

  /** Four uint64 words of vm.swapusage: total, available and used are answered, the flags are not. */
  lemma SwapAnswers(info: Info, name: string, read: RawRead, computed: Computed,
                    total: nat, avail: nat, used: nat, flags: nat)
    requires total < 0x1_0000_0000_0000_0000 && avail < 0x1_0000_0000_0000_0000
    requires used < 0x1_0000_0000_0000_0000 && flags < 0x1_0000_0000_0000_0000
    requires info.valueType == TypeSwap
    requires read("vm.swapusage") == Ok(Encode(total, 8) + Encode(avail, 8) + Encode(used, 8) + Encode(flags, 8))
    ensures LiveOutcome(Some(info), name, read, computed) == Ok(SwapValue(total, avail, used))
  {
    Word8(total);
    Word8(avail);
    Word8(used);
    Word8(flags);
    FourWords(Encode(total, 8), Encode(avail, 8), Encode(used, 8), Encode(flags, 8));
  }

  lemma FourWords(a: seq<byte>, b: seq<byte>, c: seq<byte>, d: seq<byte>)
    requires |a| == |b| == |c| == |d| == 8
    ensures var raw := a + b + c + d;
            |raw| == 32 && raw[0..8] == a && raw[8..16] == b && raw[16..24] == c && raw[24..32] == d
  {
  }

  /** Five int32 words of kern.clockrate: the third one is spare and not answered. */
  lemma ClockAnswers(info: Info, name: string, read: RawRead, computed: Computed,
                     hz: int, tick: int, spare: int, profhz: int, stathz: int)
    requires forall v :: v in [hz, tick, spare, profhz, stathz] ==> -0x8000_0000 <= v < 0x8000_0000
    requires info.valueType == TypeClock
    requires read("kern.clockrate") == Ok(ClockBytes(hz, tick, spare, profhz, stathz))
    ensures LiveOutcome(Some(info), name, read, computed) == Ok(ClockValue(hz, tick, profhz, stathz))
  {
    var all := [hz, tick, spare, profhz, stathz];
    assert hz in all && tick in all && spare in all && profhz in all && stathz in all;
    SignedWord4(hz);
    SignedWord4(tick);
    SignedWord4(spare);
    SignedWord4(profhz);
    SignedWord4(stathz);
    FiveWords(Int32Bytes(hz), Int32Bytes(tick), Int32Bytes(spare), Int32Bytes(profhz), Int32Bytes(stathz));
  }

  function Int32Bytes(v: int): seq<byte>
    requires -0x8000_0000 <= v < 0x8000_0000
  {
    Encode(TwosComplement(v, 0x1_0000_0000), 4)
  }

  function ClockBytes(hz: int, tick: int, spare: int, profhz: int, stathz: int): seq<byte>
    requires forall v :: v in [hz, tick, spare, profhz, stathz] ==> -0x8000_0000 <= v < 0x8000_0000
  {
    var all := [hz, tick, spare, profhz, stathz];
    assert hz in all && tick in all && spare in all && profhz in all && stathz in all;
    Int32Bytes(hz) + Int32Bytes(tick) + Int32Bytes(spare) + Int32Bytes(profhz) + Int32Bytes(stathz)
  }

  lemma FiveWords(a: seq<byte>, b: seq<byte>, c: seq<byte>, d: seq<byte>, e: seq<byte>)
    requires |a| == |b| == |c| == |d| == |e| == 4
    ensures var raw := a + b + c + d + e;
            && |raw| == 20 && raw[0..4] == a && raw[4..8] == b && raw[8..12] == c
            && raw[12..16] == d && raw[16..20] == e
  {
  }

  /** A string is answered without one trailing NUL, raw bytes and unknown names as they are. */
  lemma BytesAnswer(info: Info, name: string, read: RawRead, computed: Computed, text: seq<byte>)
    ensures info.valueType == TypeString && read(name) == Ok(text + [0]) ==>
              LiveOutcome(Some(info), name, read, computed) == Ok(StringValue(text))
    ensures info.valueType == TypeString && read(name) == Ok(text) && (text == [] || text[|text| - 1] != 0) ==>
              LiveOutcome(Some(info), name, read, computed) == Ok(StringValue(text))
    ensures info.valueType == TypeRaw && read(name) == Ok(text) ==>
              LiveOutcome(Some(info), name, read, computed) == Ok(RawValue(text))
    ensures read(name) == Ok(text) ==> LiveOutcome(None, name, read, computed) == Ok(RawValue(text))
  {
    assert (text + [0])[..|text|] == text;
  }

  /** What no sysctl of the metric's own name answers: aggregates, unsupported types, and the category. */
  lemma OtherAnswers(info: Info, name: string, read: RawRead, computed: Computed)
    ensures info.valueType == TypeComputed ==> LiveOutcome(Some(info), name, read, computed) == computed(name)
    ensures info.valueType.TypeOther? ==>
              LiveOutcome(Some(info), name, read, computed) == Err(UnsupportedType(info.valueType.text))
    ensures LiveMetric(Some(info), name, read, computed)
            == Metric(name, Some(info.category), LiveOutcome(Some(info), name, read, computed))
    ensures LiveMetric(None, name, read, computed) == Metric(name, None, LiveOutcome(None, name, read, computed))
  {
  }

  /** A failing sysctl answers its message, and so does a byte string whose length is not the type's. */
  predicate Checked(outcome: Result<Value, ReadError>, source: string, width: nat, bytes: Result<seq<byte>, string>) {
    match bytes
    case Err(message) => outcome == Err(SysctlFailed(message))
    case Ok(raw) => if |raw| == width then outcome.Ok? else outcome == Err(WrongLength(source, width, |raw|))
  }

  lemma FailureAnswers(info: Info, name: string, read: RawRead, computed: Computed)
    ensures var outcome := LiveOutcome(Some(info), name, read, computed);
            match info.valueType
            case TypeUint32 => Checked(outcome, name, 4, read(name))
            case TypeInt32 => Checked(outcome, name, 4, read(name))
            case TypeUint64 => Checked(outcome, name, 8, read(name))
            case TypeInt64 => Checked(outcome, name, 8, read(name))
            case TypeTimeval => Checked(outcome, name, 16, read(name))
            case TypeLoadavg => Checked(outcome, "vm.loadavg", 24, read("vm.loadavg"))
            case TypeSwap => Checked(outcome, "vm.swapusage", 32, read("vm.swapusage"))
            case TypeClock => Checked(outcome, "kern.clockrate", 20, read("kern.clockrate"))
            case TypeString => read(name).Err? ==> outcome == Err(SysctlFailed(read(name).error))
            case TypeRaw => read(name).Err? ==> outcome == Err(SysctlFailed(read(name).error))
            case _ => true
    ensures read(name).Err? ==> LiveOutcome(None, name, read, computed) == Err(SysctlFailed(read(name).error))
  {
  }

  // ---------------------------------------------------------------- what a response reveals

  /** The bytes of a fixed-width reading that survive into the response. */
  function Visible(t: ValueType, raw: seq<byte>): seq<byte>
    requires Width(t) == Some(|raw|)
  {
    match t
    case TypeSwap => raw[..24]
    case TypeClock => raw[..8] + raw[12..]
    case _ => raw
  }

  lemma ConcatAgrees(a1: seq<byte>, a2: seq<byte>, b1: seq<byte>, b2: seq<byte>)
    requires |a1| == |b1|
    ensures a1 + a2 == b1 + b2 <==> a1 == b1 && a2 == b2
  {
    if a1 + a2 == b1 + b2 {
      assert a1 == (a1 + a2)[..|a1|] == (b1 + b2)[..|b1|] == b1;
      assert a2 == (a1 + a2)[|a1|..] == (b1 + b2)[|b1|..] == b2;
    }
  }

  lemma SwapVisible(a: seq<byte>, b: seq<byte>)
    requires |a| == |b| == 32
    ensures a[..24] == b[..24] <==> Agree(a, b, 0, 8) && Agree(a, b, 8, 16) && Agree(a, b, 16, 24)
  {
    assert a[..24] == a[0..8] + (a[8..16] + a[16..24]) && b[..24] == b[0..8] + (b[8..16] + b[16..24]);
    ConcatAgrees(a[0..8], a[8..16] + a[16..24], b[0..8], b[8..16] + b[16..24]);
    ConcatAgrees(a[8..16], a[16..24], b[8..16], b[16..24]);
  }

  lemma ClockVisible(a: seq<byte>, b: seq<byte>)
    requires |a| == |b| == 20
    ensures a[..8] + a[12..] == b[..8] + b[12..] <==>
            Agree(a, b, 0, 4) && Agree(a, b, 4, 8) && Agree(a, b, 12, 16) && Agree(a, b, 16, 20)
  {
    assert a[..8] == a[0..4] + a[4..8] && b[..8] == b[0..4] + b[4..8];
    assert a[12..] == a[12..16] + a[16..20] && b[12..] == b[12..16] + b[16..20];
    ConcatAgrees(a[..8], a[12..], b[..8], b[12..]);
    ConcatAgrees(a[0..4], a[4..8], b[0..4], b[4..8]);
    ConcatAgrees(a[12..16], a[16..20], b[12..16], b[16..20]);
  }

  /** Two readings of a type other than the load averages answer alike exactly when their visible bytes are equal. */
  lemma ResponseChange(t: ValueType, source: string, a: seq<byte>, b: seq<byte>)
    requires Width(t) == Some(|a|) && |a| == |b| && t != TypeLoadavg
    ensures Typed(t, source, a) == Typed(t, source, b) <==> Visible(t, a) == Visible(t, b)
  {
    if t == TypeSwap {
      SwapFields(a, b);
      SwapVisible(a, b);
    } else if t == TypeClock {
      ClockFields(a, b);
      ClockVisible(a, b);
    } else {
      RawChangeIsDecodedChange(t, a, b);
    }
  }

  /** String readings answer alike when they are equal or differ by one trailing NUL. */
  lemma StringResponseChange(source: string, a: seq<byte>, b: seq<byte>)
    ensures Typed(TypeString, source, a) == Typed(TypeString, source, b) <==>
            a == b || (a == b + [0] && StripNul(b) == b) || (b == a + [0] && StripNul(a) == a)
  {
    if StripNul(a) == StripNul(b) {
      assert a == StripNul(a) || a == StripNul(a) + [0];
      assert b == StripNul(b) || b == StripNul(b) + [0];
    }
  }

  // ---------------------------------------------------------------- what two decimals reveal of a load

  /** `h` hundredths is the nearest to word / scale, in whole numbers; of two equally near, the even one. */
  predicate PrintsAs(word: nat, scale: nat, h: int) {
    var off := 200 * word - 2 * scale * h;
    off <= scale && -off <= scale && (off == scale || -off == scale ==> h % 2 == 0)
  }

  /** The hundredths that a word prints as under a scale, by integer division. */
  function PrintedLoad(word: nat, scale: nat): (h: int)
    requires scale > 0
    ensures PrintsAs(word, scale, h)
  {
    var h := (200 * word + scale) / (2 * scale);
    DivisionBounds(200 * word + scale, 2 * scale);
    assert 2 * scale * h == h * (2 * scale);
    assert 2 * scale * (h - 1) == h * (2 * scale) - 2 * scale;
    if (200 * word + scale) % (2 * scale) == 0 && h % 2 == 1 then h - 1 else h
  }

  /** Halfway loads go to the even hundredth: 0.125 prints as 0.12 and 0.375 as 0.38. */
  lemma HalfwayLoads()
    ensures Hundredths(0.125) == 12 && Hundredths(0.375) == 38
    ensures PrintedLoad(256, 2048) == 12 && PrintedLoad(768, 2048) == 38
  {
    PrintsAsIsUnique(256, 2048, PrintedLoad(256, 2048), 12);
    PrintsAsIsUnique(768, 2048, PrintedLoad(768, 2048), 38);
  }

  lemma DivisionBounds(n: int, d: int)
    requires d > 0
    ensures n == (n / d) * d + n % d && 0 <= n % d < d
  {
  }

  /** Only one number of hundredths is nearest. */
  lemma PrintsAsIsUnique(word: nat, scale: nat, g: int, h: int)
    requires scale > 0 && PrintsAs(word, scale, g) && PrintsAs(word, scale, h)
    ensures g == h
  {
    if g < h { PrintsAsIsOrdered(word, scale, g, h); }
    if h < g { PrintsAsIsOrdered(word, scale, h, g); }
  }

  lemma PrintsAsIsOrdered(word: nat, scale: nat, g: int, h: int)
    requires scale > 0 && g < h
    ensures !(PrintsAs(word, scale, g) && PrintsAs(word, scale, h))
  {
    assert 2 * scale * h - 2 * scale * g == 2 * scale * (h - g);
    assert 2 * scale * (h - g) == 2 * scale * (h - g - 1) + 2 * scale;
    assert h - g > 1 ==> scale * (h - g - 1) > 0;
  }

  /** Printing a quotient is integer division with the word and its scale. */
  lemma HundredthsArePrinted(word: nat, scale: nat)
    requires scale > 0
    ensures Hundredths(word as real / scale as real) == PrintedLoad(word, scale)
  {
    var x := word as real / scale as real;
    var h := Hundredths(x);
    NearestPrints(x, word, scale, h);
    PrintsAsIsUnique(word, scale, h, PrintedLoad(word, scale));
  }

  lemma NearestPrints(x: real, word: nat, scale: nat, h: int)
    requires scale > 0 && x * scale as real == word as real && h == Hundredths(x)
    ensures PrintsAs(word, scale, h)
  {
    var off := 100.0 * x - h as real;
    ScaledOffset(x, scale, h, off);
    ScaledHalf(off, scale as real);
  }

  lemma ScaledOffset(x: real, scale: nat, h: int, off: real)
    requires off == 100.0 * x - h as real
    ensures 2.0 * scale as real * off == 200.0 * (x * scale as real) - (2 * scale * h) as real
  {
    var s := scale as real;
    assert s * off == 100.0 * (x * s) - s * h as real;
    assert s * h as real == (scale * h) as real;
  }

  lemma ScaledHalf(off: real, s: real)
    requires s > 0.0 && -0.5 <= off <= 0.5
    ensures -s <= 2.0 * s * off <= s
    ensures 2.0 * s * off == s <==> off == 0.5
    ensures 2.0 * s * off == -s <==> off == -0.5
  {
    assert s * (1.0 - 2.0 * off) >= 0.0 && s * (1.0 + 2.0 * off) >= 0.0;
    assert off < 0.5 ==> s * (1.0 - 2.0 * off) > 0.0;
    assert off > -0.5 ==> s * (1.0 + 2.0 * off) > 0.0;
  }

  /** The load word from `lo` on prints the same in both readings. */
  predicate PrintsAlike(a: seq<byte>, b: seq<byte>, lo: nat)
    requires |a| == |b| == 24 && lo <= 8
  {
    PrintedLoad(LittleEndian(a[lo..lo + 4]), LoadScale(a)) == PrintedLoad(LittleEndian(b[lo..lo + 4]), LoadScale(b))
  }

  predicate LoadsPrintAlike(a: seq<byte>, b: seq<byte>)
    requires |a| == |b| == 24
  {
    PrintsAlike(a, b, 0) && PrintsAlike(a, b, 4) && PrintsAlike(a, b, 8)
  }

  /** Load averages answer alike exactly when all three words print alike, each under its own scale. */
  lemma LoadResponseChange(source: string, a: seq<byte>, b: seq<byte>)
    requires |a| == |b| == 24
    ensures Typed(TypeLoadavg, source, a) == Typed(TypeLoadavg, source, b) <==> LoadsPrintAlike(a, b)
    ensures SameLoads(a, b) ==> LoadsPrintAlike(a, b)
  {
    LoadavgChange(a, b);
    PresentedLoads(a);
    PresentedLoads(b);
  }

  lemma PresentedLoads(raw: seq<byte>)
    requires |raw| == 24
    ensures Present(DecodeAs(TypeLoadavg, raw)) ==
            LoadavgValue(PrintedLoad(LittleEndian(raw[0..4]), LoadScale(raw)),
                         PrintedLoad(LittleEndian(raw[4..8]), LoadScale(raw)),
                         PrintedLoad(LittleEndian(raw[8..12]), LoadScale(raw)))
  {
    HundredthsArePrinted(LittleEndian(raw[0..4]), LoadScale(raw));
    HundredthsArePrinted(LittleEndian(raw[4..8]), LoadScale(raw));
    HundredthsArePrinted(LittleEndian(raw[8..12]), LoadScale(raw));
  }

  /**
   * Three uint32 load words of vm.loadavg, four bytes of padding, and a uint64 scale: each load is answered in its
   * own field as the hundredth nearest to word / scale, a zero scale counting as 2048.
   */
  lemma LoadAnswers(info: Info, name: string, read: RawRead, computed: Computed,
                    load1: nat, load5: nat, load15: nat, padding: nat, fscale: nat)
    requires load1 < 0x1_0000_0000 && load5 < 0x1_0000_0000 && load15 < 0x1_0000_0000 && padding < 0x1_0000_0000
    requires fscale < 0x1_0000_0000_0000_0000
    requires info.valueType == TypeLoadavg
    requires read("vm.loadavg") ==
             Ok(Encode(load1, 4) + Encode(load5, 4) + Encode(load15, 4) + Encode(padding, 4) + Encode(fscale, 8))
    ensures var outcome, scale := LiveOutcome(Some(info), name, read, computed), if fscale == 0 then 2048 else fscale;
            && outcome.Ok? && outcome.value.LoadavgValue?
            && PrintsAs(load1, scale, outcome.value.load1)
            && PrintsAs(load5, scale, outcome.value.load5)
            && PrintsAs(load15, scale, outcome.value.load15)
  {
    var raw := read("vm.loadavg").value;
    Word4(load1);
    Word4(load5);
    Word4(load15);
    Word4(padding);
    Word8(fscale);
    LoadWords(Encode(load1, 4), Encode(load5, 4), Encode(load15, 4), Encode(padding, 4), Encode(fscale, 8));
    PresentedLoads(raw);
  }

  lemma LoadWords(a: seq<byte>, b: seq<byte>, c: seq<byte>, d: seq<byte>, e: seq<byte>)
    requires |a| == |b| == |c| == |d| == 4 && |e| == 8
    ensures var raw := a + b + c + d + e;
            |raw| == 24 && raw[0..4] == a && raw[4..8] == b && raw[8..12] == c && raw[16..24] == e
  {
  }

  /** A reading whose three load words are `word` under the usual scale of 2048. */
  function LoadReading(word: byte): seq<byte> {
    [word, 0, 0, 0, word, 0, 0, 0, word, 0, 0, 0, 0, 0, 0, 0, 0, 8, 0, 0, 0, 0, 0, 0]
  }

  /** Loads of 1/2048 and 2/2048 decode differently and both print as zero. */
  lemma SmallLoadsPrintAlike(source: string)
    ensures var a, b := LoadReading(1), LoadReading(2);
            && DecodeAs(TypeLoadavg, a) != DecodeAs(TypeLoadavg, b)
            && Typed(TypeLoadavg, source, a) == Typed(TypeLoadavg, source, b) == Ok(LoadavgValue(0, 0, 0))
  {
    SmallLoad(1);
    SmallLoad(2);
    LoadavgChange(LoadReading(1), LoadReading(2));
  }

  lemma {:induction false} ZerosDecode(raw: seq<byte>)
    requires forall i :: 0 <= i < |raw| ==> raw[i] == 0
    ensures LittleEndian(raw) == 0
  {
    if raw != [] { ZerosDecode(raw[1..]); }
  }

  lemma SmallLoad(word: byte)
    requires word <= 2
    ensures var raw := LoadReading(word);
            && LittleEndian(raw[0..4]) == word && LoadScale(raw) == 2048
            && Present(DecodeAs(TypeLoadavg, raw)) == LoadavgValue(0, 0, 0)
  {
    var raw := LoadReading(word);
    var w: seq<byte>, s: seq<byte> := [word, 0, 0, 0], [0, 8, 0, 0, 0, 0, 0, 0];
    assert raw == w + w + w + [0, 0, 0, 0] + s;
    assert raw[0..4] == w;
    assert raw[4..8] == w;
    assert raw[8..12] == w;
    assert raw[16..24] == s;
    ZerosDecode(w[1..]);
    assert s[1..][1..] == s[2..];
    ZerosDecode(s[2..]);
    assert LittleEndian(s[1..]) == 8;
    PresentedLoads(raw);
    PrintsAsIsUnique(word, 2048, PrintedLoad(word, 2048), 0);
  }

  const FLOAT_ERROR: real := 1.0 / 2251799813685248.0

  /**
   * Rounding the scale and the quotient to floating point never shows, unless the exact load lies halfway between
   * two hundredths: any `x` within a relative error of 2^-51 prints as the exact load does.
   */
  lemma FloatRoundingIsInvisible(word: nat, scale: nat, x: real)
    requires word < TWO_32 && scale > 0 && !Halfway(word, scale) && IsNear(word, scale, x)
    ensures Hundredths(x) == PrintedLoad(word, scale)
  {
    var h := PrintedLoad(word, scale);
    NotHalfway(word, scale, h);
    ErrorIsSmall(word as real, x * scale as real - word as real);
    NearbyPrints(word, scale, h, x);
  }

  /** The exact load is an odd number of half hundredths. */
  predicate Halfway(word: nat, scale: nat)
    requires scale > 0
  {
    200 * word % (2 * scale) == scale
  }

  predicate IsNear(word: nat, scale: nat, x: real) {
    -(word as real * FLOAT_ERROR) <= x * scale as real - word as real <= word as real * FLOAT_ERROR
  }

  lemma NearbyPrints(word: nat, scale: nat, h: int, x: real)
    requires scale > 0 && (var off := 200 * word - 2 * scale * h; off < scale && -off < scale)
    requires -1.0 < 200.0 * (x * scale as real - word as real) < 1.0
    ensures Hundredths(x) == h
  {
    var off, twice := 100.0 * x - h as real, 2 * scale * h;
    var scaled := 200.0 * (x * scale as real) - twice as real;
    StaysInside(word, scale, twice, x * scale as real);
    ScaledOffset(x, scale, h, off);
    InsideHalf(off, scale as real, scaled);
  }

  lemma ErrorIsSmall(word: real, error: real)
    requires 0.0 <= word < TWO_32 as real && -(word * FLOAT_ERROR) <= error <= word * FLOAT_ERROR
    ensures -1.0 < 200.0 * error < 1.0
  {
    assert FLOAT_ERROR * 2251799813685248.0 == 1.0;
  }

  /** A whole number of steps from the edges leaves room for an error below one step. */
  lemma StaysInside(word: int, scale: int, twice: int, product: real)
    requires -scale < 200 * word - twice < scale
    requires -1.0 < 200.0 * (product - word as real) < 1.0
    ensures -(scale as real) < 200.0 * product - twice as real < scale as real
  {
    var off := 200 * word - twice;
    assert off as real == 200.0 * word as real - twice as real;
    assert off + 1 <= scale && -off + 1 <= scale;
  }

  lemma NotHalfway(word: nat, scale: nat, h: int)
    requires scale > 0 && PrintsAs(word, scale, h) && !Halfway(word, scale)
    ensures var off := 200 * word - 2 * scale * h; off < scale && -off < scale
  {
    RemainderOf(200 * word, 2 * scale, h, scale);
    RemainderOf(200 * word, 2 * scale, h - 1, scale);
  }

  lemma RemainderOf(n: int, d: int, q: int, rest: int)
    requires 0 <= rest < d
    ensures n == d * q + rest ==> n % d == rest
  {
    DivisionBounds(n, d);
    if n == d * q + rest {
      assert d * (n / d - q) == (n / d) * d - d * q;
      SmallMultiple(d, n / d - q);
    }
  }

  lemma SmallMultiple(d: int, k: int)
    requires d > 0 && -d < d * k < d
    ensures k == 0
  {
    assert k >= 1 ==> d * k >= d * 1;
    assert k <= -1 ==> d * k <= d * -1;
  }

  lemma InsideHalf(off: real, s: real, scaled: real)
    requires s > 0.0 && 2.0 * s * off == scaled && -s < scaled < s
    ensures -0.5 < off < 0.5
  {
    assert off >= 0.5 ==> s * (2.0 * off - 1.0) >= 0.0;
    assert off <= -0.5 ==> s * (2.0 * off + 1.0) <= 0.0;
  }

  /** The readings that a metric of type `t` presents alike: failures, wrong lengths and values. */
  predicate LooksAlike(t: ValueType, x: Result<seq<byte>, string>, y: Result<seq<byte>, string>) {
    match (x, y)
    case (Err(m), Err(n)) => m == n
    case (Ok(a), Ok(b)) =>
      (match Width(t)
       case Some(w) =>
         if |a| == w && |b| == w then
           if t == TypeLoadavg then LoadsPrintAlike(a, b) else Visible(t, a) == Visible(t, b)
         else
           |a| == |b|
       case None => if t == TypeString then StripNul(a) == StripNul(b) else a == b)
    case _ => false
  }

  /** Two live reads of a sysctl-backed metric answer alike exactly when their readings look alike. */
  lemma OutcomeChange(info: Option<Info>, name: string, x: RawRead, y: RawRead, computed: Computed, computed': Computed)
    requires var t := TypeOf(info); t != TypeComputed && !t.TypeOther?
    ensures LiveOutcome(info, name, x, computed) == LiveOutcome(info, name, y, computed') <==>
            LooksAlike(TypeOf(info), x(Source(TypeOf(info), name)), y(Source(TypeOf(info), name)))
  {
    var t := TypeOf(info);
    var source := Source(t, name);
    if x(source).Ok? && y(source).Ok? {
      var a, b := x(source).value, y(source).value;
      if Width(t) == Some(|a|) && |a| == |b| {
        if t == TypeLoadavg {
          LoadResponseChange(source, a, b);
        } else {
          ResponseChange(t, source, a, b);
        }
      }
    }
  }
}
