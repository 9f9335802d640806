/** Keys for MIB arrays: the printed form, and the packing of up to four levels into one uint64. */
module MibKeys {
  import opened Base

  predicate IsUint32(v: int) {
    0 <= v < TWO_32
  }

  predicate IsMib(mib: seq<int>) {
    forall i :: 0 <= i < |mib| ==> IsUint32(mib[i])
  }

  // ---------------------------------------------------------------- printing

  function Digit(d: nat): char
    requires d < 10
  {
    '0' + d as char
  }

  /** The %d form of a non-negative number. */
  function Decimal(n: nat): string {
    if n < 10 then [Digit(n)] else Decimal(n / 10) + [Digit(n % 10)]
  }

  function Join(parts: seq<string>): string {
    if parts == [] then ""
    else if |parts| == 1 then parts[0]
    else Join(parts[..|parts| - 1]) + "," + parts[|parts| - 1]
  }

  function Decimals(mib: seq<int>): seq<string>
    requires IsMib(mib)
  {
    seq(|mib|, i requires 0 <= i < |mib| => Decimal(mib[i]))
  }

  function Printed(mib: seq<int>): string
    requires IsMib(mib)
  {
    if mib == [] then "" else "{" + Join(Decimals(mib)) + "}"
  }

  method FormatMib(mib: seq<int>) returns (text: string)
    requires IsMib(mib)
    ensures text == Printed(mib)
  {
    if |mib| == 0 {
      return "";
    }
    var parts := new string[|mib|](_ => "");
    for i := 0 to |mib|
      invariant parts[..i] == Decimals(mib)[..i]
    {
      parts[i] := Decimal(mib[i]);
      assert parts[..i + 1] == parts[..i] + [parts[i]];
    }
    assert parts[..] == parts[..|mib|] == Decimals(mib);
    text := "{" + Join(parts[..]) + "}";
  }

  /** Reads numbers up to the closing brace, `acc` being the number read so far. */
  function Scan(text: string, acc: nat): seq<int> {
    if text == "" || text[0] == '}' then [acc]
    else if text[0] == ',' then [acc] + Scan(text[1..], 0)
    else if '0' <= text[0] <= '9' then Scan(text[1..], acc * 10 + (text[0] as int - '0' as int))
    else []
  }

  function Parse(text: string): seq<int> {
    if text == "" then [] else Scan(text[1..], 0)
  }

  lemma {:induction false} ScanDecimal(n: nat, rest: string)
    ensures Scan(Decimal(n) + rest, 0) == Scan(rest, n)
  {
    if n < 10 {
      ScanDigit(n, rest, 0);
    } else {
      var tail := [Digit(n % 10)] + rest;
      assert Decimal(n) + rest == Decimal(n / 10) + tail;
      ScanDecimal(n / 10, tail);
      ScanDigit(n % 10, rest, n / 10);
    }
  }

  lemma ScanDigit(d: nat, rest: string, acc: nat)
    requires d < 10
    ensures Scan([Digit(d)] + rest, acc) == Scan(rest, acc * 10 + d)
  {
    var text := [Digit(d)] + rest;
    assert text[1..] == rest;
    assert text[0] as int == '0' as int + d;
  }

  /** Scanning a joined list answers its numbers, the last of them continued by whatever follows. */
  lemma {:induction false} ScanJoin(mib: seq<int>, rest: string)
    requires mib != [] && IsMib(mib)
    ensures Scan(Join(Decimals(mib)) + rest, 0) == mib[..|mib| - 1] + Scan(rest, mib[|mib| - 1])
  {
    var n := |mib| - 1;
    var parts := Decimals(mib);
    if n == 0 {
      ScanDecimal(mib[0], rest);
    } else {
      var init := mib[..n];
      var tail := "," + (parts[n] + rest);
      assert parts[..n] == Decimals(init);
      assert Join(parts) + rest == Join(Decimals(init)) + tail;
      ScanJoin(init, tail);
      assert tail[1..] == parts[n] + rest;
      ScanDecimal(mib[n], rest);
      assert init == mib[..n - 1] + [mib[n - 1]];
    }
  }

  /** A parser undoes the printer, so distinct MIBs print differently, whatever their length. */
  lemma ParsePrinted(mib: seq<int>)
    requires IsMib(mib)
    ensures Parse(Printed(mib)) == mib
  {
    if mib != [] {
      var n := |mib| - 1;
      ScanJoin(mib, "}");
      assert Printed(mib)[1..] == Join(Decimals(mib)) + "}";
      assert Scan("}", mib[n]) == [mib[n]];
      assert mib == mib[..n] + [mib[n]];
    }
  }

  lemma PrintedIsInjective(a: seq<int>, b: seq<int>)
    requires IsMib(a) && IsMib(b)
    ensures Printed(a) == Printed(b) <==> a == b
  {
    ParsePrinted(a);
    ParsePrinted(b);
  }

  /** The text itself: braces around the decimal levels, commas between them. */
  lemma PrintedOne(level: int)
    requires IsUint32(level)
    ensures Printed([]) == "" && Printed([level]) == "{" + Decimal(level) + "}"
  {
    assert Decimals([level]) == [Decimal(level)];
  }

  lemma PrintedMore(mib: seq<int>, level: int)
    requires mib != [] && IsMib(mib) && IsUint32(level)
    ensures exists inside :: Printed(mib) == "{" + inside + "}"
                             && Printed(mib + [level]) == "{" + inside + "," + Decimal(level) + "}"
  {
    var parts := Decimals(mib);
    var inside := Join(parts);
    assert Decimals(mib + [level]) == parts + [Decimal(level)];
    assert (parts + [Decimal(level)])[..|parts|] == parts;
    assert Join(parts + [Decimal(level)]) == inside + "," + Decimal(level);
    assert "{" + (inside + "," + Decimal(level)) + "}" == "{" + inside + "," + Decimal(level) + "}";
  }

  /** The digits: the last one is the remainder by ten, the ones before it print the quotient. */
  lemma DecimalDigits(n: nat)
    ensures n < 10 ==> Decimal(n) == ["0123456789"[n]]
    ensures n >= 10 ==> Decimal(n) == Decimal(n / 10) + ["0123456789"[n % 10]]
  {
    DigitIs(n % 10);
  }

  lemma DigitIs(d: nat)
    requires d < 10
    ensures Digit(d) == "0123456789"[d]
  {
    assert "0123456789"[0] == '0' && "0123456789"[1] == '1' && "0123456789"[2] == '2' && "0123456789"[3] == '3'
           && "0123456789"[4] == '4' && "0123456789"[5] == '5' && "0123456789"[6] == '6' && "0123456789"[7] == '7'
           && "0123456789"[8] == '8' && "0123456789"[9] == '9';
  }

  // ---------------------------------------------------------------- bitwise or and shifts on words

  function BitOr(a: nat, b: nat): nat {
    if a == 0 && b == 0 then 0
    else 2 * BitOr(a / 2, b / 2) + Max(a % 2, b % 2)
  }

  function Pow2(k: nat): (p: nat)
    ensures p > 0
  {
    if k == 0 then 1 else 2 * Pow2(k - 1)
  }

  /** uint64(v) << k. */
  function ShiftLeft64(v: nat, k: nat): (r: nat)
    ensures r < 0x1_0000_0000_0000_0000 && (v * Pow2(k) - r) % 0x1_0000_0000_0000_0000 == 0
  {
    (v * Pow2(k)) % TWO_64
  }

  /** The k-th bit of a word. */
  function Bit(a: nat, k: nat): nat {
    if k == 0 then a % 2 else Bit(a / 2, k - 1)
  }

  /** A bit of the or is set exactly when it is set in one of the operands. */
  lemma {:induction false} OrIsBitwise(a: nat, b: nat, k: nat)
    ensures Bit(BitOr(a, b), k) == 1 <==> Bit(a, k) == 1 || Bit(b, k) == 1
  {
    if k > 0 {
      OrIsBitwise(a / 2, b / 2, k - 1);
      assert BitOr(a, b) / 2 == BitOr(a / 2, b / 2);
    }
  }

  lemma {:induction false} OrWithZero(a: nat)
    ensures BitOr(a, 0) == a && BitOr(0, a) == a
  {
    if a > 0 { OrWithZero(a / 2); }
  }

  /** Where no bits overlap, or is addition: `m` occupies the bits from k up and `low` the k bits below. */
  lemma {:induction false} OrIsSum(m: nat, low: nat, k: nat)
    requires low < Pow2(k)
    ensures BitOr(m * Pow2(k), low) == m * Pow2(k) + low
  {
    if k == 0 {
      OrWithZero(m);
    } else {
      var half := m * Pow2(k - 1);
      assert m * Pow2(k) == 2 * half;
      OrIsSum(m, low / 2, k - 1);
    }
  }

  // ---------------------------------------------------------------- packing

  const LANE: int := 0x1_0000

  /** The i-th level of a MIB, padded with zeros. */
  function Level(mib: seq<int>, i: nat): int {
    if i < |mib| then mib[i] else 0
  }

  predicate Flattenable(mib: seq<int>) {
    |mib| <= 4 && forall i :: 0 <= i < |mib| ==> 0 <= mib[i] < LANE
  }

  /** 16 bits a level, the first level highest. */
  function Packed(mib: seq<int>): int {
    Level(mib, 0) * 0x1_0000_0000_0000 + Level(mib, 1) * 0x1_0000_0000 + Level(mib, 2) * 0x1_0000 + Level(mib, 3)
  }

  lemma Pow2Add4(k: nat)
    ensures Pow2(k + 4) == 16 * Pow2(k)
  {
    assert Pow2(k + 1) == 2 * Pow2(k);
    assert Pow2(k + 2) == 2 * Pow2(k + 1);
    assert Pow2(k + 3) == 2 * Pow2(k + 2);
  }

  lemma Pow2Add16(k: nat)
    ensures Pow2(k + 16) == LANE * Pow2(k)
  {
    Pow2Add4(k);
    Pow2Add4(k + 4);
    Pow2Add4(k + 8);
    Pow2Add4(k + 12);
  }

  lemma Pow2Values()
    ensures Pow2(0) == 1 && Pow2(16) == 0x1_0000 && Pow2(32) == 0x1_0000_0000 && Pow2(48) == 0x1_0000_0000_0000
  {
    Pow2Add16(0);
    Pow2Add16(16);
    Pow2Add16(32);
  }

  lemma ShiftFits(v: nat, k: nat)
    requires v * Pow2(k) < TWO_64
    ensures ShiftLeft64(v, k) == v * Pow2(k)
  {
  }

  /** Or-ing a 16-bit lane at bit k into a word that is a multiple of 2^(16 + k). */
  lemma OrLane(m: nat, v: nat, k: nat)
    requires v < LANE
    ensures BitOr(m * (LANE * Pow2(k)), v * Pow2(k)) == m * (LANE * Pow2(k)) + v * Pow2(k)
  {
    Pow2Add16(k);
    MulStrict(v, LANE, Pow2(k));
    OrIsSum(m, v * Pow2(k), k + 16);
  }

  lemma MulStrict(a: nat, b: nat, c: nat)
    requires a < b && c > 0
    ensures a * c < b * c
  {
  }

  /** Or-ing a shifted lane, with the place value 2^k at hand. */
  lemma OrShifted(m: nat, v: nat, k: nat, place: nat)
    requires v < LANE && place == Pow2(k) && v * place < TWO_64
    ensures BitOr(m * (LANE * place), ShiftLeft64(v, k)) == m * (LANE * place) + v * place
  {
    OrLane(m, v, k);
    ShiftFits(v, k);
  }

  lemma OrFirst(a: nat)
    requires a < LANE
    ensures BitOr(0, ShiftLeft64(a, 48)) == a * 0x1_0000_0000_0000
  {
    Pow2Values();
    OrShifted(0, a, 48, 0x1_0000_0000_0000);
  }

  lemma OrSecond(a: nat, b: nat)
    requires a < LANE && b < LANE
    ensures BitOr(a * 0x1_0000_0000_0000, ShiftLeft64(b, 32)) == a * 0x1_0000_0000_0000 + b * 0x1_0000_0000
  {
    Pow2Values();
    OrShifted(a, b, 32, 0x1_0000_0000);
  }

  lemma OrThird(a: nat, b: nat, c: nat)
    requires a < LANE && b < LANE && c < LANE
    ensures BitOr(a * 0x1_0000_0000_0000 + b * 0x1_0000_0000, ShiftLeft64(c, 16)) ==
            a * 0x1_0000_0000_0000 + b * 0x1_0000_0000 + c * 0x1_0000
  {
    Pow2Values();
    OrShifted(a * LANE + b, c, 16, LANE);
  }

  lemma OrFourth(a: nat, b: nat, c: nat, d: nat)
    requires a < LANE && b < LANE && c < LANE && d < LANE
    ensures BitOr(a * 0x1_0000_0000_0000 + b * 0x1_0000_0000 + c * 0x1_0000, ShiftLeft64(d, 0)) ==
            a * 0x1_0000_0000_0000 + b * 0x1_0000_0000 + c * 0x1_0000 + d
  {
    Pow2Values();
    OrShifted((a * LANE + b) * LANE + c, d, 0, 1);
  }

  lemma PackFirst(mib: seq<int>)
    requires Flattenable(mib) && |mib| > 0
    ensures BitOr(Packed(mib[..0]), ShiftLeft64(mib[0], 48)) == Packed(mib[..1])
  {
    OrFirst(mib[0]);
  }

  lemma PackSecond(mib: seq<int>)
    requires Flattenable(mib) && |mib| > 1
    ensures BitOr(Packed(mib[..1]), ShiftLeft64(mib[1], 32)) == Packed(mib[..2])
  {
    OrSecond(mib[0], mib[1]);
  }

  lemma PackThird(mib: seq<int>)
    requires Flattenable(mib) && |mib| > 2
    ensures BitOr(Packed(mib[..2]), ShiftLeft64(mib[2], 16)) == Packed(mib[..3])
  {
    OrThird(mib[0], mib[1], mib[2]);
  }

  lemma PackFourth(mib: seq<int>)
    requires Flattenable(mib) && |mib| > 3
    ensures BitOr(Packed(mib[..3]), ShiftLeft64(mib[3], 0)) == Packed(mib[..4])
  {
    OrFourth(mib[0], mib[1], mib[2], mib[3]);
  }

  /** One lane of the packing loop. */
  lemma PackLane(mib: seq<int>, i: nat)
    requires Flattenable(mib) && i < |mib|
    ensures BitOr(Packed(mib[..i]), ShiftLeft64(mib[i], 48 - 16 * i)) == Packed(mib[..i + 1])
  {
    if i == 0 {
      PackFirst(mib);
    } else if i == 1 {
      PackSecond(mib);
    } else if i == 2 {
      PackThird(mib);
    } else {
      PackFourth(mib);
    }
  }

  /** flattenMIB: rejects deep or wide MIBs, packs the others. */
  method FlattenMib(mib: seq<int>) returns (flat: nat, ok: bool)
    requires IsMib(mib)
    ensures ok <==> Flattenable(mib)
    ensures ok <==> |mib| <= 4 && forall i :: 0 <= i < |mib| ==> mib[i] <= 65535
    ensures flat == if ok then Packed(mib) else 0
    ensures flat < TWO_64
  {
    if |mib| > 4 {
      return 0, false;
    }
    for i := 0 to |mib|
      invariant forall j :: 0 <= j < i ==> mib[j] < LANE
    {
      if mib[i] > 0xFFFF {
        return 0, false;
      }
    }
    flat := 0;
    for i := 0 to |mib|
      invariant flat == Packed(mib[..i])
    {
      PackLane(mib, i);
      flat := BitOr(flat, ShiftLeft64(mib[i], 48 - 16 * i));
    }
    assert mib[..|mib|] == mib;
    ok := true;
  }

  /** 16 bits of a packed key. */
  function Lane(flat: nat, i: nat): nat
    requires i < 4
  {
    var place :=
      if i == 0 then 0x1_0000_0000_0000 else if i == 1 then 0x1_0000_0000 else if i == 2 then 0x1_0000 else 1;
    (flat / place) % LANE
  }

  /** Extraction recovers every level, zero where the MIB is shorter. */
  lemma LanesRecoverLevels(mib: seq<int>, i: nat)
    requires Flattenable(mib) && i < 4
    ensures 0 <= Packed(mib) < TWO_64
    ensures Lane(Packed(mib), i) == Level(mib, i)
  {
    var a, b, c, d := Level(mib, 0), Level(mib, 1), Level(mib, 2), Level(mib, 3);
    LanesOfSum(a, b, c, d);
  }

  lemma SplitLane(q: nat, r: nat)
    requires r < LANE
    ensures (q * LANE + r) / LANE == q && (q * LANE + r) % LANE == r
  {
  }

  lemma DropLanes(x: nat)
    ensures x / 0x1_0000_0000 == (x / LANE) / LANE
    ensures x / 0x1_0000_0000_0000 == ((x / LANE) / LANE) / LANE
  {
  }

  lemma LanesOfSum(a: nat, b: nat, c: nat, d: nat)
    requires a < LANE && b < LANE && c < LANE && d < LANE
    ensures var x := a * 0x1_0000_0000_0000 + b * 0x1_0000_0000 + c * 0x1_0000 + d;
            Lane(x, 0) == a && Lane(x, 1) == b && Lane(x, 2) == c && Lane(x, 3) == d
  {
    var x := a * 0x1_0000_0000_0000 + b * 0x1_0000_0000 + c * 0x1_0000 + d;
    SplitLane(a * 0x1_0000_0000 + b * 0x1_0000 + c, d);
    SplitLane(a * 0x1_0000 + b, c);
    SplitLane(a, b);
    DropLanes(x);
  }

  predicate SameLevels(a: seq<int>, b: seq<int>) {
    forall i: nat :: i < 4 ==> Level(a, i) == Level(b, i)
  }

  /** Lexicographic order of the zero-padded levels from level `i` on. */
  predicate Precedes(a: seq<int>, b: seq<int>, i: nat)
    requires i <= 4
    decreases 4 - i
  {
    i < 4 && (Level(a, i) < Level(b, i) || (Level(a, i) == Level(b, i) && Precedes(a, b, i + 1)))
  }

  /** Accepted MIBs get one key exactly when they agree after padding, and keys order as padded MIBs do. */
  lemma PackedOrder(a: seq<int>, b: seq<int>)
    requires Flattenable(a) && Flattenable(b)
    ensures Packed(a) == Packed(b) <==> SameLevels(a, b)
    ensures Packed(a) < Packed(b) <==> Precedes(a, b, 0)
  {
    forall i: nat | i < 4 ensures Lane(Packed(a), i) == Level(a, i) && Lane(Packed(b), i) == Level(b, i) {
      LanesRecoverLevels(a, i);
      LanesRecoverLevels(b, i);
    }
    assert SameLevels(a, b) ==>
           Level(a, 0) == Level(b, 0) && Level(a, 1) == Level(b, 1)
           && Level(a, 2) == Level(b, 2) && Level(a, 3) == Level(b, 3);
    assert Precedes(a, b, 3) <==> Level(a, 3) < Level(b, 3);
    assert Precedes(a, b, 2) <==> Level(a, 2) < Level(b, 2) || (Level(a, 2) == Level(b, 2) && Precedes(a, b, 3));
    assert Precedes(a, b, 1) <==> Level(a, 1) < Level(b, 1) || (Level(a, 1) == Level(b, 1) && Precedes(a, b, 2));
  }

  /** Padding is where packing loses information: a MIB and its extension by a zero level share a key. */
  lemma ZeroExtensionCollides(mib: seq<int>)
    requires Flattenable(mib) && |mib| < 4
    ensures Flattenable(mib + [0]) && Packed(mib + [0]) == Packed(mib) && mib + [0] != mib
  {
    assert forall i: nat :: Level(mib + [0], i) == Level(mib, i);
    assert |mib + [0]| != |mib|;
  }
}
