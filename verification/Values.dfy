/** Values of a row, and the integers that can be read out of them. */
module Values {
  import opened Text
  import opened Wrappers

  type Byte = b: int | 0 <= b < 0x100

  /** A temporal value as ODBC lays it out; only carried along here. */
  datatype Moment = Moment(year: int, month: int, day: int, hour: int, minute: int, second: int, fraction: nat)

  datatype ValueKind =
    | Null
    | TinyInt(i: int)
    | SmallInt(i: int)
    | Integer(i: int)
    | BigInt(i: int)
    | Real(r: real)
    | Double(r: real)
    | Bit(b: bool)
    | Text(text: string)
    | Binary(bytes: seq<Byte>)
    | Guid(bytes: seq<Byte>)
    | Date(moment: Moment)
    | Time(moment: Moment)
    | Timestamp(moment: Moment)
    | Decimal(text: string, precision: nat, scale: int)

  const I64_MIN := -0x8000_0000_0000_0000
  const I64_MAX := 0x7FFF_FFFF_FFFF_FFFF

  predicate FitsI64(n: int) {
    I64_MIN <= n <= I64_MAX
  }

  // ------------------------------------------------------------ the parser

  /** Unicode White_Space. */
  predicate IsSpace(c: char) {
    var u := c as int;
    9 <= u <= 13 || u == 0x20 || u == 0x85 || u == 0xA0 || u == 0x1680 || 0x2000 <= u <= 0x200A ||
    u == 0x2028 || u == 0x2029 || u == 0x202F || u == 0x205F || u == 0x3000
  }

  function TrimStart(s: string): string {
    if s != [] && IsSpace(s[0]) then TrimStart(s[1..]) else s
  }

  function TrimEnd(s: string): string {
    if s != [] && IsSpace(s[|s| - 1]) then TrimEnd(s[..|s| - 1]) else s
  }

  function Trim(s: string): string {
    TrimEnd(TrimStart(s))
  }

  predicate IsSign(c: char) {
    c == '+' || c == '-'
  }

  /** `str::parse::<i64>`: an optional sign, digits, and a value in range. */
  function ParseI64(s: string): Option<int> {
    var digits := if s != [] && IsSign(s[0]) then s[1..] else s;
    if digits == [] || !AllDigits(digits) then None
    else
      var n := if s[0] == '-' then -DigitsValue(digits) else DigitsValue(digits);
      if FitsI64(n) then Some(n) else None
  }

  function ParseIntegerText(value: string): Option<int> {
    ParseTrimmed(Trim(value))
  }

  function ParseTrimmed(t: string): Option<int> {
    if ParseI64(t).Some? then ParseI64(t)
    else
      var dot := NextChar(t, '.', 0);
      if dot == |t| then None
      else if forall i :: dot < i < |t| ==> t[i] == '0' then ParseI64(t[..dot])
      else None
  }

  function Replace(s: string, old_: char, new_: char): (r: string)
    ensures |r| == |s|
    ensures forall i :: 0 <= i < |s| ==> r[i] == if s[i] == old_ then new_ else s[i]
  {
    seq(|s|, i requires 0 <= i < |s| => if s[i] == old_ then new_ else s[i])
  }

  function NormalizeDecimal(text: string): string {
    var t := Trim(text);
    if ',' in t then Replace(t, ',', '.') else t
  }

  function AsI64(v: ValueKind): Option<int> {
    match v
    case TinyInt(i) => Some(i)
    case SmallInt(i) => Some(i)
    case Integer(i) => Some(i)
    case BigInt(i) => Some(i)
    case Text(text) => ParseIntegerText(text)
    case Decimal(text, _, _) => ParseIntegerText(NormalizeDecimal(text))
    case _ => None
  }

  /** The integer types a value can be decoded to. */
  datatype Target = I8 | I16 | I32 | I64 | U8 | U16 | U32 | U64

  predicate InTarget(n: int, target: Target) {
    match target
    case I8 => -0x80 <= n <= 0x7F
    case I16 => -0x8000 <= n <= 0x7FFF
    case I32 => -0x8000_0000 <= n <= 0x7FFF_FFFF
    case I64 => FitsI64(n)
    case U8 => 0 <= n <= 0xFF
    case U16 => 0 <= n <= 0xFFFF
    case U32 => 0 <= n <= 0xFFFF_FFFF
    case U64 => 0 <= n <= 0xFFFF_FFFF_FFFF_FFFF
  }

  function DecodeInteger(v: ValueKind, target: Target): Option<int> {
    match AsI64(v)
    case None => None
    case Some(n) => if InTarget(n, target) then Some(n) else None
  }

  // ------------------------------------------------------------ what it accepts

  /** The numerals of the data: blanks, sign, digits, and perhaps a point followed by zeros only. */
  datatype Numeral = Numeral(before: string, sign: string, digits: string, point: bool, zeros: nat, after: string)

  predicate Proper(m: Numeral) {
    && (forall c <- m.before + m.after :: IsSpace(c))
    && (m.sign == "" || m.sign == "+" || m.sign == "-")
    && m.digits != [] && AllDigits(m.digits)
    && (m.point || m.zeros == 0)
  }

  function Zeros(n: nat): string {
    seq(n, i => '0')
  }

  function Spelled(m: Numeral): string {
    m.sign + m.digits + (if m.point then "." + Zeros(m.zeros) else "")
  }

  function Value(m: Numeral): int
    requires Proper(m)
  {
    if m.sign == "-" then -DigitsValue(m.digits) else DigitsValue(m.digits)
  }

  lemma {:induction false} TrimEndDrops(s: string, after: string)
    requires forall c <- after :: IsSpace(c)
    requires s == [] || !IsSpace(s[|s| - 1])
    ensures TrimEnd(s + after) == s
    decreases |after|
  {
    if after == [] {
      assert s + after == s;
    } else {
      assert (s + after)[|s + after| - 1] == after[|after| - 1];
      assert (s + after)[..|s + after| - 1] == s + after[..|after| - 1];
      TrimEndDrops(s, after[..|after| - 1]);
    }
  }

  lemma {:induction false} TrimStartDrops(before: string, s: string)
    requires forall c <- before :: IsSpace(c)
    requires s == [] || !IsSpace(s[0])
    ensures TrimStart(before + s) == s
    decreases |before|
  {
    if before == [] {
      assert before + s == s;
    } else {
      assert (before + s)[1..] == before[1..] + s;
      TrimStartDrops(before[1..], s);
    }
  }

  lemma {:induction false} TrimStartSplits(s: string) returns (before: string)
    ensures s == before + TrimStart(s)
    ensures forall c <- before :: IsSpace(c)
    ensures TrimStart(s) == [] || !IsSpace(TrimStart(s)[0])
  {
    if s != [] && IsSpace(s[0]) {
      var rest := TrimStartSplits(s[1..]);
      before := [s[0]] + rest;
    } else {
      before := [];
    }
  }

  lemma {:induction false} TrimEndSplits(s: string) returns (after: string)
    ensures s == TrimEnd(s) + after
    ensures forall c <- after :: IsSpace(c)
  {
    if s != [] && IsSpace(s[|s| - 1]) {
      var rest := TrimEndSplits(s[..|s| - 1]);
      after := rest + [s[|s| - 1]];
      assert s == s[..|s| - 1] + [s[|s| - 1]];
    } else {
      after := [];
    }
  }

  lemma SpelledIsSolid(m: Numeral)
    requires Proper(m)
    ensures var s := Spelled(m); s != [] && !IsSpace(s[0]) && !IsSpace(s[|s| - 1])
    ensures Trim(m.before + Spelled(m) + m.after) == Spelled(m)
  {
    var s := Spelled(m);
    assert s[0] == if m.sign == "" then m.digits[0] else m.sign[0];
    assert IsDigit(m.digits[0]) && IsDigit(m.digits[|m.digits| - 1]);
    assert s[|s| - 1] == if !m.point then m.digits[|m.digits| - 1] else if m.zeros == 0 then '.' else '0';
    forall c | c in m.before ensures IsSpace(c) { assert c in m.before + m.after; }
    forall c | c in m.after ensures IsSpace(c) { assert c in m.before + m.after; }
    assert m.before + s + m.after == m.before + (s + m.after);
    TrimStartDrops(m.before, s + m.after);
    TrimEndDrops(s, m.after);
  }

  lemma SignedParses(sign: string, digits: string)
    requires sign == "" || sign == "+" || sign == "-"
    requires digits != [] && AllDigits(digits)
    ensures var n := if sign == "-" then -DigitsValue(digits) else DigitsValue(digits);
            ParseI64(sign + digits) == if FitsI64(n) then Some(n) else None
  {
    var s := sign + digits;
    if sign == "" {
      assert s == digits && IsDigit(s[0]);
    } else {
      assert s[0] == sign[0] && s[1..] == digits;
    }
  }

  lemma ParsedIsSigned(s: string) returns (sign: string, digits: string)
    requires ParseI64(s).Some?
    ensures s == sign + digits
    ensures sign == "" || sign == "+" || sign == "-"
    ensures digits != [] && AllDigits(digits)
    ensures ParseI64(s) == Some(if sign == "-" then -DigitsValue(digits) else DigitsValue(digits))
  {
    if IsSign(s[0]) {
      sign, digits := [s[0]], s[1..];
    } else {
      sign, digits := "", s;
    }
    SignedParses(sign, digits);
    assert s == sign + digits;
  }

  lemma PointDoesNotParse(s: string, k: nat)
    requires k < |s| && s[k] == '.'
    ensures ParseI64(s).None?
  {
    var digits := if IsSign(s[0]) then s[1..] else s;
    assert digits[if IsSign(s[0]) then k - 1 else k] == '.';
  }

  lemma PointNumeralIsRead(whole: string, zeros: nat)
    requires forall i :: 0 <= i < |whole| ==> whole[i] != '.'
    ensures ParseTrimmed(whole + ("." + Zeros(zeros))) == ParseI64(whole)
  {
    var fraction := "." + Zeros(zeros);
    var t := whole + fraction;
    assert fraction[0] == '.';
    PointDoesNotParse(t, |whole|);
    NextCharSkips(whole, fraction, '.', 0);
    assert t[..|whole|] == whole;
    assert forall i :: |whole| < i < |t| ==> t[i] == fraction[i - |whole|] == '0';
  }

  lemma PlainNumeralIsRead(t: string)
    requires forall i :: 0 <= i < |t| ==> t[i] != '.'
    ensures ParseTrimmed(t) == ParseI64(t)
  {
  }

  lemma SolidNumeralIsRead(m: Numeral)
    requires Proper(m)
    ensures ParseTrimmed(Spelled(m)) == if FitsI64(Value(m)) then Some(Value(m)) else None
  {
    var whole := m.sign + m.digits;
    SignedParses(m.sign, m.digits);
    if m.point {
      assert Spelled(m) == whole + ("." + Zeros(m.zeros));
      PointNumeralIsRead(whole, m.zeros);
    } else {
      assert Spelled(m) == whole;
      PlainNumeralIsRead(whole);
    }
  }

  /** Every proper numeral is read, unless its value leaves i64. */
  lemma NumeralIsRead(m: Numeral)
    requires Proper(m)
    ensures ParseIntegerText(m.before + Spelled(m) + m.after) == if FitsI64(Value(m)) then Some(Value(m)) else None
  {
    SpelledIsSolid(m);
    SolidNumeralIsRead(m);
  }

  lemma FractionIsZeros(t: string, dot: nat)
    requires dot < |t| && t[dot] == '.' && forall i :: dot < i < |t| ==> t[i] == '0'
    ensures t == t[..dot] + ("." + Zeros(|t| - dot - 1))
  {
  }

  lemma SolidNumeral(sign: string, digits: string, point: bool, zeros: nat) returns (m: Numeral)
    requires sign == "" || sign == "+" || sign == "-"
    requires digits != [] && AllDigits(digits) && (point || zeros == 0)
    ensures m == Numeral("", sign, digits, point, zeros, "") && Proper(m)
    ensures Spelled(m) == sign + digits + if point then "." + Zeros(zeros) else ""
  {
    m := Numeral("", sign, digits, point, zeros, "");
    assert m.before + m.after == [];
  }

  /** What is read between the blanks. */
  lemma ReadIsSolidNumeral(t: string) returns (m: Numeral)
    requires ParseTrimmed(t).Some?
    ensures m.before == "" && m.after == "" && Proper(m) && Spelled(m) == t
  {
    var dot, point := NextChar(t, '.', 0), ParseI64(t).None?;
    var whole, zeros := if point then t[..dot] else t, if point then |t| - dot - 1 else 0;
    var sign, digits := ParsedIsSigned(whole);
    m := SolidNumeral(sign, digits, point, zeros);
    if point {
      FractionIsZeros(t, dot);
    } else {
      assert t + "" == t;
    }
  }

  lemma TrimSplits(value: string) returns (before: string, after: string)
    ensures value == before + Trim(value) + after
    ensures forall c <- before + after :: IsSpace(c)
  {
    before := TrimStartSplits(value);
    after := TrimEndSplits(TrimStart(value));
    assert value == before + (Trim(value) + after);
  }

  /** Whatever is read is a proper numeral with that value. */
  lemma ReadIsNumeral(value: string) returns (m: Numeral)
    requires ParseIntegerText(value).Some?
    ensures Proper(m) && value == m.before + Spelled(m) + m.after
    ensures ParseIntegerText(value) == Some(Value(m))
  {
    var solid := ReadIsSolidNumeral(Trim(value));
    SolidNumeralIsRead(solid);
    var before, after := TrimSplits(value);
    m := solid.(before := before, after := after);
    BlanksAround(solid, before, after);
  }

  lemma BlanksAround(solid: Numeral, before: string, after: string)
    requires Proper(solid) && forall c <- before + after :: IsSpace(c)
    ensures var m := solid.(before := before, after := after); Proper(m) && Spelled(m) == Spelled(solid) && Value(m) == Value(solid)
  {
  }

  /** The text is a proper numeral for `n`. */
  ghost predicate IsNumeralFor(text: string, n: int) {
    exists m :: Proper(m) && text == m.before + Spelled(m) + m.after && Value(m) == n
  }

  /** Text reads as `n` exactly when it is a proper numeral for `n` and `n` fits. */
  lemma ParseIntegerTextExactly(value: string, n: int)
    ensures ParseIntegerText(value) == Some(n) <==> FitsI64(n) && IsNumeralFor(value, n)
  {
    if ParseIntegerText(value) == Some(n) {
      var m := ReadIsNumeral(value);
      NumeralIsRead(m);
    }
    if IsNumeralFor(value, n) {
      var m :| Proper(m) && value == m.before + Spelled(m) + m.after && Value(m) == n;
      NumeralIsRead(m);
    }
  }

  // ------------------------------------------------------------ separators and narrowing

  function SwapSeparators(s: string): (r: string)
    ensures |r| == |s|
  {
    seq(|s|, i requires 0 <= i < |s| => if s[i] == '.' then ',' else if s[i] == ',' then '.' else s[i])
  }

  lemma {:induction false} TrimStartOfSwap(s: string)
    ensures TrimStart(SwapSeparators(s)) == SwapSeparators(TrimStart(s))
  {
    if s != [] {
      assert SwapSeparators(s)[1..] == SwapSeparators(s[1..]);
      TrimStartOfSwap(s[1..]);
    }
  }

  lemma {:induction false} TrimEndOfSwap(s: string)
    ensures TrimEnd(SwapSeparators(s)) == SwapSeparators(TrimEnd(s))
  {
    if s != [] {
      assert SwapSeparators(s)[..|s| - 1] == SwapSeparators(s[..|s| - 1]);
      TrimEndOfSwap(s[..|s| - 1]);
    }
  }

  lemma NormalizedIsReplaced(text: string)
    ensures NormalizeDecimal(text) == Replace(Trim(text), ',', '.')
  {
    assert ',' !in Trim(text) ==> Replace(Trim(text), ',', '.') == Trim(text);
  }

  lemma ReplacedAfterSwap(t: string)
    ensures Replace(SwapSeparators(t), ',', '.') == Replace(t, ',', '.')
  {
  }

  /** A decimal reads the same with '.' and ',' exchanged. */
  lemma DecimalSeparatorIrrelevant(text: string, precision: nat, scale: int)
    ensures AsI64(Decimal(SwapSeparators(text), precision, scale)) == AsI64(Decimal(text, precision, scale))
  {
    TrimStartOfSwap(text);
    TrimEndOfSwap(TrimStart(text));
    NormalizedIsReplaced(text);
    NormalizedIsReplaced(SwapSeparators(text));
    ReplacedAfterSwap(Trim(text));
  }

  lemma {:induction false} TrimStartOfReplaced(s: string)
    ensures TrimStart(Replace(s, ',', '.')) == Replace(TrimStart(s), ',', '.')
  {
    if s != [] {
      assert Replace(s, ',', '.')[1..] == Replace(s[1..], ',', '.');
      TrimStartOfReplaced(s[1..]);
    }
  }

  lemma {:induction false} TrimEndOfReplaced(s: string)
    ensures TrimEnd(Replace(s, ',', '.')) == Replace(TrimEnd(s), ',', '.')
  {
    if s != [] {
      assert Replace(s, ',', '.')[..|s| - 1] == Replace(s[..|s| - 1], ',', '.');
      TrimEndOfReplaced(s[..|s| - 1]);
    }
  }

  lemma {:induction false} TrimStartTwice(s: string)
    ensures TrimStart(TrimStart(s)) == TrimStart(s)
  {
    if s != [] && IsSpace(s[0]) {
      TrimStartTwice(s[1..]);
    }
  }

  lemma {:induction false} TrimEndTwice(s: string)
    ensures TrimEnd(TrimEnd(s)) == TrimEnd(s)
    ensures s != [] && !IsSpace(s[0]) ==> TrimEnd(s) != [] && TrimEnd(s)[0] == s[0]
    decreases |s|
  {
    if s != [] && IsSpace(s[|s| - 1]) {
      TrimEndTwice(s[..|s| - 1]);
    }
  }

  lemma TrimStartIsSolid(s: string)
    ensures TrimStart(s) != [] ==> !IsSpace(TrimStart(s)[0])
  {
  }

  lemma TrimTwice(s: string)
    ensures Trim(Trim(s)) == Trim(s)
  {
    TrimStartIsSolid(s);
    TrimEndTwice(TrimStart(s));
    TrimStartIsSolid(TrimEnd(TrimStart(s)));
  }

  /** Normalizing only replaces the separator: the blanks go anyway. */
  lemma NormalizedReadsTheSame(text: string)
    ensures ParseIntegerText(NormalizeDecimal(text)) == ParseIntegerText(Replace(text, ',', '.'))
  {
    TrimStartOfReplaced(text);
    TrimEndOfReplaced(TrimStart(text));
    NormalizedIsReplaced(text);
    assert Trim(Replace(text, ',', '.')) == Replace(Trim(text), ',', '.');
    TrimTwice(Replace(text, ',', '.'));
  }

  /** The integer that a value holds or spells; a decimal may have ',' for its point. */
  ghost predicate Holds(v: ValueKind, n: int) {
    match v
    case TinyInt(i) => i == n
    case SmallInt(i) => i == n
    case Integer(i) => i == n
    case BigInt(i) => i == n
    case Text(text) => FitsI64(n) && IsNumeralFor(text, n)
    case Decimal(text, _, _) => FitsI64(n) && IsNumeralFor(Replace(text, ',', '.'), n)
    case _ => false
  }

  /** Width in bits, and whether the type has a sign. */
  function Width(target: Target): (bits: nat)
    ensures bits >= 8
  {
    match target
    case I8 => 8
    case U8 => 8
    case I16 => 16
    case U16 => 16
    case I32 => 32
    case U32 => 32
    case I64 => 64
    case U64 => 64
  }

  predicate HasSign(target: Target) {
    target.I8? || target.I16? || target.I32? || target.I64?
  }

  function PowerOfTwo(bits: nat): int {
    if bits == 0 then 1 else 2 * PowerOfTwo(bits - 1)
  }

  lemma EightMoreBits(bits: nat)
    ensures PowerOfTwo(bits + 8) == 0x100 * PowerOfTwo(bits)
  {
    assert PowerOfTwo(bits + 4) == 0x10 * PowerOfTwo(bits) by {
      assert PowerOfTwo(bits + 2) == 4 * PowerOfTwo(bits);
      assert PowerOfTwo(bits + 4) == 4 * PowerOfTwo(bits + 2);
    }
    assert PowerOfTwo(bits + 6) == 4 * PowerOfTwo(bits + 4);
    assert PowerOfTwo(bits + 8) == 4 * PowerOfTwo(bits + 6);
  }

  lemma Powers()
    ensures PowerOfTwo(7) == 0x80 && PowerOfTwo(8) == 0x100
    ensures PowerOfTwo(15) == 0x8000 && PowerOfTwo(16) == 0x1_0000
    ensures PowerOfTwo(31) == 0x8000_0000 && PowerOfTwo(32) == 0x1_0000_0000
    ensures PowerOfTwo(63) == 0x8000_0000_0000_0000 && PowerOfTwo(64) == 0x1_0000_0000_0000_0000
  {
    EightMoreBits(0);
    assert PowerOfTwo(8) == 2 * PowerOfTwo(7);
    EightMoreBits(7);
    EightMoreBits(15);
    EightMoreBits(23);
    EightMoreBits(31);
    EightMoreBits(39);
    EightMoreBits(47);
    EightMoreBits(55);
    assert PowerOfTwo(16) == 2 * PowerOfTwo(15) && PowerOfTwo(32) == 2 * PowerOfTwo(31) && PowerOfTwo(64) == 2 * PowerOfTwo(63);
  }

  /** Two's complement, or none. */
  lemma TargetRange(n: int, target: Target)
    ensures InTarget(n, target) <==>
            if HasSign(target) then -PowerOfTwo(Width(target) - 1) <= n < PowerOfTwo(Width(target) - 1)
            else 0 <= n < PowerOfTwo(Width(target))
  {
    Powers();
  }

  lemma TextDecodesExactly(text: string, target: Target, n: int)
    ensures DecodeInteger(Text(text), target) == Some(n) <==> InTarget(n, target) && Holds(Text(text), n)
  {
    ParseIntegerTextExactly(text, n);
  }

  lemma DecimalDecodesExactly(v: ValueKind, target: Target, n: int)
    requires v.Decimal?
    ensures DecodeInteger(v, target) == Some(n) <==> InTarget(n, target) && Holds(v, n)
  {
    NormalizedReadsTheSame(v.text);
    ParseIntegerTextExactly(Replace(v.text, ',', '.'), n);
  }

  /** For every value: decoding to an integer type gives `n` exactly if the value holds or spells `n` and the type has it. */
  lemma IntegerDecodesExactly(v: ValueKind, target: Target, n: int)
    ensures DecodeInteger(v, target) == Some(n) <==> InTarget(n, target) && Holds(v, n)
  {
    match v
    case Text(text) => TextDecodesExactly(text, target, n);
    case Decimal(_, _, _) => DecimalDecodesExactly(v, target, n);
    case _ =>
  }
}
