/** One result set, fetched row by row or through column-wise buffers. */
module Rows {
  import opened DataTypes
  import opened Text
  import opened Values
  import opened Wrappers

  type CodeUnit = u: int | 0 <= u < 0x1_0000

  /** What the server holds in one cell. */
  datatype Cell =
    | Absent
    | Number(n: int)
    | Floating(r: real)
    | Flag(b: bool)
    | Temporal(moment: Moment)
    | Octets(bytes: seq<Byte>)
    | Units(units: seq<CodeUnit>)
    | Digits(digits: string)

  datatype Column = Column(dataType: DataType, nullable: Option<bool>)

  datatype BufferDesc =
    | I64Buffer(nullable: bool)
    | F32Buffer(nullable: bool)
    | F64Buffer(nullable: bool)
    | BitBuffer(nullable: bool)
    | DateBuffer(nullable: bool)
    | TimeBuffer(nullable: bool)
    | TimestampBuffer(nullable: bool)
    | TextBuffer(maxStrLen: nat)
    | WTextBuffer(maxStrLen: nat)
    | BinaryBuffer(maxBytes: nat)

  // ------------------------------------------------------------ decoding one cell

  function SurrogatePair(high: int, low: int): char
    requires 0xD800 <= high < 0xDC00 <= low < 0xE000
  {
    (0x1_0000 + (high - 0xD800) * 0x400 + (low - 0xDC00)) as char
  }

  /** `String::from_utf16_lossy`. */
  function FromUtf16Lossy(units: seq<CodeUnit>): string {
    if units == [] then ""
    else if !(0xD800 <= units[0] < 0xE000) then [units[0] as char] + FromUtf16Lossy(units[1..])
    else if units[0] < 0xDC00 && |units| > 1 && 0xDC00 <= units[1] < 0xE000 then
      [SurrogatePair(units[0], units[1])] + FromUtf16Lossy(units[2..])
    else ['\U{FFFD}'] + FromUtf16Lossy(units[1..])
  }

  predicate IsBinary(t: DataType) {
    t.Binary? || t.Varbinary? || t.LongVarbinary?
  }

  predicate IsWide(t: DataType) {
    t.WChar? || t.WVarchar? || t.WLongVarchar?
  }

  predicate IsExact(t: DataType) {
    t.Decimal? || t.Numeric?
  }

  /** The columns on which both paths are defined: narrow text, GUIDs and fallbacks are not modelled. */
  predicate Covered(t: DataType) {
    !(t.Char? || t.Varchar? || t.LongVarchar? || t.Other? || t.Unknown?)
  }

  function Precision(t: DataType): nat
    requires IsExact(t)
  {
    t.precision
  }

  /** The server only sends values of the column's type, and no NULL where it promised none. */
  predicate Conforms(cell: Cell, column: Column) {
    var t := column.dataType;
    match cell
    case Absent => column.nullable != Some(false)
    case Number(n) =>
      (t.TinyInt? && 0 <= n < 0x100) || (t.SmallInt? && -0x8000 <= n < 0x8000) ||
      (t.Integer? && -0x8000_0000 <= n < 0x8000_0000) || (t.BigInt? && FitsI64(n))
    case Floating(_) => t.Real? || t.Float? || t.Double?
    case Flag(_) => t.Bit?
    case Temporal(_) => t.Date? || t.Time? || t.Timestamp?
    case Octets(_) => IsBinary(t)
    case Units(_) => IsWide(t)
    case Digits(_) => IsExact(t)
  }

  /** `fetch_value`: SQLGetData into a buffer of the column's own type. */
  function FetchValue(cell: Cell, t: DataType): ValueKind {
    match cell
    case Absent => ValueKind.Null
    case Number(n) =>
      (match t
       case TinyInt => ValueKind.TinyInt(n)
       case SmallInt => ValueKind.SmallInt(n)
       case Integer => ValueKind.Integer(n)
       case _ => ValueKind.BigInt(n))
    case Floating(r) => if t.Real? then ValueKind.Real(r) else ValueKind.Double(r)
    case Flag(b) => ValueKind.Bit(b)
    case Temporal(m) =>
      if t.Date? then ValueKind.Date(m) else if t.Time? then ValueKind.Time(m) else ValueKind.Timestamp(m)
    case Octets(bytes) => ValueKind.Binary(bytes)
    case Units(units) => ValueKind.Text(FromUtf16Lossy(units))
    case Digits(digits) =>
      if IsExact(t) then ValueKind.Decimal(digits, Precision(t), t.scale) else ValueKind.Text(digits)
  }

  function MapBufferDesc(t: DataType, maxColumnSize: nat, nullable: bool): BufferDesc {
    match t
    case TinyInt => I64Buffer(nullable)
    case SmallInt => I64Buffer(nullable)
    case Integer => I64Buffer(nullable)
    case BigInt => I64Buffer(nullable)
    case Real => F32Buffer(nullable)
    case Float(_) => F64Buffer(nullable)
    case Double => F64Buffer(nullable)
    case Bit => BitBuffer(nullable)
    case Date => DateBuffer(nullable)
    case Time(_) => TimeBuffer(nullable)
    case Timestamp(_) => TimestampBuffer(nullable)
    case Binary(_) => BinaryBuffer(maxColumnSize)
    case Varbinary(_) => BinaryBuffer(maxColumnSize)
    case LongVarbinary(_) => BinaryBuffer(maxColumnSize)
    case WChar(_) => WTextBuffer(maxColumnSize)
    case WVarchar(_) => WTextBuffer(maxColumnSize)
    case WLongVarchar(_) => WTextBuffer(maxColumnSize)
    case _ => TextBuffer(maxColumnSize)
  }

  function Shortened<T>(s: seq<T>, max: nat): seq<T> {
    if |s| <= max then s else s[..max]
  }

  /** What the driver leaves in a buffer slot: variable-sized values are cut to the buffer. */
  function Stored(cell: Cell, desc: BufferDesc): Cell {
    match cell
    case Octets(bytes) => if desc.BinaryBuffer? then Octets(Shortened(bytes, desc.maxBytes)) else cell
    case Units(units) => if desc.WTextBuffer? then Units(Shortened(units, desc.maxStrLen)) else cell
    case Digits(digits) => if desc.TextBuffer? then Digits(Shortened(digits, desc.maxStrLen)) else cell
    case _ => cell
  }

  /** One slot of `buffered_column_values`: the buffer's type decides, not the column's. */
  function SlotValue(slot: Cell, desc: BufferDesc, t: DataType): ValueKind {
    match slot
    case Absent => ValueKind.Null
    case Number(n) => ValueKind.BigInt(n)
    case Floating(r) => if desc.F32Buffer? then ValueKind.Real(r) else ValueKind.Double(r)
    case Flag(b) => ValueKind.Bit(b)
    case Temporal(m) =>
      if desc.DateBuffer? then ValueKind.Date(m) else if desc.TimeBuffer? then ValueKind.Time(m) else ValueKind.Timestamp(m)
    case Octets(bytes) => ValueKind.Binary(bytes)
    case Units(units) => ValueKind.Text(FromUtf16Lossy(units))
    case Digits(digits) =>
      if IsExact(t) then ValueKind.Decimal(digits, Precision(t), t.scale) else ValueKind.Text(digits)
  }

  function Desc(column: Column, maxColumnSize: nat): BufferDesc {
    MapBufferDesc(column.dataType, maxColumnSize, column.nullable != Some(false))
  }

  function BufferedValue(cell: Cell, column: Column, maxColumnSize: nat): ValueKind {
    var desc := Desc(column, maxColumnSize);
    SlotValue(Stored(cell, desc), desc, column.dataType)
  }

  // ------------------------------------------------------------ the two decodings agree

  predicate IsInteger(v: ValueKind) {
    v.TinyInt? || v.SmallInt? || v.Integer? || v.BigInt?
  }

  /** Equal, or integers of different widths with the same number. */
  predicate SameValue(u: ValueKind, v: ValueKind) {
    u == v || (IsInteger(u) && IsInteger(v) && u.i == v.i)
  }

  function AsBool(v: ValueKind, parse: string -> Option<bool>): Option<bool> {
    match v
    case Bit(b) => Some(b)
    case TinyInt(i) => Some(i != 0)
    case SmallInt(i) => Some(i != 0)
    case Integer(i) => Some(i != 0)
    case BigInt(i) => Some(i != 0)
    case Real(r) => Some(r != 0.0)
    case Double(r) => Some(r != 0.0)
    case Text(text) => parse(text)
    case Decimal(text, _, _) => parse(NormalizeDecimal(text))
    case _ => None
  }

  function AsText(v: ValueKind): Option<string> {
    match v
    case Text(text) => Some(text)
    case Decimal(text, _, _) => Some(text)
    case _ => None
  }

  /** Values that are the same read the same as integer (of any width), boolean and text. */
  lemma SameValueReadsTheSame(u: ValueKind, v: ValueKind, target: Target, parse: string -> Option<bool>)
    requires SameValue(u, v)
    ensures AsI64(u) == AsI64(v) && DecodeInteger(u, target) == DecodeInteger(v, target)
    ensures AsBool(u, parse) == AsBool(v, parse)
    ensures AsText(u) == AsText(v) && (u.Binary? ==> u == v)
  {
  }

  predicate Fits(cell: Cell, maxColumnSize: nat) {
    match cell
    case Octets(bytes) => |bytes| <= maxColumnSize
    case Units(units) => |units| <= maxColumnSize
    case Digits(digits) => |digits| <= maxColumnSize
    case _ => true
  }

  /** A proper prefix of UTF-16 text never decodes to the same text, even when it splits a surrogate pair. */
  lemma {:induction false} ShorterTextDiffers(units: seq<CodeUnit>, n: nat)
    requires n < |units|
    ensures FromUtf16Lossy(units[..n]) != FromUtf16Lossy(units)
    decreases n
  {
    if n > 0 {
      assert units[..n][1..] == units[1..][..n - 1];
      if 0xD800 <= units[0] < 0xDC00 && 0xDC00 <= units[1] < 0xE000 {
        if n > 1 {
          assert units[..n][2..] == units[2..][..n - 2];
          ShorterTextDiffers(units[2..], n - 2);
        }
        assert FromUtf16Lossy(units[..n])[1..] == FromUtf16Lossy(if n > 1 then units[2..][..n - 2] else []);
        assert FromUtf16Lossy(units)[1..] == FromUtf16Lossy(units[2..]);
      } else {
        ShorterTextDiffers(units[1..], n - 1);
        assert FromUtf16Lossy(units[..n])[1..] == FromUtf16Lossy(units[1..][..n - 1]);
        assert FromUtf16Lossy(units)[1..] == FromUtf16Lossy(units[1..]);
      }
    }
  }

  /** Buffered and unbuffered decoding give the same value exactly when the value fits the buffer. */
  lemma BufferedValueExactly(cell: Cell, column: Column, maxColumnSize: nat)
    requires Conforms(cell, column) && Covered(column.dataType)
    ensures SameValue(FetchValue(cell, column.dataType), BufferedValue(cell, column, maxColumnSize)) <==>
            Fits(cell, maxColumnSize)
  {
    if cell.Units? && !Fits(cell, maxColumnSize) {
      ShorterTextDiffers(cell.units, maxColumnSize);
    }
  }

  // ------------------------------------------------------------ what a cell reads as

  /** One character in UTF-16. */
  function EncodeChar(c: char): seq<CodeUnit> {
    var u := c as int;
    if u < 0x1_0000 then [u]
    else [0xD800 + (u - 0x1_0000) / 0x400, 0xDC00 + (u - 0x1_0000) % 0x400]
  }

  function Encode(text: string): seq<CodeUnit> {
    if text == "" then [] else EncodeChar(text[0]) + Encode(text[1..])
  }

  lemma CharReadsBack(c: char, rest: seq<CodeUnit>)
    ensures FromUtf16Lossy(EncodeChar(c) + rest) == [c] + FromUtf16Lossy(rest)
  {
    var u := c as int;
    var units := EncodeChar(c);
    if u < 0x1_0000 {
      RestOfConcat(units, rest);
      assert units[1..] + rest == rest;
    } else {
      var all := units + rest;
      assert all[0] == units[0] && all[1] == units[1] && all[2..] == rest;
      assert SurrogatePair(units[0], units[1]) == c;
    }
  }

  /** Reading UTF-16 gives back any text. */
  lemma {:induction false} EncodedReadsBack(text: string)
    ensures FromUtf16Lossy(Encode(text)) == text
  {
    if text != "" {
      EncodedReadsBack(text[1..]);
      CharReadsBack(text[0], Encode(text[1..]));
      assert [text[0]] + text[1..] == text;
    }
  }

  /** What a client reads of the value is what the server holds in the cell. */
  ghost predicate Shows(v: ValueKind, cell: Cell, t: DataType) {
    match cell
    case Absent => v.Null?
    case Number(n) =>
      && (forall target, m :: DecodeInteger(v, target) == Some(m) <==> m == n && InTarget(n, target))
      && forall parse :: AsBool(v, parse) == Some(n != 0)
    case Floating(r) => (if t.Real? then v.Real? else v.Double?) && v.r == r && forall parse :: AsBool(v, parse) == Some(r != 0.0)
    case Flag(b) => forall parse :: AsBool(v, parse) == Some(b)
    case Temporal(m) =>
      (v.Date? || v.Time? || v.Timestamp?) && v.moment == m && (t.Date? <==> v.Date?) && (t.Time? <==> v.Time?)
    case Octets(bytes) => v == ValueKind.Binary(bytes)
    case Units(units) => forall text :: units == Encode(text) ==> AsText(v) == Some(text)
    case Digits(digits) =>
      && AsText(v) == Some(digits)
      && forall target, m :: DecodeInteger(v, target) == Some(m) <==>
           InTarget(m, target) && FitsI64(m) && IsNumeralFor(Replace(digits, ',', '.'), m)
  }

  lemma NumberShows(v: ValueKind, n: int)
    requires IsInteger(v) && v.i == n
    ensures forall target, m :: DecodeInteger(v, target) == Some(m) <==> m == n && InTarget(n, target)
  {
    forall target, m
      ensures DecodeInteger(v, target) == Some(m) <==> m == n && InTarget(n, target)
    {
      IntegerDecodesExactly(v, target, m);
    }
  }

  lemma UnitsShow(units: seq<CodeUnit>)
    ensures forall text :: units == Encode(text) ==> FromUtf16Lossy(units) == text
  {
    forall text | units == Encode(text)
      ensures FromUtf16Lossy(units) == text
    {
      EncodedReadsBack(text);
    }
  }

  lemma DigitsShow(v: ValueKind, digits: string)
    requires v.Decimal? && v.text == digits
    ensures forall target, m :: DecodeInteger(v, target) == Some(m) <==>
              InTarget(m, target) && FitsI64(m) && IsNumeralFor(Replace(digits, ',', '.'), m)
  {
    forall target, m
      ensures DecodeInteger(v, target) == Some(m) <==>
              InTarget(m, target) && FitsI64(m) && IsNumeralFor(Replace(digits, ',', '.'), m)
    {
      IntegerDecodesExactly(v, target, m);
    }
  }

  lemma FetchedShows(cell: Cell, column: Column)
    requires Conforms(cell, column) && Covered(column.dataType)
    ensures Shows(FetchValue(cell, column.dataType), cell, column.dataType)
  {
    var v := FetchValue(cell, column.dataType);
    match cell
    case Number(n) => NumberShows(v, n);
    case Units(units) => UnitsShow(units);
    case Digits(digits) => DigitsShow(v, digits);
    case _ =>
  }

  lemma SlotShows(cell: Cell, column: Column, desc: BufferDesc, maxColumnSize: nat)
    requires Conforms(cell, column) && Covered(column.dataType) && desc == Desc(column, maxColumnSize)
    ensures Shows(SlotValue(cell, desc, column.dataType), cell, column.dataType)
  {
    var v := SlotValue(cell, desc, column.dataType);
    match cell
    case Number(n) => NumberShows(v, n);
    case Units(units) => UnitsShow(units);
    case Digits(digits) => DigitsShow(v, digits);
    case _ =>
  }

  lemma FittingIsStored(cell: Cell, column: Column, maxColumnSize: nat)
    requires Fits(cell, maxColumnSize)
    ensures Stored(cell, Desc(column, maxColumnSize)) == cell
  {
  }

  /** Both fetch paths show the cell: the row-wise one always, the buffered one if the value fits the buffer. */
  lemma CellIsShown(cell: Cell, column: Column, maxColumnSize: nat)
    requires Conforms(cell, column) && Covered(column.dataType)
    ensures Shows(FetchValue(cell, column.dataType), cell, column.dataType)
    ensures Fits(cell, maxColumnSize) ==> Shows(BufferedValue(cell, column, maxColumnSize), cell, column.dataType)
  {
    FetchedShows(cell, column);
    if Fits(cell, maxColumnSize) {
      FittingIsStored(cell, column, maxColumnSize);
      SlotShows(cell, column, Desc(column, maxColumnSize), maxColumnSize);
    }
  }
}
