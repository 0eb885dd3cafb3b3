/** The serialized form of type information, and reading it back. */
module TypeInfo {
  import opened Wrappers
  import opened DataTypes

  // ------------------------------------------------------------ names

  datatype TypeName =
    | BIGINT | BINARY | BIT | CHAR | DATE | DECIMAL | DOUBLE | FLOAT | INTEGER | LONGVARBINARY | LONGVARCHAR
    | NUMERIC | REAL | SMALLINT | TIME | TIMESTAMP | TINYINT | VARBINARY | VARCHAR | WCHAR | WLONGVARCHAR
    | WVARCHAR | UNKNOWN | UNIQUEIDENTIFIER | SQL_VARIANT | UDT | XML | DATETIMEOFFSET | HIERARCHYID | OTHER

  function Spelling(n: TypeName): string {
    match n
    case BIGINT => "BIGINT"
    case BINARY => "BINARY"
    case BIT => "BIT"
    case CHAR => "CHAR"
    case DATE => "DATE"
    case DECIMAL => "DECIMAL"
    case DOUBLE => "DOUBLE"
    case FLOAT => "FLOAT"
    case INTEGER => "INTEGER"
    case LONGVARBINARY => "LONGVARBINARY"
    case LONGVARCHAR => "LONGVARCHAR"
    case NUMERIC => "NUMERIC"
    case REAL => "REAL"
    case SMALLINT => "SMALLINT"
    case TIME => "TIME"
    case TIMESTAMP => "TIMESTAMP"
    case TINYINT => "TINYINT"
    case VARBINARY => "VARBINARY"
    case VARCHAR => "VARCHAR"
    case WCHAR => "WCHAR"
    case WLONGVARCHAR => "WLONGVARCHAR"
    case WVARCHAR => "WVARCHAR"
    case UNKNOWN => "UNKNOWN"
    case UNIQUEIDENTIFIER => "UNIQUEIDENTIFIER"
    case SQL_VARIANT => "SQL_VARIANT"
    case UDT => "UDT"
    case XML => "XML"
    case DATETIMEOFFSET => "DATETIMEOFFSET"
    case HIERARCHYID => "HIERARCHYID"
    case OTHER => "OTHER"
  }

  const ALL_NAMES: seq<TypeName> := [
    BIGINT, BINARY, BIT, CHAR, DATE, DECIMAL, DOUBLE, FLOAT, INTEGER, LONGVARBINARY, LONGVARCHAR,
    NUMERIC, REAL, SMALLINT, TIME, TIMESTAMP, TINYINT, VARBINARY, VARCHAR, WCHAR, WLONGVARCHAR,
    WVARCHAR, UNKNOWN, UNIQUEIDENTIFIER, SQL_VARIANT, UDT, XML, DATETIMEOFFSET, HIERARCHYID, OTHER]

  function FirstNamed(s: string, names: seq<TypeName>): Option<TypeName> {
    if names == [] then None
    else if Spelling(names[0]) == s then Some(names[0])
    else FirstNamed(s, names[1..])
  }

  function ParseName(s: string): Option<TypeName> {
    FirstNamed(s, ALL_NAMES)
  }

  datatype Fingerprint = Fingerprint(length: nat, first: char, third: char)

  /** Length, first and third letter of a name. */
  function FingerprintOf(n: TypeName): Fingerprint {
    match n
    case BIGINT => Fingerprint(6, 'B', 'G')
    case BINARY => Fingerprint(6, 'B', 'N')
    case BIT => Fingerprint(3, 'B', 'T')
    case CHAR => Fingerprint(4, 'C', 'A')
    case DATE => Fingerprint(4, 'D', 'T')
    case DECIMAL => Fingerprint(7, 'D', 'C')
    case DOUBLE => Fingerprint(6, 'D', 'U')
    case FLOAT => Fingerprint(5, 'F', 'O')
    case INTEGER => Fingerprint(7, 'I', 'T')
    case LONGVARBINARY => Fingerprint(13, 'L', 'N')
    case LONGVARCHAR => Fingerprint(11, 'L', 'N')
    case NUMERIC => Fingerprint(7, 'N', 'M')
    case REAL => Fingerprint(4, 'R', 'A')
    case SMALLINT => Fingerprint(8, 'S', 'A')
    case TIME => Fingerprint(4, 'T', 'M')
    case TIMESTAMP => Fingerprint(9, 'T', 'M')
    case TINYINT => Fingerprint(7, 'T', 'N')
    case VARBINARY => Fingerprint(9, 'V', 'R')
    case VARCHAR => Fingerprint(7, 'V', 'R')
    case WCHAR => Fingerprint(5, 'W', 'H')
    case WLONGVARCHAR => Fingerprint(12, 'W', 'O')
    case WVARCHAR => Fingerprint(8, 'W', 'A')
    case UNKNOWN => Fingerprint(7, 'U', 'K')
    case UNIQUEIDENTIFIER => Fingerprint(16, 'U', 'I')
    case SQL_VARIANT => Fingerprint(11, 'S', 'L')
    case UDT => Fingerprint(3, 'U', 'T')
    case XML => Fingerprint(3, 'X', 'L')
    case DATETIMEOFFSET => Fingerprint(14, 'D', 'T')
    case HIERARCHYID => Fingerprint(11, 'H', 'E')
    case OTHER => Fingerprint(5, 'O', 'H')
  }

  lemma FingerprintOfSpelling(n: TypeName)
    ensures |Spelling(n)| >= 3 && FingerprintOf(n) == Fingerprint(|Spelling(n)|, Spelling(n)[0], Spelling(n)[2])
  {
  }

  /** The fingerprint tells the names apart. */
  lemma FingerprintInjective(m: TypeName, n: TypeName)
    requires FingerprintOf(m) == FingerprintOf(n)
    ensures m == n
  {
    if FingerprintOf(m).length <= 6 {
      ShortInjective(m, n);
    } else {
      LongInjective(m, n);
    }
  }

  lemma ShortInjective(m: TypeName, n: TypeName)
    requires FingerprintOf(m) == FingerprintOf(n) && FingerprintOf(m).length <= 6
    ensures m == n
  {
  }

  lemma LongInjective(m: TypeName, n: TypeName)
    requires FingerprintOf(m) == FingerprintOf(n) && FingerprintOf(m).length > 6
    ensures m == n
  {
  }

  lemma SpellingInjective(m: TypeName, n: TypeName)
    requires Spelling(m) == Spelling(n)
    ensures m == n
  {
    FingerprintOfSpelling(m);
    FingerprintOfSpelling(n);
    FingerprintInjective(m, n);
  }

  lemma {:induction false} FirstNamedFinds(n: TypeName, names: seq<TypeName>)
    requires n in names
    ensures FirstNamed(Spelling(n), names) == Some(n)
    decreases |names|
  {
    if Spelling(names[0]) == Spelling(n) {
      SpellingInjective(names[0], n);
    } else {
      FirstNamedFinds(n, names[1..]);
    }
  }

  lemma NameParses(n: TypeName)
    ensures ParseName(Spelling(n)) == Some(n)
  {
    assert n in ALL_NAMES;
    FirstNamedFinds(n, ALL_NAMES);
  }

  function Name(t: DataType): TypeName {
    match t
    case BigInt => BIGINT
    case Binary(_) => BINARY
    case Bit => BIT
    case Char(_) => CHAR
    case Date => DATE
    case Decimal(_, _) => DECIMAL
    case Double => DOUBLE
    case Float(_) => FLOAT
    case Integer => INTEGER
    case LongVarbinary(_) => LONGVARBINARY
    case LongVarchar(_) => LONGVARCHAR
    case Numeric(_, _) => NUMERIC
    case Real => REAL
    case SmallInt => SMALLINT
    case Time(_) => TIME
    case Timestamp(_) => TIMESTAMP
    case TinyInt => TINYINT
    case Varbinary(_) => VARBINARY
    case Varchar(_) => VARCHAR
    case WChar(_) => WCHAR
    case WLongVarchar(_) => WLONGVARCHAR
    case WVarchar(_) => WVARCHAR
    case Unknown => UNKNOWN
    case Other(code, _, _) =>
      if code == -11 then UNIQUEIDENTIFIER
      else if code == -150 then SQL_VARIANT
      else if code == -151 then UDT
      else if code == -152 then XML
      else if code == -155 then DATETIMEOFFSET
      else if code == -156 then HIERARCHYID
      else OTHER
  }

  // ------------------------------------------------------------ integer widths

  const USIZE: int := 0x1_0000_0000_0000_0000

  predicate IsUsize(n: int) {
    0 <= n < USIZE
  }

  predicate IsI16(n: int) {
    -0x8000 <= n < 0x8000
  }

  /** `i16 as usize`: sign extension. */
  function I16AsUsize(n: int): (r: int)
    requires IsI16(n)
    ensures IsUsize(r)
  {
    if n < 0 then n + USIZE else n
  }

  /** `usize as i16`: the low 16 bits. */
  function UsizeAsI16(n: int): (r: int)
    requires IsUsize(n)
    ensures IsI16(r)
  {
    var low := n % 0x1_0000;
    if low < 0x8000 then low else low - 0x1_0000
  }

  lemma I16RoundTrips(n: int)
    requires IsI16(n)
    ensures UsizeAsI16(I16AsUsize(n)) == n
  {
    if n < 0 {
      assert USIZE == 0x1_0000_0000_0000 * 0x1_0000;
      assert (n + USIZE) % 0x1_0000 == (n + 0x1_0000) % 0x1_0000;
    }
  }

  // ------------------------------------------------------------ serialization

  datatype Field = TypeNameField | Precision | Scale | Length | SqlDataType | ColumnSize | DecimalDigits

  datatype FieldValue = Str(s: string) | Num(n: int) | Null

  datatype Entry = Entry(field: Field, value: FieldValue)

  /** A missing length is written as null. */
  function OptionalNum(n: nat): FieldValue {
    if n == 0 then Null else Num(n)
  }

  function Serialize(t: DataType): seq<Entry>
    requires InRange(t)
  {
    SerializeAs(Spelling(Name(t)), t)
  }

  function SerializeAs(name: string, t: DataType): seq<Entry>
    requires InRange(t)
  {
    [Entry(TypeNameField, Str(name))] +
    match t
    case Decimal(p, s) => [Entry(Precision, Num(p)), Entry(Scale, Num(s))]
    case Numeric(p, s) => [Entry(Precision, Num(p)), Entry(Scale, Num(s))]
    case Float(p) => [Entry(Precision, Num(p))]
    case Time(p) => [Entry(Precision, Num(I16AsUsize(p)))]
    case Timestamp(p) => [Entry(Precision, Num(I16AsUsize(p)))]
    case Char(n) => [Entry(Length, OptionalNum(n))]
    case Varchar(n) => [Entry(Length, OptionalNum(n))]
    case WChar(n) => [Entry(Length, OptionalNum(n))]
    case WVarchar(n) => [Entry(Length, OptionalNum(n))]
    case Binary(n) => [Entry(Length, OptionalNum(n))]
    case Varbinary(n) => [Entry(Length, OptionalNum(n))]
    case Other(code, size, digits) =>
      [Entry(SqlDataType, Num(code)), Entry(ColumnSize, OptionalNum(size)), Entry(DecimalDigits, Num(digits))]
    case _ => []
  }

  /** The Rust field types. */
  predicate InRange(t: DataType) {
    match t
    case Decimal(p, s) => IsUsize(p) && IsI16(s)
    case Numeric(p, s) => IsUsize(p) && IsI16(s)
    case Float(p) => IsUsize(p)
    case Time(p) => IsI16(p)
    case Timestamp(p) => IsI16(p)
    case Char(n) => IsUsize(n)
    case Varchar(n) => IsUsize(n)
    case WChar(n) => IsUsize(n)
    case WVarchar(n) => IsUsize(n)
    case Binary(n) => IsUsize(n)
    case Varbinary(n) => IsUsize(n)
    case Other(code, size, digits) => IsI16(code) && IsUsize(size) && IsI16(digits)
    case _ => true
  }

  // ------------------------------------------------------------ deserialization

  type Slots = map<Field, FieldValue>

  /** Values that the field's type accepts; only lengths and sizes may be null. */
  predicate Accepts(f: Field, v: FieldValue) {
    match f
    case TypeNameField => v.Str?
    case Precision => v.Num? && IsUsize(v.n)
    case Length => v.Null? || (v.Num? && IsUsize(v.n))
    case ColumnSize => v.Null? || (v.Num? && IsUsize(v.n))
    case _ => v.Num? && IsI16(v.n)
  }

  /** One field of the map; a field already seen is an error, a null leaves its slot empty. */
  function Visit(slots: Slots, e: Entry): Option<Slots> {
    if e.field in slots || !Accepts(e.field, e.value) then None
    else if e.value == Null then Some(slots)
    else Some(slots[e.field := e.value])
  }

  function VisitAll(slots: Slots, entries: seq<Entry>): Option<Slots>
    decreases |entries|
  {
    if entries == [] then Some(slots)
    else match Visit(slots, entries[0])
         case None => None
         case Some(next) => VisitAll(next, entries[1..])
  }

  function NumOr(slots: Slots, f: Field, default: int): int {
    if f in slots && slots[f].Num? then slots[f].n else default
  }

  function NatOr(slots: Slots, f: Field): nat {
    var n := NumOr(slots, f, 0);
    if n < 0 then 0 else n
  }

  /** The ODBC type codes that have a type of their own. */
  predicate IsStandard(code: int) {
    -10 <= code <= 8 || code == 12 || 91 <= code <= 93
  }

  /** `DataType::new` of the ODBC library. */
  function NewDataType(code: int, columnSize: nat, digits: int): DataType {
    if code == 0 then Unknown
    else if code == -1 then LongVarchar(columnSize)
    else if code == -2 then Binary(columnSize)
    else if code == -3 then Varbinary(columnSize)
    else if code == -4 then LongVarbinary(columnSize)
    else if code == -5 then BigInt
    else if code == -6 then TinyInt
    else if code == -7 then Bit
    else if code == -8 then WChar(columnSize)
    else if code == -9 then WVarchar(columnSize)
    else if code == -10 then WLongVarchar(columnSize)
    else if code == 1 then Char(columnSize)
    else if code == 2 then Numeric(columnSize, digits)
    else if code == 3 then Decimal(columnSize, digits)
    else if code == 4 then Integer
    else if code == 5 then SmallInt
    else if code == 6 then Float(columnSize)
    else if code == 7 then Real
    else if code == 8 then Double
    else if code == 12 then Varchar(columnSize)
    else if code == 91 then Date
    else if code == 92 then Time(digits)
    else if code == 93 then Timestamp(digits)
    else Other(code, columnSize, digits)
  }

  function I16OrZero(n: int): int {
    if IsUsize(n) then UsizeAsI16(n) else 0
  }

  /** The type of that name, with what the other fields say. */
  function AssembleAs(name: TypeName, slots: Slots): DataType {
    var length, precision := NatOr(slots, Length), NatOr(slots, Precision);
    var scale := NumOr(slots, Scale, 0);
    match name
    case BIGINT => BigInt
    case BINARY => Binary(length)
    case BIT => Bit
    case CHAR => Char(length)
    case DATE => Date
    case DECIMAL => Decimal(precision, scale)
    case DOUBLE => Double
    case FLOAT => Float(precision)
    case INTEGER => Integer
    case LONGVARBINARY => LongVarbinary(length)
    case LONGVARCHAR => LongVarchar(length)
    case NUMERIC => Numeric(precision, scale)
    case REAL => Real
    case SMALLINT => SmallInt
    case TIME => Time(I16OrZero(precision))
    case TIMESTAMP => Timestamp(I16OrZero(precision))
    case TINYINT => TinyInt
    case VARBINARY => Varbinary(length)
    case VARCHAR => Varchar(length)
    case WCHAR => WChar(length)
    case WLONGVARCHAR => WLongVarchar(length)
    case WVARCHAR => WVarchar(length)
    case UNKNOWN => Unknown
    case UNIQUEIDENTIFIER => Other(-11, 0, 0)
    case SQL_VARIANT => Other(-150, 0, 0)
    case UDT => Other(-151, 0, 0)
    case XML => Other(-152, 0, 0)
    case DATETIMEOFFSET => Other(-155, 0, 0)
    case HIERARCHYID => Other(-156, 0, 0)
    case OTHER => NewDataType(NumOr(slots, SqlDataType, 0), NatOr(slots, ColumnSize), NumOr(slots, DecimalDigits, 0))
  }

  /** An unknown name is an unknown type of the given length. */
  function Assemble(slots: Slots): Option<DataType> {
    if TypeNameField !in slots || !slots[TypeNameField].Str? then None
    else match ParseName(slots[TypeNameField].s)
         case None => Some(Other(0, NatOr(slots, Length), 0))
         case Some(name) => Some(AssembleAs(name, slots))
  }

  function Deserialize(entries: seq<Entry>): Option<DataType> {
    match VisitAll(map[], entries)
    case None => None
    case Some(slots) => Assemble(slots)
  }

  method VisitMap(entries: seq<Entry>) returns (r: Option<DataType>)
    ensures r == Deserialize(entries)
  {
    var slots: Slots := map[];
    var i := 0;
    assert entries[0..] == entries;
    while i < |entries|
      invariant 0 <= i <= |entries|
      invariant VisitAll(map[], entries) == VisitAll(slots, entries[i..])
    {
      var e := entries[i];
      assert entries[i..][0] == e && entries[i..][1..] == entries[i + 1..];
      if e.field in slots || !Accepts(e.field, e.value) {
        return None;
      }
      if e.value != Null {
        slots := slots[e.field := e.value];
      }
      i := i + 1;
    }
    r := Assemble(slots);
  }

  // ------------------------------------------------------------ round trip

  /** What survives: lengths of the LONG types and details of the named codes are not written. */
  function Normal(t: DataType): DataType {
    match t
    case LongVarbinary(_) => LongVarbinary(0)
    case LongVarchar(_) => LongVarchar(0)
    case WLongVarchar(_) => WLongVarchar(0)
    case Other(code, size, digits) => if Name(t) == OTHER then NewDataType(code, size, digits) else Other(code, 0, 0)
    case _ => t
  }

  lemma VisitCons(slots: Slots, e: Entry, rest: seq<Entry>)
    ensures VisitAll(slots, [e] + rest) ==
            match Visit(slots, e) case None => None case Some(next) => VisitAll(next, rest)
  {
    assert ([e] + rest)[1..] == rest;
  }

  /** Up to three fields behind the name, all distinct and accepted, leave exactly their values. */
  lemma VisitUpToFour(a: Entry, b: Entry, c: Entry, d: Entry)
    requires Accepts(a.field, a.value) && Accepts(b.field, b.value) && Accepts(c.field, c.value) && Accepts(d.field, d.value)
    requires a.field != b.field && a.field != c.field && a.field != d.field
    requires b.field != c.field && b.field != d.field && c.field != d.field
    ensures VisitAll(map[], [a] + []) == Some(Put(map[], a))
    ensures VisitAll(map[], [a] + [b]) == Some(Put(Put(map[], a), b))
    ensures VisitAll(map[], [a] + [b, c]) == Some(Put(Put(Put(map[], a), b), c))
    ensures VisitAll(map[], [a] + [b, c, d]) == Some(Put(Put(Put(Put(map[], a), b), c), d))
  {
    var s1 := Put(map[], a);
    var s2 := Put(s1, b);
    var s3 := Put(s2, c);
    VisitCons(map[], a, []);
    VisitCons(map[], a, [b]);
    VisitCons(map[], a, [b, c]);
    VisitCons(map[], a, [b, c, d]);
    VisitCons(s1, b, []);
    VisitCons(s1, b, [c]);
    VisitCons(s1, b, [c, d]);
    VisitCons(s2, c, []);
    VisitCons(s2, c, [d]);
    VisitCons(s3, d, []);
    assert [b] + [] == [b] && [b] + [c] == [b, c] && [b] + [c, d] == [b, c, d];
    assert [c] + [] == [c] && [c] + [d] == [c, d] && [d] + [] == [d];
  }

  function Put(slots: Slots, e: Entry): Slots {
    if e.value == FieldValue.Null then slots else slots[e.field := e.value]
  }

  /** The slots after reading what was written under some name hold that name and say what the type is. */
  ghost predicate Restores(name: string, t: DataType)
    requires InRange(t)
  {
    match VisitAll(map[], SerializeAs(name, t))
    case None => false
    case Some(slots) =>
      TypeNameField in slots && slots[TypeNameField] == Str(name) && Says(slots, t)
  }

  /** What the slots must say for the type to be assembled. */
  predicate Says(slots: Slots, t: DataType) {
    match t
    case Decimal(p, s) => NatOr(slots, Precision) == p && NumOr(slots, Scale, 0) == s
    case Numeric(p, s) => NatOr(slots, Precision) == p && NumOr(slots, Scale, 0) == s
    case Float(p) => NatOr(slots, Precision) == p
    case Time(p) => I16OrZero(NatOr(slots, Precision)) == p
    case Timestamp(p) => I16OrZero(NatOr(slots, Precision)) == p
    case Other(code, size, digits) =>
      NumOr(slots, SqlDataType, 0) == code && NatOr(slots, ColumnSize) == size && NumOr(slots, DecimalDigits, 0) == digits
    case Char(n) => NatOr(slots, Length) == n
    case Varchar(n) => NatOr(slots, Length) == n
    case WChar(n) => NatOr(slots, Length) == n
    case WVarchar(n) => NatOr(slots, Length) == n
    case Binary(n) => NatOr(slots, Length) == n
    case Varbinary(n) => NatOr(slots, Length) == n
    case LongVarbinary(_) => NatOr(slots, Length) == 0
    case LongVarchar(_) => NatOr(slots, Length) == 0
    case WLongVarchar(_) => NatOr(slots, Length) == 0
    case _ => true
  }

  lemma OtherIsAssembled(slots: Slots)
    ensures AssembleAs(OTHER, slots) ==
            NewDataType(NumOr(slots, SqlDataType, 0), NatOr(slots, ColumnSize), NumOr(slots, DecimalDigits, 0))
  {
  }

  lemma SaidNamedIsAssembled(slots: Slots, t: DataType)
    requires t.Other? && Name(t) != OTHER
    ensures AssembleAs(Name(t), slots) == Other(t.code, 0, 0)
  {
  }

  lemma SaidOtherIsAssembled(slots: Slots, t: DataType)
    requires t.Other? && Says(slots, t)
    ensures AssembleAs(Name(t), slots) == Normal(t)
  {
    if Name(t) == OTHER {
      OtherIsAssembled(slots);
    } else {
      SaidNamedIsAssembled(slots, t);
    }
  }

  lemma SaidStandardIsAssembled(slots: Slots, t: DataType)
    requires !t.Other? && Says(slots, t)
    ensures AssembleAs(Name(t), slots) == Normal(t)
  {
  }

  lemma SaidIsAssembled(slots: Slots, t: DataType)
    requires Says(slots, t)
    ensures AssembleAs(Name(t), slots) == Normal(t)
  {
    if t.Other? {
      SaidOtherIsAssembled(slots, t);
    } else {
      SaidStandardIsAssembled(slots, t);
    }
  }

  lemma NumericRestored(name: string, t: DataType)
    requires InRange(t) && (t.Decimal? || t.Numeric? || t.Float?)
    ensures Restores(name, t)
  {
    VisitUpToFour(Entry(TypeNameField, Str(name)), Entry(Precision, Num(t.precision)),
                  Entry(Scale, Num(if t.Float? then 0 else t.scale)), Entry(Length, FieldValue.Null));
  }

  /** Also for a negative number of fraction digits. */
  lemma TemporalRestored(name: string, t: DataType)
    requires InRange(t) && (t.Time? || t.Timestamp?)
    ensures Restores(name, t)
  {
    I16RoundTrips(t.fractionDigits);
    VisitUpToFour(Entry(TypeNameField, Str(name)), Entry(Precision, Num(I16AsUsize(t.fractionDigits))),
                  Entry(Scale, Num(0)), Entry(Length, FieldValue.Null));
  }

  predicate HasLengthField(t: DataType) {
    t.Char? || t.Varchar? || t.WChar? || t.WVarchar? || t.Binary? || t.Varbinary?
  }

  lemma LengthRestored(name: string, t: DataType)
    requires InRange(t) && HasLengthField(t)
    ensures Restores(name, t)
  {
    VisitUpToFour(Entry(TypeNameField, Str(name)), Entry(Length, OptionalNum(t.length)),
                  Entry(Scale, Num(0)), Entry(Precision, Num(0)));
  }

  lemma OtherRestored(name: string, t: DataType)
    requires InRange(t) && t.Other?
    ensures Restores(name, t)
  {
    VisitUpToFour(Entry(TypeNameField, Str(name)), Entry(SqlDataType, Num(t.code)),
                  Entry(ColumnSize, OptionalNum(t.columnSize)), Entry(DecimalDigits, Num(t.decimalDigits)));
  }

  lemma PlainRestored(name: string, t: DataType)
    requires InRange(t) && SerializeAs(name, t) == [Entry(TypeNameField, Str(name))] + [] && !t.Other?
    ensures Restores(name, t)
  {
    VisitUpToFour(Entry(TypeNameField, Str(name)), Entry(Length, FieldValue.Null), Entry(Precision, Num(0)), Entry(Scale, Num(0)));
  }

  lemma WrittenIsRestored(name: string, t: DataType)
    requires InRange(t)
    ensures Restores(name, t)
  {
    if t.Decimal? || t.Numeric? || t.Float? {
      NumericRestored(name, t);
    } else if t.Time? || t.Timestamp? {
      TemporalRestored(name, t);
    } else if HasLengthField(t) {
      LengthRestored(name, t);
    } else if t.Other? {
      OtherRestored(name, t);
    } else {
      PlainRestored(name, t);
    }
  }

  /** Deserializing undoes serializing, up to what is not written. */
  lemma SerializedReadsBack(t: DataType)
    requires InRange(t)
    ensures Deserialize(Serialize(t)) == Some(Normal(t))
  {
    NameParses(Name(t));
    WrittenIsRestored(Spelling(Name(t)), t);
    SaidIsAssembled(VisitAll(map[], Serialize(t)).value, t);
  }

  lemma NormalName(t: DataType)
    ensures Name(Normal(t)) == Name(t) <==> !(t.Other? && IsStandard(t.code))
  {
  }

  lemma NormalInRange(t: DataType)
    requires InRange(t)
    ensures InRange(Normal(t))
  {
  }

  lemma NormalAgain(t: DataType)
    ensures Normal(Normal(t)) == Normal(t) <==>
            !(t.Other? && (t.code == -1 || t.code == -4 || t.code == -10) && t.columnSize > 0)
  {
  }

  /** The name survives, except for an `Other` that carries a standard code. */
  lemma NameSurvivesExactly(t: DataType)
    requires InRange(t)
    ensures Deserialize(Serialize(t)).Some?
    ensures Name(Deserialize(Serialize(t)).value) == Name(t) <==> !(t.Other? && IsStandard(t.code))
  {
    SerializedReadsBack(t);
    NormalName(t);
  }

  /** Writing and reading a second time changes nothing more, except for an `Other` that turns out to be a LONG type. */
  lemma SecondTripExactly(t: DataType)
    requires InRange(t)
    ensures Deserialize(Serialize(t)).Some? && InRange(Deserialize(Serialize(t)).value)
    ensures var once := Deserialize(Serialize(t)).value;
            Deserialize(Serialize(once)) == Some(once) <==>
            !(t.Other? && (t.code == -1 || t.code == -4 || t.code == -10) && t.columnSize > 0)
  {
    SerializedReadsBack(t);
    NormalInRange(t);
    NormalAgain(t);
    SerializedReadsBack(Normal(t));
  }

  // ------------------------------------------------------------ field order

  ghost predicate DistinctFields(entries: seq<Entry>) {
    forall i, j :: 0 <= i < j < |entries| ==> entries[i].field != entries[j].field
  }

  ghost predicate Acceptable(entries: seq<Entry>) {
    forall e <- entries :: Accepts(e.field, e.value)
  }

  /** With each field once, the slots hold exactly the entries that are not null. */
  ghost predicate Holds(end: Slots, slots: Slots, entries: seq<Entry>) {
    && (forall f <- slots :: f in end && end[f] == slots[f])
    && (forall e <- entries :: e.value != FieldValue.Null ==> e.field in end && end[e.field] == e.value)
    && (forall f <- end :: f in slots || (end[f] != FieldValue.Null && Entry(f, end[f]) in entries))
  }

  lemma {:induction false} VisitedSlots(slots: Slots, entries: seq<Entry>)
    requires DistinctFields(entries) && forall e <- entries :: e.field !in slots
    ensures Acceptable(entries) <==> VisitAll(slots, entries).Some?
    ensures Acceptable(entries) ==> Holds(VisitAll(slots, entries).value, slots, entries)
    decreases |entries|
  {
    if entries != [] {
      var e := entries[0];
      assert entries == [e] + entries[1..];
      if Accepts(e.field, e.value) {
        var next := Put(slots, e);
        forall d | d in entries[1..]
          ensures d.field !in next
        {
          var i :| 0 <= i < |entries[1..]| && entries[1..][i] == d;
          assert entries[i + 1] == d && entries[0].field != entries[i + 1].field;
        }
        VisitedSlots(next, entries[1..]);
        if Acceptable(entries) {
          var end := VisitAll(next, entries[1..]).value;
          assert e.value != FieldValue.Null ==> e.field in next && e.field in end;
          forall f | f in end && f !in slots
            ensures end[f] != FieldValue.Null && Entry(f, end[f]) in entries
          {
            if f in next {
              assert f == e.field && end[f] == e.value;
            }
          }
        }
      }
    }
  }

  lemma SameSlots(x: Slots, y: Slots, a: seq<Entry>, b: seq<Entry>)
    requires Holds(x, map[], a) && Holds(y, map[], b)
    requires forall e :: e in a <==> e in b
    ensures x == y
  {
    forall f | f in x
      ensures f in y && y[f] == x[f]
    {
      assert Entry(f, x[f]) in b;
    }
    forall f | f in y
      ensures f in x && x[f] == y[f]
    {
      assert Entry(f, y[f]) in a;
    }
  }

  /** Fields may come in any order: with the same entries, each field once, the result is the same. */
  lemma FieldOrderIrrelevant(a: seq<Entry>, b: seq<Entry>)
    requires DistinctFields(a) && DistinctFields(b)
    requires forall e :: e in a <==> e in b
    ensures VisitAll(map[], a) == VisitAll(map[], b)
    ensures Deserialize(a) == Deserialize(b)
  {
    VisitedSlots(map[], a);
    VisitedSlots(map[], b);
    if Acceptable(a) {
      SameSlots(VisitAll(map[], a).value, VisitAll(map[], b).value, a, b);
    }
  }

  // ------------------------------------------------------------ the written form

  /** The names of the types, as written. */
  lemma WrittenNames()
    ensures Spelling(Name(BigInt)) == "BIGINT" && Spelling(Name(Bit)) == "BIT" && Spelling(Name(Date)) == "DATE"
    ensures Spelling(Name(Double)) == "DOUBLE" && Spelling(Name(Integer)) == "INTEGER" && Spelling(Name(Real)) == "REAL"
    ensures Spelling(Name(SmallInt)) == "SMALLINT" && Spelling(Name(TinyInt)) == "TINYINT" && Spelling(Name(Unknown)) == "UNKNOWN"
  {
  }

  lemma WrittenLongNames(n: nat)
    ensures Spelling(Name(LongVarbinary(n))) == "LONGVARBINARY" && Spelling(Name(LongVarchar(n))) == "LONGVARCHAR"
    ensures Spelling(Name(WLongVarchar(n))) == "WLONGVARCHAR"
  {
  }

  /** The fields of a numeric or temporal type, as written. */
  lemma WrittenNumbers(p: nat, s: int, q: int)
    requires IsUsize(p) && IsI16(s) && IsI16(q)
    ensures Serialize(Decimal(p, s)) == [Entry(TypeNameField, Str("DECIMAL")), Entry(Precision, Num(p)), Entry(Scale, Num(s))]
    ensures Serialize(Numeric(p, s)) == [Entry(TypeNameField, Str("NUMERIC")), Entry(Precision, Num(p)), Entry(Scale, Num(s))]
    ensures Serialize(Float(p)) == [Entry(TypeNameField, Str("FLOAT")), Entry(Precision, Num(p))]
    ensures q >= 0 ==> Serialize(Time(q)) == [Entry(TypeNameField, Str("TIME")), Entry(Precision, Num(q))]
    ensures q >= 0 ==> Serialize(Timestamp(q)) == [Entry(TypeNameField, Str("TIMESTAMP")), Entry(Precision, Num(q))]
  {
  }

  /** A length is a number, or null if it is missing. */
  lemma WrittenLengths(n: nat)
    requires IsUsize(n)
    ensures var length := Entry(Length, if n == 0 then FieldValue.Null else Num(n));
            && Serialize(Char(n)) == [Entry(TypeNameField, Str("CHAR")), length]
            && Serialize(Varchar(n)) == [Entry(TypeNameField, Str("VARCHAR")), length]
            && Serialize(WChar(n)) == [Entry(TypeNameField, Str("WCHAR")), length]
            && Serialize(WVarchar(n)) == [Entry(TypeNameField, Str("WVARCHAR")), length]
            && Serialize(Binary(n)) == [Entry(TypeNameField, Str("BINARY")), length]
            && Serialize(Varbinary(n)) == [Entry(TypeNameField, Str("VARBINARY")), length]
  {
  }

  /** The types without a kind of their own: by name for six codes, and always with code, size and digits. */
  lemma WrittenOthers(code: int, size: nat, digits: int)
    requires IsI16(code) && IsUsize(size) && IsI16(digits)
    ensures Serialize(Other(code, size, digits))[1..] ==
            [Entry(SqlDataType, Num(code)), Entry(ColumnSize, if size == 0 then FieldValue.Null else Num(size)),
             Entry(DecimalDigits, Num(digits))]
    ensures Spelling(Name(Other(code, size, digits))) ==
            if code == -11 then "UNIQUEIDENTIFIER"
            else if code == -150 then "SQL_VARIANT"
            else if code == -151 then "UDT"
            else if code == -152 then "XML"
            else if code == -155 then "DATETIMEOFFSET"
            else if code == -156 then "HIERARCHYID"
            else "OTHER"
  {
  }
}
