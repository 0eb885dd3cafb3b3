/** SQL data types as the ODBC layer reports them. */
module DataTypes {

  /** A length is positive when known; 0 stands for a missing one. */
  datatype DataType =
    | BigInt
    | Binary(length: nat)
    | Bit
    | Char(length: nat)
    | Date
    | Decimal(precision: nat, scale: int)
    | Double
    | Float(precision: nat)
    | Integer
    | LongVarbinary(length: nat)
    | LongVarchar(length: nat)
    | Numeric(precision: nat, scale: int)
    | Real
    | SmallInt
    | Time(fractionDigits: int)
    | Timestamp(fractionDigits: int)
    | TinyInt
    | Varbinary(length: nat)
    | Varchar(length: nat)
    | WChar(length: nat)
    | WLongVarchar(length: nat)
    | WVarchar(length: nat)
    | Unknown
    | Other(code: int, columnSize: nat, decimalDigits: int)
}
