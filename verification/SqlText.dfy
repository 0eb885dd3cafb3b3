/** The T-SQL text printed for migrations, and a lexer that reads it back. */
module SqlText {
  import opened Text
  import Values

  type Byte = Values.Byte

  // ------------------------------------------------------------ printing

  function EscapeSqlBracket(value: string): string {
    Doubled(value, ']')
  }

  function EscapeSqlString(value: string): string {
    Doubled(value, '\'')
  }

  function HexDigit(n: nat): (c: char)
    requires n < 16
    ensures IsHexDigit(c) && HexValue(c) == n
  {
    if n < 10 then Digit(n) else ('A' as int + n - 10) as char
  }

  predicate IsHexDigit(c: char) {
    IsDigit(c) || 'A' <= c <= 'F'
  }

  function HexValue(c: char): nat
    requires IsHexDigit(c)
    ensures HexValue(c) < 16
  {
    if IsDigit(c) then DigitValue(c) else c as int - 'A' as int + 10
  }

  function HexDigits(bytes: seq<Byte>): string {
    if bytes == [] then "" else [HexDigit(bytes[0] / 16), HexDigit(bytes[0] % 16)] + HexDigits(bytes[1..])
  }

  method FormatHex(bytes: seq<Byte>) returns (hex: string)
    ensures hex == "0x" + HexDigits(bytes)
  {
    hex := "0x";
    var i := 0;
    assert bytes[0..] == bytes;
    while i < |bytes|
      invariant 0 <= i <= |bytes|
      invariant hex + HexDigits(bytes[i..]) == "0x" + HexDigits(bytes)
    {
      var b := bytes[i];
      assert bytes[i..][1..] == bytes[i + 1..];
      var two := [HexDigit(b / 16), HexDigit(b % 16)];
      assert hex + (two + HexDigits(bytes[i + 1..])) == hex + two + HexDigits(bytes[i + 1..]);
      hex := hex + two;
      i := i + 1;
    }
    assert hex + "" == hex;
  }

  /** Schema and table; no schema is the empty one. */
  function SplitTableName(name: string): (string, string) {
    var dot := NextChar(name, '.', 0);
    if dot < |name| then (name[..dot], name[dot + 1..]) else ("", name)
  }

  function QuotedTableName(name: string): string {
    var (schema, table) := SplitTableName(name);
    if schema == "" then "[" + (EscapeSqlBracket(table) + "]")
    else "[" + (EscapeSqlBracket(schema) + "]") + "." + ("[" + (EscapeSqlBracket(table) + "]"))
  }

  function Signed(n: int): string {
    if n < 0 then "-" + Decimal(-n) else Decimal(n)
  }

  function InsertHead(tableName: string): string {
    "INSERT INTO " + QuotedTableName(tableName) + " "
  }

  const COLUMN_LIST := "(" + "version, " + "description, " + "migration_type, " + "sql, " + "checksum, " + "no_tx) "

  function ValuesFront(version: int, description: string, migrationType: string): string {
    "VALUES (" + Signed(version) + ", " +
    ("N'" + (EscapeSqlString(description) + "'")) + ", " +
    ("N'" + (EscapeSqlString(migrationType) + "'")) + ", "
  }

  function ValueList(version: int, description: string, migrationType: string, sql: string, checksum: seq<Byte>, noTx: bool)
    : string
  {
    ValuesFront(version, description, migrationType) +
    ("N'" + (EscapeSqlString(sql) + "'")) + ", " +
    ("0x" + HexDigits(checksum)) + ", " +
    ((if noTx then "1" else "0") + ")")
  }

  /** The tracking INSERT of `apply`; `skip` prints it with an empty `sql`. */
  function InsertSql(
    tableName: string, version: int, description: string, migrationType: string, sql: string,
    checksum: seq<Byte>, noTx: bool): string
  {
    InsertHead(tableName) + COLUMN_LIST + ValueList(version, description, migrationType, sql, checksum, noTx)
  }

  function DeleteSql(tableName: string, version: int): string {
    DeleteHead(tableName) + ("WHERE " + ("version " + "= ")) + Signed(version)
  }

  function DeleteHead(tableName: string): string {
    "DELETE FROM " + QuotedTableName(tableName) + " "
  }

  // ------------------------------------------------------------ the lexer

  datatype Token =
    | Word(name: string)
    | Bracketed(name: string)
    | NationalString(text: string)
    | Number(value: int)
    | HexLiteral(bytes: seq<Byte>)
    | Punct(c: char)

  predicate IsWordChar(c: char) {
    'a' <= c <= 'z' || 'A' <= c <= 'Z' || c == '_' || IsDigit(c)
  }

  predicate IsPunct(c: char) {
    c == '(' || c == ')' || c == ',' || c == '.' || c == '-' || c == '='
  }

  /** Length of the longest run of word characters at the front. */
  function Run(s: string): (n: nat)
    ensures n <= |s|
    ensures forall i :: 0 <= i < n ==> IsWordChar(s[i])
    ensures n < |s| ==> !IsWordChar(s[n])
  {
    if s != "" && IsWordChar(s[0]) then 1 + Run(s[1..]) else 0
  }

  /** Pairs of hex digits. */
  function ReadHex(s: string): (bool, seq<Byte>) {
    if s == "" then (true, [])
    else if |s| == 1 || !IsHexDigit(s[0]) || !IsHexDigit(s[1]) then (false, [])
    else
      var (ok, bytes) := ReadHex(s[2..]);
      (ok, [HexValue(s[0]) * 16 + HexValue(s[1])] + bytes)
  }

  datatype Lexed = Tokens(tokens: seq<Token>) | LexError

  function Cons(t: Token, rest: Lexed): Lexed {
    match rest
    case Tokens(tokens) => Tokens([t] + tokens)
    case LexError => LexError
  }

  /** A string constant goes on behind a backslash at the end of a line: backslash and line break are dropped. */
  function Continued(text: string): string {
    if text == "" then ""
    else if BreaksLine(text) > 0 then Continued(text[BreaksLine(text)..])
    else [text[0]] + Continued(text[1..])
  }

  /** Length of the line continuation at the front, if there is one. */
  function BreaksLine(text: string): (n: nat)
    ensures n <= |text|
  {
    if |text| > 1 && text[0] == '\\' && text[1] == '\n' then 2
    else if |text| > 2 && text[0] == '\\' && text[1] == '\r' && text[2] == '\n' then 3
    else 0
  }

  /** A run of word characters that starts with a digit. */
  function ReadNumber(run: string): Lexed {
    if AllDigits(run) then Tokens([Number(DigitsValue(run))])
    else if |run| >= 2 && run[0] == '0' && run[1] == 'x' && ReadHex(run[2..]).0 then
      Tokens([HexLiteral(ReadHex(run[2..]).1)])
    else LexError
  }

  function Lex(s: string): Lexed
    decreases |s|
  {
    if s == "" then Tokens([])
    else if s[0] == ' ' then Lex(s[1..])
    else if s[0] == '[' then
      var (ok, name, rest) := ReadQuoted(s[1..], ']');
      if ok then Cons(Bracketed(name), Lex(rest)) else LexError
    else if s[0] == 'N' && |s| > 1 && s[1] == '\'' then
      var (ok, text, rest) := ReadQuoted(s[2..], '\'');
      if ok then Cons(NationalString(Continued(text)), Lex(rest)) else LexError
    else if IsWordChar(s[0]) then
      var n := Run(s);
      if n == 0 then LexError
      else if IsDigit(s[0]) then
        match ReadNumber(s[..n])
        case Tokens(ts) => if |ts| == 1 then Cons(ts[0], Lex(s[n..])) else LexError
        case LexError => LexError
      else Cons(Word(s[..n]), Lex(s[n..]))
    else if IsPunct(s[0]) then Cons(Punct(s[0]), Lex(s[1..]))
    else LexError
  }

  // ------------------------------------------------------------ printed pieces

  datatype Piece = Blank | Tok(token: Token)

  function HexText(bytes: seq<Byte>): string {
    "0x" + HexDigits(bytes)
  }

  function PieceText(p: Piece): string {
    match p
    case Blank => " "
    case Tok(Word(name)) => name
    case Tok(Bracketed(name)) => "[" + (EscapeSqlBracket(name) + "]")
    case Tok(NationalString(text)) => "N'" + (EscapeSqlString(text) + "'")
    case Tok(Number(value)) => if value < 0 then "" else Decimal(value)
    case Tok(HexLiteral(bytes)) => HexText(bytes)
    case Tok(Punct(c)) => [c]
  }

  /** Pieces the lexer knows. */
  predicate Printable(p: Piece) {
    match p
    case Tok(Word(name)) => name != "" && !IsDigit(name[0]) && forall i :: 0 <= i < |name| ==> IsWordChar(name[i])
    case Tok(Number(value)) => value >= 0
    case Tok(Punct(c)) => IsPunct(c)
    case _ => true
  }

  /** A piece that may follow anything: it starts with a blank or a punctuation mark other than an opening bracket. */
  predicate Separates(rest: string) {
    rest == "" || rest[0] == ' ' || IsPunct(rest[0])
  }

  /** What the server makes of a printed token. */
  function AsRead(t: Token): Token {
    match t
    case NationalString(text) => NationalString(Continued(text))
    case _ => t
  }

  function TokenOf(p: Piece): seq<Token> {
    match p
    case Blank => []
    case Tok(t) => [AsRead(t)]
  }

  function Prepend(ts: seq<Token>, rest: Lexed): Lexed {
    match rest
    case Tokens(tokens) => Tokens(ts + tokens)
    case LexError => LexError
  }

  lemma {:induction false} RunOfWord(w: string, rest: string)
    requires forall i :: 0 <= i < |w| ==> IsWordChar(w[i])
    requires Separates(rest)
    ensures Run(w + rest) == |w|
    decreases |w|
  {
    if w == "" {
      assert w + rest == rest;
      assert rest != "" ==> !IsWordChar(rest[0]);
    } else {
      RestOfConcat(w, rest);
      RunOfWord(w[1..], rest);
    }
  }

  lemma {:induction false} HexReads(bytes: seq<Byte>)
    ensures ReadHex(HexDigits(bytes)) == (true, bytes)
    ensures forall c <- HexDigits(bytes) :: IsHexDigit(c)
  {
    if bytes != [] {
      HexReads(bytes[1..]);
      assert HexDigits(bytes)[2..] == HexDigits(bytes[1..]);
      assert bytes == [bytes[0]] + bytes[1..];
    }
  }

  lemma RunLexes(w: string, rest: string)
    requires w != "" && Separates(rest) && forall i :: 0 <= i < |w| ==> IsWordChar(w[i])
    ensures Lex(w + rest) ==
            if !IsDigit(w[0]) then Cons(Word(w), Lex(rest))
            else match ReadNumber(w)
                 case Tokens(ts) => if |ts| == 1 then Cons(ts[0], Lex(rest)) else LexError
                 case LexError => LexError
  {
    RunOfWord(w, rest);
    var s := w + rest;
    assert s[..|w|] == w && s[|w|..] == rest;
    assert s[0] == w[0] && (|s| > 1 ==> s[1] != '\'');
  }

  lemma BracketedLexes(name: string, rest: string)
    requires Separates(rest)
    ensures Lex("[" + (EscapeSqlBracket(name) + "]") + rest) == Cons(Bracketed(name), Lex(rest))
  {
    DoubledReads(name, ']', rest);
    var s := "[" + (EscapeSqlBracket(name) + "]") + rest;
    assert s[0] == '[' && s[1..] == Doubled(name, ']') + ([']'] + rest);
  }

  lemma StringLexes(text: string, rest: string)
    requires Separates(rest)
    ensures Lex("N'" + (EscapeSqlString(text) + "'") + rest) == Cons(NationalString(Continued(text)), Lex(rest))
  {
    DoubledReads(text, '\'', rest);
    var s := "N'" + (EscapeSqlString(text) + "'") + rest;
    assert s[0] == 'N' && s[1] == '\'' && s[2..] == Doubled(text, '\'') + (['\''] + rest);
  }

  lemma CharLexes(c: char, rest: string)
    requires c == ' ' || IsPunct(c)
    ensures Lex([c] + rest) == if c == ' ' then Lex(rest) else Cons(Punct(c), Lex(rest))
  {
    assert ([c] + rest)[1..] == rest;
  }

  lemma HexTextReads(bytes: seq<Byte>)
    ensures var w := HexText(bytes);
            && w != "" && IsDigit(w[0])
            && (forall i :: 0 <= i < |w| ==> IsWordChar(w[i]))
            && ReadNumber(w) == Tokens([HexLiteral(bytes)])
  {
    HexReads(bytes);
    var w := HexText(bytes);
    assert w[2..] == HexDigits(bytes) && w[1] == 'x';
    forall i | 0 <= i < |w|
      ensures IsWordChar(w[i])
    {
      if i >= 2 {
        assert w[i] == HexDigits(bytes)[i - 2] && w[i] in HexDigits(bytes);
      }
    }
  }

  /** Each piece is read off the front as its token, whatever separator follows. */
  lemma PieceLexes(p: Piece, rest: string)
    requires Printable(p)
    requires p.Tok? && !p.token.Punct? ==> Separates(rest)
    ensures Lex(PieceText(p) + rest) == Prepend(TokenOf(p), Lex(rest))
  {
    match p
    case Blank => CharLexes(' ', rest);
    case Tok(Word(name)) => RunLexes(name, rest);
    case Tok(Bracketed(name)) => BracketedLexes(name, rest);
    case Tok(NationalString(text)) => StringLexes(text, rest);
    case Tok(Number(value)) =>
      DecimalReadsBack(value);
      RunLexes(Decimal(value), rest);
    case Tok(HexLiteral(bytes)) =>
      HexTextReads(bytes);
      RunLexes(HexText(bytes), rest);
    case Tok(Punct(c)) => CharLexes(c, rest);
  }

  // ------------------------------------------------------------ printed lists

  function Print(ps: seq<Piece>): string {
    if ps == [] then "" else PieceText(ps[0]) + Print(ps[1..])
  }

  function TokensOf(ps: seq<Piece>): seq<Token> {
    if ps == [] then [] else TokenOf(ps[0]) + TokensOf(ps[1..])
  }

  predicate IsSeparator(p: Piece) {
    p == Blank || p.token.Punct?
  }

  /** Between any two pieces one is a separator. */
  predicate WellSpaced(ps: seq<Piece>) {
    && (forall i :: 0 <= i < |ps| ==> Printable(ps[i]))
    && (forall i :: 0 <= i < |ps| - 1 ==> IsSeparator(ps[i]) || IsSeparator(ps[i + 1]))
  }

  /** Whatever pieces are printed, the lexer returns exactly their tokens. */
  lemma {:induction false} PrintedLexes(ps: seq<Piece>)
    requires WellSpaced(ps)
    ensures Lex(Print(ps)) == Tokens(TokensOf(ps))
    decreases |ps|
  {
    if ps != [] {
      var rest := Print(ps[1..]);
      PrintedLexes(ps[1..]);
      if |ps| > 1 {
        assert Print(ps[1..]) == PieceText(ps[1]) + Print(ps[1..][1..]);
      }
      PieceLexes(ps[0], rest);
    }
  }

  lemma {:induction false} PrintConcat(a: seq<Piece>, b: seq<Piece>)
    ensures Print(a + b) == Print(a) + Print(b)
    ensures TokensOf(a + b) == TokensOf(a) + TokensOf(b)
    decreases |a|
  {
    if a == [] {
      assert a + b == b;
    } else {
      assert (a + b)[1..] == a[1..] + b && (a + b)[0] == a[0];
      PrintConcat(a[1..], b);
      ConcatAssociates(PieceText(a[0]), Print(a[1..]), Print(b));
      ConcatAssociates(TokenOf(a[0]), TokensOf(a[1..]), TokensOf(b));
    }
  }

  // ------------------------------------------------------------ the statements

  function W(name: string): Piece {
    Tok(Word(name))
  }

  function P(c: char): Piece {
    Tok(Punct(c))
  }

  lemma PrintOne(a: Piece)
    ensures Print([a]) == PieceText(a) && TokensOf([a]) == TokenOf(a)
  {
    assert [a][1..] == [];
    assert PieceText(a) + "" == PieceText(a);
  }

  lemma PrintTwo(a: Piece, b: Piece)
    ensures Print([a, b]) == PieceText(a) + PieceText(b) && TokensOf([a, b]) == TokenOf(a) + TokenOf(b)
  {
    assert [a, b][1..] == [b];
    PrintOne(b);
  }

  lemma WellSpacedTogether(a: seq<Piece>, b: seq<Piece>)
    requires WellSpaced(a) && WellSpaced(b)
    requires a == [] || b == [] || IsSeparator(a[|a| - 1]) || IsSeparator(b[0])
    ensures WellSpaced(a + b)
  {
  }

  function TableTokens(tableName: string): seq<Token> {
    var (schema, table) := SplitTableName(tableName);
    if schema == "" then [Bracketed(table)] else [Bracketed(schema), Punct('.'), Bracketed(table)]
  }

  function TablePieces(tableName: string): seq<Piece> {
    var (schema, table) := SplitTableName(tableName);
    if schema == "" then [Tok(Bracketed(table))] else [Tok(Bracketed(schema)), P('.'), Tok(Bracketed(table))]
  }

  lemma TablePrinted(tableName: string)
    ensures Print(TablePieces(tableName)) == QuotedTableName(tableName)
    ensures TokensOf(TablePieces(tableName)) == TableTokens(tableName)
    ensures WellSpaced(TablePieces(tableName)) && TablePieces(tableName) != []
  {
    var (schema, table) := SplitTableName(tableName);
    PrintOne(Tok(Bracketed(table)));
    if schema != "" {
      PrintTwo(Tok(Bracketed(schema)), P('.'));
      PrintConcat([Tok(Bracketed(schema)), P('.')], [Tok(Bracketed(table))]);
      assert TablePieces(tableName) == [Tok(Bracketed(schema)), P('.')] + [Tok(Bracketed(table))];
    }
  }

  /** A printed piece list with its text and tokens, ready to be joined with others. */
  ghost predicate Prints(ps: seq<Piece>, text: string, tokens: seq<Token>) {
    WellSpaced(ps) && Print(ps) == text && TokensOf(ps) == tokens
  }

  lemma Joined(a: seq<Piece>, s: string, x: seq<Token>, b: seq<Piece>, t: string, y: seq<Token>)
    requires Prints(a, s, x) && Prints(b, t, y)
    requires a == [] || b == [] || IsSeparator(a[|a| - 1]) || IsSeparator(b[0])
    ensures Prints(a + b, s + t, x + y)
  {
    PrintConcat(a, b);
    WellSpacedTogether(a, b);
  }

  function HeadPieces(tableName: string): seq<Piece> {
    [W("INSERT"), Blank, W("INTO"), Blank] + TablePieces(tableName) + [Blank]
  }

  function HeadTokens(tableName: string): seq<Token> {
    [Word("INSERT"), Word("INTO")] + TableTokens(tableName)
  }

  lemma BlankPrinted()
    ensures Prints([Blank], " ", [])
  {
    PrintOne(Blank);
  }

  lemma WordPrinted(w: string)
    requires Printable(W(w))
    ensures Prints([W(w), Blank], w + " ", [Word(w)])
    ensures Prints([W(w), P(',')], w + ",", [Word(w), Punct(',')])
    ensures Prints([W(w), P(')')], w + ")", [Word(w), Punct(')')])
  {
    PrintTwo(W(w), Blank);
    PrintTwo(W(w), P(','));
    PrintTwo(W(w), P(')'));
  }

  lemma Keywords()
    ensures Printable(W("INSERT")) && Printable(W("INTO")) && Printable(W("VALUES"))
    ensures Printable(W("DELETE")) && Printable(W("FROM")) && Printable(W("WHERE"))
  {
  }

  lemma ColumnNames()
    ensures Printable(W("version")) && Printable(W("description")) && Printable(W("migration_type"))
    ensures Printable(W("sql")) && Printable(W("checksum")) && Printable(W("no_tx"))
  {
  }

  /** Two keywords, each with its blank. */
  lemma TwoWordsPrinted(v: string, w: string)
    requires Printable(W(v)) && Printable(W(w))
    ensures Prints([W(v), Blank, W(w), Blank], (v + " ") + (w + " "), [Word(v), Word(w)])
  {
    WordPrinted(v);
    WordPrinted(w);
    Joined([W(v), Blank], v + " ", [Word(v)], [W(w), Blank], w + " ", [Word(w)]);
    assert [W(v), Blank] + [W(w), Blank] == [W(v), Blank, W(w), Blank];
    assert [Word(v)] + [Word(w)] == [Word(v), Word(w)];
  }

  /** Text in front of a table name and a blank behind it. */
  lemma AroundTable(front: seq<Piece>, text: string, tokens: seq<Token>, tableName: string)
    requires Prints(front, text, tokens) && front != [] && IsSeparator(front[|front| - 1])
    ensures Prints(front + TablePieces(tableName) + [Blank], text + QuotedTableName(tableName) + " ",
                   tokens + TableTokens(tableName))
  {
    TablePrinted(tableName);
    BlankPrinted();
    Joined(front, text, tokens, TablePieces(tableName), QuotedTableName(tableName), TableTokens(tableName));
    Joined(front + TablePieces(tableName), text + QuotedTableName(tableName), tokens + TableTokens(tableName), [Blank], " ", []);
    assert tokens + TableTokens(tableName) + [] == tokens + TableTokens(tableName);
  }

  lemma HeadPrinted(tableName: string)
    ensures Prints(HeadPieces(tableName), InsertHead(tableName), HeadTokens(tableName))
  {
    Keywords();
    TwoWordsPrinted("INSERT", "INTO");
    assert ("INSERT" + " ") + ("INTO" + " ") == "INSERT INTO ";
    AroundTable([W("INSERT"), Blank, W("INTO"), Blank], "INSERT INTO ", [Word("INSERT"), Word("INTO")], tableName);
  }

  function ColumnPieces(w: string): seq<Piece> {
    [W(w), P(','), Blank]
  }

  lemma ColumnPrinted(w: string)
    requires Printable(W(w))
    ensures Prints(ColumnPieces(w), w + ", ", [Word(w), Punct(',')])
  {
    WordPrinted(w);
    BlankPrinted();
    Joined([W(w), P(',')], w + ",", [Word(w), Punct(',')], [Blank], " ", []);
    assert [W(w), P(',')] + [Blank] == ColumnPieces(w);
    assert w + "," + " " == w + ", ";
    assert [Word(w), Punct(',')] + [] == [Word(w), Punct(',')];
  }

  function ListPieces(): seq<Piece> {
    [P('(')] + ColumnPieces("version") + ColumnPieces("description") + ColumnPieces("migration_type") +
    ColumnPieces("sql") + ColumnPieces("checksum") + ([W("no_tx"), P(')')] + [Blank])
  }

  const LIST_TOKENS: seq<Token> :=
    [Punct('(')] + [Word("version"), Punct(',')] + [Word("description"), Punct(',')] +
    [Word("migration_type"), Punct(',')] + [Word("sql"), Punct(',')] + [Word("checksum"), Punct(',')] +
    [Word("no_tx"), Punct(')')]

  lemma ListEndPrinted()
    ensures Prints([W("no_tx"), P(')')] + [Blank], "no_tx) ", [Word("no_tx"), Punct(')')])
  {
    ColumnNames();
    WordPrinted("no_tx");
    BlankPrinted();
    Joined([W("no_tx"), P(')')], "no_tx" + ")", [Word("no_tx"), Punct(')')], [Blank], " ", []);
    assert "no_tx" + ")" + " " == "no_tx) ";
    assert [Word("no_tx"), Punct(')')] + [] == [Word("no_tx"), Punct(')')];
  }

  /** One more column at the end of a list. */
  lemma NextColumn(ps: seq<Piece>, text: string, tokens: seq<Token>, w: string, more: string)
    requires Prints(ps, text, tokens) && ps != [] && IsSeparator(ps[|ps| - 1])
    requires Printable(W(w)) && more == w + ", "
    ensures var qs := ps + ColumnPieces(w);
            Prints(qs, text + more, tokens + [Word(w), Punct(',')]) && qs != [] && IsSeparator(qs[|qs| - 1])
  {
    ColumnPrinted(w);
    Joined(ps, text, tokens, ColumnPieces(w), more, [Word(w), Punct(',')]);
  }

  lemma ListPrinted()
    ensures Prints(ListPieces(), COLUMN_LIST, LIST_TOKENS)
  {
    ColumnNames();
    ListEndPrinted();
    PrintOne(P('('));
    var p, t, k := [P('(')], "(", [Punct('(')];
    NextColumn(p, t, k, "version", "version, ");
    var p0, t0, k0 := p + ColumnPieces("version"), t + "version, ", k + [Word("version"), Punct(',')];
    NextColumn(p0, t0, k0, "description", "description, ");
    var p1, t1, k1 := p0 + ColumnPieces("description"), t0 + "description, ", k0 + [Word("description"), Punct(',')];
    NextColumn(p1, t1, k1, "migration_type", "migration_type, ");
    var p2, t2, k2 := p1 + ColumnPieces("migration_type"), t1 + "migration_type, ", k1 + [Word("migration_type"), Punct(',')];
    NextColumn(p2, t2, k2, "sql", "sql, ");
    var p3, t3, k3 := p2 + ColumnPieces("sql"), t2 + "sql, ", k2 + [Word("sql"), Punct(',')];
    NextColumn(p3, t3, k3, "checksum", "checksum, ");
    Joined(p3 + ColumnPieces("checksum"), t3 + "checksum, ", k3 + [Word("checksum"), Punct(',')],
           [W("no_tx"), P(')')] + [Blank], "no_tx) ", [Word("no_tx"), Punct(')')]);
  }

  function SignedPieces(n: int): seq<Piece> {
    if n < 0 then [P('-'), Tok(Number(-n))] else [Tok(Number(n))]
  }

  /** A negative version is a minus sign and a number. */
  function SignedTokens(n: int): seq<Token> {
    if n < 0 then [Punct('-'), Number(-n)] else [Number(n)]
  }

  lemma SignedPrinted(n: int)
    ensures Prints(SignedPieces(n), Signed(n), SignedTokens(n)) && SignedPieces(n) != []
  {
    if n < 0 {
      PrintTwo(P('-'), Tok(Number(-n)));
      assert ['-'] + Decimal(-n) == "-" + Decimal(-n);
    } else {
      PrintOne(Tok(Number(n)));
    }
  }

  lemma CommaPrinted()
    ensures Prints([P(','), Blank], ", ", [Punct(',')])
  {
    PrintTwo(P(','), Blank);
    CommaBlank();
  }

  lemma CommaBlank()
    ensures [','] + " " == ", "
  {
  }

  /** Some pieces of a value, and the comma behind it. */
  lemma NextValue(ps: seq<Piece>, text: string, tokens: seq<Token>, vs: seq<Piece>, value: string, ts: seq<Token>)
    requires Prints(ps, text, tokens) && ps != [] && IsSeparator(ps[|ps| - 1])
    requires Prints(vs, value, ts)
    ensures var qs := ps + vs + [P(','), Blank];
            Prints(qs, text + value + ", ", tokens + ts + [Punct(',')]) && IsSeparator(qs[|qs| - 1])
  {
    CommaPrinted();
    Joined(ps, text, tokens, vs, value, ts);
    Joined(ps + vs, text + value, tokens + ts, [P(','), Blank], ", ", [Punct(',')]);
  }

  function Bit(b: bool): Token {
    Number(if b then 1 else 0)
  }

  lemma BitPrinted(b: bool)
    ensures Prints([Tok(Bit(b)), P(')')], (if b then "1" else "0") + ")", [Bit(b), Punct(')')])
  {
    PrintTwo(Tok(Bit(b)), P(')'));
    assert Decimal(1) == "1" && Decimal(0) == "0";
  }

  function FrontTokens(version: int, description: string, migrationType: string): seq<Token> {
    [Word("VALUES"), Punct('(')] + SignedTokens(version) + [Punct(',')] +
    [NationalString(description)] + [Punct(',')] + [NationalString(migrationType)] + [Punct(',')]
  }

  function ValueTokens(version: int, description: string, migrationType: string, sql: string, checksum: seq<Byte>, noTx: bool)
    : seq<Token>
  {
    FrontTokens(version, description, migrationType) +
    [NationalString(sql)] + [Punct(',')] + [HexLiteral(checksum)] + [Punct(',')] +
    [Bit(noTx), Punct(')')]
  }

  lemma ValuesStartPrinted()
    ensures Prints([W("VALUES"), Blank] + [P('(')], "VALUES (", [Word("VALUES"), Punct('(')])
  {
    Keywords();
    WordPrinted("VALUES");
    PrintOne(P('('));
    Joined([W("VALUES"), Blank], "VALUES" + " ", [Word("VALUES")], [P('(')], "(", [Punct('(')]);
    assert "VALUES" + " " + "(" == "VALUES (";
    assert [Word("VALUES")] + [Punct('(')] == [Word("VALUES"), Punct('(')];
  }

  /** A single value and its comma. */
  lemma NextSingle(ps: seq<Piece>, text: string, tokens: seq<Token>, v: Piece)
    requires Prints(ps, text, tokens) && ps != [] && IsSeparator(ps[|ps| - 1])
    requires v.Tok? && Printable(v)
    ensures var qs := ps + [v] + [P(','), Blank];
            Prints(qs, text + PieceText(v) + ", ", tokens + [AsRead(v.token)] + [Punct(',')]) && IsSeparator(qs[|qs| - 1])
  {
    PrintOne(v);
    NextValue(ps, text, tokens, [v], PieceText(v), [AsRead(v.token)]);
  }

  lemma FrontPrinted(version: int, description: string, migrationType: string) returns (ps: seq<Piece>)
    ensures Prints(ps, ValuesFront(version, description, migrationType),
                   FrontTokens(version, Continued(description), Continued(migrationType)))
    ensures ps != [] && IsSeparator(ps[|ps| - 1])
  {
    var d, m := Tok(NationalString(description)), Tok(NationalString(migrationType));
    ps := [W("VALUES"), Blank] + [P('(')];
    var t, k := "VALUES (", [Word("VALUES"), Punct('(')];
    ValuesStartPrinted();
    SignedPrinted(version);
    NextValue(ps, t, k, SignedPieces(version), Signed(version), SignedTokens(version));
    ps, t, k := ps + SignedPieces(version) + [P(','), Blank], t + Signed(version) + ", ", k + SignedTokens(version) + [Punct(',')];
    NextSingle(ps, t, k, d);
    ps, t, k := ps + [d] + [P(','), Blank], t + PieceText(d) + ", ", k + [AsRead(d.token)] + [Punct(',')];
    NextSingle(ps, t, k, m);
    ps := ps + [m] + [P(','), Blank];
  }

  lemma ValuesPrinted(version: int, description: string, migrationType: string, sql: string, checksum: seq<Byte>, noTx: bool)
    returns (ps: seq<Piece>)
    ensures Prints(ps, ValueList(version, description, migrationType, sql, checksum, noTx),
                   ValueTokens(version, Continued(description), Continued(migrationType), Continued(sql), checksum, noTx))
  {
    var q, h := Tok(NationalString(sql)), Tok(HexLiteral(checksum));
    ps := FrontPrinted(version, description, migrationType);
    var t, k := ValuesFront(version, description, migrationType), FrontTokens(version, Continued(description), Continued(migrationType));
    NextSingle(ps, t, k, q);
    ps, t, k := ps + [q] + [P(','), Blank], t + PieceText(q) + ", ", k + [AsRead(q.token)] + [Punct(',')];
    NextSingle(ps, t, k, h);
    ps, t, k := ps + [h] + [P(','), Blank], t + PieceText(h) + ", ", k + [h.token] + [Punct(',')];
    BitPrinted(noTx);
    Joined(ps, t, k, [Tok(Bit(noTx)), P(')')], (if noTx then "1" else "0") + ")", [Bit(noTx), Punct(')')]);
    ps := ps + [Tok(Bit(noTx)), P(')')];
  }

  /**
   * For every input: the INSERT always has the same token shape, and its
   * tokens carry exactly the checksum, and the texts without line continuations.
   */
  lemma InsertLexes(
    tableName: string, version: int, description: string, migrationType: string, sql: string,
    checksum: seq<Byte>, noTx: bool)
    ensures Lex(InsertSql(tableName, version, description, migrationType, sql, checksum, noTx)) ==
            Tokens(InsertTokens(tableName, version, Continued(description), Continued(migrationType), Continued(sql),
                                checksum, noTx))
  {
    HeadPrinted(tableName);
    ListPrinted();
    var vs := ValuesPrinted(version, description, migrationType, sql, checksum, noTx);
    var head := HeadPieces(tableName);
    assert head[|head| - 1] == Blank;
    Joined(head, InsertHead(tableName), HeadTokens(tableName), ListPieces(), COLUMN_LIST, LIST_TOKENS);
    var both := head + ListPieces();
    assert both[|both| - 1] == Blank;
    Joined(both, InsertHead(tableName) + COLUMN_LIST, HeadTokens(tableName) + LIST_TOKENS,
           vs, ValueList(version, description, migrationType, sql, checksum, noTx),
           ValueTokens(version, Continued(description), Continued(migrationType), Continued(sql), checksum, noTx));
    PrintedLexes(both + vs);
  }

  function InsertTokens(
    tableName: string, version: int, description: string, migrationType: string, sql: string,
    checksum: seq<Byte>, noTx: bool): seq<Token>
  {
    HeadTokens(tableName) + LIST_TOKENS + ValueTokens(version, description, migrationType, sql, checksum, noTx)
  }

  /** A backslash stands directly before a line break. */
  predicate HasContinuation(text: string) {
    exists i :: 0 <= i < |text| && BreaksLine(text[i..]) > 0
  }

  lemma {:induction false} ContinuedExactly(text: string)
    ensures |Continued(text)| <= |text|
    ensures Continued(text) == text <==> !HasContinuation(text)
    decreases |text|
  {
    assert text[0..] == text;
    if text != "" {
      if BreaksLine(text) > 0 {
        ContinuedExactly(text[BreaksLine(text)..]);
      } else {
        ContinuedExactly(text[1..]);
        assert text == [text[0]] + text[1..];
        forall i | 0 < i < |text|
          ensures text[i..] == text[1..][i - 1..]
        {
        }
        if HasContinuation(text) {
          var i :| 0 <= i < |text| && BreaksLine(text[i..]) > 0;
          assert BreaksLine(text[1..][i - 1..]) > 0;
        }
        if HasContinuation(text[1..]) {
          var i :| 0 <= i < |text[1..]| && BreaksLine(text[1..][i..]) > 0;
          assert BreaksLine(text[i + 1..]) > 0;
        }
      }
    }
  }

  /** The three texts can be told from the tokens. */
  lemma TextsInTokens(version: int, d: string, m: string, q: string, e: string, n: string, r: string, checksum: seq<Byte>, noTx: bool)
    ensures ValueTokens(version, d, m, q, checksum, noTx) == ValueTokens(version, e, n, r, checksum, noTx) <==>
            d == e && m == n && q == r
  {
    var a, b := ValueTokens(version, d, m, q, checksum, noTx), ValueTokens(version, e, n, r, checksum, noTx);
    var k := 3 + |SignedTokens(version)|;
    assert a[k] == NationalString(d) && b[k] == NationalString(e);
    assert a[k + 2] == NationalString(m) && b[k + 2] == NationalString(n);
    assert a[k + 4] == NationalString(q) && b[k + 4] == NationalString(r);
  }

  /** The tokens carry exactly the description, type, SQL text and checksum if and only if no text has a line continuation. */
  lemma InsertReadsBackExactly(
    tableName: string, version: int, description: string, migrationType: string, sql: string,
    checksum: seq<Byte>, noTx: bool)
    ensures Lex(InsertSql(tableName, version, description, migrationType, sql, checksum, noTx)) ==
            Tokens(InsertTokens(tableName, version, description, migrationType, sql, checksum, noTx)) <==>
            !HasContinuation(description) && !HasContinuation(migrationType) && !HasContinuation(sql)
  {
    var d, m, q := Continued(description), Continued(migrationType), Continued(sql);
    InsertLexes(tableName, version, description, migrationType, sql, checksum, noTx);
    ContinuedExactly(description);
    ContinuedExactly(migrationType);
    ContinuedExactly(sql);
    TextsInTokens(version, d, m, q, description, migrationType, sql, checksum, noTx);
    SameFront(HeadTokens(tableName) + LIST_TOKENS, ValueTokens(version, d, m, q, checksum, noTx),
              ValueTokens(version, description, migrationType, sql, checksum, noTx));
  }

  /** The tokens of the values, one by one. */
  lemma WrittenValues(version: nat, d: string, m: string, q: string, checksum: seq<Byte>, noTx: bool)
    ensures ValueTokens(version, d, m, q, checksum, noTx) ==
            [Word("VALUES"), Punct('('), Number(version), Punct(','), NationalString(d), Punct(','), NationalString(m), Punct(','),
             NationalString(q), Punct(','), HexLiteral(checksum), Punct(','), Number(if noTx then 1 else 0), Punct(')')]
  {
  }

  /** Two capital digits a byte, the high one first. */
  lemma WrittenHex()
    ensures HexDigits([0x4D, 0xF0]) == "4DF0" && HexDigits([0x0A, 0x9E]) == "0A9E"
  {
    assert HexDigits([0xF0]) == "F0" && HexDigits([0x9E]) == "9E";
    assert [0x4D, 0xF0][1..] == [0xF0] && [0x0A, 0x9E][1..] == [0x9E];
  }

  lemma SameFront(front: seq<Token>, a: seq<Token>, b: seq<Token>)
    ensures front + a == front + b <==> a == b
  {
    DropConcat(front, a, 0);
    DropConcat(front, b, 0);
    assert a[0..] == a && b[0..] == b;
  }

  const TWO_LINES := "a\\\nb"
  const ONE_LINE := "ab"

  lemma TwoLinesContinued()
    ensures Continued(TWO_LINES) == ONE_LINE
  {
    PlainBefore("a", "\\\nb");
    PlainBefore("b", "");
    assert "a" + "\\\nb" == TWO_LINES && "\\\nb"[2..] == "b" && "b" + "" == "b";
  }

  /** A migration of two lines, the first ending in a backslash, is recorded as one line. */
  lemma ContinuationIsLost(tableName: string, version: int, checksum: seq<Byte>)
    ensures Lex(InsertSql(tableName, version, "", "", TWO_LINES, checksum, false)) ==
            Tokens(InsertTokens(tableName, version, "", "", ONE_LINE, checksum, false))
  {
    TwoLinesContinued();
    InsertLexes(tableName, version, "", "", TWO_LINES, checksum, false);
  }

  lemma {:induction false} PlainBefore(a: string, b: string)
    requires '\\' !in a
    ensures Continued(a + b) == a + Continued(b)
    decreases |a|
  {
    if a == "" {
      assert a + b == b;
    } else {
      assert (a + b)[1..] == a[1..] + b && (a + b)[0] == a[0] && a[0] in a;
      PlainBefore(a[1..], b);
    }
  }

  // ------------------------------------------------------------ the table name

  /** The name a reader of the table tokens would write. */
  function NameOf(tokens: seq<Token>): string {
    if |tokens| == 3 && tokens[0].Bracketed? && tokens[2].Bracketed? then tokens[0].name + "." + tokens[2].name
    else if |tokens| == 1 && tokens[0].Bracketed? then tokens[0].name
    else ""
  }

  lemma SplitJoins(tableName: string)
    ensures var (schema, table) := SplitTableName(tableName);
            if '.' in tableName then tableName == schema + "." + table else schema == "" && table == tableName
  {
    var dot := NextChar(tableName, '.', 0);
    if dot < |tableName| {
      assert tableName == tableName[..dot] + "." + tableName[dot + 1..];
    }
  }

  lemma TableNameLexes(tableName: string)
    ensures Lex(QuotedTableName(tableName)) == Tokens(TableTokens(tableName))
  {
    TablePrinted(tableName);
    PrintedLexes(TablePieces(tableName));
  }

  /** The tokens of the quoted table name give the name back exactly if that does not start with '.'. */
  lemma TableNameReadsBackExactly(tableName: string)
    ensures Lex(QuotedTableName(tableName)) == Tokens(TableTokens(tableName))
    ensures NameOf(TableTokens(tableName)) == tableName <==> !(tableName != "" && tableName[0] == '.')
  {
    TableNameLexes(tableName);
    SplitJoins(tableName);
    var (schema, table) := SplitTableName(tableName);
    assert schema == "" && '.' in tableName ==> |table| < |tableName|;
  }

  lemma WhereTexts()
    ensures "WHERE" + " " == "WHERE " && "version" + " " == "version " && ['='] + " " == "= "
  {
  }

  lemma WherePrinted()
    ensures Prints(WherePieces(), "WHERE " + ("version " + "= "), WHERE_TOKENS)
  {
    Keywords();
    ColumnNames();
    WhereTexts();
    WordPrinted("WHERE");
    WordPrinted("version");
    PrintTwo(P('='), Blank);
    ConditionPrinted("WHERE ", "version ", "= ");
  }

  lemma ConditionPrinted(where: string, version: string, equals: string)
    requires Prints([W("WHERE"), Blank], where, [Word("WHERE")]) && Prints([W("version"), Blank], version, [Word("version")])
    requires Print([P('='), Blank]) == equals && TokensOf([P('='), Blank]) == [Punct('=')]
    ensures Prints(WherePieces(), where + (version + equals), WHERE_TOKENS)
  {
    Joined([W("version"), Blank], version, [Word("version")], [P('='), Blank], equals, [Punct('=')]);
    Joined([W("WHERE"), Blank], where, [Word("WHERE")], [W("version"), Blank] + [P('='), Blank], version + equals,
           [Word("version")] + [Punct('=')]);
  }

  function WherePieces(): seq<Piece> {
    [W("WHERE"), Blank] + ([W("version"), Blank] + [P('='), Blank])
  }

  const WHERE_TOKENS: seq<Token> := [Word("WHERE")] + ([Word("version")] + [Punct('=')])

  lemma DeleteHeadPrinted(tableName: string) returns (ps: seq<Piece>)
    ensures Prints(ps, DeleteHead(tableName), [Word("DELETE"), Word("FROM")] + TableTokens(tableName))
    ensures ps != [] && ps[|ps| - 1] == Blank
  {
    Keywords();
    TwoWordsPrinted("DELETE", "FROM");
    assert ("DELETE" + " ") + ("FROM" + " ") == "DELETE FROM ";
    var front := [W("DELETE"), Blank, W("FROM"), Blank];
    AroundTable(front, "DELETE FROM ", [Word("DELETE"), Word("FROM")], tableName);
    ps := front + TablePieces(tableName) + [Blank];
  }

  /** The DELETE of `revert` names the same table and exactly the version. */
  lemma DeleteReadsBack(tableName: string, version: int)
    ensures Lex(DeleteSql(tableName, version)) ==
            Tokens([Word("DELETE"), Word("FROM")] + TableTokens(tableName) + WHERE_TOKENS + SignedTokens(version))
  {
    var ps := DeleteHeadPrinted(tableName);
    var tokens := [Word("DELETE"), Word("FROM")] + TableTokens(tableName);
    WherePrinted();
    Joined(ps, DeleteHead(tableName), tokens, WherePieces(), "WHERE " + ("version " + "= "), WHERE_TOKENS);
    SignedPrinted(version);
    var qs := ps + WherePieces();
    assert qs[|qs| - 1] == Blank;
    Joined(qs, DeleteHead(tableName) + ("WHERE " + ("version " + "= ")), tokens + WHERE_TOKENS,
           SignedPieces(version), Signed(version), SignedTokens(version));
    PrintedLexes(qs + SignedPieces(version));
  }
}
