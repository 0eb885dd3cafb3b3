/** Turning the parts of a `mssql://` URL into a connection string. */
module ConnectionUrl {
  import opened Text
  import opened Wrappers
  import opened ConnectionString

  datatype Pair = Pair(key: string, value: string)

  datatype Flag = Encrypt | Trust

  function FlagName(f: Flag): string {
    match f
    case Encrypt => "Encrypt"
    case Trust => "TrustServerCertificate"
  }

  function FlagKey(f: Flag): string {
    FlagName(f) + "="
  }

  const DRIVER_NAME := "ODBC Driver 18 for SQL Server"
  const DEFAULT_DRIVER := "{" + DRIVER_NAME + "}"

  /** `name=value` of an optional part, left out when empty. */
  function OptionalPart(name: string, value: string): string {
    if value == "" then "" else ";" + (name + "=" + Escape(value))
  }

  /** Everything behind the driver. */
  function Parts(host: string, port: nat, database: string, username: string, password: string): string {
    ";" + ("Server=" + (host + "," + Decimal(port))) +
    OptionalPart("Database", database) + OptionalPart("UID", username) + OptionalPart("PWD", password)
  }

  predicate Requests(p: Pair, f: Flag) {
    p.value == "true" && p.key == match f case Encrypt => "encrypt" case Trust => "trust_certificate"
  }

  /** One query parameter. */
  function ApplyPair(conn: string, p: Pair): string {
    if Requests(p, Trust) then AddFlag(conn, Trust)
    else if Requests(p, Encrypt) then AddFlag(conn, Encrypt)
    else if p.key == "driver" then
      var pos := Find(conn, "Driver=");
      if pos >= 0 then conn[..pos] + ("Driver=" + p.value) + conn[NextChar(conn, ';', pos)..] else conn
    else conn
  }

  function AddFlag(conn: string, f: Flag): string {
    if Contains(conn, FlagKey(f)) then conn else conn + (";" + (FlagKey(f) + "yes"))
  }

  function ApplyPairs(conn: string, pairs: seq<Pair>): string
    decreases |pairs|
  {
    if pairs == [] then conn else ApplyPairs(ApplyPair(conn, pairs[0]), pairs[1..])
  }

  method PushOptional(connStr: string, name: string, value: string) returns (r: string)
    ensures r == connStr + OptionalPart(name, value)
  {
    r := connStr;
    if value != "" {
      r := r + (";" + (name + "=" + Escape(value)));
    }
  }

  method ApplyQueryPairs(start: string, pairs: seq<Pair>) returns (connStr: string)
    ensures connStr == ApplyPairs(start, pairs)
  {
    connStr := start;
    assert pairs[0..] == pairs;
    var i := 0;
    while i < |pairs|
      invariant 0 <= i <= |pairs|
      invariant ApplyPairs(start, pairs) == ApplyPairs(connStr, pairs[i..])
    {
      assert pairs[i..][0] == pairs[i] && pairs[i..][1..] == pairs[i + 1..];
      connStr := ApplyPair(connStr, pairs[i]);
      i := i + 1;
    }
  }

  function StartText(driver: string, host: string, port: nat, database: string, username: string, password: string): string {
    "Driver=" + driver + Parts(host, port, database, username, password)
  }

  lemma PartsInOrder(driver: string, host: string, port: nat, database: string, username: string, password: string)
    ensures "Driver=" + driver + (";" + ("Server=" + (host + "," + Decimal(port)))) +
            OptionalPart("Database", database) + OptionalPart("UID", username) + OptionalPart("PWD", password) ==
            StartText(driver, host, port, database, username, password)
  {
    var start, server := "Driver=" + driver, ";" + ("Server=" + (host + "," + Decimal(port)));
    var a, b, c := OptionalPart("Database", database), OptionalPart("UID", username), OptionalPart("PWD", password);
    assert start + server + a + b + c == start + (server + a + b + c);
  }

  /** A parsed URL; `text` is all of it, `pairs` its decoded query. */
  datatype Url = Url(
    text: string, scheme: string, host: Option<string>, port: Option<nat>, path: string,
    username: string, password: Option<string>, pairs: seq<Pair>)

  /** The parts of a URL as they reach the builder. */
  datatype UrlParts = UrlParts(host: string, port: nat, database: string, username: string, password: string)

  predicate Handled(scheme: string) {
    Upper(scheme) == "MSSQL" || Upper(scheme) == "ODBC"
  }

  function WithoutSlashes(path: string): string {
    if path != "" && path[0] == '/' then WithoutSlashes(path[1..]) else path
  }

  function PartsOf(url: Url): UrlParts {
    UrlParts(
      if url.host.Some? then url.host.value else "localhost",
      if url.port.Some? then url.port.value else 1433,
      WithoutSlashes(url.path),
      url.username,
      if url.password.Some? then url.password.value else "")
  }

  function RestOf(u: UrlParts): string {
    Parts(u.host, u.port, u.database, u.username, u.password)
  }

  /** The text for these parts, after all query parameters. */
  function Built(u: UrlParts, pairs: seq<Pair>): string {
    ApplyPairs(StartText(DEFAULT_DRIVER, u.host, u.port, u.database, u.username, u.password), pairs)
  }

  /** Other schemes pass through. */
  function ConnectionText(url: Url): string {
    if Handled(url.scheme) then Built(PartsOf(url), url.pairs) else url.text
  }

  method BuildConnectionString(url: Url) returns (connStr: string)
    ensures connStr == ConnectionText(url)
  {
    if !Handled(url.scheme) {
      return url.text;
    }
    var u := PartsOf(url);
    PartsInOrder(DEFAULT_DRIVER, u.host, u.port, u.database, u.username, u.password);
    connStr := "Driver=" + DEFAULT_DRIVER + (";" + ("Server=" + (u.host + "," + Decimal(u.port))));
    connStr := PushOptional(connStr, "Database", u.database);
    connStr := PushOptional(connStr, "UID", u.username);
    connStr := PushOptional(connStr, "PWD", u.password);
    connStr := ApplyQueryPairs(connStr, url.pairs);
  }

  /** The word in small letters, or in capitals, or mixed. */
  predicate SameLetters(s: string, word: string) {
    |s| == |word| && forall i :: 0 <= i < |s| ==> s[i] == word[i] || s[i] == UpperChar(word[i])
  }

  lemma SameUpper(s: string, word: string)
    requires forall i :: 0 <= i < |word| ==> 'a' <= word[i] <= 'z'
    ensures Upper(s) == Upper(word) <==> SameLetters(s, word)
  {
    if Upper(s) == Upper(word) {
      assert |s| == |Upper(s)| == |word|;
      forall i | 0 <= i < |s|
        ensures s[i] == word[i] || s[i] == UpperChar(word[i])
      {
        assert Upper(s)[i] == UpperChar(s[i]) && Upper(word)[i] == UpperChar(word[i]);
      }
    }
  }

  /** The two schemes, whatever their case. */
  lemma HandledExactly(scheme: string)
    ensures Handled(scheme) <==> SameLetters(scheme, "mssql") || SameLetters(scheme, "odbc")
  {
    SameUpper(scheme, "mssql");
    SameUpper(scheme, "odbc");
    assert Upper("mssql") == "MSSQL" && Upper("odbc") == "ODBC";
  }

  lemma {:induction false} SlashesDropped(slashes: nat, name: string)
    requires name == "" || name[0] != '/'
    ensures WithoutSlashes(seq(slashes, i => '/') + name) == name
  {
    var path := seq(slashes, i => '/') + name;
    if slashes == 0 {
      assert path == name;
    } else {
      assert path[1..] == seq(slashes - 1, i => '/') + name;
      SlashesDropped(slashes - 1, name);
    }
  }

  /** How the flags are asked for, and what they are called. */
  lemma FlagParameters(p: Pair)
    ensures Requests(Pair("encrypt", "true"), Encrypt) && Requests(Pair("trust_certificate", "true"), Trust)
    ensures Requests(p, Encrypt) ==> p.key == "encrypt" && p.value == "true"
    ensures Requests(p, Trust) ==> p.key == "trust_certificate" && p.value == "true"
    ensures FlagName(Encrypt) == "Encrypt" && FlagName(Trust) == "TrustServerCertificate"
  {
  }

  // ------------------------------------------------------------ searching in joined text

  /** A match, element by element. */
  lemma MatchElements(s: string, p: string, i: nat)
    requires i + |p| <= |s|
    ensures OccursAt(s, p, i) <==> forall k :: i <= k < i + |p| ==> s[k] == p[k - i]
  {
    if OccursAt(s, p, i) {
      assert forall k :: i <= k < i + |p| ==> s[i..i + |p|][k - i] == s[k];
    }
  }

  /** A match inside a part of the text. */
  lemma OccursInPart(s: string, part: string, off: nat, p: string, i: nat)
    requires off + |part| <= |s| && s[off..off + |part|] == part && i + |p| <= |part|
    ensures OccursAt(s, p, off + i) <==> OccursAt(part, p, i)
  {
    var x, y := part[i..i + |p|], s[off + i..off + i + |p|];
    forall k | 0 <= k < |p|
      ensures x[k] == y[k]
    {
      assert part[i + k] == s[off..off + |part|][i + k];
    }
    assert x == y;
  }

  lemma PartsOfJoined(a: string, mid: string, b: string)
    ensures var s, at := a + mid + b, |a + mid|;
            |s| == at + |b| && s[0..|a|] == a && s[at..at + |b|] == b
  {
  }

  /** A match in `a` or `b` is one in the text that joins them by `mid`, and conversely unless it touches `mid`. */
  lemma ContainsJoined(a: string, mid: string, b: string, p: string)
    requires p != ""
    ensures Contains(a, p) || Contains(b, p) ==> Contains(a + mid + b, p)
    ensures forall i :: 0 <= i && OccursAt(a + mid + b, p, i) && i + |p| <= |a| ==> Contains(a, p)
    ensures forall i :: 0 <= i && OccursAt(a + mid + b, p, i) && i >= |a + mid| ==> Contains(b, p)
  {
    var s, at := a + mid + b, |a + mid|;
    PartsOfJoined(a, mid, b);
    if Contains(a, p) {
      var i :| 0 <= i <= |a| && OccursAt(a, p, i);
      OccursInPart(s, a, 0, p, i);
    }
    if Contains(b, p) {
      var i :| 0 <= i <= |b| && OccursAt(b, p, i);
      OccursInPart(s, b, at, p, i);
    }
    forall i | 0 <= i && OccursAt(s, p, i) && i + |p| <= |a|
      ensures Contains(a, p)
    {
      OccursInPart(s, a, 0, p, i);
    }
    forall i | 0 <= i && OccursAt(s, p, i) && i >= at
      ensures Contains(b, p)
    {
      OccursInPart(s, b, at, p, i - at);
    }
  }

  /** A match never runs across a character it does not contain. */
  lemma ContainsSplit(a: string, c: char, b: string, p: string)
    requires c !in p && p != ""
    ensures Contains(a + [c] + b, p) <==> Contains(a, p) || Contains(b, p)
  {
    var s := a + [c] + b;
    ContainsJoined(a, [c], b, p);
    if Contains(s, p) {
      var i :| 0 <= i <= |s| && OccursAt(s, p, i);
      MatchElements(s, p, i);
      assert s[|a|] == c;
    }
  }

  /** A key `K=` does not straddle the '=' behind another name. */
  lemma ContainsBehindName(name: string, b: string, k: string)
    requires name != "" && k != "" && '=' !in name && '=' !in k
    requires |name| < |k| || name[|name| - 1] != k[|k| - 1]
    ensures Contains(name + "=" + b, k + "=") <==> Contains(b, k + "=")
  {
    var s, p := name + "=" + b, k + "=";
    ContainsJoined(name, "=", b, p);
    if Contains(s, p) {
      var i :| 0 <= i <= |s| && OccursAt(s, p, i);
      MatchElements(s, p, i);
      assert s[|name|] == '=' && s[|name| - 1] == name[|name| - 1];
      assert s[i + |k|] == '=' && s[i + |k| - 1] == k[|k| - 1];
      assert forall j :: i <= j < i + |k| ==> s[j] == k[j - i] && s[j] != '=';
      assert forall j :: 0 <= j < |name| ==> s[j] == name[j] && s[j] != '=';
    }
  }

  /** Escaping neither makes nor hides a match of a brace-free key. */
  lemma ContainsEscaped(value: string, p: string)
    requires p != "" && '{' !in p && '}' !in p
    ensures Contains(Escape(value), p) <==> Contains(value, p)
  {
    if NeedsBraces(value) {
      ContainsDoubled(value, p);
      assert Escape(value) == "" + ['{'] + (Doubled(value, '}') + "}");
      ContainsSplit("", '{', Doubled(value, '}') + "}", p);
      assert Doubled(value, '}') + "}" == Doubled(value, '}') + ['}'] + "";
      ContainsSplit(Doubled(value, '}'), '}', "", p);
    }
  }

  lemma {:induction false} ContainsDoubled(value: string, p: string)
    requires p != "" && '}' !in p
    ensures Contains(Doubled(value, '}'), p) <==> Contains(value, p)
    decreases |value|
  {
    var q := NextChar(value, '}', 0);
    if q == |value| {
      DoubledPlain(value, '}');
    } else {
      var a, b := value[..q], value[q + 1..];
      assert value == a + ['}'] + b;
      DoubledAround(a, b);
      ContainsDoubled(b, p);
      ContainsSplit(a, '}', b, p);
      ContainsSplit(a, '}', ['}'] + Doubled(b, '}'), p);
      assert ['}'] + Doubled(b, '}') == "" + ['}'] + Doubled(b, '}');
      ContainsSplit("", '}', Doubled(b, '}'), p);
    }
  }

  lemma DoubledAround(a: string, b: string)
    requires '}' !in a
    ensures Doubled(a + ['}'] + b, '}') == a + ['}'] + (['}'] + Doubled(b, '}'))
  {
    DoubledPlain(a, '}');
    assert a + ['}'] + b == a + (['}'] + b);
    DoubledConcat(a, ['}'] + b, '}');
    assert (['}'] + b)[1..] == b;
  }

  // ------------------------------------------------------------ drivers and flags

  function FlagTexts(flags: seq<Flag>): string {
    if flags == [] then ""
    else FlagTexts(flags[..|flags| - 1]) + (";" + (FlagKey(flags[|flags| - 1]) + "yes"))
  }

  /** The shape every stage of the text has. */
  function Shape(driver: string, rest: string, flags: seq<Flag>): string {
    "Driver=" + driver + rest + FlagTexts(flags)
  }

  /** A driver text up to its first ';', and from there on. */
  function Head(driver: string): string {
    driver[..NextChar(driver, ';', 0)]
  }

  function Tail(driver: string): string {
    driver[NextChar(driver, ';', 0)..]
  }

  /** The parts of that shape; `driver` is what the next driver parameter would replace. */
  datatype Settings = Settings(driver: string, rest: string, flags: seq<Flag>)

  predicate WellShaped(s: Settings) {
    ';' !in s.driver && s.rest != "" && s.rest[0] == ';'
  }

  function TextOf(s: Settings): string {
    Shape(s.driver, s.rest, s.flags)
  }

  /** The key of the flag stands somewhere before the flags. */
  predicate HasKey(s: Settings, f: Flag) {
    Contains(s.driver, FlagKey(f)) || Contains(s.rest, FlagKey(f))
  }

  function WithFlag(s: Settings, f: Flag): Settings {
    if HasKey(s, f) || f in s.flags then s else s.(flags := s.flags + [f])
  }

  /** The effect of a query parameter on that shape. */
  function Set(s: Settings, p: Pair): Settings {
    if Requests(p, Trust) then WithFlag(s, Trust)
    else if Requests(p, Encrypt) then WithFlag(s, Encrypt)
    else if p.key == "driver" then s.(driver := Head(p.value), rest := Tail(p.value) + s.rest)
    else s
  }

  function SetAll(s: Settings, pairs: seq<Pair>): Settings
    decreases |pairs|
  {
    if pairs == [] then s else SetAll(Set(s, pairs[0]), pairs[1..])
  }

  predicate IsLetter(c: char) {
    'A' <= c <= 'Z' || 'a' <= c <= 'z'
  }

  lemma FlagNameLetters(f: Flag)
    ensures forall i :: 0 <= i < |FlagName(f)| ==> IsLetter(FlagName(f)[i])
  {
  }

  lemma FlagNames(f: Flag)
    ensures var n := FlagName(f);
            && |n| == (if f == Encrypt then 7 else 22)
            && n[|n| - 1] == (if f == Encrypt then 't' else 'e')
            && IsLetter(n[0])
            && forall c :: !IsLetter(c) ==> c !in n
    ensures forall c :: !IsLetter(c) && c != '=' ==> c !in FlagKey(f)
    ensures FlagKey(f) != ""
  {
    FlagNameLetters(f);
  }

  /** A name behind which a value starts, and that does not end like the flag. */
  predicate Apart(name: string, f: Flag) {
    name != "" && '=' !in name &&
    (|name| < |FlagName(f)| || name[|name| - 1] != FlagName(f)[|FlagName(f)| - 1])
  }

  lemma NamesApart(f: Flag)
    ensures Apart("Driver", f) && Apart("Server", f) && Apart("Database", f) && Apart("UID", f) && Apart("PWD", f)
  {
    FlagNames(f);
    assert "Database"[7] == 'e';
  }

  lemma FlagKeysApart(f: Flag, g: Flag)
    ensures Contains(FlagKey(g) + "yes", FlagKey(f)) <==> f == g
  {
    if f == g {
      assert OccursAt(FlagKey(g) + "yes", FlagKey(f), 0);
    } else {
      FlagNames(f);
      FlagNames(g);
      ContainsBehindName(FlagName(g), "yes", FlagName(f));
    }
  }

  lemma LastFlagContains(x: string, g: Flag, f: Flag)
    ensures Contains(x + (";" + (FlagKey(g) + "yes")), FlagKey(f)) <==> Contains(x, FlagKey(f)) || f == g
  {
    var last := FlagKey(g) + "yes";
    FlagNames(f);
    assert x + (";" + last) == x + [';'] + last;
    ContainsSplit(x, ';', last, FlagKey(f));
    FlagKeysApart(f, g);
  }

  lemma {:induction false} FlagTextsContain(x: string, flags: seq<Flag>, f: Flag)
    ensures Contains(x + FlagTexts(flags), FlagKey(f)) <==> Contains(x, FlagKey(f)) || f in flags
    decreases |flags|
  {
    if flags == [] {
      assert x + "" == x;
    } else {
      var n := |flags| - 1;
      FlagTextsContain(x, flags[..n], f);
      LastFlagContains(x + FlagTexts(flags[..n]), flags[n], f);
      ConcatAssociates(x, FlagTexts(flags[..n]), ";" + (FlagKey(flags[n]) + "yes"));
      assert flags == flags[..n] + [flags[n]];
    }
  }

  lemma ShapeContains(driver: string, rest: string, flags: seq<Flag>, f: Flag)
    requires rest != "" && rest[0] == ';'
    ensures Contains(Shape(driver, rest, flags), FlagKey(f)) <==>
            Contains(driver, FlagKey(f)) || Contains(rest, FlagKey(f)) || f in flags
  {
    FlagTextsContain("Driver=" + driver + rest, flags, f);
    TailContains("Driver=" + driver, rest, f);
    DriverContains(driver, f);
  }

  lemma DriverContains(driver: string, f: Flag)
    ensures Contains("Driver=" + driver, FlagKey(f)) <==> Contains(driver, FlagKey(f))
  {
    FlagNames(f);
    NamesApart(f);
    ContainsBehindName("Driver", driver, FlagName(f));
    assert "Driver" + "=" == "Driver=";
  }

  lemma RestContains(r: string, f: Flag)
    ensures Contains("" + [';'] + r, FlagKey(f)) <==> Contains(r, FlagKey(f))
  {
    FlagNames(f);
    ContainsSplit("", ';', r, FlagKey(f));
  }

  lemma ShapeSplits(driver: string, rest: string, flags: seq<Flag>)
    ensures Shape(driver, rest, flags) == ("Driver=" + driver) + (rest + FlagTexts(flags))
  {
    ConcatAssociates("Driver=" + driver, rest, FlagTexts(flags));
  }

  lemma FoundAtStart(start: string, p: string, tail: string)
    requires p <= start
    ensures Find(start + tail, p) == 0
  {
    assert (start + tail)[0..|p|] == p;
    assert OccursAt(start + tail, p, 0);
  }

  lemma DriverReplaced(driver: string, rest: string, flags: seq<Flag>, value: string)
    requires ';' !in driver && rest != "" && rest[0] == ';'
    ensures ApplyPair(Shape(driver, rest, flags), Pair("driver", value)) == Shape(value, rest, flags)
  {
    var start, tail := "Driver=" + driver, rest + FlagTexts(flags);
    ShapeSplits(driver, rest, flags);
    ShapeSplits(value, rest, flags);
    FoundAtStart(start, "Driver=", tail);
    NextCharSkips(start, tail, ';', 0);
    DropConcat(start, tail, 0);
    assert (start + tail)[..0] == "" && "" + ("Driver=" + value) == "Driver=" + value;
  }

  lemma HeadAndTail(driver: string)
    ensures driver == Head(driver) + Tail(driver)
    ensures ';' !in Head(driver) && (Tail(driver) == "" || Tail(driver)[0] == ';')
    ensures ';' !in driver ==> Head(driver) == driver && Tail(driver) == ""
  {
  }

  lemma PairSets(s: Settings, p: Pair)
    requires WellShaped(s)
    ensures ApplyPair(TextOf(s), p) == TextOf(Set(s, p)) && WellShaped(Set(s, p))
  {
    ShapeContains(s.driver, s.rest, s.flags, Trust);
    ShapeContains(s.driver, s.rest, s.flags, Encrypt);
    FlagAppended(s.driver, s.rest, s.flags, Trust);
    FlagAppended(s.driver, s.rest, s.flags, Encrypt);
    if p.key == "driver" {
      PairKeys(p);
      HeadAndTail(p.value);
      DriverReplaced(s.driver, s.rest, s.flags, p.value);
      DriverSplits(p.value, s.rest, s.flags);
      assert p == Pair("driver", p.value);
    }
  }

  lemma DriverSplits(driver: string, rest: string, flags: seq<Flag>)
    ensures Shape(driver, rest, flags) == Shape(Head(driver), Tail(driver) + rest, flags)
  {
    HeadAndTail(driver);
    ConcatAssociates("Driver=", Head(driver), Tail(driver));
    ConcatAssociates("Driver=" + Head(driver), Tail(driver), rest);
  }

  lemma FlagAppended(driver: string, rest: string, flags: seq<Flag>, f: Flag)
    ensures Shape(driver, rest, flags) + (";" + (FlagKey(f) + "yes")) == Shape(driver, rest, flags + [f])
  {
    assert (flags + [f])[..|flags|] == flags;
    var a, b, c := "Driver=" + driver + rest, FlagTexts(flags), ";" + (FlagKey(f) + "yes");
    assert a + b + c == a + (b + c);
  }

  /** The whole loop over the query parameters, on the text and on its parts, for all parameters. */
  lemma {:induction false} PairsSet(s: Settings, pairs: seq<Pair>)
    requires WellShaped(s)
    ensures ApplyPairs(TextOf(s), pairs) == TextOf(SetAll(s, pairs)) && WellShaped(SetAll(s, pairs))
    decreases |pairs|
  {
    if pairs != [] {
      PairSets(s, pairs[0]);
      PairsSet(Set(s, pairs[0]), pairs[1..]);
    }
  }

  predicate Distinct(flags: seq<Flag>) {
    forall i, j :: 0 <= i < j < |flags| ==> flags[i] != flags[j]
  }

  /** A query parameter is of one kind only. */
  lemma PairKeys(p: Pair)
    ensures !(Requests(p, Trust) && Requests(p, Encrypt))
    ensures p.key == "driver" ==> !Requests(p, Trust) && !Requests(p, Encrypt)
  {
    assert "driver"[0] == 'd' && "encrypt"[0] == 'e' && "trust_certificate"[0] == 't';
  }

  lemma OneFlagSet(s: Settings, p: Pair, f: Flag)
    requires Distinct(s.flags)
    ensures Distinct(Set(s, p).flags)
    ensures f in Set(s, p).flags <==> f in s.flags || (Requests(p, f) && !HasKey(s, f))
  {
    PairKeys(p);
  }

  /** The flag is asked for at a moment when its key stands nowhere in the parts. */
  predicate SetAt(s: Settings, pairs: seq<Pair>, f: Flag, i: nat)
    requires i < |pairs|
  {
    Requests(pairs[i], f) && !HasKey(SetAll(s, pairs[..i]), f)
  }

  /** Each flag stands at most once, and exactly if some request for it finds its key nowhere. */
  lemma {:induction false} FlagsSetExactly(s: Settings, pairs: seq<Pair>, f: Flag)
    requires Distinct(s.flags)
    ensures Distinct(SetAll(s, pairs).flags)
    ensures f in SetAll(s, pairs).flags <==> f in s.flags || exists i :: 0 <= i < |pairs| && SetAt(s, pairs, f, i)
    decreases |pairs|
  {
    if pairs != [] {
      var next := Set(s, pairs[0]);
      OneFlagSet(s, pairs[0], f);
      FlagsSetExactly(next, pairs[1..], f);
      assert pairs[..0] == [];
      assert SetAt(s, pairs, f, 0) <==> Requests(pairs[0], f) && !HasKey(s, f);
      forall i | 1 <= i < |pairs|
        ensures SetAt(s, pairs, f, i) <==> SetAt(next, pairs[1..], f, i - 1)
      {
        assert pairs[..i][1..] == pairs[1..][..i - 1];
      }
      if exists i :: 0 <= i < |pairs[1..]| && SetAt(next, pairs[1..], f, i) {
        var i :| 0 <= i < |pairs[1..]| && SetAt(next, pairs[1..], f, i);
        assert SetAt(s, pairs, f, i + 1);
      }
    }
  }

  // ------------------------------------------------------------ the driver in force

  function DriverInForce(driver: string, pairs: seq<Pair>): string
    decreases |pairs|
  {
    if pairs == [] then driver
    else DriverInForce(if pairs[0].key == "driver" then pairs[0].value else driver, pairs[1..])
  }

  predicate NamesDriver(pairs: seq<Pair>) {
    exists i :: 0 <= i < |pairs| && pairs[i].key == "driver"
  }

  /** The text goes on behind "Driver=" with the last driver given, or the first one if none is. */
  lemma {:induction false} LastDriverWins(s: Settings, driver: string, pairs: seq<Pair>)
    requires driver <= s.driver + s.rest
    ensures DriverInForce(driver, pairs) <= SetAll(s, pairs).driver + SetAll(s, pairs).rest
    ensures if NamesDriver(pairs)
            then exists i :: 0 <= i < |pairs| && pairs[i].key == "driver" && DriverInForce(driver, pairs) == pairs[i].value &&
                   forall j :: i < j < |pairs| ==> pairs[j].key != "driver"
            else DriverInForce(driver, pairs) == driver
    decreases |pairs|
  {
    if pairs != [] {
      var p := pairs[0];
      PairKeys(p);
      HeadAndTail(p.value);
      ConcatAssociates(Head(p.value), Tail(p.value), s.rest);
      LastDriverWins(Set(s, p), if p.key == "driver" then p.value else driver, pairs[1..]);
      assert forall i :: 0 <= i < |pairs| ==> pairs[i] == if i == 0 then p else pairs[1..][i - 1];
    }
  }

  /** No driver that is replaced has a ';' in it, so that all of it is replaced. */
  predicate Replaceable(pairs: seq<Pair>) {
    forall i, j :: 0 <= i < j < |pairs| && pairs[i].key == "driver" && pairs[j].key == "driver" ==> ';' !in pairs[i].value
  }

  /** Then exactly the driver in force stands between "Driver=" and the other parts. */
  lemma {:induction false} DriverReplacesDriver(s: Settings, driver: string, rest: string, pairs: seq<Pair>)
    requires WellShaped(s) && s.driver + s.rest == driver + rest && rest != "" && rest[0] == ';'
    requires Replaceable(pairs) && (NamesDriver(pairs) ==> ';' !in driver)
    ensures SetAll(s, pairs).driver + SetAll(s, pairs).rest == DriverInForce(driver, pairs) + rest
    decreases |pairs|
  {
    if pairs != [] {
      var p := pairs[0];
      PairKeys(p);
      PairSets(s, p);
      assert forall i :: 0 < i < |pairs| ==> pairs[i] == pairs[1..][i - 1];
      if p.key == "driver" {
        SameSplit(s.driver, s.rest, driver, rest);
        HeadAndTail(p.value);
        ConcatAssociates(Head(p.value), Tail(p.value), rest);
        DriverReplacesDriver(Set(s, p), p.value, rest, pairs[1..]);
      } else {
        DriverReplacesDriver(Set(s, p), driver, rest, pairs[1..]);
      }
    }
  }

  lemma SameSplit(a: string, b: string, c: string, d: string)
    requires a + b == c + d && ';' !in a && ';' !in c
    requires b != "" && b[0] == ';' && d != "" && d[0] == ';'
    ensures a == c && b == d
  {
    NextCharSkips(a, b, ';', 0);
    NextCharSkips(c, d, ';', 0);
    DropConcat(a, b, 0);
    DropConcat(c, d, 0);
  }

  /** A driver with a ';' leaves a piece behind when it is replaced. */
  predicate TailHasKey(pairs: seq<Pair>, f: Flag) {
    exists j :: 0 <= j < |pairs| && pairs[j].key == "driver" && Contains(Tail(pairs[j].value), FlagKey(f))
  }

  /** The key stands in the driver in force, in what an earlier driver left behind, or in the other parts. */
  predicate KeyStands(driver: string, rest: string, before: seq<Pair>, f: Flag) {
    || Contains(DriverInForce(driver, before), FlagKey(f))
    || Contains(rest, FlagKey(f))
    || TailHasKey(before, f)
  }

  lemma ContainsInParts(driver: string, f: Flag)
    ensures Contains(driver, FlagKey(f)) <==> Contains(Head(driver), FlagKey(f)) || Contains(Tail(driver), FlagKey(f))
  {
    HeadAndTail(driver);
    TailContains(Head(driver), Tail(driver), f);
  }

  lemma TailContains(a: string, b: string, f: Flag)
    requires b == "" || b[0] == ';'
    ensures Contains(a + b, FlagKey(f)) <==> Contains(a, FlagKey(f)) || Contains(b, FlagKey(f))
  {
    FlagNames(f);
    if b == "" {
      assert a + b == a;
      AbsentChar(b, FlagKey(f), 0);
    } else {
      var r := b[1..];
      assert a + b == a + [';'] + r && b == "" + [';'] + r;
      ContainsSplit(a, ';', r, FlagKey(f));
      RestContains(r, f);
    }
  }

  lemma AbsentChar(s: string, p: string, k: nat)
    requires k < |p| && p[k] !in s
    ensures !Contains(s, p)
  {
    forall i | 0 <= i <= |s|
      ensures !OccursAt(s, p, i)
    {
      if i + |p| <= |s| {
        assert s[i + k] != p[k];
        MatchElements(s, p, i);
      }
    }
  }

  /** Which keys stand in the parts after some parameters, told from the parameters. */
  lemma {:induction false} HasKeyExactly(s: Settings, pairs: seq<Pair>, f: Flag)
    requires WellShaped(s)
    ensures HasKey(SetAll(s, pairs), f) <==> KeyStands(s.driver, s.rest, pairs, f)
    decreases |pairs|
  {
    if pairs != [] {
      var p, next := pairs[0], Set(s, pairs[0]);
      PairKeys(p);
      PairSets(s, p);
      HasKeyExactly(next, pairs[1..], f);
      TailsSplit(pairs, f);
      if p.key == "driver" {
        HeadAndTail(p.value);
        TailContains(Tail(p.value), s.rest, f);
        InForceByHead(p.value, pairs[1..], f);
      }
    }
  }

  lemma TailsSplit(pairs: seq<Pair>, f: Flag)
    requires pairs != []
    ensures TailHasKey(pairs, f) <==>
            (pairs[0].key == "driver" && Contains(Tail(pairs[0].value), FlagKey(f))) || TailHasKey(pairs[1..], f)
  {
    assert forall i :: 0 < i < |pairs| ==> pairs[i] == pairs[1..][i - 1];
    if TailHasKey(pairs[1..], f) {
      var j :| 0 <= j < |pairs[1..]| && pairs[1..][j].key == "driver" && Contains(Tail(pairs[1..][j].value), FlagKey(f));
      assert pairs[j + 1].key == "driver" && Contains(Tail(pairs[j + 1].value), FlagKey(f));
    }
  }

  lemma {:induction false} InForceByHead(driver: string, pairs: seq<Pair>, f: Flag)
    ensures Contains(DriverInForce(Head(driver), pairs), FlagKey(f)) || Contains(Tail(driver), FlagKey(f)) <==>
            Contains(DriverInForce(driver, pairs), FlagKey(f)) || Contains(Tail(driver), FlagKey(f))
    decreases |pairs|
  {
    if pairs == [] {
      ContainsInParts(driver, f);
    } else if pairs[0].key != "driver" {
      InForceByHead(driver, pairs[1..], f);
    }
  }
}
