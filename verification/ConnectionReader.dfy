/** Reading a connection string by the ODBC brace rules, and what it gives back. */
module ConnectionReader {
  import opened Text
  import opened Wrappers
  import opened ConnectionString
  import opened ConnectionUrl

  datatype Attribute = Attribute(key: string, value: string)

  // ------------------------------------------------------------ the reader

  /** Whether a reader counts the blanks around a value. */
  datatype Blanks = Kept | Dropped

  function SkipBlanks(s: string): string {
    if s != "" && s[0] == ' ' then SkipBlanks(s[1..]) else s
  }

  function CutBlanks(s: string): string {
    if s != "" && s[|s| - 1] == ' ' then CutBlanks(s[..|s| - 1]) else s
  }

  /** The text from where a reader looks for a value. */
  function Lead(s: string, b: Blanks): (r: string)
    ensures |r| <= |s|
  {
    if b.Dropped? then SkippedShorter(s); SkipBlanks(s) else s
  }

  lemma {:induction false} SkippedShorter(s: string)
    ensures |SkipBlanks(s)| <= |s|
  {
    if s != "" && s[0] == ' ' {
      SkippedShorter(s[1..]);
    }
  }

  /** A plain value as a reader takes it. */
  function Plain(s: string, b: Blanks): string {
    if b.Dropped? then CutBlanks(SkipBlanks(s)) else s
  }

  predicate StartsBraced(s: string, b: Blanks) {
    Lead(s, b) != "" && Lead(s, b)[0] == '{'
  }

  /** A value: braced, or plain up to the next ';'. */
  function ReadValue(s: string, b: Blanks): Option<(string, string)> {
    if StartsBraced(s, b) then
      var (ok, value, rest) := ReadQuoted(Lead(s, b)[1..], '}');
      if ok then Some((value, Lead(rest, b))) else None
    else Some((Plain(s[..NextChar(s, ';', 0)], b), s[NextChar(s, ';', 0)..]))
  }

  function ReadAttributes(s: string, b: Blanks): Option<seq<Attribute>>
    decreases |s|
  {
    if s == "" then Some([])
    else
      var eq := NextChar(s, '=', 0);
      if eq == |s| then None
      else
        match ReadValue(s[eq + 1..], b)
        case None => None
        case Some((value, rest)) =>
          if rest == "" then Some([Attribute(s[..eq], value)])
          else if rest[0] != ';' || |rest| >= |s| then None
          else
            match ReadAttributes(rest[1..], b)
            case None => None
            case Some(more) => Some([Attribute(s[..eq], value)] + more)
  }

  // ------------------------------------------------------------ values read back

  /** A value text that ends by itself. */
  predicate Delimited(text: string, value: string, b: Blanks) {
    if StartsBraced(text, b) then
      var (ok, read, rest) := ReadQuoted(Lead(text, b)[1..], '}');
      ok && read == value && Lead(rest, b) == ""
    else ';' !in text && value == Plain(text, b)
  }

  /** The end of a value. */
  predicate Ends(rest: string) {
    rest == "" || rest[0] == ';'
  }

  lemma {:induction false} BracedBehind(s: string, rest: string)
    requires ReadQuoted(s, '}').0 && Ends(rest)
    ensures var (_, value, tail) := ReadQuoted(s, '}'); ReadQuoted(s + rest, '}') == (true, value, tail + rest)
    decreases |s|
  {
    if s[0] != '}' {
      assert (s + rest)[1..] == s[1..] + rest;
      BracedBehind(s[1..], rest);
    } else if |s| > 1 && s[1] == '}' {
      assert (s + rest)[2..] == s[2..] + rest;
      BracedBehind(s[2..], rest);
    } else {
      assert (s + rest)[1..] == s[1..] + rest;
    }
  }

  lemma {:induction false} LeadBehind(s: string, rest: string, b: Blanks)
    requires Ends(rest)
    ensures Lead(s + rest, b) == Lead(s, b) + rest
    decreases |s|
  {
    if s == "" {
      assert s + rest == rest;
    } else {
      assert (s + rest)[1..] == s[1..] + rest;
      if s[0] == ' ' {
        LeadBehind(s[1..], rest, b);
      }
    }
  }

  lemma DelimitedReads(text: string, value: string, rest: string, b: Blanks)
    requires Delimited(text, value, b) && Ends(rest)
    ensures ReadValue(text + rest, b) == Some((value, rest))
  {
    LeadBehind(text, rest, b);
    if StartsBraced(text, b) {
      var inside := Lead(text, b)[1..];
      assert (Lead(text, b) + rest)[1..] == inside + rest;
      BracedBehind(inside, rest);
      LeadBehind(ReadQuoted(inside, '}').2, rest, b);
      assert "" + rest == rest;
    } else {
      NextCharSkips(text, rest, ';', 0);
      assert (text + rest)[..|text|] == text && (text + rest)[|text|..] == rest;
      assert Lead(text, b) == "" ==> Lead(text, b) + rest == rest;
    }
  }

  /** What is read back of an escaped value. */
  function Shown(value: string, b: Blanks): string {
    if NeedsBraces(value) then value else Plain(value, b)
  }

  lemma {:induction false} SkipBlanksParts(s: string)
    ensures forall c :: c in SkipBlanks(s) ==> c in s
    ensures SkipBlanks(s) == s <==> s == "" || s[0] != ' '
    ensures |SkipBlanks(s)| == |s| ==> SkipBlanks(s) == s
  {
    SkippedShorter(s);
    if s != "" && s[0] == ' ' {
      SkipBlanksParts(s[1..]);
      SkippedShorter(s[1..]);
    }
  }

  lemma {:induction false} CutBlanksParts(s: string)
    ensures |CutBlanks(s)| <= |s|
    ensures CutBlanks(s) == s <==> s == "" || s[|s| - 1] != ' '
    ensures |CutBlanks(s)| == |s| ==> CutBlanks(s) == s
    ensures forall c :: c in CutBlanks(s) ==> c in s
  {
    if s != "" && s[|s| - 1] == ' ' {
      CutBlanksParts(s[..|s| - 1]);
    }
  }

  /** Whatever the value, its escaped text ends by itself. */
  lemma EscapeIsDelimited(value: string, b: Blanks)
    ensures Delimited(Escape(value), Shown(value, b), b)
  {
    if NeedsBraces(value) {
      DoubledReads(value, '}', "");
      assert Escape(value)[0] == '{' && Escape(value)[1..] == Doubled(value, '}') + (['}'] + "");
      SkipBlanksParts(Escape(value));
    } else {
      SkipBlanksParts(value);
      assert forall i :: 0 <= i < |Lead(value, b)| ==> Lead(value, b)[i] in Lead(value, b);
    }
  }

  /** Neither the first nor the last character is a blank, or the reader does not care. */
  predicate Firm(value: string, b: Blanks) {
    b.Dropped? && value != "" ==> value[0] != ' ' && value[|value| - 1] != ' '
  }

  lemma PlainExactly(value: string, b: Blanks)
    ensures Plain(value, b) == value <==> Firm(value, b)
  {
    SkipBlanksParts(value);
    CutBlanksParts(SkipBlanks(value));
    SkippedShorter(value);
  }

  /** The escaped value reads back as the value exactly if it is braced or has no outer blanks. */
  lemma ShownExactly(value: string, b: Blanks)
    ensures Shown(value, b) == value <==> NeedsBraces(value) || Firm(value, b)
  {
    PlainExactly(value, b);
  }

  // ------------------------------------------------------------ whole strings

  datatype Segment = Segment(key: string, text: string, value: string)

  predicate Readable(s: Segment, b: Blanks) {
    '=' !in s.key && Delimited(s.text, s.value, b)
  }

  function SegmentText(s: Segment): string {
    s.key + "=" + s.text
  }

  function Rendered(segments: seq<Segment>): string {
    if segments == [] then ""
    else if |segments| == 1 then SegmentText(segments[0])
    else SegmentText(segments[0]) + (";" + Rendered(segments[1..]))
  }

  function Attributes(segments: seq<Segment>): seq<Attribute> {
    seq(|segments|, i requires 0 <= i < |segments| => Attribute(segments[i].key, segments[i].value))
  }

  ghost predicate AllReadable(segments: seq<Segment>, b: Blanks) {
    forall i :: 0 <= i < |segments| ==> Readable(segments[i], b)
  }

  lemma FirstOf(text: string, key: string, value: string, rest: string, b: Blanks)
    requires |key| < |text| && NextChar(text, '=', 0) == |key| && text[..|key|] == key
    requires ReadValue(text[|key| + 1..], b) == Some((value, rest))
    requires Ends(rest) && |rest| < |text|
    ensures ReadAttributes(text, b) ==
            if rest == "" then Some([Attribute(key, value)])
            else match ReadAttributes(rest[1..], b)
                 case None => None
                 case Some(more) => Some([Attribute(key, value)] + more)
  {
  }

  /** Reading one attribute off the front. */
  lemma FirstReads(s: Segment, rest: string, b: Blanks)
    requires Readable(s, b) && Ends(rest)
    ensures ReadAttributes(SegmentText(s) + rest, b) ==
            if rest == "" then Some([Attribute(s.key, s.value)])
            else match ReadAttributes(rest[1..], b)
                 case None => None
                 case Some(more) => Some([Attribute(s.key, s.value)] + more)
  {
    DelimitedReads(s.text, s.value, rest, b);
    KeySplits(s.key, s.text, rest);
    FirstOf(SegmentText(s) + rest, s.key, s.value, rest, b);
  }

  lemma KeySplits(key: string, value: string, rest: string)
    requires '=' !in key
    ensures var text := key + "=" + value + rest;
            NextChar(text, '=', 0) == |key| && text[..|key|] == key && text[|key| + 1..] == value + rest
  {
    assert key + "=" + value + rest == key + ("=" + (value + rest));
    NextCharSkips(key, "=" + (value + rest), '=', 0);
  }

  lemma {:induction false} RenderedReads(segments: seq<Segment>, b: Blanks)
    requires AllReadable(segments, b)
    ensures ReadAttributes(Rendered(segments), b) == Some(Attributes(segments))
    decreases |segments|
  {
    if segments != [] {
      var s := segments[0];
      assert Attributes(segments) == [Attribute(s.key, s.value)] + Attributes(segments[1..]);
      if |segments| == 1 {
        FirstReads(s, "", b);
        assert SegmentText(s) + "" == SegmentText(s);
        assert Attributes(segments) == [Attribute(s.key, s.value)];
      } else {
        var rest := ";" + Rendered(segments[1..]);
        FirstReads(s, rest, b);
        assert rest[1..] == Rendered(segments[1..]);
        RenderedReads(segments[1..], b);
      }
    }
  }

  lemma {:induction false} RenderedAppend(segments: seq<Segment>, s: Segment)
    requires segments != []
    ensures Rendered(segments + [s]) == Rendered(segments) + (";" + SegmentText(s))
    decreases |segments|
  {
    var all := segments + [s];
    assert all[0] == segments[0];
    if |segments| == 1 {
      assert all[1..] == [s];
    } else {
      assert all[1..] == segments[1..] + [s];
      RenderedAppend(segments[1..], s);
      var a, b, c := SegmentText(segments[0]), Rendered(segments[1..]), ";" + SegmentText(s);
      assert a + (";" + (b + c)) == a + (";" + b) + c;
    }
  }

  function OptionalSegment(name: string, value: string, b: Blanks): seq<Segment> {
    if value == "" then [] else [Segment(name, Escape(value), Shown(value, b))]
  }

  function FlagSegments(flags: seq<Flag>): seq<Segment> {
    seq(|flags|, i requires 0 <= i < |flags| => Segment(FlagName(flags[i]), "yes", "yes"))
  }

  function ServerText(u: UrlParts): string {
    u.host + "," + Decimal(u.port)
  }

  /** The first two attributes, and the values that are read. */
  function FirstTwo(u: UrlParts, driver: string, b: Blanks): seq<Segment> {
    [Segment("Driver", driver, DriverValue(driver, b)), Segment("Server", ServerText(u), Plain(ServerText(u), b))]
  }

  function Segments(u: UrlParts, driver: string, flags: seq<Flag>, b: Blanks): seq<Segment> {
    FirstTwo(u, driver, b) +
    OptionalSegment("Database", u.database, b) + OptionalSegment("UID", u.username, b) + OptionalSegment("PWD", u.password, b) +
    FlagSegments(flags)
  }

  lemma RenderedOptional(segments: seq<Segment>, name: string, value: string, b: Blanks)
    requires segments != []
    ensures Rendered(segments + OptionalSegment(name, value, b)) == Rendered(segments) + OptionalPart(name, value)
  {
    if value == "" {
      assert segments + [] == segments;
      assert Rendered(segments) + "" == Rendered(segments);
    } else {
      RenderedAppend(segments, Segment(name, Escape(value), Shown(value, b)));
    }
  }

  lemma LastFlagSegment(segments: seq<Segment>, flags: seq<Flag>)
    requires flags != []
    ensures var n := |flags| - 1;
            segments + FlagSegments(flags) ==
            (segments + FlagSegments(flags[..n])) + [Segment(FlagName(flags[n]), "yes", "yes")]
  {
  }

  lemma {:induction false} RenderedFlags(segments: seq<Segment>, flags: seq<Flag>)
    requires segments != []
    ensures Rendered(segments + FlagSegments(flags)) == Rendered(segments) + FlagTexts(flags)
    decreases |flags|
  {
    if flags == [] {
      assert segments + FlagSegments(flags) == segments;
      assert Rendered(segments) + "" == Rendered(segments);
    } else {
      var n := |flags| - 1;
      LastFlagSegment(segments, flags);
      RenderedFlags(segments, flags[..n]);
      RenderedAppend(segments + FlagSegments(flags[..n]), Segment(FlagName(flags[n]), "yes", "yes"));
      ConcatAssociates(Rendered(segments), FlagTexts(flags[..n]), ";" + (FlagKey(flags[n]) + "yes"));
    }
  }

  lemma ShapeIsRendered(u: UrlParts, driver: string, flags: seq<Flag>, b: Blanks)
    ensures Shape(driver, RestOf(u), flags) == Rendered(Segments(u, driver, flags, b))
  {
    var s := FirstTwo(u, driver, b);
    assert s[1..] == [Segment("Server", ServerText(u), Plain(ServerText(u), b))];
    assert "Driver" + "=" == "Driver=" && "Server" + "=" == "Server=";
    assert u.host + "," + Decimal(u.port) == u.host + ("," + Decimal(u.port));
    RenderedOptional(s, "Database", u.database, b);
    var d := s + OptionalSegment("Database", u.database, b);
    RenderedOptional(d, "UID", u.username, b);
    var n := d + OptionalSegment("UID", u.username, b);
    RenderedOptional(n, "PWD", u.password, b);
    RenderedFlags(n + OptionalSegment("PWD", u.password, b), flags);
    PartsInOrder(driver, u.host, u.port, u.database, u.username, u.password);
  }

  /** What a driver text means: the inside of its braces, or itself. */
  function DriverValue(driver: string, b: Blanks): string {
    if StartsBraced(driver, b) then
      var (ok, value, _) := ReadQuoted(Lead(driver, b)[1..], '}');
      if ok then value else driver
    else Plain(driver, b)
  }

  lemma ReadableTogether(a: seq<Segment>, c: seq<Segment>, b: Blanks)
    requires AllReadable(a, b) && AllReadable(c, b)
    ensures AllReadable(a + c, b)
  {
  }

  lemma OptionalReadable(name: string, value: string, b: Blanks)
    requires '=' !in name
    ensures AllReadable(OptionalSegment(name, value, b), b)
  {
    EscapeIsDelimited(value, b);
  }

  /** A host behind which the reader finds the next attribute. */
  predicate Bounded(host: string, b: Blanks) {
    ';' !in host && !StartsBraced(host, b)
  }

  lemma ServerHas(u: UrlParts)
    ensures var s := ServerText(u);
            |u.host| < |s| && s[|u.host|] == ',' && s[|s| - 1] != ' ' && (';' in s <==> ';' in u.host) && u.host <= s
  {
    var digits := Decimal(u.port);
    assert forall i :: 0 <= i < |digits| ==> IsDigit(digits[i]);
    var s := ServerText(u);
    assert s[|s| - 1] == digits[|digits| - 1];
    forall i | 0 <= i < |s|
      ensures s[i] == if i < |u.host| then u.host[i] else if i == |u.host| then ',' else digits[i - |u.host| - 1]
    {
    }
    if ';' in u.host {
      var i :| 0 <= i < |u.host| && u.host[i] == ';';
      assert s[i] == ';';
    }
  }

  lemma {:induction false} LeadOfServer(host: string, more: string, b: Blanks)
    requires more != "" && more[0] != '{' && more[0] != ' '
    ensures StartsBraced(host + more, b) <==> StartsBraced(host, b)
    decreases |host|
  {
    if host == "" {
      assert host + more == more;
    } else {
      assert (host + more)[1..] == host[1..] + more;
      if host[0] == ' ' {
        LeadOfServer(host[1..], more, b);
      }
    }
  }

  lemma ServerReadable(u: UrlParts, b: Blanks)
    requires Bounded(u.host, b)
    ensures Delimited(ServerText(u), Plain(ServerText(u), b), b)
  {
    ServerHas(u);
    assert ServerText(u) == u.host + ("," + Decimal(u.port));
    LeadOfServer(u.host, "," + Decimal(u.port), b);
  }

  lemma SegmentsReadable(u: UrlParts, driver: string, flags: seq<Flag>, b: Blanks)
    requires Bounded(u.host, b) && Delimited(driver, DriverValue(driver, b), b)
    ensures AllReadable(Segments(u, driver, flags, b), b)
  {
    ServerReadable(u, b);
    var s := FirstTwo(u, driver, b);
    assert Readable(s[0], b) && Readable(s[1], b);
    OptionalReadable("Database", u.database, b);
    OptionalReadable("UID", u.username, b);
    OptionalReadable("PWD", u.password, b);
    ReadableTogether(s, OptionalSegment("Database", u.database, b), b);
    var d := s + OptionalSegment("Database", u.database, b);
    ReadableTogether(d, OptionalSegment("UID", u.username, b), b);
    var n := d + OptionalSegment("UID", u.username, b);
    ReadableTogether(n, OptionalSegment("PWD", u.password, b), b);
    FlagsReadable(flags, b);
    ReadableTogether(n + OptionalSegment("PWD", u.password, b), FlagSegments(flags), b);
  }

  lemma FlagsReadable(flags: seq<Flag>, b: Blanks)
    ensures AllReadable(FlagSegments(flags), b)
  {
    assert forall f: Flag :: '=' !in FlagName(f);
    SkipBlanksParts("yes");
    CutBlanksParts("yes");
  }

  // ------------------------------------------------------------ what a reader should see

  function OptionalAttribute(name: string, value: string): seq<Attribute> {
    if value == "" then [] else [Attribute(name, value)]
  }

  function FlagAttributes(flags: seq<Flag>): seq<Attribute> {
    seq(|flags|, i requires 0 <= i < |flags| => Attribute(FlagName(flags[i]), "yes"))
  }

  /** Everything in order, for the given values. */
  function Expected(u: UrlParts, driver: string, flags: seq<Flag>): seq<Attribute> {
    [Attribute("Driver", driver), Attribute("Server", ServerText(u))] +
    OptionalAttribute("Database", u.database) + OptionalAttribute("UID", u.username) +
    OptionalAttribute("PWD", u.password) + FlagAttributes(flags)
  }

  lemma AttributesConcat(a: seq<Segment>, c: seq<Segment>)
    ensures Attributes(a + c) == Attributes(a) + Attributes(c)
  {
  }

  /** The parts that were read are those expected exactly if each is. */
  lemma SamePart(a: seq<Segment>, x: seq<Attribute>, name: string, value: string, b: Blanks)
    requires |a| == |x|
    ensures var c, y := a + OptionalSegment(name, value, b), x + OptionalAttribute(name, value);
            |c| == |y| && (Attributes(c) == y <==> Attributes(a) == x && (NeedsBraces(value) || Firm(value, b)))
  {
    var more, last := OptionalSegment(name, value, b), OptionalAttribute(name, value);
    ShownExactly(value, b);
    AttributesConcat(a, more);
    SameParts(Attributes(a), Attributes(more), x, last);
    assert value != "" ==> Attributes(more)[0] == Attribute(name, Shown(value, b)) && last[0] == Attribute(name, value);
  }

  lemma SameParts<T>(a: seq<T>, b: seq<T>, x: seq<T>, y: seq<T>)
    requires |a| == |x|
    ensures a + b == x + y <==> a == x && b == y
  {
    if a + b == x + y {
      assert a == (a + b)[..|a|] && x == (x + y)[..|a|];
      assert b == (a + b)[|a|..] && y == (x + y)[|a|..];
    }
  }

  /** No blank in front of the host, if the reader drops it. */
  predicate FirmHost(host: string, b: Blanks) {
    b.Dropped? && host != "" ==> host[0] != ' '
  }

  predicate FirmValues(u: UrlParts, b: Blanks) {
    && FirmHost(u.host, b)
    && (NeedsBraces(u.database) || Firm(u.database, b))
    && (NeedsBraces(u.username) || Firm(u.username, b))
    && (NeedsBraces(u.password) || Firm(u.password, b))
  }

  lemma SameServer(u: UrlParts, driver: string, b: Blanks)
    ensures var given := [Attribute("Driver", DriverValue(driver, b)), Attribute("Server", ServerText(u))];
            Attributes(FirstTwo(u, driver, b)) == given <==> FirmHost(u.host, b)
  {
    ServerHas(u);
    PlainExactly(ServerText(u), b);
    assert Attributes(FirstTwo(u, driver, b))[1] == Attribute("Server", Plain(ServerText(u), b));
    assert u.host == "" ==> ServerText(u)[0] == ',';
    assert u.host != "" ==> ServerText(u)[0] == u.host[0];
  }

  lemma SeenExactly(u: UrlParts, driver: string, flags: seq<Flag>, b: Blanks)
    ensures Attributes(Segments(u, driver, flags, b)) == Expected(u, DriverValue(driver, b), flags) <==> FirmValues(u, b)
  {
    var s := FirstTwo(u, driver, b);
    var x := [Attribute("Driver", DriverValue(driver, b)), Attribute("Server", ServerText(u))];
    SameServer(u, driver, b);
    SamePart(s, x, "Database", u.database, b);
    s, x := s + OptionalSegment("Database", u.database, b), x + OptionalAttribute("Database", u.database);
    SamePart(s, x, "UID", u.username, b);
    s, x := s + OptionalSegment("UID", u.username, b), x + OptionalAttribute("UID", u.username);
    SamePart(s, x, "PWD", u.password, b);
    s, x := s + OptionalSegment("PWD", u.password, b), x + OptionalAttribute("PWD", u.password);
    AttributesConcat(s, FlagSegments(flags));
    assert Attributes(FlagSegments(flags)) == FlagAttributes(flags);
    SameParts(Attributes(s), FlagAttributes(flags), x, FlagAttributes(flags));
  }

  // ------------------------------------------------------------ hosts that are not bounded

  /** Up to the first '}' the inside of the braces is read as it stands. */
  lemma {:induction false} ReadAsItStands(s: string)
    requires ReadQuoted(s, '}').0
    ensures var value, p := ReadQuoted(s, '}').1, NextChar(s, '}', 0);
            && p < |s| && p <= |value| && value[..p] == s[..p]
            && (|value| > p ==> value[p] == '}')
    decreases |s|
  {
    if s[0] != '}' {
      ReadAsItStands(s[1..]);
      NextCharSkips([s[0]], s[1..], '}', 0);
      assert [s[0]] + s[1..] == s;
    }
  }

  lemma {:induction false} BlanksThenLead(s: string, b: Blanks)
    ensures var k := |s| - |Lead(s, b)|; Lead(s, b) == s[k..] && forall i :: 0 <= i < k ==> s[i] == ' '
    decreases |s|
  {
    if b.Dropped? && s != "" && s[0] == ' ' {
      BlanksThenLead(s[1..], b);
      SkippedShorter(s[1..]);
    }
  }

  /** The text would have to repeat its first `o` characters, blanks and a brace, up to the first '}'. */
  lemma {:induction false} Repeats(z: string, o: nat, p: nat, n: nat, i: nat)
    requires 0 < o && o + p <= |z| && i < o + p && i < n + o
    requires forall j :: 0 <= j < o ==> z[j] == ' ' || z[j] == '{'
    requires forall j :: 0 <= j < p && j < n ==> z[j] == z[o + j]
    ensures z[i] == ' ' || z[i] == '{'
    decreases i
  {
    if i >= o {
      Repeats(z, o, p, n, i - o);
      assert z[i - o] == z[o + (i - o)];
    }
  }

  /** A text that is its own reading from behind the brace on has nothing else in it. */
  lemma OnlyBlanksAndBraces(text: string, z: string, o: nat, p: nat)
    requires text <= z && 0 < o && o + p <= |z| && p <= |text|
    requires forall j :: 0 <= j < o ==> z[j] == ' ' || z[j] == '{'
    requires forall j :: 0 <= j < p ==> text[j] == z[o + j] && text[j] != '}'
    requires |text| > p ==> text[p] == '}'
    ensures ',' !in text
  {
    forall i | 0 <= i < |text| && i < o + p
      ensures text[i] == ' ' || text[i] == '{'
    {
      Repeats(z, o, p, |text|, i);
    }
    assert |text| <= p;
  }

  lemma StandsBehindBrace(inside: string, z: string, o: nat)
    requires ReadQuoted(inside, '}').0 && o <= |z| && inside == z[o..]
    ensures var value, p := ReadQuoted(inside, '}').1, NextChar(inside, '}', 0);
            && o + p <= |z| && p <= |value| && (|value| > p ==> value[p] == '}')
            && forall j :: 0 <= j < p ==> value[j] == z[o + j] && value[j] != '}'
  {
    var value, p := ReadQuoted(inside, '}').1, NextChar(inside, '}', 0);
    ReadAsItStands(inside);
    forall j | 0 <= j < p
      ensures value[j] == z[o + j] && value[j] != '}'
    {
      assert value[j] == value[..p][j] && inside[j] == inside[..p][j];
    }
  }

  lemma BracedIsMisread(text: string, more: string, b: Blanks)
    requires ',' in text && StartsBraced(text + more, b)
    ensures ReadValue(text + more, b).None? || ReadValue(text + more, b).value.0 != text
  {
    var z := text + more;
    var inside := Lead(z, b)[1..];
    if ReadQuoted(inside, '}').0 {
      var o := |z| - |inside|;
      BlanksThenLead(z, b);
      assert inside == z[o..];
      StandsBehindBrace(inside, z, o);
      if ReadQuoted(inside, '}').1 == text {
        OnlyBlanksAndBraces(text, z, o, NextChar(inside, '}', 0));
      }
    }
  }

  lemma PlainHasNoSemicolon(z: string, b: Blanks)
    ensures ';' !in Plain(z[..NextChar(z, ';', 0)], b)
  {
    var v := z[..NextChar(z, ';', 0)];
    SkipBlanksParts(v);
    CutBlanksParts(SkipBlanks(v));
  }

  /** A text with a ';', or that starts braced but has a ',', is never read as it stands. */
  lemma UnboundedIsMisread(text: string, more: string, b: Blanks)
    requires Ends(more) && ',' in text && (';' in text || StartsBraced(text, b))
    ensures ReadValue(text + more, b).None? || ReadValue(text + more, b).value.0 != text
  {
    LeadBehind(text, more, b);
    if StartsBraced(text + more, b) {
      BracedIsMisread(text, more, b);
    } else {
      PlainHasNoSemicolon(text + more, b);
    }
  }

  /** The first attribute has the value that is read behind the first '='. */
  lemma FirstValueRead(text: string, valueText: string, b: Blanks)
    requires NextChar(text, '=', 0) < |text| && text[NextChar(text, '=', 0) + 1..] == valueText
    ensures var read := ReadAttributes(text, b);
            read.None? || (|read.value| > 0 && ReadValue(valueText, b).Some? && read.value[0].value == ReadValue(valueText, b).value.0)
  {
  }

  lemma AttributeIsMisread(key: string, text: string, more: string, b: Blanks)
    requires '=' !in key
    requires ReadValue(text + more, b).None? || ReadValue(text + more, b).value.0 != text
    ensures var read := ReadAttributes(key + "=" + (text + more), b);
            read.None? || (|read.value| > 0 && read.value[0].value != text)
  {
    var value := text + more;
    KeySplits(key, value, "");
    assert key + "=" + value + "" == key + "=" + value && value + "" == value;
    FirstValueRead(key + "=" + value, value, b);
  }

  lemma SecondIsMisread(first: Segment, second: string, text: string, b: Blanks)
    requires Readable(first, b)
    requires var read := ReadAttributes(second, b); read.None? || (|read.value| > 0 && read.value[0].value != text)
    ensures var read := ReadAttributes(SegmentText(first) + (";" + second), b);
            read.None? || |read.value| < 2 || read.value[1].value != text
  {
    FirstReads(first, ";" + second, b);
    assert (";" + second)[1..] == second;
  }

  lemma TwoKeys(driver: string, value: string, text: string)
    ensures SegmentText(Segment("Driver", driver, value)) == "Driver=" + driver && '=' !in "Driver"
    ensures "Server" + "=" + text == "Server=" + text && '=' !in "Server"
  {
    assert "Driver" + "=" == "Driver=" && "Server" + "=" == "Server=";
  }

  /** The second attribute is not the server, or nothing is read at all. */
  lemma UnboundedServer(u: UrlParts, driver: string, value: string, more: string, b: Blanks)
    requires Delimited(driver, value, b) && Ends(more) && !Bounded(u.host, b)
    ensures var read := ReadAttributes("Driver=" + driver + (";" + ("Server=" + (ServerText(u) + more))), b);
            read.None? || |read.value| < 2 || read.value[1].value != ServerText(u)
  {
    var server := ServerText(u);
    ServerIsMisread(u, more, b);
    TwoKeys(driver, value, server + more);
    AttributeIsMisread("Server", server, more, b);
    SecondIsMisread(Segment("Driver", driver, value), "Server" + "=" + (server + more), server, b);
  }

  lemma ServerIsMisread(u: UrlParts, more: string, b: Blanks)
    requires Ends(more) && !Bounded(u.host, b)
    ensures var read := ReadValue(ServerText(u) + more, b); read.None? || read.value.0 != ServerText(u)
  {
    ServerHas(u);
    assert ServerText(u) == u.host + ("," + Decimal(u.port));
    LeadOfServer(u.host, "," + Decimal(u.port), b);
    UnboundedIsMisread(ServerText(u), more, b);
  }

  // ------------------------------------------------------------ the main results

  lemma DriverNameIsPlain()
    ensures '}' !in DRIVER_NAME && ';' !in DRIVER_NAME && '=' !in DRIVER_NAME
  {
  }

  lemma BracedIsDelimited(name: string, b: Blanks)
    requires '}' !in name
    ensures Delimited("{" + name + "}", name, b) && DriverValue("{" + name + "}", b) == name
  {
    DoubledPlain(name, '}');
    DoubledReads(name, '}', "");
    SkipBlanksParts("{" + name + "}");
    assert ("{" + name + "}")[1..] == name + (['}'] + "");
  }

  lemma DefaultDriver(b: Blanks)
    ensures ';' !in DEFAULT_DRIVER && Delimited(DEFAULT_DRIVER, DRIVER_NAME, b) && DriverValue(DEFAULT_DRIVER, b) == DRIVER_NAME
    ensures forall f: Flag :: !Contains(DEFAULT_DRIVER, FlagKey(f))
  {
    DriverNameIsPlain();
    BracedIsDelimited(DRIVER_NAME, b);
    forall f: Flag
      ensures !Contains(DEFAULT_DRIVER, FlagKey(f))
    {
      AbsentChar(DEFAULT_DRIVER, FlagKey(f), |FlagName(f)|);
    }
  }

  /** The parts the builder starts with. */
  function Start(u: UrlParts): Settings {
    Settings(DEFAULT_DRIVER, RestOf(u), [])
  }

  /** The driver in force at the end is a value by itself, and no replaced one has a ';'. */
  predicate GoodDrivers(pairs: seq<Pair>, b: Blanks) {
    var driver := DriverInForce(DEFAULT_DRIVER, pairs);
    Replaceable(pairs) && Delimited(driver, DriverValue(driver, b), b)
  }

  /** The finished text has the shape that its parts describe, for all parameters. */
  lemma BuiltIsShape(u: UrlParts, pairs: seq<Pair>)
    ensures Built(u, pairs) == TextOf(SetAll(Start(u), pairs)) && WellShaped(Start(u))
  {
    DefaultDriver(Kept);
    PairsSet(Start(u), pairs);
    var start := StartText(DEFAULT_DRIVER, u.host, u.port, u.database, u.username, u.password);
    assert start + "" == start;
  }

  lemma BuiltWithDriver(u: UrlParts, pairs: seq<Pair>)
    requires Replaceable(pairs)
    ensures Built(u, pairs) == Shape(DriverInForce(DEFAULT_DRIVER, pairs), RestOf(u), SetAll(Start(u), pairs).flags)
  {
    var s, driver := SetAll(Start(u), pairs), DriverInForce(DEFAULT_DRIVER, pairs);
    DefaultDriver(Kept);
    BuiltIsShape(u, pairs);
    DriverReplacesDriver(Start(u), DEFAULT_DRIVER, RestOf(u), pairs);
    ConcatAssociates("Driver=", s.driver, s.rest);
    ConcatAssociates("Driver=", driver, RestOf(u));
  }

  /** What a reader gets of the built string, for any database, user and password. */
  lemma BuiltReads(u: UrlParts, pairs: seq<Pair>, b: Blanks)
    requires GoodDrivers(pairs, b) && Bounded(u.host, b)
    ensures ReadAttributes(Built(u, pairs), b) ==
            Some(Attributes(Segments(u, DriverInForce(DEFAULT_DRIVER, pairs), SetAll(Start(u), pairs).flags, b)))
  {
    var driver, flags := DriverInForce(DEFAULT_DRIVER, pairs), SetAll(Start(u), pairs).flags;
    BuiltWithDriver(u, pairs);
    ShapeIsRendered(u, driver, flags, b);
    SegmentsReadable(u, driver, flags, b);
    RenderedReads(Segments(u, driver, flags, b), b);
  }

  /** What stands behind the server. */
  function BehindServer(u: UrlParts, flags: seq<Flag>): string {
    OptionalPart("Database", u.database) +
    (OptionalPart("UID", u.username) + (OptionalPart("PWD", u.password) + FlagTexts(flags)))
  }

  lemma {:induction false} FlagTextsEnd(flags: seq<Flag>)
    ensures Ends(FlagTexts(flags))
    decreases |flags|
  {
    if flags != [] {
      FlagTextsEnd(flags[..|flags| - 1]);
    }
  }

  lemma BehindServerEnds(u: UrlParts, flags: seq<Flag>)
    ensures Ends(BehindServer(u, flags))
  {
    FlagTextsEnd(flags);
  }

  lemma ServerInShape(u: UrlParts, driver: string, flags: seq<Flag>)
    ensures Shape(driver, RestOf(u), flags) ==
            "Driver=" + driver + (";" + ("Server=" + (ServerText(u) + BehindServer(u, flags))))
  {
    var start, server := "Driver=" + driver, ";" + ("Server=" + ServerText(u));
    var d, n, p, f := OptionalPart("Database", u.database), OptionalPart("UID", u.username), OptionalPart("PWD", u.password), FlagTexts(flags);
    assert u.host + "," + Decimal(u.port) == u.host + ("," + Decimal(u.port));
    FiveParts(start, server, d, n, p, f);
    ConcatAssociates(";", "Server=" + ServerText(u), BehindServer(u, flags));
    ConcatAssociates("Server=", ServerText(u), BehindServer(u, flags));
  }

  lemma FiveParts(a: string, s: string, d: string, n: string, p: string, f: string)
    ensures a + (s + d + n + p) + f == a + (s + (d + (n + (p + f))))
  {
    ConcatAssociates(a, s + d + n + p, f);
    ConcatAssociates(s + d + n, p, f);
    ConcatAssociates(s + d, n, p + f);
    ConcatAssociates(s, d, n + (p + f));
  }

  /**
   * For any parts and query parameters: a reader that follows the brace rules
   * gets back exactly the given server, database, user and password, the
   * driver in force and the flags that were set, if and only if the host is
   * bounded and, for a reader that drops outer blanks, no plain value has any.
   */
  lemma BuiltReadsBackExactly(u: UrlParts, pairs: seq<Pair>, b: Blanks)
    requires GoodDrivers(pairs, b)
    ensures var driver := DriverInForce(DEFAULT_DRIVER, pairs);
            ReadAttributes(Built(u, pairs), b) ==
            Some(Expected(u, DriverValue(driver, b), SetAll(Start(u), pairs).flags)) <==>
            Bounded(u.host, b) && FirmValues(u, b)
  {
    var driver, flags := DriverInForce(DEFAULT_DRIVER, pairs), SetAll(Start(u), pairs).flags;
    if Bounded(u.host, b) {
      BuiltReads(u, pairs, b);
      SeenExactly(u, driver, flags, b);
    } else {
      BuiltWithDriver(u, pairs);
      ServerInShape(u, driver, flags);
      BehindServerEnds(u, flags);
      UnboundedServer(u, driver, DriverValue(driver, b), BehindServer(u, flags), b);
      assert Expected(u, DriverValue(driver, b), flags)[1] == Attribute("Server", ServerText(u));
    }
  }

  /** A flag key sits in one of the values. */
  predicate KeyInValues(u: UrlParts, f: Flag) {
    Contains(u.host, FlagKey(f)) || Contains(u.database, FlagKey(f)) ||
    Contains(u.username, FlagKey(f)) || Contains(u.password, FlagKey(f))
  }

  lemma NameBeforeValue(x: string, name: string, value: string, f: Flag)
    requires Apart(name, f)
    ensures Contains(x + (";" + (name + "=" + value)), FlagKey(f)) <==> Contains(x, FlagKey(f)) || Contains(value, FlagKey(f))
  {
    FlagNames(f);
    assert x + (";" + (name + "=" + value)) == x + [';'] + (name + "=" + value);
    ContainsSplit(x, ';', name + "=" + value, FlagKey(f));
    ContainsBehindName(name, value, FlagName(f));
  }

  lemma OptionalContains(x: string, name: string, value: string, f: Flag)
    requires Apart(name, f)
    ensures Contains(x + OptionalPart(name, value), FlagKey(f)) <==> Contains(x, FlagKey(f)) || Contains(value, FlagKey(f))
  {
    FlagNames(f);
    if value == "" {
      assert x + "" == x;
    } else {
      NameBeforeValue(x, name, Escape(value), f);
      ContainsEscaped(value, FlagKey(f));
    }
  }

  lemma DigitsHaveNoKey(digits: string, f: Flag)
    requires AllDigits(digits)
    ensures !Contains(digits, FlagKey(f))
  {
    FlagNames(f);
    AbsentChar(digits, FlagKey(f), 0);
  }

  /** Whether the text the flags are looked for in has the key: exactly if some value has it. */
  lemma KeyInTextExactly(u: UrlParts, f: Flag)
    ensures Contains(RestOf(u), FlagKey(f)) <==> KeyInValues(u, f)
  {
    var digits := Decimal(u.port);
    var server := ";" + ("Server=" + (u.host + "," + digits));
    NamesApart(f);
    FlagNames(f);
    assert server == "" + (";" + ("Server" + "=" + (u.host + "," + digits)));
    NameBeforeValue("", "Server", u.host + "," + digits, f);
    ContainsSplit(u.host, ',', digits, FlagKey(f));
    DigitsHaveNoKey(digits, f);
    OptionalContains(server, "Database", u.database, f);
    var d := server + OptionalPart("Database", u.database);
    OptionalContains(d, "UID", u.username, f);
    OptionalContains(d + OptionalPart("UID", u.username), "PWD", u.password, f);
  }

  /** A flag key stands in the values, in the driver in force, or in what an earlier driver left behind. */
  predicate KeyFound(u: UrlParts, before: seq<Pair>, f: Flag) {
    || KeyInValues(u, f)
    || Contains(DriverInForce(DEFAULT_DRIVER, before), FlagKey(f))
    || TailHasKey(before, f)
  }

  /** Some request for the flag comes when its key is not found. */
  ghost predicate Heard(u: UrlParts, pairs: seq<Pair>, f: Flag) {
    exists i :: 0 <= i < |pairs| && Requests(pairs[i], f) && !KeyFound(u, pairs[..i], f)
  }

  /** For all values, drivers included: a flag is set, and once, exactly if some request for it finds its key nowhere. */
  lemma FlagsExactly(u: UrlParts, pairs: seq<Pair>, f: Flag)
    ensures Distinct(SetAll(Start(u), pairs).flags)
    ensures f in SetAll(Start(u), pairs).flags <==> Heard(u, pairs, f)
  {
    BuiltIsShape(u, pairs);
    KeyInTextExactly(u, f);
    FlagsSetExactly(Start(u), pairs, f);
    forall i | 0 <= i < |pairs|
      ensures SetAt(Start(u), pairs, f, i) <==> Requests(pairs[i], f) && !KeyFound(u, pairs[..i], f)
    {
      HasKeyExactly(Start(u), pairs[..i], f);
    }
  }

  // ------------------------------------------------------------ flags in what is read

  ghost predicate DistinctKeys(attributes: seq<Attribute>) {
    forall i, j :: 0 <= i < j < |attributes| ==> attributes[i].key != attributes[j].key
  }

  lemma FlagNamesDiffer(f: Flag)
    ensures FlagName(f) !in OTHER_KEYS
    ensures FlagName(Encrypt) != FlagName(Trust)
  {
    assert |FlagName(Encrypt)| == 7 && |FlagName(Trust)| == 22;
  }

  const OTHER_KEYS: seq<string> := ["Driver", "Server", "Database", "UID", "PWD"]

  lemma KeysDiffer()
    ensures forall i, j :: 0 <= i < j < 5 ==> OTHER_KEYS[i] != OTHER_KEYS[j]
  {
    assert "Driver"[0] == 'D' && "Server"[0] == 'S' && "UID"[0] == 'U' && "PWD"[0] == 'P' && |"Database"| == 8;
  }

  /** The attributes before the flags. */
  function PartsRead(u: UrlParts, driver: string, b: Blanks): seq<Attribute> {
    Attributes(FirstTwo(u, driver, b) +
               OptionalSegment("Database", u.database, b) + OptionalSegment("UID", u.username, b) +
               OptionalSegment("PWD", u.password, b))
  }

  lemma PartsHaveDistinctKeys(u: UrlParts, driver: string, b: Blanks)
    ensures DistinctKeys(PartsRead(u, driver, b))
    ensures forall a <- PartsRead(u, driver, b) :: a.key in OTHER_KEYS
  {
    KeysDiffer();
  }

  lemma FlagsAmongAttributes(parts: seq<Attribute>, flags: seq<Flag>, f: Flag)
    requires DistinctKeys(parts) && Distinct(flags) && forall a <- parts :: a.key in OTHER_KEYS
    ensures var all := parts + FlagAttributes(flags);
            DistinctKeys(all) && (Attribute(FlagName(f), "yes") in all <==> f in flags)
  {
    FlagNamesDiffer(Encrypt);
    FlagNamesDiffer(Trust);
    forall i | 0 <= i < |flags|
      ensures FlagAttributes(flags)[i].key == FlagName(f) <==> flags[i] == f
      ensures forall a <- parts :: a.key != FlagAttributes(flags)[i].key
    {
    }
  }

  /**
   * Reading the built string back: no key comes twice, and a flag is there
   * exactly if some request for it finds its key nowhere.
   */
  lemma FlagReadBackExactly(u: UrlParts, pairs: seq<Pair>, f: Flag, b: Blanks)
    requires GoodDrivers(pairs, b) && Bounded(u.host, b)
    ensures ReadAttributes(Built(u, pairs), b).Some?
    ensures var read := ReadAttributes(Built(u, pairs), b).value;
            DistinctKeys(read) && (Attribute(FlagName(f), "yes") in read <==> Heard(u, pairs, f))
  {
    var driver, flags := DriverInForce(DEFAULT_DRIVER, pairs), SetAll(Start(u), pairs).flags;
    BuiltReads(u, pairs, b);
    FlagsExactly(u, pairs, f);
    PartsHaveDistinctKeys(u, driver, b);
    FlagsAmongAttributes(PartsRead(u, driver, b), flags, f);
    AttributesConcat(FirstTwo(u, driver, b) + OptionalSegment("Database", u.database, b) +
                     OptionalSegment("UID", u.username, b) + OptionalSegment("PWD", u.password, b), FlagSegments(flags));
    assert Attributes(FlagSegments(flags)) == FlagAttributes(flags);
  }

  // ------------------------------------------------------------ from the URL

  /** A value that reads back: braced, or without outer blanks that the reader drops. */
  predicate Safe(value: string, b: Blanks) {
    NeedsBraces(value) || Firm(value, b)
  }

  /**
   * From the URL to the reader: for the two schemes a reader finds the host or
   * localhost with the port or 1433, the path without its leading slashes, the
   * user name and the password, each under its own key and left out when
   * empty, if and only if the host is bounded and the values are safe.
   */
  lemma UrlReadsBackExactly(url: Url, slashes: nat, name: string, b: Blanks) returns (flags: seq<Flag>)
    requires SameLetters(url.scheme, "mssql") || SameLetters(url.scheme, "odbc")
    requires url.path == seq(slashes, i => '/') + name && (name == "" || name[0] != '/')
    requires GoodDrivers(url.pairs, b)
    ensures var host := if url.host.Some? then url.host.value else "localhost";
            var port := if url.port.Some? then url.port.value else 1433;
            var password := if url.password.Some? then url.password.value else "";
            && Distinct(flags)
            && (forall f :: f in flags <==> Heard(UrlParts(host, port, name, url.username, password), url.pairs, f))
            && (ReadAttributes(ConnectionText(url), b) == Some(
                  [Attribute("Driver", DriverValue(DriverInForce(DEFAULT_DRIVER, url.pairs), b)),
                   Attribute("Server", host + "," + Decimal(port))] +
                  (if name == "" then [] else [Attribute("Database", name)]) +
                  (if url.username == "" then [] else [Attribute("UID", url.username)]) +
                  (if password == "" then [] else [Attribute("PWD", password)]) +
                  FlagAttributes(flags)) <==>
                Bounded(host, b) && FirmHost(host, b) && Safe(name, b) && Safe(url.username, b) && Safe(password, b))
  {
    var u := PartsOf(url);
    HandledExactly(url.scheme);
    SlashesDropped(slashes, name);
    flags := SetAll(Start(u), url.pairs).flags;
    BuiltReadsBackExactly(u, url.pairs, b);
    forall f: Flag
      ensures f in flags <==> Heard(u, url.pairs, f)
      ensures Distinct(flags)
    {
      FlagsExactly(u, url.pairs, f);
    }
    FlagsExactly(u, url.pairs, Encrypt);
  }

  /** Text of any other scheme is left alone. */
  lemma OtherSchemesPass(url: Url)
    requires !SameLetters(url.scheme, "mssql") && !SameLetters(url.scheme, "odbc")
    ensures ConnectionText(url) == url.text
  {
    HandledExactly(url.scheme);
  }
}
