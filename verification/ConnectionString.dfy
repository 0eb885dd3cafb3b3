/** Escaping values in ODBC connection strings, and replacing the database of one. */
module ConnectionString {
  import opened Text

  // ------------------------------------------------------------ printing

  predicate NeedsBraces(value: string) {
    ';' in value || '{' in value || '}' in value || '=' in value
  }

  function Escape(value: string): string {
    if NeedsBraces(value) then "{" + Doubled(value, '}') + "}" else value
  }

  function UpperChar(c: char): char {
    if 'a' <= c <= 'z' then (c as int - 32) as char else c
  }

  predicate IsAscii(s: string) {
    forall i :: 0 <= i < |s| ==> s[i] as int < 0x80
  }

  /** `to_uppercase` as far as ASCII goes; on an ASCII prefix it keeps positions. */
  function Upper(s: string): (r: string)
    ensures |r| == |s| && forall i :: 0 <= i < |s| ==> r[i] == UpperChar(s[i])
  {
    seq(|s|, i requires 0 <= i < |s| => UpperChar(s[i]))
  }

  const SEARCH := "DATABASE="
  const LABEL := "Database="

  function WithDatabase(s: string, database: string): string {
    var pos := Find(Upper(s), SEARCH);
    if pos >= 0 then ReplacedAt(s, pos, database) else s + ";" + LABEL + Escape(database)
  }

  /** The text from `pos` to the next ';' makes way for the new attribute. */
  function ReplacedAt(s: string, pos: nat, database: string): string
    requires pos <= |s|
  {
    s[..pos] + LABEL + (Escape(database) + s[NextChar(s, ';', pos)..])
  }

  // ------------------------------------------------------------ with_database

  lemma EscapeHasSemicolon(value: string)
    ensures ';' in Escape(value) <==> ';' in value
  {
    DoubledHas(value, '}', ';');
  }

  /** The key occurs at `i` when case is ignored. */
  predicate MatchesAt(s: string, key: string, i: nat) {
    i + |key| <= |s| && forall j :: 0 <= j < |key| ==> UpperChar(s[i + j]) == key[j]
  }

  lemma MatchIsOccurrence(s: string, key: string, i: nat)
    ensures MatchesAt(s, key, i) <==> OccursAt(Upper(s), key, i)
  {
    if OccursAt(Upper(s), key, i) {
      forall j | 0 <= j < |key|
        ensures UpperChar(s[i + j]) == key[j]
      {
        assert Upper(s)[i..i + |key|][j] == Upper(s)[i + j];
      }
    }
  }

  lemma FindsMatch(s: string, key: string, at: nat)
    requires at <= |s|
    ensures Find(Upper(s), key) == at <==> MatchesAt(s, key, at) && forall i: nat :: i < at ==> !MatchesAt(s, key, i)
  {
    forall i: nat
      ensures MatchesAt(s, key, i) <==> OccursAt(Upper(s), key, i)
    {
      MatchIsOccurrence(s, key, i);
    }
  }

  lemma FindsNothing(s: string, key: string)
    ensures Find(Upper(s), key) == -1 <==> forall i: nat :: !MatchesAt(s, key, i)
  {
    forall i: nat
      ensures MatchesAt(s, key, i) <==> OccursAt(Upper(s), key, i)
    {
      MatchIsOccurrence(s, key, i);
    }
    if Find(Upper(s), key) != -1 {
      assert OccursAt(Upper(s), key, Find(Upper(s), key));
    }
  }

  lemma LabelFacts()
    ensures |LABEL| == |SEARCH| == 9 && MatchesAt(LABEL, SEARCH, 0)
    ensures ';' !in LABEL && forall j :: 0 <= j < 9 ==> SEARCH[j] != ';'
  {
  }

  lemma MatchHasNoSemicolon(s: string, at: nat)
    requires MatchesAt(s, SEARCH, at)
    ensures forall i :: at <= i < at + 9 ==> s[i] != ';'
  {
    LabelFacts();
    forall i | at <= i < at + 9
      ensures s[i] != ';'
    {
      assert UpperChar(s[at + (i - at)]) == SEARCH[i - at];
    }
  }

  /** The label written at the first match is found there again, whatever follows. */
  lemma LabelFoundAgain(s: string, at: nat, rest: string)
    requires at <= |s| && Find(Upper(s), SEARCH) == at
    ensures Find(Upper(s[..at] + LABEL + rest), SEARCH) == at
  {
    LabelFacts();
    FindsMatch(s, SEARCH, at);
    var start := s[..at] + LABEL;
    forall j | 0 <= j < at + 9
      ensures UpperChar((start + rest)[j]) == UpperChar(s[j])
    {
      assert (start + rest)[j] == start[j];
      if j >= at {
        assert UpperChar(LABEL[0 + (j - at)]) == SEARCH[j - at] == UpperChar(s[at + (j - at)]);
      }
    }
    SameUpToMatch(s, start + rest, at);
  }

  lemma SameUpToMatch(s: string, t: string, at: nat)
    requires at + 9 <= |s| && at + 9 <= |t| && Find(Upper(s), SEARCH) == at
    requires forall j :: 0 <= j < at + 9 ==> UpperChar(t[j]) == UpperChar(s[j])
    ensures Find(Upper(t), SEARCH) == at
  {
    LabelFacts();
    FindsMatch(s, SEARCH, at);
    forall i: nat | i <= at
      ensures MatchesAt(t, SEARCH, i) <==> MatchesAt(s, SEARCH, i)
    {
    }
    FindsMatch(t, SEARCH, at);
  }

  /** The label appended to a text without match is found there. */
  lemma LabelFoundAtEnd(s: string, rest: string)
    requires Find(Upper(s), SEARCH) == -1
    ensures Find(Upper(s + ";" + LABEL + rest), SEARCH) == |s| + 1
  {
    LabelFacts();
    FindsNothing(s, SEARCH);
    var start := s + ";" + LABEL;
    var t, at := start + rest, |s| + 1;
    assert t[|s|] == start[|s|] == ';';
    forall j | 0 <= j < 9
      ensures UpperChar(t[at + j]) == SEARCH[j]
    {
      assert t[at + j] == start[at + j] == LABEL[0 + j];
    }
    forall i: nat | i < at
      ensures !MatchesAt(t, SEARCH, i)
    {
      if i + 9 <= |s| {
        forall k | i <= k < i + 9
          ensures t[k] == s[k]
        {
          assert t[k] == start[k];
        }
        assert !MatchesAt(s, SEARCH, i);
      } else if MatchesAt(t, SEARCH, i) {
        MatchHasNoSemicolon(t, i);
      }
    }
    FindsMatch(t, SEARCH, at);
  }

  /** In `e + after` the first ';' is the one of `e`, or else where `after` starts. */
  lemma SegmentEndsIn(e: string, after: string)
    requires after == "" || after[0] == ';'
    ensures NextChar(e + after, ';', 0) == NextChar(e, ';', 0)
    ensures (e + after)[NextChar(e, ';', 0)..] == e[NextChar(e, ';', 0)..] + after
  {
    var q := NextChar(e, ';', 0);
    var front, back := e[..q], e[q..];
    assert e == front + back;
    ConcatAssociates(front, back, after);
    NextCharSkips(front, back + after, ';', 0);
    DropConcat(front, back + after, 0);
    assert NextChar(back + after, ';', 0) == 0;
  }

  /** The segment behind `start` runs to the next ';'. */
  lemma SegmentEnd(start: string, from: nat, e: string, after: string)
    requires from <= |start| && forall i :: from <= i < |start| ==> start[i] != ';'
    requires after == "" || after[0] == ';'
    ensures var t, q := start + (e + after), NextChar(e, ';', 0);
            && NextChar(t, ';', from) == |start| + q
            && t[|start| + q..] == e[q..] + after
            && t[..from] == start[..from]
  {
    SegmentEndsIn(e, after);
    NextCharSkips(start, e + after, ';', from);
    DropConcat(start, e + after, NextChar(e, ';', 0));
  }

  lemma LabelHasNoSemicolon(before: string)
    ensures var start := before + LABEL;
            && |start| == |before| + 9 && start[..|before|] == before
            && forall i :: |before| <= i < |start| ==> start[i] != ';'
  {
    LabelFacts();
    var start := before + LABEL;
    assert forall i :: |before| <= i < |start| ==> start[i] == LABEL[i - |before|];
  }

  lemma ReplaceBehind(before: string, e: string, after: string, b: string)
    requires after == "" || after[0] == ';'
    ensures ReplacedAt(before + LABEL + (e + after), |before|, b) ==
            before + LABEL + (Escape(b) + (e[NextChar(e, ';', 0)..] + after))
  {
    LabelHasNoSemicolon(before);
    SegmentEnd(before + LABEL, |before|, e, after);
  }

  /** Rewriting a text whose first match stands behind `before`. */
  lemma RewriteAt(before: string, e: string, after: string, b: string)
    requires after == "" || after[0] == ';'
    requires Find(Upper(before + LABEL + (e + after)), SEARCH) == |before|
    ensures WithDatabase(before + LABEL + (e + after), b) ==
            before + LABEL + (Escape(b) + (e[NextChar(e, ';', 0)..] + after))
  {
    ReplaceBehind(before, e, after, b);
  }

  /** Splits the text: the first match and its segment, or the end; around it nothing changes. */
  lemma Rewritten(s: string) returns (before: string, gone: string, after: string)
    requires IsAscii(s)
    ensures after == "" || after[0] == ';'
    ensures if Contains(Upper(s), SEARCH)
            then s == before + gone + after && ';' !in gone && MatchesAt(gone, SEARCH, 0)
            else before == s + ";" && gone == after == ""
    ensures forall b :: WithDatabase(s, b) == before + LABEL + (Escape(b) + after)
    ensures forall b :: Find(Upper(WithDatabase(s, b)), SEARCH) == |before|
  {
    LabelFacts();
    var pos := Find(Upper(s), SEARCH);
    if pos >= 0 {
      before, gone, after := SplitAtMatch(s, pos);
      forall b
        ensures Find(Upper(WithDatabase(s, b)), SEARCH) == |before|
      {
        LabelFoundAgain(s, pos, Escape(b) + after);
      }
    } else {
      before, gone, after := s + ";", "", "";
      forall b
        ensures WithDatabase(s, b) == before + LABEL + (Escape(b) + after)
        ensures Find(Upper(WithDatabase(s, b)), SEARCH) == |before|
      {
        assert Escape(b) + "" == Escape(b);
        LabelFoundAtEnd(s, Escape(b));
      }
    }
  }

  lemma MatchInSlice(s: string, pos: nat, end: nat)
    requires MatchesAt(s, SEARCH, pos) && pos + 9 <= end <= |s|
    ensures MatchesAt(s[pos..end], SEARCH, 0)
  {
    LabelFacts();
    forall j | 0 <= j < 9
      ensures UpperChar(s[pos..end][0 + j]) == SEARCH[j]
    {
      assert UpperChar(s[pos + j]) == SEARCH[j];
    }
  }

  lemma ThreeParts(s: string, i: nat, j: nat)
    requires i <= j <= |s|
    ensures s == s[..i] + s[i..j] + s[j..]
  {
  }

  lemma AbsentInSlice(s: string, c: char, i: nat, j: nat)
    requires i <= j <= |s| && forall k :: i <= k < j ==> s[k] != c
    ensures c !in s[i..j]
  {
  }

  lemma SplitAtMatch(s: string, pos: nat) returns (before: string, gone: string, after: string)
    requires Find(Upper(s), SEARCH) == pos <= |s|
    ensures before == s[..pos] && after == s[NextChar(s, ';', pos)..]
    ensures s == before + gone + after && ';' !in gone && MatchesAt(gone, SEARCH, 0)
  {
    FindsMatch(s, SEARCH, pos);
    MatchHasNoSemicolon(s, pos);
    var end := NextChar(s, ';', pos);
    MatchInSlice(s, pos, end);
    ThreeParts(s, pos, end);
    AbsentInSlice(s, ';', pos, end);
    before, gone, after := s[..pos], s[pos..end], s[end..];
  }

  /** Rewriting twice is rewriting with the last name, exactly when the first name has no ';'. */
  lemma LastWriteWinsExactly(s: string, a: string, b: string)
    requires IsAscii(s)
    ensures WithDatabase(WithDatabase(s, a), b) == WithDatabase(s, b) <==> ';' !in a
  {
    var before, gone, after := Rewritten(s);
    var e := Escape(a);
    EscapeHasSemicolon(a);
    assert WithDatabase(s, a) == before + LABEL + (e + after);
    RewriteAt(before, e, after, b);
    var leftover := e[NextChar(e, ';', 0)..];
    var twice, once := before + LABEL + (Escape(b) + (leftover + after)), before + LABEL + (Escape(b) + after);
    if ';' in a {
      assert |twice| == |once| + |leftover|;
    } else {
      assert leftover + after == after;
    }
  }
}
