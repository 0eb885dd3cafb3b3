/** Strings shared by the printers: decimal numerals and first-match search. */
module Text {

  // ------------------------------------------------------------ numerals

  predicate IsDigit(c: char) {
    '0' <= c <= '9'
  }

  predicate AllDigits(s: string) {
    forall i :: 0 <= i < |s| ==> IsDigit(s[i])
  }

  function Digit(d: nat): (c: char)
    requires d < 10
    ensures IsDigit(c) && DigitValue(c) == d
  {
    ('0' as int + d) as char
  }

  function DigitValue(c: char): nat
    requires IsDigit(c)
  {
    c as int - '0' as int
  }

  /** The usual decimal numeral, without leading zeros. */
  function Decimal(n: nat): (s: string)
    ensures |s| > 0 && AllDigits(s)
  {
    if n < 10 then [Digit(n)] else Decimal(n / 10) + [Digit(n % 10)]
  }

  function DigitsValue(s: string): (v: int)
    requires AllDigits(s)
    ensures v >= 0
  {
    if s == [] then 0 else DigitsValue(s[..|s| - 1]) * 10 + DigitValue(s[|s| - 1])
  }

  lemma {:induction false} DecimalReadsBack(n: nat)
    ensures DigitsValue(Decimal(n)) == n
  {
    if n >= 10 {
      DecimalReadsBack(n / 10);
      assert Decimal(n)[..|Decimal(n)| - 1] == Decimal(n / 10);
    } else {
      assert Decimal(n)[..0] == [];
    }
  }

  lemma DecimalInjective(m: nat, n: nat)
    requires Decimal(m) == Decimal(n)
    ensures m == n
  {
    DecimalReadsBack(m);
    DecimalReadsBack(n);
  }

  // ------------------------------------------------------------ search

  predicate OccursAt(s: string, p: string, i: int) {
    0 <= i && i + |p| <= |s| && s[i..i + |p|] == p
  }

  predicate Contains(s: string, p: string) {
    exists i :: 0 <= i <= |s| && OccursAt(s, p, i)
  }

  /** First occurrence of `p` at or after `from`, or -1. */
  function FindFrom(s: string, p: string, from: nat): (r: int)
    requires from <= |s|
    ensures r == -1 ==> forall i :: from <= i ==> !OccursAt(s, p, i)
    ensures r != -1 ==> from <= r && OccursAt(s, p, r) && forall i :: from <= i < r ==> !OccursAt(s, p, i)
    decreases |s| - from
  {
    if OccursAt(s, p, from) then from
    else if from == |s| then -1
    else FindFrom(s, p, from + 1)
  }

  function Find(s: string, p: string): int {
    FindFrom(s, p, 0)
  }

  /** Position of the first `c` at or after `from`, or the length of `s`. */
  function NextChar(s: string, c: char, from: nat): (r: nat)
    requires from <= |s|
    ensures from <= r <= |s|
    ensures r < |s| ==> s[r] == c
    ensures forall i :: from <= i < r ==> s[i] != c
    decreases |s| - from
  {
    if from == |s| || s[from] == c then from else NextChar(s, c, from + 1)
  }

  lemma NextCharSkips(a: string, b: string, c: char, from: nat)
    requires from <= |a| && forall i :: from <= i < |a| ==> a[i] != c
    ensures NextChar(a + b, c, from) == |a| + NextChar(b, c, 0)
  {
    var q := NextChar(b, c, 0);
    assert forall i :: |a| <= i < |a| + q ==> (a + b)[i] == b[i - |a|];
    assert q < |b| ==> (a + b)[|a| + q] == b[q];
  }

  // ------------------------------------------------------------ joined text

  lemma ConcatAssociates<T>(a: seq<T>, b: seq<T>, c: seq<T>)
    ensures a + b + c == a + (b + c)
  {
  }

  lemma RestOfConcat<T>(a: seq<T>, b: seq<T>)
    requires a != []
    ensures (a + b)[0] == a[0] && (a + b)[1..] == a[1..] + b
  {
    var rest := (a + b)[1..];
    assert |rest| == |a[1..] + b|;
    assert forall i :: 0 <= i < |rest| ==> rest[i] == (a[1..] + b)[i];
  }

  lemma DropConcat<T>(a: seq<T>, b: seq<T>, n: nat)
    requires n <= |b|
    ensures (a + b)[|a| + n..] == b[n..]
    ensures (a + b)[..|a|] == a
  {
  }

  // ------------------------------------------------------------ quoting by doubling

  /** Every `q` written twice. */
  function Doubled(value: string, q: char): string {
    if value == "" then "" else (if value[0] == q then [q, q] else [value[0]]) + Doubled(value[1..], q)
  }

  /** Behind an opening quote: the text up to the first `q` that is not doubled, and what follows. */
  function ReadQuoted(s: string, q: char): (r: (bool, string, string))
    ensures r.0 ==> |r.2| < |s|
    decreases |s|
  {
    if s == "" then (false, "", "")
    else if s[0] != q then
      var (ok, value, rest) := ReadQuoted(s[1..], q);
      (ok, [s[0]] + value, rest)
    else if |s| > 1 && s[1] == q then
      var (ok, value, rest) := ReadQuoted(s[2..], q);
      (ok, [q] + value, rest)
    else (true, "", s[1..])
  }

  /** Doubling reads back, whatever the value, if no further quote follows. */
  lemma {:induction false} DoubledReads(value: string, q: char, rest: string)
    requires rest == "" || rest[0] != q
    ensures ReadQuoted(Doubled(value, q) + ([q] + rest), q) == (true, value, rest)
    decreases |value|
  {
    var s := Doubled(value, q) + ([q] + rest);
    if value == "" {
      assert s == [q] + rest && s[1..] == rest;
    } else {
      DoubledReads(value[1..], q, rest);
      var tail := Doubled(value[1..], q) + ([q] + rest);
      if value[0] == q {
        assert s == [q, q] + tail && s[2..] == tail;
      } else {
        assert s == [value[0]] + tail && s[1..] == tail;
      }
      assert [value[0]] + value[1..] == value;
    }
  }

  lemma {:induction false} DoubledHas(value: string, q: char, c: char)
    ensures c in Doubled(value, q) <==> c in value
  {
    if value != "" {
      DoubledHas(value[1..], q, c);
      assert value == [value[0]] + value[1..];
    }
  }

  lemma {:induction false} DoubledConcat(a: string, b: string, q: char)
    ensures Doubled(a + b, q) == Doubled(a, q) + Doubled(b, q)
    decreases |a|
  {
    if a == "" {
      assert a + b == b;
    } else {
      assert (a + b)[1..] == a[1..] + b;
      DoubledConcat(a[1..], b, q);
    }
  }

  lemma {:induction false} DoubledPlain(a: string, q: char)
    requires q !in a
    ensures Doubled(a, q) == a
    decreases |a|
  {
    if a != "" {
      DoubledPlain(a[1..], q);
    }
  }
}
