/** The few string operations of Python that the models share. */
module Strings {

  /** `split` on one separator: never empty, and [""] for the empty string. */
  function Split(s: string, separator: char): (parts: seq<string>)
    ensures |parts| > 0
  {
    if s == [] then [[]]
    else if s[0] == separator then [[]] + Split(s[1..], separator)
    else OntoFirst(s[0], Split(s[1..], separator))
  }

  function OntoFirst(c: char, parts: seq<string>): (more: seq<string>)
    requires |parts| > 0
    ensures |more| == |parts|
  {
    [[c] + parts[0]] + parts[1..]
  }

  predicate IsDigits(s: string) {
    s != [] && forall i :: 0 <= i < |s| ==> '0' <= s[i] <= '9'
  }

  function ToNat(s: string): nat
    requires forall i :: 0 <= i < |s| ==> '0' <= s[i] <= '9'
  {
    if s == [] then 0 else 10 * ToNat(s[..|s| - 1]) + (s[|s| - 1] as nat - '0' as nat)
  }

  /** `str` of a natural number. */
  function Decimal(n: nat): (s: string)
    ensures IsDigits(s)
  {
    var last := [('0' as int + n % 10) as char];
    if n < 10 then last else Decimal(n / 10) + last
  }

  /** Reading a numeral gives its number back. */
  lemma {:induction false} ToNatOfDecimal(n: nat)
    ensures ToNat(Decimal(n)) == n
  {
    var s := Decimal(n);
    assert s[|s| - 1] as nat - '0' as nat == n % 10;
    if n < 10 {
      assert s[..|s| - 1] == [];
    } else {
      ToNatOfDecimal(n / 10);
      assert s[..|s| - 1] == Decimal(n / 10);
    }
  }

  /** Leading zeros do not count. */
  lemma {:induction false} LeadingZero(s: string)
    requires IsDigits(s)
    ensures ToNat("0" + s) == ToNat(s)
  {
    var t := "0" + s;
    assert t[|t| - 1] == s[|s| - 1] && t[..|t| - 1] == "0" + s[..|s| - 1];
    if |s| > 1 {
      LeadingZero(s[..|s| - 1]);
    } else {
      assert t[..1] == "0" && "0"[..0] == [];
    }
  }

  lemma SplitNext(s: string, separator: char)
    ensures Split([], separator) == [[]]
    ensures s != [] ==>
              Split(s, separator) ==
              if s[0] == separator then [[]] + Split(s[1..], separator) else OntoFirst(s[0], Split(s[1..], separator))
  {
  }

  lemma ConcatAfterFirst(c: char, a: seq<string>, b: seq<string>)
    requires |a| > 0
    ensures OntoFirst(c, a + b) == OntoFirst(c, a) + b
    ensures ([[]] + a) + b == [[]] + (a + b)
  {
    assert (a + b)[1..] == a[1..] + b;
  }

  /** Splitting at one more separator. */
  lemma {:induction false} SplitConcat(p: string, separator: char, q: string)
    ensures Split(p + [separator] + q, separator) == Split(p, separator) + Split(q, separator)
  {
    hide Split, OntoFirst;
    var whole := p + [separator] + q;
    SplitNext(whole, separator);
    SplitNext(p, separator);
    if p == [] {
      assert whole[1..] == q;
    } else {
      SplitConcat(p[1..], separator, q);
      assert whole[1..] == p[1..] + [separator] + q;
      ConcatAfterFirst(p[0], Split(p[1..], separator), Split(q, separator));
    }
  }

  lemma {:induction false} SplitWithout(s: string, separator: char)
    requires separator !in s
    ensures Split(s, separator) == [s]
  {
    if s != [] {
      assert s[0] in s && s == [s[0]] + s[1..];
      SplitWithout(s[1..], separator);
    }
  }
}
