/** Path and number formatting used to name files: filepath.Join and
    filepath.Split for the shapes of path the program builds, a directory's
    direct entries, and %03d. */
module Paths {

  /** filepath.Join(dir, name) for a clean `name`. */
  function Join(dir: string, name: string): string {
    if dir == "" || dir == "." then name
    else if dir[|dir| - 1] == '/' then dir + name
    else dir + "/" + name
  }

  /** Index of the last '/' in p, or -1. */
  function LastSlash(p: string): (i: int)
    ensures -1 <= i < |p|
    ensures i >= 0 ==> p[i] == '/'
    ensures forall j :: i < j < |p| ==> p[j] != '/'
  {
    if p == [] then -1
    else if p[|p| - 1] == '/' then |p| - 1
    else LastSlash(p[..|p| - 1])
  }

  /** filepath.Split: the directory part keeps its trailing '/', and
      dir + file == p. */
  function Split(p: string): (r: (string, string))
    ensures r.0 + r.1 == p
    ensures '/' !in r.1
  {
    var i := LastSlash(p);
    NoSlashAfter(p, i);
    (p[..i + 1], p[i + 1..])
  }

  lemma NoSlashAfter(p: string, i: int)
    requires -1 <= i < |p|
    requires forall j :: i < j < |p| ==> p[j] != '/'
    ensures p[..i + 1] + p[i + 1..] == p
    ensures '/' !in p[i + 1..]
  {
    var tail := p[i + 1..];
    forall k | 0 <= k < |tail|
      ensures tail[k] != '/'
    {
      assert tail[k] == p[i + 1 + k];
    }
  }

  /** The directory a path's entry lives in, as ioutil.ReadDir names it. */
  function Parent(p: string): string {
    var i := LastSlash(p);
    if i < 0 then "." else p[..i]
  }

  /** p lies strictly below directory d. */
  predicate Inside(d: string, p: string) {
    |d| + 1 < |p| && p[..|d|] == d && p[|d|] == '/'
  }

  lemma InsideIsLonger(d: string, p: string)
    requires Inside(d, p)
    ensures |p| > |d|
  {
  }

  function DigitChar(d: nat): char
    requires d < 10
  {
    '0' + d as char
  }

  function DigitValue(c: char): nat {
    if '0' <= c <= '9' then (c - '0') as nat else 0
  }

  /** fmt's %d for a non-negative number. */
  function Decimal(n: nat): (s: string)
    ensures |s| >= 1
    decreases n
  {
    if n < 10 then [DigitChar(n)] else Decimal(n / 10) + [DigitChar(n % 10)]
  }

  /** fmt's %03d for a non-negative number: zero-padded to three digits. */
  function Pad3(n: nat): string {
    if n < 10 then "00" + Decimal(n)
    else if n < 100 then "0" + Decimal(n)
    else Decimal(n)
  }

  /** The value of a string of decimal digits. */
  function ParseDecimal(s: string): nat
    decreases |s|
  {
    if s == [] then 0 else 10 * ParseDecimal(s[..|s| - 1]) + DigitValue(s[|s| - 1])
  }

  lemma {:induction false} ParseDecimalOfDecimal(n: nat)
    ensures ParseDecimal(Decimal(n)) == n
    decreases n
  {
    if n >= 10 {
      var s := Decimal(n);
      assert s[..|s| - 1] == Decimal(n / 10);
      ParseDecimalOfDecimal(n / 10);
    }
  }

  lemma {:induction false} ParseDecimalLeadingZero(s: string)
    ensures ParseDecimal("0" + s) == ParseDecimal(s)
    decreases |s|
  {
    if s != [] {
      var t := "0" + s;
      assert t[..|t| - 1] == "0" + s[..|s| - 1];
      ParseDecimalLeadingZero(s[..|s| - 1]);
    }
  }

  /** %03d loses nothing: the number can be read back from its rendering. */
  lemma Pad3RoundTrip(n: nat)
    ensures ParseDecimal(Pad3(n)) == n
  {
    ParseDecimalOfDecimal(n);
    if n < 10 {
      ParseDecimalLeadingZero(Decimal(n));
      assert "00" + Decimal(n) == "0" + ("0" + Decimal(n));
      ParseDecimalLeadingZero("0" + Decimal(n));
    } else if n < 100 {
      ParseDecimalLeadingZero(Decimal(n));
    }
  }

  lemma Pad3Injective(m: nat, n: nat)
    requires Pad3(m) == Pad3(n)
    ensures m == n
  {
    Pad3RoundTrip(m);
    Pad3RoundTrip(n);
  }
}
