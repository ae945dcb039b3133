/** The parts of std::string and the C character functions that the server relies on.
    A string holds one byte per character, and a search that finds nothing answers the
    length of the string, where C++ answers std::string::npos. */
module Text {

  datatype Option<+T> = None | Some(value: T)

  /** std::string::find for one character, from the start. */
  function IndexOf(s: string, c: char): (i: nat)
    ensures i <= |s|
    ensures i < |s| ==> s[i] == c
    ensures forall j | 0 <= j < i :: s[j] != c
  {
    if s == [] || s[0] == c then 0 else 1 + IndexOf(s[1..], c)
  }

  /** Whatever is the first occurrence is what IndexOf finds. */
  lemma IndexOfIs(s: string, c: char, i: nat)
    requires i <= |s|
    requires forall j | 0 <= j < i :: s[j] != c
    requires i < |s| ==> s[i] == c
    ensures IndexOf(s, c) == i
  {}

  /** A character found in a prefix is found at the same place in the whole. */
  lemma IndexOfAppend(s: string, t: string, c: char)
    ensures IndexOf(s + t, c) == if IndexOf(s, c) < |s| then IndexOf(s, c) else |s| + IndexOf(t, c)
  {
    var i := IndexOf(s, c);
    var j := IndexOf(t, c);
    IndexOfIs(s + t, c, if i < |s| then i else |s| + j);
  }

  /** The fields of s between occurrences of c; always at least one. */
  function Split(s: string, c: char): (fields: seq<string>)
    ensures |fields| >= 1
  {
    var i := IndexOf(s, c);
    if i == |s| then [s] else [s[..i]] + Split(s[i + 1..], c)
  }

  lemma {:induction false} SplitOnce(s: string, c: char)
    ensures IndexOf(s, c) == |s| ==> Split(s, c) == [s]
    ensures IndexOf(s, c) < |s| ==> Split(s, c) == [s[..IndexOf(s, c)]] + Split(s[IndexOf(s, c) + 1..], c)
  {
    hide IndexOf;
  }

  lemma SplitFields(s: string, c: char)
    ensures forall i | 0 <= i < |Split(s, c)| :: c !in Split(s, c)[i]
    ensures forall i, d | 0 <= i < |Split(s, c)| && d in Split(s, c)[i] :: d in s
  {
    var i := IndexOf(s, c);
    if i < |s| {
      var tail := s[i + 1..];
      SplitFields(tail, c);
      forall k, d | 0 <= k < |Split(s, c)| && d in Split(s, c)[k] ensures d in s {
        if k > 0 {
          assert Split(s, c)[k] == Split(tail, c)[k - 1];
          assert d in tail;
        }
      }
    }
  }

  /** std::isspace in the C locale. */
  predicate IsSpace(c: char) {
    c == ' ' || '\t' <= c <= '\r'
  }

  predicate IsDigit(c: char) {
    '0' <= c <= '9'
  }

  const WHITESPACE := " \t\r\n"

  function TrimLeft(s: string, ws: string): (r: string)
    ensures |r| <= |s| && s[|s| - |r|..] == r
    ensures r != [] ==> r[0] !in ws
    ensures forall i | 0 <= i < |s| - |r| :: s[i] in ws
  {
    if s != [] && s[0] in ws then TrimLeft(s[1..], ws) else s
  }

  function TrimRight(s: string, ws: string): (r: string)
    ensures |r| <= |s| && s[..|r|] == r
    ensures r != [] ==> r[|r| - 1] !in ws
    ensures forall i | |r| <= i < |s| :: s[i] in ws
  {
    if s != [] && s[|s| - 1] in ws then TrimRight(s[..|s| - 1], ws) else s
  }

  /** trim of request_handler_utils.cpp: from the first to the last character outside ws. */
  function Trim(s: string, ws: string): (r: string) {
    TrimRight(TrimLeft(s, ws), ws)
  }

  predicate Trimmed(s: string, ws: string) {
    s != [] ==> s[0] !in ws && s[|s| - 1] !in ws
  }

  lemma TrimTrims(s: string, ws: string)
    ensures Trimmed(Trim(s, ws), ws)
    ensures forall c | c in Trim(s, ws) :: c in s
  {
    var l := TrimLeft(s, ws);
    var r := TrimRight(l, ws);
    if r != [] {
      assert r[0] == l[0];
    }
    forall c | c in r ensures c in s {
      var i :| 0 <= i < |r| && r[i] == c;
      assert l[i] == r[i] && s[|s| - |l| + i] == l[i];
    }
  }

  lemma TrimOfTrimmed(s: string, ws: string)
    requires Trimmed(s, ws)
    ensures Trim(s, ws) == s
  {}

  lemma TrimSpaceBefore(s: string, ws: string)
    requires Trimmed(s, ws) && ' ' in ws
    ensures Trim(" " + s, ws) == s
  {
    assert (" " + s)[1..] == s;
    assert TrimLeft(" " + s, ws) == TrimLeft(s, ws);
    TrimOfTrimmed(s, ws);
  }

  function LowerChar(c: char): char {
    if 'A' <= c <= 'Z' then ((c as int) + 32) as char else c
  }

  /** to_lower of request_handler_utils.cpp. */
  function ToLower(s: string): (r: string)
    ensures |r| == |s|
    ensures forall i | 0 <= i < |s| :: r[i] == LowerChar(s[i])
  {
    seq(|s|, i requires 0 <= i < |s| => LowerChar(s[i]))
  }

  predicate IsLower(s: string) {
    forall i | 0 <= i < |s| :: !('A' <= s[i] <= 'Z')
  }

  lemma WhitespaceIs(c: char)
    ensures c in WHITESPACE <==> c == ' ' || c == '\t' || c == '\r' || c == '\n'
  {
    assert WHITESPACE[0] == ' ' && WHITESPACE[1] == '\t' && WHITESPACE[2] == '\r' && WHITESPACE[3] == '\n';
  }

  lemma ToLowerTrimmed(s: string)
    requires Trimmed(s, WHITESPACE)
    ensures Trimmed(ToLower(s), WHITESPACE)
  {
    if s != [] {
      WhitespaceIs(s[0]);
      WhitespaceIs(s[|s| - 1]);
      WhitespaceIs(LowerChar(s[0]));
      WhitespaceIs(LowerChar(s[|s| - 1]));
    }
  }

  lemma ToLowerIsLower(s: string)
    ensures IsLower(ToLower(s))
    ensures IsLower(s) ==> ToLower(s) == s
    ensures forall c | c in ToLower(s) && !('a' <= c <= 'z') :: c in s
  {
    forall c | c in ToLower(s) && !('a' <= c <= 'z') ensures c in s {
      var i :| 0 <= i < |s| && ToLower(s)[i] == c;
      assert s[i] == c;
    }
  }

  /** Whether pat occurs in s: std::string::find(pat) != npos. */
  predicate Contains(s: string, pat: string) {
    pat <= s || (s != [] && Contains(s[1..], pat))
  }

  lemma {:induction false} ContainsMeans(s: string, pat: string)
    ensures Contains(s, pat) <==> exists i | 0 <= i <= |s| :: pat <= s[i..]
  {
    assert s[0..] == s;
    if s != "" {
      ContainsMeans(s[1..], pat);
      assert forall i | 0 < i <= |s| :: s[i..] == s[1..][i - 1..];
      assert forall i | 0 <= i <= |s[1..]| :: s[1..][i..] == s[i + 1..];
    }
  }

  // ----- decimal numbers -----

  function DigitsPrefix(s: string): (n: nat)
    ensures n <= |s|
    ensures forall i | 0 <= i < n :: IsDigit(s[i])
    ensures n < |s| ==> !IsDigit(s[n])
  {
    if s == [] || !IsDigit(s[0]) then 0 else 1 + DigitsPrefix(s[1..])
  }

  predicate IsNumber(s: string) {
    s != "" && forall i | 0 <= i < |s| :: IsDigit(s[i])
  }

  function DigitValue(c: char): nat
    requires IsDigit(c)
  {
    c as int - '0' as int
  }

  function DecimalValue(s: string): nat
    requires forall i | 0 <= i < |s| :: IsDigit(s[i])
  {
    if s == [] then 0
    else 10 * DecimalValue(s[..|s| - 1]) + DigitValue(s[|s| - 1])
  }

  function DigitChar(d: nat): char
    requires d < 10
  {
    ('0' as int + d) as char
  }

  /** std::to_string of an unsigned number. */
  function Decimal(n: nat): (s: string)
    ensures s != [] && forall i | 0 <= i < |s| :: IsDigit(s[i])
    ensures DecimalValue(s) == n
  {
    if n < 10 then [DigitChar(n)]
    else
      var s := Decimal(n / 10) + [DigitChar(n % 10)];
      assert s[..|s| - 1] == Decimal(n / 10);
      s
  }

  function SkipSpaces(s: string): (r: string)
    ensures |r| <= |s|
  {
    if s != [] && IsSpace(s[0]) then SkipSpaces(s[1..]) else s
  }

  /** What strtoll and strtoull read: blanks, an optional sign, then at least one digit;
      anything may follow. None is std::invalid_argument. */
  datatype Numeral = Numeral(negative: bool, magnitude: nat)

  function ReadNumeral(s: string): Option<Numeral> {
    var t := SkipSpaces(s);
    var signed := t != [] && (t[0] == '-' || t[0] == '+');
    var u := if signed then t[1..] else t;
    var n := DigitsPrefix(u);
    if n == 0 then None
    else Some(Numeral(signed && t[0] == '-', DecimalValue(u[..n])))
  }

  const TWO63 := 0x8000_0000_0000_0000
  const TWO64 := 0x1_0000_0000_0000_0000

  /** std::stoll; None is an exception. */
  function Stoll(s: string): Option<int> {
    match ReadNumeral(s)
    case None => None
    case Some(Numeral(negative, m)) =>
      var v: int := if negative then -(m as int) else m;
      if -TWO63 <= v < TWO63 then Some(v) else None
  }

  /** std::stoull; None is an exception, and a minus sign negates modulo 2^64. */
  function Stoull(s: string): (r: Option<nat>)
    ensures r.Some? ==> r.value < TWO64
  {
    match ReadNumeral(s)
    case None => None
    case Some(Numeral(negative, m)) =>
      if m >= TWO64 then None
      else if negative && m > 0 then Some(TWO64 - m)
      else Some(m)
  }

  /** Reading back a printed number. */
  lemma ReadDecimal(n: nat)
    ensures ReadNumeral(Decimal(n)) == Some(Numeral(false, n))
  {
    var s := Decimal(n);
    assert IsDigit(s[0]);
    assert SkipSpaces(s) == s;
    assert DigitsPrefix(s) == |s|;
    assert s[..|s|] == s;
  }

  /** How many digits a printed number has, as far as three. */
  lemma DecimalLength(n: nat)
    ensures |Decimal(n)| == 1 <==> n < 10
    ensures |Decimal(n)| <= 2 <==> n < 100
    ensures |Decimal(n)| <= 3 <==> n < 1000
  {
    if n >= 10 {
      assert |Decimal(n)| == |Decimal(n / 10)| + 1;
      if n >= 100 {
        assert |Decimal(n / 10)| == |Decimal(n / 100)| + 1 by { assert n / 10 / 10 == n / 100; }
        if n >= 1000 { assert |Decimal(n / 100)| == |Decimal(n / 1000)| + 1 by { assert n / 100 / 10 == n / 1000; } }
      }
    }
  }
}
