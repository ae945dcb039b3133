/** decode_base64 of http/core/request_handler_utils.cpp, and the encoding it undoes. */
module Base64 {
  import opened Text

  /** base64_char_value: -1 outside the alphabet. */
  function CharValue(c: char): (v: int)
    ensures -1 <= v < 64
  {
    if 'A' <= c <= 'Z' then c as int - 'A' as int
    else if 'a' <= c <= 'z' then c as int - 'a' as int + 26
    else if '0' <= c <= '9' then c as int - '0' as int + 52
    else if c == '+' then 62
    else if c == '/' then 63
    else -1
  }

  predicate Skipped(c: char) {
    IsSpace(c) || c == '='
  }

  predicate Decodable(s: string) {
    forall i | 0 <= i < |s| :: Skipped(s[i]) || CharValue(s[i]) >= 0
  }

  newtype Sextet = v: int | 0 <= v < 64

  function SymbolOf(c: char): (vs: seq<Sextet>)
    requires Skipped(c) || CharValue(c) >= 0
    ensures |vs| <= 1
  {
    if Skipped(c) then [] else [CharValue(c) as Sextet]
  }

  /** The six-bit values of a decodable string, in order. */
  function Symbols(s: string): (vs: seq<Sextet>)
    requires Decodable(s)
    ensures |vs| <= |s|
  {
    if s == "" then [] else SymbolOf(s[0]) + Symbols(s[1..])
  }

  /** Byte j of the bits of vs, read from the left. */
  function ByteAt(vs: seq<Sextet>, j: nat): (b: nat)
    requires j < 3 * |vs| / 4
    ensures b < 256
  {
    var k := j / 3 * 4 + j % 3;
    var high, low := vs[k] as int, vs[k + 1] as int;
    match j % 3
    case 0 => high * 4 + low / 16
    case 1 => high % 16 * 16 + low / 4
    case _ => high % 4 * 64 + low
  }

  /** All whole bytes of 6 * |vs| bits. */
  function Unpack(vs: seq<Sextet>): (out: string)
    ensures |out| == 6 * |vs| / 8
    ensures forall j | 0 <= j < |out| :: out[j] == ByteAt(vs, j) as char
  {
    seq(3 * |vs| / 4, j requires 0 <= j < 3 * |vs| / 4 => ByteAt(vs, j) as char)
  }

  /** What decode_base64 answers: nothing at all as soon as one character is foreign. */
  function Decode(s: string): string {
    if Decodable(s) then Unpack(Symbols(s)) else ""
  }

  // ----- the loop of the source -----

  const TWO31 := 0x8000_0000
  const TWO32 := 0x1_0000_0000

  /** A 32-bit int after an operation that overflows by wrapping. */
  function Wrap32(x: int): (r: int)
    ensures -TWO31 <= r < TWO31
  {
    (x + TWO31) % TWO32 - TWO31
  }

  function Pow2(bits: nat): nat
    requires bits < 8
  {
    if bits == 0 then 1 else 2 * Pow2(bits - 1)
  }

  /** The accumulator is never masked, but its low twelve bits are always the last two symbols. */
  lemma LowBits(value: int, last: Sextet, v: Sextet)
    requires value % 64 == last as int
    ensures Wrap32(value * 64 + v as int) % 4096 == last as int * 64 + v as int
    ensures Wrap32(value * 64 + v as int) % 64 == v as int
  {
    var q := value / 64;
    var x := 4096 * q + 64 * (last as int) + v as int;
    assert x == value * 64 + v as int;
    var k := (x + TWO31) / TWO32;
    var high := q - 0x10_0000 * k;
    assert Wrap32(x) == 4096 * high + 64 * (last as int) + v as int;
    Remainders(Wrap32(x), high, last as int, v as int);
  }

  lemma Remainders(x: int, high: int, a: int, b: int)
    requires 0 <= a < 64 && 0 <= b < 64 && x == 4096 * high + 64 * a + b
    ensures x % 4096 == 64 * a + b && x % 64 == b
  {
    assert x == 64 * (64 * high + a) + b;
  }

  /** The byte that the shift and the mask take out of the accumulator. */
  lemma ShiftOut(w: int, a: int, b: int)
    requires 0 <= a < 64 && 0 <= b < 64 && w % 4096 == a * 64 + b
    ensures w / 16 % 256 == a * 4 + b / 16
    ensures w / 4 % 256 == a % 16 * 16 + b / 4
    ensures w % 256 == a % 4 * 64 + b
  {
    var q := w / 4096;
    var a16, a4 := a / 16, a / 4;
    assert w == 4096 * q + 64 * a + b;
    Quotient(w / 16, q, a * 4 + b / 16);
    Quotient(w / 4, 4 * q + a16, a % 16 * 16 + b / 4);
    Quotient(w, 16 * q + a4, a % 4 * 64 + b);
  }

  lemma Quotient(x: int, q: int, r: int)
    requires x == 256 * q + r && 0 <= r < 256
    ensures x % 256 == r
  {}

  lemma {:induction false} SymbolsAppend(s: string, t: string)
    requires Decodable(s) && Decodable(t)
    ensures Decodable(s + t) && Symbols(s + t) == Symbols(s) + Symbols(t)
  {
    hide Skipped, CharValue, SymbolOf;
    if s == "" {
      assert s + t == t;
    } else {
      assert (s + t)[1..] == s[1..] + t && (s + t)[0] == s[0];
      SymbolsAppend(s[1..], t);
      assert SymbolOf(s[0]) + (Symbols(s[1..]) + Symbols(t)) == SymbolOf(s[0]) + Symbols(s[1..]) + Symbols(t);
    }
  }

  lemma SymbolsPush(s: string, c: char)
    requires Decodable(s) && (Skipped(c) || CharValue(c) >= 0)
    ensures Decodable(s + [c])
    ensures Symbols(s + [c]) == if Skipped(c) then Symbols(s) else Symbols(s) + [CharValue(c) as Sextet]
  {
    SymbolsAppend(s, [c]);
    assert [c][1..] == "";
    assert Symbols([c]) == SymbolOf(c) + Symbols("");
  }

  /** More symbols do not change the bytes that are whole already. */
  lemma ByteAtFront(vs: seq<Sextet>, v: Sextet, j: nat)
    requires j < 3 * |vs| / 4
    ensures ByteAt(vs + [v], j) == ByteAt(vs, j)
  {
    var k := j / 3 * 4 + j % 3;
    assert k + 1 < |vs|;
    assert (vs + [v])[k] == vs[k] && (vs + [v])[k + 1] == vs[k + 1];
  }

  lemma UnpackPush(vs: seq<Sextet>, v: Sextet)
    ensures |vs| % 4 == 0 ==> Unpack(vs + [v]) == Unpack(vs)
    ensures |vs| % 4 != 0 ==> Unpack(vs + [v]) == Unpack(vs) + [ByteAt(vs + [v], 3 * |vs| / 4) as char]
  {
    forall j: nat | j < 3 * |vs| / 4 ensures ByteAt(vs + [v], j) == ByteAt(vs, j) {
      ByteAtFront(vs, v, j);
    }
    hide ByteAt, Unpack;
    var more, out := Unpack(vs + [v]), Unpack(vs);
    assert |more| == if |vs| % 4 == 0 then |out| else |out| + 1;
    assert forall j | 0 <= j < |out| :: more[j] == out[j];
  }

  /** Where the accumulator stands after the symbols vs. */
  predicate Accumulated(vs: seq<Sextet>, bits: nat, value: int) {
    && bits == 6 * |vs| % 8
    && value % 64 == if vs == [] then 0 else vs[|vs| - 1] as int
  }

  /** One symbol of the loop. */
  method PushSymbol(ghost vs: seq<Sextet>, out: string, bits: nat, value: int, v: Sextet)
    returns (out': string, bits': nat, value': int)
    requires out == Unpack(vs) && Accumulated(vs, bits, value)
    ensures out' == Unpack(vs + [v]) && Accumulated(vs + [v], bits', value')
  {
    ghost var last: Sextet := if vs == [] then 0 else vs[|vs| - 1];
    LowBits(value, last, v);
    value' := Wrap32(value * 64 + v as int);
    bits' := bits + 6;
    ShiftOut(value', last as int, v as int);
    UnpackPush(vs, v);
    if bits' >= 8 {
      bits' := bits' - 8;
      out' := out + [(value' / Pow2(bits') % 256) as char];
      assert vs != [] && ByteAt(vs + [v], 3 * |vs| / 4) == value' / Pow2(bits') % 256 by {
        PushedByte(vs, v, value', bits');
      }
    } else {
      out' := out;
    }
  }

  lemma PushedByte(vs: seq<Sextet>, v: Sextet, w: int, bits: nat)
    requires |vs| % 4 != 0 && bits == 6 * (|vs| + 1) % 8
    requires w / 16 % 256 == vs[|vs| - 1] as int * 4 + v as int / 16
    requires w / 4 % 256 == vs[|vs| - 1] as int % 16 * 16 + v as int / 4
    requires w % 256 == vs[|vs| - 1] as int % 4 * 64 + v as int
    ensures bits < 8 && ByteAt(vs + [v], 3 * |vs| / 4) == w / Pow2(bits) % 256
  {
    hide Pow2;
    PushedPosition(|vs|);
    PowersOfTwo();
    var k := 3 * |vs| / 4 / 3 * 4 + 3 * |vs| / 4 % 3;
    assert (vs + [v])[k] == vs[|vs| - 1] && (vs + [v])[k + 1] == v;
  }

  lemma PowersOfTwo()
    ensures Pow2(0) == 1 && Pow2(2) == 4 && Pow2(4) == 16
  {
    assert Pow2(3) == 8 && Pow2(1) == 2;
  }

  lemma Quotient4(x: int, q: int, r: int)
    requires x == 4 * q + r && 0 <= r < 4
    ensures x / 4 == q && x % 4 == r
  {}

  lemma Quotient3(x: int, q: int, r: int)
    requires x == 3 * q + r && 0 <= r < 3
    ensures x / 3 == q && x % 3 == r
  {}

  lemma Quotient8(x: int, q: int, r: int)
    requires x == 8 * q + r && 0 <= r < 8
    ensures x / 8 == q && x % 8 == r
  {}

  lemma QuarterOf(n: nat) returns (q: nat, m: nat)
    ensures n == 4 * q + m && m < 4 && m == n % 4
  {
    q, m := n / 4, n % 4;
  }

  /** Which byte the n-th symbol completes, and the bits it leaves over. */
  lemma PushedPosition(n: nat)
    requires n % 4 != 0
    ensures var j := 3 * n / 4; j % 3 == n % 4 - 1 && j / 3 * 4 + j % 3 == n - 1
    ensures 6 * (n + 1) % 8 == 8 - 2 * (n % 4 + 1)
  {
    var q, m := QuarterOf(n);
    Quotient4(3 * n, 3 * q + m - 1, 4 - m);
    Quotient3(3 * q + m - 1, q, m - 1);
    Quotient8(6 * (n + 1), 3 * q + (if m == 1 then 1 else if m == 2 then 2 else 3), 8 - 2 * (m + 1));
  }

  /** decode_base64. */
  method DecodeBase64(s: string) returns (out: string)
    ensures out == Decode(s)
  {
    hide Accumulated, Unpack, Symbols;
    out := "";
    var bits: nat, value := 0, 0;
    assert out == Unpack(Symbols("")) && Accumulated([], bits, value) && Symbols("") == [] by { NothingYet(); }
    for i := 0 to |s|
      invariant Decodable(s[..i])
      invariant out == Unpack(Symbols(s[..i])) && Accumulated(Symbols(s[..i]), bits, value)
    {
      var c := s[i];
      assert s[..i + 1] == s[..i] + [c];
      if Skipped(c) {
        SymbolsPush(s[..i], c);
        continue;
      }
      var v := CharValue(c);
      if v < 0 {
        return "";
      }
      SymbolsPush(s[..i], c);
      out, bits, value := PushSymbol(Symbols(s[..i]), out, bits, value, v as Sextet);
    }
    assert s[..|s|] == s;
  }

  lemma NothingYet()
    ensures Symbols("") == [] && Unpack([]) == "" && Accumulated([], 0, 0)
  {}

  // ----- section 4 of RFC 4648 -----

  function CharOf(v: Sextet): (c: char)
    ensures CharValue(c) == v as int && !Skipped(c)
  {
    var n := v as int;
    if n < 26 then (n + 'A' as int) as char
    else if n < 52 then (n - 26 + 'a' as int) as char
    else if n < 62 then (n - 52 + '0' as int) as char
    else if n == 62 then '+' else '/'
  }

  predicate IsBytes(s: string) {
    forall i | 0 <= i < |s| :: s[i] < 256 as char
  }

  function Sextets(b: string): seq<Sextet>
    requires IsBytes(b)
  {
    if b == "" then []
    else
      var b0 := b[0] as int;
      if |b| == 1 then [(b0 / 4) as Sextet, (b0 % 4 * 16) as Sextet]
      else
        var b1 := b[1] as int;
        if |b| == 2 then [(b0 / 4) as Sextet, (b0 % 4 * 16 + b1 / 16) as Sextet, (b1 % 16 * 4) as Sextet]
        else
          var b2 := b[2] as int;
          [(b0 / 4) as Sextet, (b0 % 4 * 16 + b1 / 16) as Sextet,
           (b1 % 16 * 4 + b2 / 64) as Sextet, (b2 % 64) as Sextet] + Sextets(b[3..])
  }

  function Letters(vs: seq<Sextet>): string {
    seq(|vs|, i requires 0 <= i < |vs| => CharOf(vs[i]))
  }

  /** The encoding with its padding. */
  function Encode(b: string): string
    requires IsBytes(b)
  {
    Letters(Sextets(b)) + match |b| % 3 case 0 => "" case 1 => "==" case _ => "="
  }

  function WithoutSpaces(s: string): string {
    if s == "" then ""
    else (if IsSpace(s[0]) then "" else [s[0]]) + WithoutSpaces(s[1..])
  }

  lemma {:induction false} SymbolsOfLetters(vs: seq<Sextet>, pad: string)
    requires forall i | 0 <= i < |pad| :: pad[i] == '='
    ensures Decodable(Letters(vs) + pad) && Symbols(Letters(vs) + pad) == vs
    decreases |vs|, |pad|
  {
    var s := Letters(vs) + pad;
    if vs != [] {
      assert s[1..] == Letters(vs[1..]) + pad;
      assert s[0] == CharOf(vs[0]);
      SymbolsOfLetters(vs[1..], pad);
    } else if pad != "" {
      assert s[1..] == Letters([]) + pad[1..];
      SymbolsOfLetters([], pad[1..]);
    }
  }

  lemma DecodableStep(s: string)
    requires s != ""
    ensures Decodable(s) <==> (Skipped(s[0]) || CharValue(s[0]) >= 0) && Decodable(s[1..])
  {
    hide Skipped, CharValue;
    assert forall i | 1 <= i < |s| :: s[i] == s[1..][i - 1];
    assert forall i | 0 <= i < |s| - 1 :: s[1..][i] == s[i + 1];
  }

  lemma {:induction false} SymbolsIgnoreSpaces(s: string)
    ensures Decodable(s) <==> Decodable(WithoutSpaces(s))
    ensures Decodable(s) ==> Symbols(s) == Symbols(WithoutSpaces(s))
  {
    if s != "" {
      SymbolsIgnoreSpaces(s[1..]);
      DecodableStep(s);
      var t := WithoutSpaces(s);
      hide CharValue, Decodable;
      if IsSpace(s[0]) {
        assert t == WithoutSpaces(s[1..]);
      } else {
        assert t[0] == s[0] && t[1..] == WithoutSpaces(s[1..]);
        DecodableStep(t);
      }
    }
  }

  lemma UnpackGroup(vs: seq<Sextet>)
    requires |vs| >= 4
    ensures Unpack(vs) == [ByteAt(vs, 0) as char, ByteAt(vs, 1) as char, ByteAt(vs, 2) as char] + Unpack(vs[4..])
  {
    var tail := vs[4..];
    assert 3 * |vs| / 4 == 3 * |tail| / 4 + 3;
    forall j: nat | j < 3 * |tail| / 4 ensures ByteAt(vs, j + 3) == ByteAt(tail, j) {
      assert (j + 3) / 3 == j / 3 + 1 && (j + 3) % 3 == j % 3;
    }
    hide ByteAt;
    forall j: nat | 3 <= j < |Unpack(vs)| ensures Unpack(vs)[j] == Unpack(tail)[j - 3] {
      assert ByteAt(vs, j - 3 + 3) == ByteAt(tail, j - 3);
    }
  }

  lemma SextetBytes(b0: int, b1: int, b2: int)
    requires 0 <= b0 < 256 && 0 <= b1 < 256 && 0 <= b2 < 256
    ensures b0 / 4 * 4 + (b0 % 4 * 16 + b1 / 16) / 16 == b0
    ensures (b0 % 4 * 16 + b1 / 16) % 16 * 16 + (b1 % 16 * 4 + b2 / 64) / 4 == b1
    ensures (b1 % 16 * 4 + b2 / 64) % 4 * 64 + b2 % 64 == b2
  {}

  lemma FirstBytes(vs: seq<Sextet>)
    requires |vs| >= 2
    ensures ByteAt(vs, 0) == vs[0] as int * 4 + vs[1] as int / 16
    ensures |vs| >= 3 ==> ByteAt(vs, 1) == vs[1] as int % 16 * 16 + vs[2] as int / 4
    ensures |vs| >= 4 ==> ByteAt(vs, 2) == vs[2] as int % 4 * 64 + vs[3] as int
  {}

  lemma SextetsAre(b: string)
    requires IsBytes(b) && b != ""
    ensures var vs, b0 := Sextets(b), b[0] as int;
            if |b| == 1 then |vs| == 2 && vs[0] as int == b0 / 4 && vs[1] as int == b0 % 4 * 16
            else
              var b1 := b[1] as int;
              && vs[0] as int == b0 / 4 && vs[1] as int == b0 % 4 * 16 + b1 / 16
              && if |b| == 2 then |vs| == 3 && vs[2] as int == b1 % 16 * 4
                 else
                   var b2 := b[2] as int;
                   && |vs| >= 4 && vs[4..] == Sextets(b[3..])
                   && vs[2] as int == b1 % 16 * 4 + b2 / 64 && vs[3] as int == b2 % 64
  {}

  /** What is left at the end: two bytes, or one. */
  lemma UnpackRest(b: string)
    requires IsBytes(b) && 1 <= |b| <= 2
    ensures Unpack(Sextets(b)) == b
  {
    var vs := Sextets(b);
    SextetsAre(b);
    FirstBytes(vs);
    SextetBytes(b[0] as int, if |b| == 2 then b[1] as int else 0, 0);
    hide Sextets, ByteAt;
    assert ByteAt(vs, 0) == b[0] as int && (|b| == 2 ==> ByteAt(vs, 1) == b[1] as int);
  }

  lemma SextetsGroup(b: string)
    requires IsBytes(b) && |b| >= 3
    ensures var vs := Sextets(b);
            && |vs| >= 4 && vs[4..] == Sextets(b[3..])
            && [ByteAt(vs, 0) as char, ByteAt(vs, 1) as char, ByteAt(vs, 2) as char] == b[..3]
  {
    SextetsAre(b);
    FirstBytes(Sextets(b));
    SextetBytes(b[0] as int, b[1] as int, b[2] as int);
    hide Sextets, ByteAt;
    assert b[..3] == [b[0], b[1], b[2]];
  }

  lemma {:induction false} UnpackSextets(b: string)
    requires IsBytes(b)
    ensures Unpack(Sextets(b)) == b
    decreases |b|
  {
    hide Sextets, ByteAt, Unpack;
    if |b| >= 3 {
      SextetsGroup(b);
      UnpackSextets(b[3..]);
      UnpackGroup(Sextets(b));
      assert b == b[..3] + b[3..];
    } else if b != "" {
      UnpackRest(b);
    } else {
      UnpackNothing();
    }
  }

  lemma UnpackNothing()
    ensures Unpack(Sextets("")) == ""
  {}

  /** Every byte string is recovered from its encoding, wherever white space was put in. */
  lemma Base64Undo(b: string, s: string)
    requires IsBytes(b) && WithoutSpaces(s) == Encode(b)
    ensures Decode(s) == b
  {
    SymbolsIgnoreSpaces(s);
    SymbolsOfLetters(Sextets(b), match |b| % 3 case 0 => "" case 1 => "==" case _ => "=");
    UnpackSextets(b);
  }

  lemma {:induction false} NoSpaces(s: string)
    requires forall i | 0 <= i < |s| :: !IsSpace(s[i])
    ensures WithoutSpaces(s) == s
  {
    if s != "" { NoSpaces(s[1..]); }
  }

  lemma EncodeHasNoSpaces(b: string)
    requires IsBytes(b)
    ensures WithoutSpaces(Encode(b)) == Encode(b)
  {
    NoSpaces(Encode(b));
  }

  lemma {:induction false} SymbolsOfAlphabet(s: string)
    requires forall i | 0 <= i < |s| :: CharValue(s[i]) >= 0
    ensures Decodable(s) && |Symbols(s)| == |s|
  {
    if s != "" {
      assert CharValue(s[0]) >= 0 && !Skipped(s[0]);
      SymbolsOfAlphabet(s[1..]);
    }
  }

  /** One character that is no symbol, no white space and no padding, and nothing is decoded. */
  lemma ForeignNothing(s: string, i: nat)
    requires i < |s| && s[i] !in " \t\n\r=+/" && s[i] != 11 as char && s[i] != 12 as char
    requires !('A' <= s[i] <= 'Z') && !('a' <= s[i] <= 'z') && !('0' <= s[i] <= '9')
    ensures Decode(s) == ""
  {
    var blanks := " \t\n\r=+/";
    assert blanks[0] == ' ' && blanks[1] == '\t' && blanks[2] == '\n' && blanks[3] == '\r';
    assert blanks[4] == '=' && blanks[5] == '+' && blanks[6] == '/';
    assert !Decodable(s) by { assert !Skipped(s[i]) && CharValue(s[i]) < 0; }
  }

  /** n symbols without padding decode to all the whole bytes of 6 * n bits. */
  lemma DecodeLength(s: string)
    requires forall i | 0 <= i < |s| :: CharValue(s[i]) >= 0
    ensures |Decode(s)| == 6 * |s| / 8
  {
    SymbolsOfAlphabet(s);
  }
}
