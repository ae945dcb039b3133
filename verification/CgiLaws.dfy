/** What single lines of a CGI child's header block do to the answer (http/handlers/cgi_handler.cpp:180-205),
    in terms of their texts. */
module CgiLaws {
  import opened Text
  import opened Http
  import opened HttpResponse
  import opened Cgi
  import opened RequestLaws

  /** A Status line that starts with a number: the code is that number, or the nearest that an int
      holds, and the message is what stands behind it, without the spaces around it and only if the
      number fits. */
  lemma StatusRead(blanks: string, sign: string, digits: string, rest: string)
    requires Blank(blanks) && IsSign(sign) && IsNumber(digits) && (rest == "" || !IsDigit(rest[0]))
    ensures var n: int := DecimalValue(digits);
            var v := if sign == "-" then -n else n;
            StatusOf(blanks + sign + digits + rest) ==
              if v > 0x7FFF_FFFF then (0x7FFF_FFFF, "")
              else if v < -0x8000_0000 then (-0x8000_0000, "")
              else (v, Trim(rest, " "))
  {
    var u := digits + rest;
    Behind(blanks, sign, digits, rest);
    Signed(sign, u);
    SkipBlank(blanks, sign + u);
    RequestLaws.DigitsThen(digits, rest);
    hide SkipSpaces, DigitsPrefix, DecimalValue, Trim, StatusOf;
    StatusInParts(blanks + (sign + u), sign, u, |digits|);
  }

  lemma StatusInParts(s: string, sign: string, u: string, n: nat)
    requires IsSign(sign) && u != "" && IsDigit(u[0]) && SkipSpaces(s) == sign + u && DigitsPrefix(u) == n && n > 0
    ensures n <= |u| && forall i | 0 <= i < n :: IsDigit(u[..n][i])
    ensures var m: int := DecimalValue(u[..n]);
            var v := if sign == "-" then -m else m;
            StatusOf(s) ==
              if v > 0x7FFF_FFFF then (0x7FFF_FFFF, "") else if v < -0x8000_0000 then (-0x8000_0000, "") else (v, Trim(u[n..], " "))
  {
    Signed(sign, u);
    hide SkipSpaces, DigitsPrefix, DecimalValue, Trim;
  }

  lemma Behind(blanks: string, sign: string, digits: string, rest: string)
    requires IsSign(sign) && IsNumber(digits)
    ensures var u := digits + rest;
            && blanks + sign + digits + rest == blanks + (sign + u) && u[..|digits|] == digits && u[|digits|..] == rest
            && u != "" && u[0] == digits[0] && (sign + u)[0] == (sign + digits)[0]
  {
    assert blanks + (sign + (digits + rest)) == blanks + sign + digits + rest by { Regroup(blanks, sign, digits, rest); }
  }

  lemma Signed(sign: string, u: string)
    requires IsSign(sign) && u != "" && IsDigit(u[0])
    ensures var t := sign + u;
            && t != "" && !IsSpace(t[0])
            && (sign == "" ==> t == u) && (sign == "+" ==> t[0] == '+' && t[1..] == u) && (sign == "-" ==> t[0] == '-' && t[1..] == u)
  {}

  /** Without a number the code is 0 and there is no message. */
  lemma StatusMissing(blanks: string, sign: string, rest: string)
    requires Blank(blanks) && IsSign(sign)
    requires rest == "" || (!IsDigit(rest[0]) && (sign == "" ==> !IsSpace(rest[0]) && rest[0] != '+' && rest[0] != '-'))
    ensures StatusOf(blanks + sign + rest) == (0, "")
  {
    var t := sign + rest;
    assert blanks + sign + rest == blanks + t;
    SkipBlank(blanks, t);
    assert sign != "" ==> t[1..] == rest;
    RequestLaws.DigitsThen("", rest);
    assert "" + rest == rest;
    hide SkipSpaces, DigitsPrefix;
  }

  /** A line "name: value" that is no Status line: the header takes the place of one of the same name,
      spelled the same way; but the three that the server decides on are left out. */
  lemma HeaderLinePassed(r: Response, b1: string, name: string, b2: string, b3: string, value: string, b4: string)
    requires AllWhite(b1) && AllWhite(b2) && AllWhite(b3) && AllWhite(b4)
    requires name != "" && ':' !in name && Trimmed(name, WHITESPACE) && Trimmed(value, WHITESPACE)
    requires var line := b1 + name + b2 + ":" + (b3 + value + b4); !("Status: " <= line)
    ensures OnCgiLine(r, b1 + name + b2 + ":" + (b3 + value + b4)) ==
            if name == "Connection" || name == "Transfer-Encoding" || name == "Content-Length" then r
            else r.(headers := r.headers[name := value])
  {
    HeaderLineRead(b1, name, b2, b3, value, b4, false);
    hide ParseHeaderLine, Trimmed, AllWhite, StatusOf;
  }

  /** A Status line sets code and message, and any other line without a name is passed over. */
  lemma OtherLine(r: Response, line: string)
    ensures "Status: " <= line ==>
              var status := StatusOf(line[8..]);
              OnCgiLine(r, line) == r.(code := status.0, message := status.1)
    ensures !("Status: " <= line) && (line == "" || ':' !in line || exists i | 0 <= i < |line| :: line[i] == ':' && AllWhite(line[..i])) ==>
              OnCgiLine(r, line) == r
  {
    if i :| 0 <= i < |line| && line[i] == ':' && AllWhite(line[..i]) {
      HeaderLineBad(line[..i], line[i + 1..], false);
      assert line == line[..i] + ":" + line[i + 1..];
    }
    HeaderLineBad("", line, false);
    hide ParseHeaderLine, StatusOf, AllWhite;
  }
}
