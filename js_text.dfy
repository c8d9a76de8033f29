/**
 * The string operations the relay and the dashboard apply to a state string:
 * String.prototype.trim, String.prototype.split with a one-character
 * separator, the global parseInt with no radix, and Number applied to a
 * string, as ECMA-262 defines them (Number only for the literal forms listed
 * in the README).
 */
module JsText {
  import opened JsNumber

  /** The WhiteSpace and LineTerminator code points that trim, parseInt and Number skip. */
  predicate IsSpace(c: char)
  {
    c == ' ' || c == '\t' || c == '\n' || c == '\r' || c == '\U{000B}' || c == '\U{000C}'
    || c == '\U{00A0}' || c == '\U{1680}' || ('\U{2000}' <= c <= '\U{200A}')
    || c == '\U{2028}' || c == '\U{2029}' || c == '\U{202F}' || c == '\U{205F}'
    || c == '\U{3000}' || c == '\U{FEFF}'
  }

  /** The string without its leading white space. */
  function TrimStart(s: string): (r: string)
    ensures |r| <= |s| && r == s[|s| - |r|..]
    ensures forall k :: 0 <= k < |s| - |r| ==> IsSpace(s[k])
    ensures r == [] || !IsSpace(r[0])
  {
    if s != [] && IsSpace(s[0]) then TrimStart(s[1..]) else s
  }

  /** The string without its trailing white space. */
  function TrimEnd(s: string): (r: string)
    ensures |r| <= |s| && r == s[..|r|]
    ensures forall k :: |r| <= k < |s| ==> IsSpace(s[k])
    ensures r == [] || !IsSpace(r[|r| - 1])
  {
    if s != [] && IsSpace(s[|s| - 1]) then TrimEnd(s[..|s| - 1]) else s
  }

  /** String.prototype.trim. */
  function Trim(s: string): string
  {
    TrimEnd(TrimStart(s))
  }

  /** A string that neither starts nor ends with white space is its own trim. */
  lemma TrimUnchanged(s: string)
    requires s == [] || (!IsSpace(s[0]) && !IsSpace(s[|s| - 1]))
    ensures Trim(s) == s
  {
  }

  /** The index of the first occurrence of c, or |s| when there is none. */
  function IndexOf(s: string, c: char): (k: nat)
    ensures k <= |s|
    ensures c !in s[..k]
    ensures k < |s| ==> s[k] == c
  {
    if s == [] then 0
    else if s[0] == c then 0
    else 1 + IndexOf(s[1..], c)
  }

  /** `s.split(sep)` for a one-character separator. */
  function Split(s: string, sep: char): (parts: seq<string>)
    ensures |parts| >= 1
    ensures forall i :: 0 <= i < |parts| ==> sep !in parts[i]
    decreases |s|
  {
    var k := IndexOf(s, sep);
    if k == |s| then [s] else [s[..k]] + Split(s[k + 1..], sep)
  }

  /** The parts joined back together with the separator between them. */
  function Join(parts: seq<string>, sep: char): string
  {
    if parts == [] then []
    else if |parts| == 1 then parts[0]
    else parts[0] + [sep] + Join(parts[1..], sep)
  }

  /** Splitting loses nothing: joining the parts gives back the string. */
  lemma {:induction false} JoinSplit(s: string, sep: char)
    ensures Join(Split(s, sep), sep) == s
    decreases |s|
  {
    var k := IndexOf(s, sep);
    if k < |s| {
      var head, rest := s[..k], s[k + 1..];
      var tail := Split(rest, sep);
      assert Split(s, sep) == [head] + tail by {
        SplitAt(s, sep);
      }
      assert Join(tail, sep) == rest by {
        JoinSplit(rest, sep);
      }
      assert Join([head] + tail, sep) == head + [sep] + rest by {
        JoinCons(head, tail, sep);
      }
      assert s == head + [sep] + rest;
    } else {
      assert Split(s, sep) == [s];
    }
  }

  /** Past a separator, the parts are the text before it and the parts of the text after it. */
  lemma SplitAt(s: string, sep: char)
    requires IndexOf(s, sep) < |s|
    ensures var k := IndexOf(s, sep);
      Split(s, sep) == [s[..k]] + Split(s[k + 1..], sep)
  {
  }

  /** Joining a part in front of at least one more puts the separator between them. */
  lemma JoinCons(head: string, parts: seq<string>, sep: char)
    requires parts != []
    ensures Join([head] + parts, sep) == head + [sep] + Join(parts, sep)
  {
    assert ([head] + parts)[1..] == parts;
  }

  /** Trimming the end of a string that starts with a non-space keeps a nonempty prefix. */
  lemma TrimEndKeepsStart(t: string)
    requires t != [] && !IsSpace(t[0])
    ensures TrimEnd(t) != [] && forall i :: 0 <= i < |TrimEnd(t)| ==> TrimEnd(t)[i] == t[i]
  {
  }

  /** The first separator of `head + [sep] + rest` is the one after head. */
  lemma {:induction false} IndexOfAfter(head: string, sep: char, rest: string)
    requires sep !in head
    ensures IndexOf(head + [sep] + rest, sep) == |head|
    decreases |head|
  {
    var s := head + [sep] + rest;
    if head == [] {
      assert s[0] == sep;
    } else {
      assert s[0] == head[0] && s[1..] == head[1..] + [sep] + rest;
      IndexOfAfter(head[1..], sep, rest);
    }
  }

  /** The first part of a split is the text before the first separator. */
  lemma FirstPart(head: string, sep: char, rest: string)
    requires sep !in head
    ensures Split(head + [sep] + rest, sep)[0] == head
  {
    var s := head + [sep] + rest;
    IndexOfAfter(head, sep, rest);
    assert s[..|head|] == head;
  }

  /** No digit is a comma. */
  lemma NoCommaInDigits(digits: string)
    requires AllDigits(digits, 10)
    ensures ',' !in digits
  {
    assert !IsDigit(',', 10);
  }

  /** The value of a character as a digit in radix 36, or 36 when it is none. */
  function DigitValue(c: char): (d: nat)
    ensures d <= 36
  {
    if '0' <= c <= '9' then c as nat - '0' as nat
    else if 'a' <= c <= 'z' then c as nat - 'a' as nat + 10
    else if 'A' <= c <= 'Z' then c as nat - 'A' as nat + 10
    else 36
  }

  predicate IsDigit(c: char, radix: nat)
  {
    DigitValue(c) < radix
  }

  /** The length of the longest prefix made of digits of the radix. */
  function DigitPrefix(s: string, radix: nat): (k: nat)
    ensures k <= |s|
    ensures forall i :: 0 <= i < k ==> IsDigit(s[i], radix)
    ensures k < |s| ==> !IsDigit(s[k], radix)
  {
    if s != [] && IsDigit(s[0], radix) then 1 + DigitPrefix(s[1..], radix) else 0
  }

  predicate AllDigits(s: string, radix: nat)
  {
    forall i :: 0 <= i < |s| ==> IsDigit(s[i], radix)
  }

  /** The value of a numeral, most significant digit first. */
  function DigitsValue(ds: string, radix: nat): nat
  {
    if ds == [] then 0
    else DigitsValue(ds[..|ds| - 1], radix) * radix + DigitValue(ds[|ds| - 1]) % 36
  }

  predicate HasHexPrefix(s: string)
  {
    |s| >= 2 && s[0] == '0' && (s[1] == 'x' || s[1] == 'X')
  }

  /**
   * The global parseInt with no radix: leading white space, an optional sign
   * and an optional 0x prefix are skipped, then the longest run of digits is
   * read; NaN when that run is empty.
   */
  function ParseInt(s: string): Number
  {
    var t := TrimStart(s);
    var negative := t != [] && t[0] == '-';
    var unsigned := if t != [] && (t[0] == '-' || t[0] == '+') then t[1..] else t;
    var radix := if HasHexPrefix(unsigned) then 16 else 10;
    var body := if HasHexPrefix(unsigned) then unsigned[2..] else unsigned;
    var k := DigitPrefix(body, radix);
    if k == 0 then NaN
    else
      var v: int := DigitsValue(body[..k], radix);
      Int(if negative then -v else v)
  }

  /**
   * Number applied to a string: surrounding white space is ignored, the empty
   * string is 0, and otherwise the whole text must be a decimal integer with
   * an optional sign or a 0x hexadecimal integer; anything else is NaN.
   */
  function StringToNumber(s: string): Number
  {
    var t := Trim(s);
    if t == [] then Int(0)
    else if HasHexPrefix(t) then
      (if |t| > 2 && AllDigits(t[2..], 16) then Int(DigitsValue(t[2..], 16)) else NaN)
    else
      var negative := t[0] == '-';
      var body := if t[0] == '-' || t[0] == '+' then t[1..] else t;
      if body != [] && AllDigits(body, 10) then
        var v: int := DigitsValue(body, 10);
        Int(if negative then -v else v)
      else NaN
  }

  /** The decimal numeral of a natural number, as a device writes its state integer. */
  function Decimal(n: nat): (s: string)
    ensures s != [] && AllDigits(s, 10)
    ensures DigitsValue(s, 10) == n
    ensures !IsSpace(s[0]) && !IsSpace(s[|s| - 1]) && s[0] != '-' && s[0] != '+'
    ensures |s| >= 2 ==> s[0] != '0'
  {
    var c := '0' + (n % 10) as char;
    DigitChar(n % 10);
    if n < 10 then [c]
    else
      var s := Decimal(n / 10) + [c];
      assert s[..|s| - 1] == Decimal(n / 10);
      s
  }

  /** The character of a decimal digit. */
  lemma DigitChar(d: nat)
    requires d < 10
    ensures var c := '0' + d as char;
      && IsDigit(c, 10) && DigitValue(c) == d && !IsSpace(c)
      && c != '-' && c != '+' && (c == '0' <==> d == 0)
  {
  }

  /** parseInt reads exactly the leading decimal numeral of a token and ignores what follows it. */
  lemma ParseIntReadsPrefix(digits: string, rest: string)
    requires digits != [] && AllDigits(digits, 10)
    requires rest == [] || (!IsDigit(rest[0], 10) && rest[0] != 'x' && rest[0] != 'X')
    ensures ParseInt(digits + rest) == Int(DigitsValue(digits, 10))
  {
    var s := digits + rest;
    assert !IsSpace(s[0]);
    assert !HasHexPrefix(s) by {
      if |digits| >= 2 {
        assert IsDigit(s[1], 10);
      }
    }
    DigitPrefixOfNumeral(digits, rest, 10);
    assert s[..|digits|] == digits;
  }

  lemma {:induction false} DigitPrefixOfNumeral(digits: string, rest: string, radix: nat)
    requires AllDigits(digits, radix)
    requires rest == [] || !IsDigit(rest[0], radix)
    ensures DigitPrefix(digits + rest, radix) == |digits|
    decreases |digits|
  {
    if digits != [] {
      assert (digits + rest)[1..] == digits[1..] + rest;
      DigitPrefixOfNumeral(digits[1..], rest, radix);
    }
  }

  /**
   * Number needs the whole token to be a numeral: a decimal numeral followed
   * by a character that cannot continue a numeric literal gives NaN.
   */
  lemma NumberRejectsTrailing(digits: string, rest: string)
    requires digits != [] && AllDigits(digits, 10)
    requires rest != [] && !IsDigit(rest[0], 10) && !IsSpace(rest[0])
    requires rest[0] !in ".eExXoObB"
    ensures StringToNumber(digits + rest) == NaN
  {
    var s := digits + rest;
    var n := |digits|;
    assert s[0] == digits[0] && s[n] == rest[0];
    DigitIsNotSpace(s[0]);
    TrimKeepsPrefix(s, n);
    var t := Trim(s);
    assert forall i :: 0 <= i < n ==> t[i] == digits[i];
    NumeralThenJunk(t, n);
  }

  /** Trimming a string that starts with a non-space keeps it up to any later non-space. */
  lemma TrimKeepsPrefix(s: string, n: nat)
    requires n < |s| && !IsSpace(s[0]) && !IsSpace(s[n])
    ensures n < |Trim(s)|
    ensures forall i :: 0 <= i <= n ==> Trim(s)[i] == s[i]
  {
    assert TrimStart(s) == s;
  }

  /** A numeral followed by a character that is neither a digit nor an x. */
  lemma NumeralThenJunk(t: string, n: nat)
    requires 0 < n < |t|
    requires forall i :: 0 <= i < n ==> IsDigit(t[i], 10)
    requires !IsDigit(t[n], 10) && t[n] != 'x' && t[n] != 'X'
    ensures !HasHexPrefix(t) && !AllDigits(t, 10)
    ensures t[0] != '-' && t[0] != '+'
  {
    assert IsDigit(t[0], 10);
    if n >= 2 {
      assert IsDigit(t[1], 10);
    }
  }

  lemma DigitIsNotSpace(c: char)
    requires IsDigit(c, 10)
    ensures !IsSpace(c)
  {
  }

  /** parseInt and Number read a decimal numeral the same way. */
  lemma NumeralParsesAlike(digits: string)
    requires digits != [] && AllDigits(digits, 10)
    ensures ParseInt(digits) == StringToNumber(digits) == Int(DigitsValue(digits, 10))
  {
    ParseIntReadsPrefix(digits, []);
    assert digits + [] == digits;
    NumberOfNumeral(digits);
  }

  lemma NumberOfNumeral(digits: string)
    requires digits != [] && AllDigits(digits, 10)
    ensures StringToNumber(digits) == Int(DigitsValue(digits, 10))
  {
    assert IsDigit(digits[0], 10) && IsDigit(digits[|digits| - 1], 10);
    TrimUnchanged(digits);
    assert !HasHexPrefix(digits) by {
      if |digits| >= 2 {
        assert IsDigit(digits[1], 10);
      }
    }
  }

  /** Both parsers read back the decimal numeral of every natural number. */
  lemma DecimalRoundTrip(n: nat)
    ensures ParseInt(Decimal(n)) == Int(n)
    ensures StringToNumber(Decimal(n)) == Int(n)
  {
    NumeralParsesAlike(Decimal(n));
  }

  /** A token that does not start with a digit, a sign or white space is NaN to parseInt. */
  lemma ParseIntNonNumeric(s: string)
    requires s == [] || (!IsDigit(s[0], 10) && !IsSpace(s[0]) && s[0] != '-' && s[0] != '+')
    ensures ParseInt(s) == NaN
  {
  }
}
