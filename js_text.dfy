/**
 The two JavaScript string built-ins the leaderboard page relies on to
 validate its form: String.prototype.trim (section 22.1.3.32 of ECMA-262)
 and the global parseInt with no radix argument (section 19.2.5 of
 ECMA-262). Strings are sequences of Unicode scalar values here.
 */
module JsText {

  datatype Option<T> = None | Some(value: T)

  /** A WhiteSpace or LineTerminator code point (sections 12.2 and 12.3 of
      ECMA-262): the characters that trim removes and that parseInt skips
      before the number. The Zs category is listed out. */
  predicate IsSpace(c: char)
  {
    || c == '\t' || c == '\n' || c == '\U{B}' || c == '\U{C}' || c == '\r'
    || c == ' ' || c == '\U{A0}' || c == '\U{1680}'
    || ('\U{2000}' <= c <= '\U{200A}')
    || c == '\U{2028}' || c == '\U{2029}' || c == '\U{202F}' || c == '\U{205F}'
    || c == '\U{3000}' || c == '\U{FEFF}'
  }

  /** Number of white-space characters at the start of s. */
  function LeadingSpaces(s: string): (k: nat)
    ensures k <= |s|
    ensures forall i :: 0 <= i < k ==> IsSpace(s[i])
    ensures k < |s| ==> !IsSpace(s[k])
  {
    if s != [] && IsSpace(s[0]) then 1 + LeadingSpaces(s[1..]) else 0
  }

  /** Number of white-space characters at the end of s. */
  function TrailingSpaces(s: string): (k: nat)
    ensures k <= |s|
    ensures forall i :: |s| - k <= i < |s| ==> IsSpace(s[i])
    ensures k < |s| ==> !IsSpace(s[|s| - 1 - k])
  {
    if s != [] && IsSpace(s[|s| - 1]) then 1 + TrailingSpaces(s[..|s| - 1]) else 0
  }

  /** String.prototype.trim: the part of s between its leading and its
      trailing white space. */
  function Trim(s: string): (r: string)
    ensures LeadingSpaces(s) + |r| <= |s|
    ensures r == s[LeadingSpaces(s)..LeadingSpaces(s) + |r|]
    ensures forall i :: LeadingSpaces(s) + |r| <= i < |s| ==> IsSpace(s[i])
    ensures r != [] ==> !IsSpace(r[0]) && !IsSpace(r[|r| - 1])
  {
    var t := s[LeadingSpaces(s)..];
    t[..|t| - TrailingSpaces(t)]
  }

  /** JavaScript falsiness of s.trim(): the trimmed string is empty. */
  predicate IsBlank(s: string)
  {
    Trim(s) == []
  }

  lemma BlankIffAllSpace(s: string)
    ensures IsBlank(s) <==> forall i :: 0 <= i < |s| ==> IsSpace(s[i])
  {
    if IsBlank(s) {
      assert LeadingSpaces(s) + |Trim(s)| == LeadingSpaces(s);
    } else if |s| > 0 {
      assert !IsSpace(s[LeadingSpaces(s)]) by {
        assert s[LeadingSpaces(s)] == Trim(s)[0];
      }
    }
  }

  /** Value of c as a digit in radices up to 36 (0-9, then a-z or A-Z for
      10-35); 36 for every other character. */
  function DigitValue(c: char): (d: nat)
    ensures d <= 36
  {
    if '0' <= c <= '9' then (c - '0') as nat
    else if 'a' <= c <= 'z' then (c - 'a') as nat + 10
    else if 'A' <= c <= 'Z' then (c - 'A') as nat + 10
    else 36
  }

  predicate IsDecimalDigit(c: char)
  {
    DigitValue(c) < 10
  }

  /** Length of the longest prefix of s made of radix-`radix` digits. */
  function DigitRun(s: string, radix: nat): (k: nat)
    ensures k <= |s|
    ensures forall i :: 0 <= i < k ==> DigitValue(s[i]) < radix
    ensures k < |s| ==> DigitValue(s[k]) >= radix
  {
    if s != [] && DigitValue(s[0]) < radix then 1 + DigitRun(s[1..], radix) else 0
  }

  /** The number a digit string denotes in the given radix, most
      significant digit first. */
  function DigitsValue(ds: string, radix: nat): nat
  {
    if ds == [] then 0
    else DigitsValue(ds[..|ds| - 1], radix) * radix + DigitValue(ds[|ds| - 1])
  }

  /** parseInt(s) with the radix left undefined: skip leading white space,
      then read a signed number. None stands for NaN. */
  function ParseIntPrefix(s: string): Option<int>
  {
    ParseSigned(s[LeadingSpaces(s)..])
  }

  /** An optional "+" or "-", then an unsigned number; a "-" negates it. */
  function ParseSigned(t: string): Option<int>
  {
    var signed := t != [] && (t[0] == '-' || t[0] == '+');
    var r := ParseUnsigned(if signed then t[1..] else t);
    if signed && t[0] == '-' then Negate(r) else r
  }

  function Negate(r: Option<int>): Option<int>
  {
    match r
    case None => None
    case Some(v) => Some(-v)
  }

  /** Radix 16 after a "0x" or "0X" prefix, radix 10 otherwise, then the
      longest run of digits; NaN (None) when that run is empty. */
  function ParseUnsigned(u: string): Option<int>
  {
    var hex := |u| >= 2 && u[0] == '0' && (u[1] == 'x' || u[1] == 'X');
    var radix := if hex then 16 else 10;
    var body := if hex then u[2..] else u;
    var z := body[..DigitRun(body, radix)];
    if z == [] then None else Some(DigitsValue(z, radix))
  }

  /** Anything parseInt reads as a number contains a decimal digit
      (a hex number starts with its "0"). */
  lemma ParsedHasDigit(s: string)
    requires ParseIntPrefix(s).Some?
    ensures exists i :: 0 <= i < |s| && IsDecimalDigit(s[i])
  {
    var a := LeadingSpaces(s);
    var t := s[a..];
    var sign := if t != [] && (t[0] == '+' || t[0] == '-') then 1 else 0;
    var u := t[sign..];
    assert ParseUnsigned(u).Some?;
    assert IsDecimalDigit(s[a + sign]) by {
      assert s[a + sign] == u[0];
    }
  }

  /** A score text that parseInt accepts is never blank. */
  lemma ParsedIsNotBlank(s: string)
    requires ParseIntPrefix(s).Some?
    ensures !IsBlank(s)
  {
    ParsedHasDigit(s);
    var i :| 0 <= i < |s| && IsDecimalDigit(s[i]);
    assert !IsSpace(s[i]);
    BlankIffAllSpace(s);
  }

  /** Text with no decimal digit at all is NaN to parseInt. */
  lemma NoDigitIsNaN(s: string)
    requires forall i :: 0 <= i < |s| ==> !IsDecimalDigit(s[i])
    ensures ParseIntPrefix(s) == None
  {
    if ParseIntPrefix(s).Some? {
      ParsedHasDigit(s);
    }
  }

  function DecimalDigit(d: nat): (c: char)
    requires d < 10
    ensures DigitValue(c) == d
  {
    "0123456789"[d]
  }

  /** Decimal notation of a natural number, without leading zeros. */
  function NatToDecimal(n: nat): (r: string)
    decreases n
  {
    if n < 10 then [DecimalDigit(n)] else NatToDecimal(n / 10) + [DecimalDigit(n % 10)]
  }

  /** Decimal notation of an integer, with a "-" when it is negative. */
  function IntToDecimal(n: int): string
  {
    if n < 0 then "-" + NatToDecimal(-n) else NatToDecimal(n)
  }

  lemma {:induction false} NatToDecimalDigits(n: nat)
    ensures |NatToDecimal(n)| >= 1
    ensures forall i :: 0 <= i < |NatToDecimal(n)| ==> IsDecimalDigit(NatToDecimal(n)[i])
    ensures NatToDecimal(n)[0] == '0' ==> n == 0
    ensures DigitsValue(NatToDecimal(n), 10) == n
    decreases n
  {
    if n >= 10 {
      NatToDecimalDigits(n / 10);
      var a := NatToDecimal(n / 10);
      var r := a + [DecimalDigit(n % 10)];
      assert r[..|r| - 1] == a;
      assert r[0] == a[0];
    }
  }

  lemma {:induction false} SpacesThenText(ws: string, t: string)
    requires forall i :: 0 <= i < |ws| ==> IsSpace(ws[i])
    requires t == [] || !IsSpace(t[0])
    ensures LeadingSpaces(ws + t) == |ws|
  {
    if ws != [] {
      assert (ws + t)[1..] == ws[1..] + t;
      SpacesThenText(ws[1..], t);
    } else {
      assert ws + t == t;
    }
  }

  lemma {:induction false} DigitsThenText(ds: string, rest: string, radix: nat)
    requires forall i :: 0 <= i < |ds| ==> DigitValue(ds[i]) < radix
    requires rest == [] || DigitValue(rest[0]) >= radix
    ensures DigitRun(ds + rest, radix) == |ds|
  {
    if ds != [] {
      assert (ds + rest)[1..] == ds[1..] + rest;
      DigitsThenText(ds[1..], rest, radix);
    } else {
      assert ds + rest == rest;
    }
  }

  /** The sign parseInt may read in front of the digits. */
  datatype Sign = NoSign | Plus | Minus

  function SignText(sg: Sign): string
  {
    match sg
    case NoSign => ""
    case Plus => "+"
    case Minus => "-"
  }

  /** Applies a sign read by parseInt to what the unsigned reader gave. */
  function ApplySign(sg: Sign, r: Option<int>): Option<int>
  {
    if sg == Minus then Negate(r) else r
  }

  /** What a sign and a run of decimal digits denote: NaN for an empty run,
      otherwise the run's value, negated after a "-". */
  function RunValue(sg: Sign, ds: string): Option<int>
  {
    ApplySign(sg, if ds == [] then None else Some(DigitsValue(ds, 10)))
  }

  /** The signed reader strips at most one sign and applies it. */
  lemma SignThen(sg: Sign, u: string)
    requires sg == NoSign && u != [] ==> u[0] != '+' && u[0] != '-'
    ensures ParseSigned(SignText(sg) + u) == ApplySign(sg, ParseUnsigned(u))
  {
    var t := SignText(sg) + u;
    if sg == NoSign {
      assert t == u;
    } else {
      assert t[0] == (if sg == Minus then '-' else '+');
      assert t[1..] == u;
    }
  }

  /** The unsigned reader gives the value of a non-empty run of decimal
      digits, unless the run is a lone "0" that an "x" turns into a hex
      prefix. */
  lemma UnsignedDigits(ds: string, rest: string)
    requires ds != []
    requires forall i :: 0 <= i < |ds| ==> IsDecimalDigit(ds[i])
    requires rest == [] || !IsDecimalDigit(rest[0])
    requires ds == "0" && rest != [] ==> rest[0] != 'x' && rest[0] != 'X'
    ensures ParseUnsigned(ds + rest) == Some(DigitsValue(ds, 10))
  {
    var u := ds + rest;
    assert u[0] == ds[0];
    assert |u| >= 2 && u[0] == '0' ==> !(u[1] == 'x' || u[1] == 'X') by {
      if |u| >= 2 && u[0] == '0' {
        if |ds| >= 2 {
          assert u[1] == ds[1];
          assert IsDecimalDigit(ds[1]);
        } else {
          assert ds == "0";
          assert u[1] == rest[0];
        }
      }
    }
    DigitsThenText(ds, rest, 10);
    assert u[..|ds|] == ds;
  }

  /** The unsigned reader gives NaN when no decimal digit comes first. */
  lemma UnsignedNoDigit(rest: string)
    requires rest == [] || !IsDecimalDigit(rest[0])
    ensures ParseUnsigned(rest) == None
  {
    if rest != [] {
      assert DigitValue(rest[0]) >= 10;
      assert rest[0] != '0';
    }
  }

  /** parseInt on any text laid out as white space, an optional sign, a run
      of decimal digits (possibly empty) and text that does not extend the
      run: NaN exactly when the run is empty, and otherwise the signed value
      of the run, leading zeros and a "+" included. The run is not a lone
      "0" before an "x", which would start a hex number instead. */
  lemma ParseIntDecimal(ws: string, sg: Sign, ds: string, rest: string)
    requires forall i :: 0 <= i < |ws| ==> IsSpace(ws[i])
    requires forall i :: 0 <= i < |ds| ==> IsDecimalDigit(ds[i])
    requires rest == [] || !IsDecimalDigit(rest[0])
    requires ds == "0" && rest != [] ==> rest[0] != 'x' && rest[0] != 'X'
    requires sg == NoSign && ds == [] && rest != [] ==>
      !IsSpace(rest[0]) && rest[0] != '+' && rest[0] != '-'
    ensures ParseIntPrefix(ws + SignText(sg) + ds + rest) == RunValue(sg, ds)
  {
    var u := ds + rest;
    var t := SignText(sg) + u;
    assert ws + SignText(sg) + ds + rest == ws + t;
    assert t != [] ==> !IsSpace(t[0]) by {
      if t != [] && sg == NoSign {
        assert t[0] == u[0];
        if ds != [] {
          assert u[0] == ds[0];
        }
      }
    }
    SkipSpaces(ws, t);
    SignedRun(sg, ds, rest);
    assert ParseIntPrefix(ws + t) == RunValue(sg, ds);
  }

  /** The signed reader on a sign, a digit run and non-extending text. */
  lemma SignedRun(sg: Sign, ds: string, rest: string)
    requires forall i :: 0 <= i < |ds| ==> IsDecimalDigit(ds[i])
    requires rest == [] || !IsDecimalDigit(rest[0])
    requires ds == "0" && rest != [] ==> rest[0] != 'x' && rest[0] != 'X'
    requires sg == NoSign && ds == [] && rest != [] ==> rest[0] != '+' && rest[0] != '-'
    ensures ParseSigned(SignText(sg) + (ds + rest)) == RunValue(sg, ds)
  {
    var u := ds + rest;
    var r := if ds == [] then None else Some(DigitsValue(ds, 10));
    if ds != [] {
      assert u[0] == ds[0];
      assert IsDecimalDigit(ds[0]);
      UnsignedDigits(ds, rest);
    } else {
      assert u == rest;
      UnsignedNoDigit(rest);
    }
    assert ParseUnsigned(u) == r;
    SignThen(sg, u);
    assert ParseSigned(SignText(sg) + u) == ApplySign(sg, r);
  }

  /** parseInt skips the leading white space and reads a signed number. */
  lemma SkipSpaces(ws: string, t: string)
    requires forall i :: 0 <= i < |ws| ==> IsSpace(ws[i])
    requires t == [] || !IsSpace(t[0])
    ensures ParseIntPrefix(ws + t) == ParseSigned(t)
  {
    SpacesThenText(ws, t);
    assert (ws + t)[|ws|..] == t;
  }

  /** A "0x" or "0X" prefix with no hex digit after it is NaN, whatever
      follows. */
  lemma ParseIntEmptyHex(ws: string, sg: Sign, x: char, rest: string)
    requires forall i :: 0 <= i < |ws| ==> IsSpace(ws[i])
    requires x == 'x' || x == 'X'
    requires rest == [] || DigitValue(rest[0]) >= 16
    ensures ParseIntPrefix(ws + SignText(sg) + ['0', x] + rest) == None
  {
    var u := ['0', x] + rest;
    var t := SignText(sg) + u;
    assert ws + SignText(sg) + ['0', x] + rest == ws + t;
    assert t[0] == '0' || t[0] == '+' || t[0] == '-';
    SkipSpaces(ws, t);
    SignThen(sg, u);
    HexNoDigit(x, rest);
  }

  lemma HexNoDigit(x: char, rest: string)
    requires x == 'x' || x == 'X'
    requires rest == [] || DigitValue(rest[0]) >= 16
    ensures ParseUnsigned(['0', x] + rest) == None
  {
    var u := ['0', x] + rest;
    assert u[2..] == rest;
  }

  /** Round trip: parseInt reads back the decimal notation of any integer,
      after any leading white space and before any text that does not
      extend the number (a further digit, or an "x" right after a lone
      "0", which would make it a hex prefix). */
  lemma ParseDecimalRoundTrip(ws: string, n: int, rest: string)
    requires forall i :: 0 <= i < |ws| ==> IsSpace(ws[i])
    requires rest == [] || !IsDecimalDigit(rest[0])
    requires n == 0 && rest != [] ==> rest[0] != 'x' && rest[0] != 'X'
    ensures ParseIntPrefix(ws + IntToDecimal(n) + rest) == Some(n)
  {
    var sg := if n < 0 then Minus else NoSign;
    var ds := NatToDecimal(if n < 0 then -n else n);
    NotationParts(n);
    ParseIntDecimal(ws, sg, ds, rest);
    Regroup(ws, SignText(sg), ds, rest, IntToDecimal(n));
  }

  lemma Regroup(ws: string, a: string, b: string, rest: string, ab: string)
    requires ab == a + b
    ensures ws + ab + rest == ws + a + b + rest
  {
  }

  /** Decimal notation is a sign and a digit run that denote the number; the
      run is "0" only for zero. */
  lemma NotationParts(n: int)
    ensures var ds := NatToDecimal(if n < 0 then -n else n);
      && IntToDecimal(n) == SignText(if n < 0 then Minus else NoSign) + ds
      && (forall i :: 0 <= i < |ds| ==> IsDecimalDigit(ds[i]))
      && (ds == "0" ==> n == 0)
      && RunValue(if n < 0 then Minus else NoSign, ds) == Some(n)
  {
    var m: nat := if n < 0 then -n else n;
    var ds := NatToDecimal(m);
    NatToDecimalDigits(m);
    if ds == "0" {
      assert ds[0] == '0';
    }
  }

  /** "95abc" is read as 95: parseInt stops at the first non-digit. */
  lemma ParseTrailingText()
    ensures ParseIntPrefix("95abc") == Some(95)
  {
    var digits := IntToDecimal(95);
    assert digits == NatToDecimal(9) + [DecimalDigit(5)];
    assert digits == "95";
    ParseDecimalRoundTrip("", 95, "abc");
    assert "" + digits + "abc" == "95abc";
  }
}
