/** The speed selection of SetTTYParams: the bit-rate part of a serial
    connection descriptor, parsed with atoi() and checked against a closed
    whitelist of termios speeds. */
module Speed {
  import opened Wrappers
  import opened Text

  /** The termios speed constants the streamer can configure. */
  datatype Baud = B9600 | B19200 | B38400 | B57600 | B115200 | B230400 | B460800

  /** The bit rate, in bits per second, that a speed constant stands for. */
  function Rate(b: Baud): nat {
    match b
    case B9600 => 9600
    case B19200 => 19200
    case B38400 => 38400
    case B57600 => 57600
    case B115200 => 115200
    case B230400 => 230400
    case B460800 => 460800
  }

  /** The whitelist of accepted rates. */
  const Rates: set<int> := {9600, 19200, 38400, 57600, 115200, 230400, 460800}

  /** The speed used when the descriptor names none. */
  const DefaultBaud: Baud := B115200

  /** The `switch (speed_number)` of SetTTYParams: a whitelisted number
      selects its speed constant, every other number is refused. */
  function BaudOf(n: int): (r: Option<Baud>)
    ensures r.Some? <==> n in Rates
    ensures r.Some? ==> Rate(r.value) == n
  {
    if n == 9600 then Some(B9600)
    else if n == 19200 then Some(B19200)
    else if n == 38400 then Some(B38400)
    else if n == 57600 then Some(B57600)
    else if n == 115200 then Some(B115200)
    else if n == 230400 then Some(B230400)
    else if n == 460800 then Some(B460800)
    else None
  }

  /** Every speed constant is selected by its own rate, so the whitelist and
      the constants are in one-to-one correspondence. */
  lemma BaudOfRate(b: Baud)
    ensures BaudOf(Rate(b)) == Some(b)
  {
  }

  // ---------------------------------------------------------------------
  // atoi(), as glibc defines it: (int) strtol(s, NULL, 10) on a 64-bit long.

  const LongMax: int := 0x7FFF_FFFF_FFFF_FFFF
  const LongMin: int := -0x8000_0000_0000_0000
  const IntMax: int := 0x7FFF_FFFF

  function DigitValue(c: char): nat
    requires IsDigit(c)
  {
    (c as int) - ('0' as int)
  }

  /** The leading white space that strtol skips is dropped. */
  function SkipSpaces(s: string): (r: string)
    ensures |r| <= |s| && r == s[|s| - |r|..]
    ensures r == [] || !IsSpace(r[0])
    ensures forall i :: 0 <= i < |s| - |r| ==> IsSpace(s[i])
  {
    if s != [] && IsSpace(s[0]) then SkipSpaces(s[1..]) else s
  }

  /** The longest prefix of decimal digits. */
  function LeadingDigits(s: string): (r: string)
    ensures r <= s
    ensures forall i :: 0 <= i < |r| ==> IsDigit(r[i])
    ensures |r| == |s| || !IsDigit(s[|r|])
  {
    if s != [] && IsDigit(s[0]) then [s[0]] + LeadingDigits(s[1..]) else []
  }

  /** The number a string of decimal digits denotes. */
  function DigitsValue(d: string): nat
    requires forall i :: 0 <= i < |d| ==> IsDigit(d[i])
  {
    if d == [] then 0 else 10 * DigitsValue(d[..|d| - 1]) + DigitValue(d[|d| - 1])
  }

  /** strtol(s, NULL, 10): white space, an optional sign, the longest run of
      digits (none reads as 0); a value outside the range of a 64-bit long
      saturates at LONG_MAX or LONG_MIN. */
  function Strtol(s: string): (r: int)
    ensures LongMin <= r <= LongMax
  {
    var t := SkipSpaces(s);
    var negative := t != [] && t[0] == '-';
    var unsigned := if t != [] && (t[0] == '-' || t[0] == '+') then t[1..] else t;
    var m: int := DigitsValue(LeadingDigits(unsigned));
    var v := if negative then -m else m;
    if v > LongMax then LongMax else if v < LongMin then LongMin else v
  }

  /** Conversion of a long to a 32-bit int: the low 32 bits, read as a
      two's-complement number. */
  function ToInt32(x: int): (r: int)
    ensures -0x8000_0000 <= r <= IntMax
    ensures -0x8000_0000 <= x <= IntMax ==> r == x
  {
    (x + 0x8000_0000) % 0x1_0000_0000 - 0x8000_0000
  }

  function Atoi(s: string): (r: int)
    ensures -0x8000_0000 <= r <= IntMax
  {
    ToInt32(Strtol(s))
  }

  /** The decimal notation of a natural number, without leading zeros. */
  function DecimalString(n: nat): (r: string)
    ensures r != [] && IsDigit(r[0])
    ensures forall i :: 0 <= i < |r| ==> IsDigit(r[i])
  {
    var last := ('0' as int + n % 10) as char;
    if n < 10 then [last] else DecimalString(n / 10) + [last]
  }

  /** Reading a decimal notation gives back the number. */
  lemma {:induction false} DigitsValueOfDecimal(n: nat)
    ensures DigitsValue(DecimalString(n)) == n
  {
    var d := DecimalString(n);
    if n >= 10 {
      assert d[..|d| - 1] == DecimalString(n / 10);
      DigitsValueOfDecimal(n / 10);
    }
  }

  /** strtol() of a non-empty run of digits is the number they denote,
      saturated at LONG_MAX. */
  lemma StrtolOfDigits(d: string)
    requires d != [] && forall i :: 0 <= i < |d| ==> IsDigit(d[i])
    ensures Strtol(d) == if DigitsValue(d) > LongMax then LongMax else DigitsValue(d)
  {
    NoSpacesToSkip(d);
    AllLeadingDigits(d);
  }

  /** strtol() of white space, an optional sign, a run of digits and then
      anything that is not a digit: the signed value of the digits,
      saturated at LONG_MAX above and at LONG_MIN below. */
  lemma StrtolOf(spaces: string, sign: string, d: string, rest: string)
    requires forall i :: 0 <= i < |spaces| ==> IsSpace(spaces[i])
    requires sign == "" || sign == "+" || sign == "-"
    requires d != [] && forall i :: 0 <= i < |d| ==> IsDigit(d[i])
    requires rest == [] || !IsDigit(rest[0])
    ensures var m: int := DigitsValue(d);
      var v := if sign == "-" then -m else m;
      var r := Strtol(spaces + sign + d + rest);
      && (v > LongMax ==> r == LongMax)
      && (v < LongMin ==> r == LongMin)
      && (LongMin <= v <= LongMax ==> r == v)
  {
    if sign == "" {
      DropEmpty(spaces, sign, d, rest);
      StrtolOfUnsigned(spaces, d, rest);
    } else {
      SingleSign(spaces, sign, d, rest);
      StrtolOfSigned(spaces, sign[0], d, rest);
    }
  }

  /** strtol() of white space and an optional sign that no digit follows:
      no number is read, which gives 0. */
  lemma StrtolWithoutDigits(spaces: string, sign: string, rest: string)
    requires forall i :: 0 <= i < |spaces| ==> IsSpace(spaces[i])
    requires sign == "" || sign == "+" || sign == "-"
    requires rest == [] || !IsDigit(rest[0])
    requires sign == "" ==> rest == [] || (!IsSpace(rest[0]) && rest[0] != '+' && rest[0] != '-')
    ensures Strtol(spaces + sign + rest) == 0
  {
    Associate(spaces, sign, rest);
    StrtolAfterSpacesWithoutDigits(spaces + (sign + rest), spaces, sign, rest);
  }

  lemma StrtolAfterSpacesWithoutDigits(s: string, spaces: string, sign: string, rest: string)
    requires s == spaces + (sign + rest)
    requires forall i :: 0 <= i < |spaces| ==> IsSpace(spaces[i])
    requires sign == "" || sign == "+" || sign == "-"
    requires rest == [] || !IsDigit(rest[0])
    requires sign == "" ==> rest == [] || (!IsSpace(rest[0]) && rest[0] != '+' && rest[0] != '-')
    ensures Strtol(s) == 0
  {
    var t := sign + rest;
    SkipSpacesOf(spaces, t);
    if sign == "" {
      assert t == rest;
    } else {
      assert t[1..] == rest;
    }
  }

  lemma StrtolOfUnsigned(spaces: string, d: string, rest: string)
    requires forall i :: 0 <= i < |spaces| ==> IsSpace(spaces[i])
    requires d != [] && forall i :: 0 <= i < |d| ==> IsDigit(d[i])
    requires rest == [] || !IsDigit(rest[0])
    ensures var m: int := DigitsValue(d);
      Strtol(spaces + d + rest) == if m > LongMax then LongMax else m
  {
    Associate(spaces, d, rest);
    StrtolAfterSpaces(spaces + (d + rest), spaces, d + rest, d, rest);
  }

  lemma StrtolAfterSpaces(s: string, spaces: string, u: string, d: string, rest: string)
    requires s == spaces + u && u == d + rest
    requires forall i :: 0 <= i < |spaces| ==> IsSpace(spaces[i])
    requires d != [] && forall i :: 0 <= i < |d| ==> IsDigit(d[i])
    requires rest == [] || !IsDigit(rest[0])
    ensures var m: int := DigitsValue(d);
      Strtol(s) == if m > LongMax then LongMax else m
  {
    LeadingDigitsOf(d, rest);
    SkipSpacesOf(spaces, u);
    StrtolUnsigned(s, u, d);
  }

  lemma StrtolOfSigned(spaces: string, c: char, d: string, rest: string)
    requires forall i :: 0 <= i < |spaces| ==> IsSpace(spaces[i])
    requires c == '-' || c == '+'
    requires d != [] && forall i :: 0 <= i < |d| ==> IsDigit(d[i])
    requires rest == [] || !IsDigit(rest[0])
    ensures var m: int := DigitsValue(d);
      var v := if c == '-' then -m else m;
      Strtol(spaces + [c] + d + rest) == if v > LongMax then LongMax else if v < LongMin then LongMin else v
  {
    Regroup(spaces, [c], d, rest);
    StrtolAfterSign(spaces + ([c] + (d + rest)), spaces, c, d + rest, d, rest);
  }

  lemma StrtolAfterSign(s: string, spaces: string, c: char, u: string, d: string, rest: string)
    requires s == spaces + ([c] + u) && u == d + rest
    requires forall i :: 0 <= i < |spaces| ==> IsSpace(spaces[i])
    requires c == '-' || c == '+'
    requires d != [] && forall i :: 0 <= i < |d| ==> IsDigit(d[i])
    requires rest == [] || !IsDigit(rest[0])
    ensures var m: int := DigitsValue(d);
      var v := if c == '-' then -m else m;
      Strtol(s) == if v > LongMax then LongMax else if v < LongMin then LongMin else v
  {
    LeadingDigitsOf(d, rest);
    SkipSpacesOf(spaces, [c] + u);
    StrtolSigned(s, c, u, d);
  }

  lemma Associate<T>(a: seq<T>, b: seq<T>, c: seq<T>)
    ensures a + b + c == a + (b + c)
  {
  }

  lemma Regroup<T>(a: seq<T>, b: seq<T>, c: seq<T>, d: seq<T>)
    ensures a + b + c + d == a + (b + (c + d))
  {
  }

  lemma DropEmpty<T>(a: seq<T>, e: seq<T>, b: seq<T>, c: seq<T>)
    requires e == []
    ensures a + e + b + c == a + b + c
  {
  }

  lemma SingleSign<T>(a: seq<T>, e: seq<T>, b: seq<T>, c: seq<T>)
    requires |e| == 1
    ensures a + e + b + c == a + [e[0]] + b + c
  {
    assert e == [e[0]];
  }

  /** The two ways strtol() reads what is left after the white space. */
  lemma StrtolUnsigned(s: string, t: string, digits: string)
    requires SkipSpaces(s) == t && t != [] && IsDigit(t[0])
    requires LeadingDigits(t) == digits
    ensures var v: int := DigitsValue(digits);
      Strtol(s) == if v > LongMax then LongMax else v
  {
  }

  lemma StrtolSigned(s: string, c: char, t: string, digits: string)
    requires c == '-' || c == '+'
    requires SkipSpaces(s) == [c] + t
    requires LeadingDigits(t) == digits
    ensures var m: int := DigitsValue(digits);
      var v := if c == '-' then -m else m;
      Strtol(s) == if v > LongMax then LongMax else if v < LongMin then LongMin else v
  {
    assert ([c] + t)[1..] == t;
  }

  lemma {:induction false} SkipSpacesOf(spaces: string, t: string)
    requires forall i :: 0 <= i < |spaces| ==> IsSpace(spaces[i])
    requires t == [] || !IsSpace(t[0])
    ensures SkipSpaces(spaces + t) == t
  {
    if spaces == [] {
      assert spaces + t == t;
    } else {
      assert (spaces + t)[1..] == spaces[1..] + t;
      SkipSpacesOf(spaces[1..], t);
    }
  }

  lemma {:induction false} LeadingDigitsOf(d: string, rest: string)
    requires forall i :: 0 <= i < |d| ==> IsDigit(d[i])
    requires rest == [] || !IsDigit(rest[0])
    ensures LeadingDigits(d + rest) == d
  {
    if d == [] {
      assert d + rest == rest;
    } else {
      assert (d + rest)[1..] == d[1..] + rest;
      LeadingDigitsOf(d[1..], rest);
      assert [d[0]] + d[1..] == d;
    }
  }

  lemma NoSpacesToSkip(d: string)
    requires d != [] && IsDigit(d[0])
    ensures SkipSpaces(d) == d
  {
  }

  lemma AllLeadingDigits(d: string)
    requires forall i :: 0 <= i < |d| ==> IsDigit(d[i])
    ensures LeadingDigits(d) == d
  {
  }

  /** atoi() of a decimal notation that a long can hold is that number cut
      to 32 bits. */
  lemma AtoiOfDecimalWraps(n: nat)
    requires n <= LongMax
    ensures Atoi(DecimalString(n)) == ToInt32(n)
  {
    StrtolOfDigits(DecimalString(n));
    DigitsValueOfDecimal(n);
  }

  /** atoi() gives back every number an int can hold from its decimal notation. */
  lemma AtoiOfDecimal(n: nat)
    requires n <= IntMax
    ensures Atoi(DecimalString(n)) == n
  {
    AtoiOfDecimalWraps(n);
  }

  // ---------------------------------------------------------------------
  // The speed part of SetTTYParams (machine-connection.cc:18-39).

  /** One leading 'b' or 'B' is dropped from the parameters. */
  function StripRatePrefix(params: string): string {
    if params != [] && (params[0] == 'b' || params[0] == 'B') then params[1..] else params
  }

  /** The speed the parameters ask for, or None when SetTTYParams refuses
      them: nothing after the optional 'b' means 115200; otherwise atoi() of
      the rest must be one of the whitelisted rates, and that rate is used. */
  function SelectSpeed(params: string): (r: Option<Baud>)
    ensures StripRatePrefix(params) == [] ==> r == Some(DefaultBaud)
    ensures StripRatePrefix(params) != [] ==>
              (r.Some? <==> Atoi(StripRatePrefix(params)) in Rates)
    ensures StripRatePrefix(params) != [] && r.Some? ==>
              Rate(r.value) == Atoi(StripRatePrefix(params))
  {
    var digits := StripRatePrefix(params);
    if digits == [] then Some(DefaultBaud) else BaudOf(Atoi(digits))
  }

  /** No parameters, or only the 'b', select 115200. */
  lemma DefaultSpeed()
    ensures SelectSpeed("") == Some(B115200)
    ensures SelectSpeed("b") == Some(B115200)
    ensures SelectSpeed("B") == Some(B115200)
  {
  }

  /** Each whitelisted rate is accepted, with or without the 'b' or 'B',
      and selects its own speed constant. */
  lemma WhitelistAccepted(b: Baud)
    ensures SelectSpeed(DecimalString(Rate(b))) == Some(b)
    ensures SelectSpeed("b" + DecimalString(Rate(b))) == Some(b)
    ensures SelectSpeed("B" + DecimalString(Rate(b))) == Some(b)
  {
    DecimalRateSelected(Rate(b));
    BaudOfRate(b);
  }

  /** A decimal number, with or without the 'b' or 'B', selects what the
      whitelist says of it. */
  lemma DecimalRateSelected(n: nat)
    requires n <= IntMax
    ensures SelectSpeed(DecimalString(n)) == BaudOf(n)
    ensures SelectSpeed("b" + DecimalString(n)) == BaudOf(n)
    ensures SelectSpeed("B" + DecimalString(n)) == BaudOf(n)
  {
    AtoiOfDecimal(n);
    DigitsSelected(DecimalString(n));
  }

  /** A digit string selects what atoi() makes of it, with or without the
      'b' or 'B'. */
  lemma DigitsSelected(d: string)
    requires d != [] && IsDigit(d[0])
    ensures SelectSpeed(d) == BaudOf(Atoi(d))
    ensures SelectSpeed(['b'] + d) == BaudOf(Atoi(d))
    ensures SelectSpeed(['B'] + d) == BaudOf(Atoi(d))
  {
    PrefixStripped(d, 'b');
    PrefixStripped(d, 'B');
  }

  lemma PrefixStripped(d: string, b: char)
    requires d != [] && IsDigit(d[0]) && (b == 'b' || b == 'B')
    ensures StripRatePrefix(d) == d && StripRatePrefix([b] + d) == d
  {
    assert ([b] + d)[1..] == d;
  }

  /** A well-formed number outside the whitelist, such as 12345, is refused
      with or without the 'b'. */
  lemma OffListRateRefused(n: nat)
    requires n <= IntMax && n !in Rates
    ensures SelectSpeed(DecimalString(n)) == None
    ensures SelectSpeed("b" + DecimalString(n)) == None
  {
    DecimalRateSelected(n);
  }

  lemma Refuses12345()
    ensures SelectSpeed(DecimalString(12345)) == None
  {
    OffListRateRefused(12345);
  }

  /** Past the range of an int, atoi() wraps: the rate 4294976896
      (2^32 + 9600) is taken for 9600. */
  lemma WrappedRateAccepted(n: nat)
    requires n == 0x1_0000_2580
    ensures SelectSpeed(DecimalString(n)) == Some(B9600)
  {
    WrapsToRate(n);
    WrappedDecimalSelected(n);
  }

  lemma WrapsToRate(n: int)
    requires n == 0x1_0000_2580
    ensures ToInt32(n) == 9600
  {
    assert n + 0x8000_0000 == 0x1_0000_0000 + 0x8000_2580;
  }

  lemma WrappedDecimalSelected(n: nat)
    requires n <= LongMax
    ensures SelectSpeed(DecimalString(n)) == BaudOf(ToInt32(n))
  {
    AtoiOfDecimalWraps(n);
    DigitsSelected(DecimalString(n));
  }
}
