/** How a session reads one message from its participant: a case-insensitive
    "new game" asks for a rematch; anything else is taken as a move whose
    location is the decimal number written from index 2 onward (the first two
    characters are not part of the location). */
module Protocol {
  datatype Option<T> = None | Some(value: T)

  /** Why a message that is not a rematch request cannot be read as a move:
      it is shorter than two characters, so the text from index 2 does not
      exist; or that text is not a 32-bit decimal integer. */
  datatype Fault = SubstringOutOfRange | NumberFormat

  datatype Request = NewGame | Move(location: int) | Malformed(fault: Fault)

  const NEW_GAME: string := "new game"
  const INT_MIN: int := -0x8000_0000
  const INT_MAX: int := 0x7fff_ffff

  // ---------------------------------------------------------------------
  // Case-insensitive comparison.

  function ToLowerAscii(c: char): (lower: char) {
    if 'A' <= c <= 'Z' then (c as int - 'A' as int + 'a' as int) as char else c
  }

  /** Same length, and the characters agree position by position once
      upper-case letters are folded to lower case. */
  predicate EqualsIgnoreCase(s: string, t: string) {
    |s| == |t| && forall i :: 0 <= i < |s| ==> ToLowerAscii(s[i]) == ToLowerAscii(t[i])
  }

  // ---------------------------------------------------------------------
  // Decimal numbers.

  predicate IsDigit(c: char) {
    '0' <= c <= '9'
  }

  predicate AllDigits(s: string) {
    forall i :: 0 <= i < |s| ==> IsDigit(s[i])
  }

  function DigitValue(c: char): (d: nat)
    requires IsDigit(c)
    ensures d < 10
  {
    c as int - '0' as int
  }

  function DigitChar(d: nat): (c: char)
    requires d < 10
    ensures IsDigit(c) && DigitValue(c) == d
  {
    ('0' as int + d) as char
  }

  /** The value of a string of decimal digits, most significant first. */
  function DecimalValue(s: string): (n: nat)
    requires AllDigits(s)
  {
    if s == [] then 0 else 10 * DecimalValue(s[..|s| - 1]) + DigitValue(s[|s| - 1])
  }

  /** The shortest decimal rendering of `n`. */
  function ToDecimal(n: nat): (s: string)
    ensures |s| >= 1
    ensures AllDigits(s)
  {
    if n < 10 then [DigitChar(n)] else ToDecimal(n / 10) + [DigitChar(n % 10)]
  }

  /** Integer.parseInt on ASCII text: an optional '+' or '-', then one or more
      digits, and a value that fits in 32 bits; anything else is refused. */
  function ParseInt(s: string): (r: Option<int>)
    ensures r.Some? ==> INT_MIN <= r.value <= INT_MAX
    ensures r.Some? ==> |s| >= 1 && (IsDigit(s[0]) || s[0] == '+' || s[0] == '-')
    ensures r.Some? ==>
      |s| >= 1 &&
      var digits := if s[0] == '+' || s[0] == '-' then s[1..] else s;
      |digits| >= 1 && AllDigits(digits) &&
      r.value == (if s[0] == '-' then -(DecimalValue(digits) as int) else DecimalValue(digits))
  {
    if |s| == 0 then None
    else
      var signed := s[0] == '+' || s[0] == '-';
      var digits := if signed then s[1..] else s;
      if |digits| == 0 || !AllDigits(digits) then None
      else
        var n: int := DecimalValue(digits);
        var v := if s[0] == '-' then -n else n;
        if INT_MIN <= v <= INT_MAX then Some(v) else None
  }

  /** What the session loop makes of one message: the rematch test comes
      first; only then is the text from index 2 parsed as a location. */
  function Classify(message: string): (r: Request)
    ensures r == NewGame <==> EqualsIgnoreCase(message, NEW_GAME)
    ensures r == Malformed(SubstringOutOfRange) <==>
            !EqualsIgnoreCase(message, NEW_GAME) && |message| < 2
    ensures r.Move? ==> |message| >= 2 && ParseInt(message[2..]) == Some(r.location)
    ensures !EqualsIgnoreCase(message, NEW_GAME) && |message| >= 2 ==>
            (r.Move? <==> ParseInt(message[2..]).Some?)
    ensures r == Malformed(NumberFormat) <==>
            !EqualsIgnoreCase(message, NEW_GAME) && |message| >= 2 && ParseInt(message[2..]).None?
  {
    if EqualsIgnoreCase(message, NEW_GAME) then NewGame
    else if |message| < 2 then Malformed(SubstringOutOfRange)
    else
      match ParseInt(message[2..])
      case Some(v) => Move(v)
      case None => Malformed(NumberFormat)
  }

  // ---------------------------------------------------------------------
  // Properties.

  lemma {:induction false} DecimalRoundTrip(n: nat)
    ensures DecimalValue(ToDecimal(n)) == n
  {
    if n >= 10 {
      var s := ToDecimal(n);
      assert s[..|s| - 1] == ToDecimal(n / 10);
      DecimalRoundTrip(n / 10);
    }
  }

  /** Any 32-bit integer written in decimal, with a '-' when negative, is
      read back as itself. */
  lemma ParseIntRoundTrip(v: int)
    requires INT_MIN <= v <= INT_MAX
    ensures v >= 0 ==> ParseInt(ToDecimal(v)) == Some(v)
    ensures v < 0 ==> ParseInt("-" + ToDecimal(-v)) == Some(v)
  {
    if v >= 0 {
      DecimalRoundTrip(v);
    } else {
      var s := "-" + ToDecimal(-v);
      assert s[1..] == ToDecimal(-v);
      DecimalRoundTrip(-v);
    }
  }

  /** Conversely, an optional sign followed by one or more digits is
      accepted, leading zeros and an explicit '+' included, whenever its
      value fits in 32 bits. */
  lemma ParseIntAccepts(sign: string, digits: string)
    requires sign == "" || sign == "+" || sign == "-"
    requires |digits| >= 1 && AllDigits(digits)
    requires INT_MIN <= (if sign == "-" then -(DecimalValue(digits) as int) else DecimalValue(digits)) <= INT_MAX
    ensures ParseInt(sign + digits) ==
            Some(if sign == "-" then -(DecimalValue(digits) as int) else DecimalValue(digits))
  {
    var s := sign + digits;
    if sign == "" {
      assert s == digits;
      assert IsDigit(s[0]);
    } else if sign == "+" {
      assert s[0] == '+' && s[1..] == digits;
    } else {
      assert s[0] == '-' && s[1..] == digits;
    }
  }

  /** "+5" and "05" read as 5. */
  lemma ParseIntExamples()
    ensures ParseInt("+5") == Some(5)
    ensures ParseInt("05") == Some(5)
    ensures ParseInt("5a") == None
    ensures ParseInt("-") == None
  {
    ParseIntAccepts("+", "5");
    ParseIntAccepts("", "05");
    assert !IsDigit("5a"[1]);
  }

  /** A move message, a two-character prefix followed by a board location in
      decimal, is classified as a move to that location. */
  lemma MoveMessageRoundTrip(prefix: string, location: nat)
    requires |prefix| == 2 && location <= INT_MAX
    ensures Classify(prefix + ToDecimal(location)) == Move(location)
  {
    var message := prefix + ToDecimal(location);
    assert message[2..] == ToDecimal(location);
    ParseIntRoundTrip(location);
  }

  /** Every upper/lower-case spelling of "new game" is a rematch request. */
  lemma NewGameAnyCase(message: string)
    requires |message| == |NEW_GAME|
    requires forall i :: 0 <= i < |message| ==> message[i] == NEW_GAME[i] || ToLowerAscii(message[i]) == NEW_GAME[i]
    ensures Classify(message) == NewGame
  {
    forall i | 0 <= i < |message|
      ensures ToLowerAscii(message[i]) == ToLowerAscii(NEW_GAME[i])
    {
      assert ToLowerAscii(NEW_GAME[i]) == NEW_GAME[i];
    }
  }
}
