/**
  Range-checked decimal conversion in the manner of OpenBSD's `strtonum(numstr, minval, maxval, &errstr)`,
  which `platform_socket_activation` uses for both `$LISTEN_PID` and `$LISTEN_FDS`.

  This is an APPROXIMATION of strtonum, whose implementation is not part of this model. It follows the
  base-10 `strtoll` grammar in the "C" locale (leading white space, an optional sign, at least one
  decimal digit, nothing after the digits) and strtonum's order of verdicts: an empty range is
  "invalid", a malformed string is "invalid", a value below the range is "too small", a value above it
  is "too large". The handshake's model calls this function, so its outcomes follow this grammar. Its
  general property lemmas rely only on the contract of `ParseInRange`; the lemmas about a particular
  count or pid string also rely on `LexDecimal`, that is, on strtoll reading the canonical decimal form
  of `n` back as `n`.
 */
module StrToNum {
  import opened Wrappers

  /** The three `errstr` values strtonum can report. */
  datatype NumError = Invalid | TooSmall | TooLarge

  predicate IsDigit(c: char) {
    '0' <= c <= '9'
  }

  /** `isspace` in the "C" locale: space, and tab through carriage return. */
  predicate IsSpace(c: char) {
    c == ' ' || '\t' <= c <= '\r'
  }

  predicate AllDigits(s: string) {
    forall i :: 0 <= i < |s| ==> IsDigit(s[i])
  }

  function DigitValue(c: char): (d: nat)
    requires IsDigit(c)
    ensures d < 10
  {
    c as int - '0' as int
  }

  /** The number a run of decimal digits denotes (0 for the empty run), most significant digit first. */
  function ValueOf(ds: string): nat
    requires AllDigits(ds)
  {
    if ds == [] then 0 else ValueOf(ds[..|ds| - 1]) * 10 + DigitValue(ds[|ds| - 1])
  }

  /** `s` with its leading white space removed. */
  function SkipSpace(s: string): (t: string)
    ensures |t| <= |s| && t == s[|s| - |t|..]
    ensures t == [] || !IsSpace(t[0])
    ensures forall i :: 0 <= i < |s| - |t| ==> IsSpace(s[i])
  {
    if s != [] && IsSpace(s[0]) then SkipSpace(s[1..]) else s
  }

  /** The whole string read as a base-10 integer, or None when it is not one. */
  function Lex(s: string): Option<int> {
    var t := SkipSpace(s);
    if t != [] && (t[0] == '+' || t[0] == '-') then
      var ds := t[1..];
      if ds != [] && AllDigits(ds) then
        Some(if t[0] == '-' then -(ValueOf(ds) as int) else ValueOf(ds))
      else None
    else if t != [] && AllDigits(t) then Some(ValueOf(t))
    else None
  }

  /**
    Converts `s` to an integer in `[lo, hi]`. Every value returned lies in the range; every failure
    carries the verdict strtonum would give.
   */
  function ParseInRange(s: string, lo: int, hi: int): (r: Result<int, NumError>)
    ensures r.Success? ==> lo <= r.value <= hi && Lex(s) == Some(r.value)
    ensures r.Success? <==> lo <= hi && Lex(s).Some? && lo <= Lex(s).value <= hi
    ensures lo > hi ==> r == Failure(Invalid)
    ensures lo <= hi && Lex(s).None? ==> r == Failure(Invalid)
    ensures lo <= hi && Lex(s).Some? && Lex(s).value < lo ==> r == Failure(TooSmall)
    ensures lo <= hi && Lex(s).Some? && Lex(s).value > hi ==> r == Failure(TooLarge)
  {
    if lo > hi then Failure(Invalid)
    else match Lex(s)
      case None => Failure(Invalid)
      case Some(v) =>
        if v < lo then Failure(TooSmall)
        else if v > hi then Failure(TooLarge)
        else Success(v)
  }

  /** The canonical decimal digits of `n`, without leading zeros. */
  function Digits(n: nat): (s: string)
    ensures s != [] && AllDigits(s)
  {
    var d := ['0' + (n % 10) as char];
    if n < 10 then d else Digits(n / 10) + d
  }

  /** How a program would write `n` into the environment (`snprintf("%d")`). */
  function Decimal(n: int): (s: string)
    ensures s != [] && !IsSpace(s[0])
  {
    if n < 0 then "-" + Digits(-n) else Digits(n)
  }

  lemma {:induction false} ValueOfDigits(n: nat)
    ensures ValueOf(Digits(n)) == n
  {
    var d := ['0' + (n % 10) as char];
    if n >= 10 {
      var s := Digits(n / 10) + d;
      assert s[..|s| - 1] == Digits(n / 10);
      ValueOfDigits(n / 10);
    }
  }

  /** Lex is a left inverse of Decimal: what a program writes with "%d", strtonum reads back. */
  lemma LexDecimal(n: int)
    ensures Lex(Decimal(n)) == Some(n)
  {
    var s := Decimal(n);
    assert SkipSpace(s) == s;
    if n < 0 {
      assert s[1..] == Digits(-n);
      ValueOfDigits(-n);
    } else {
      ValueOfDigits(n);
    }
  }

  /**
    Round trip through the range check: the decimal form of `n` is accepted exactly when `n` lies in
    `[lo, hi]`, and is then read back as `n`; otherwise the verdict names the side it fell out on.
   */
  lemma ParseInRangeDecimal(n: int, lo: int, hi: int)
    ensures ParseInRange(Decimal(n), lo, hi) ==
      if lo > hi then Failure(Invalid)
      else if n < lo then Failure(TooSmall)
      else if n > hi then Failure(TooLarge)
      else Success(n)
  {
    LexDecimal(n);
  }
}
