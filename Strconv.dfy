/** The parts of Go's strconv that the decoder relies on and whose behaviour
    is fixed exactly: ParseBool, and ParseUint / ParseInt in base 10. */
module Strconv {
  import opened Types

  const TrueLiterals: set<string> := {"1", "t", "T", "TRUE", "true", "True"}
  const FalseLiterals: set<string> := {"0", "f", "F", "FALSE", "false", "False"}

  /** strconv.ParseBool. */
  function ParseBool(s: string): (r: Result<bool>)
    ensures r.Ok? <==> s in TrueLiterals + FalseLiterals
    ensures r.Ok? ==> (r.value <==> s in TrueLiterals)
    ensures r.Err? ==> r.error == NumError("ParseBool", s, ErrSyntax)
  {
    if s == "1" || s == "t" || s == "T" || s == "TRUE" || s == "true" || s == "True" then Ok(true)
    else if s == "0" || s == "f" || s == "F" || s == "FALSE" || s == "false" || s == "False" then Ok(false)
    else Err(NumError("ParseBool", s, ErrSyntax))
  }

  lemma ParseBoolSpec(s: string)
    ensures ParseBool(s) == Ok(true) <==> s in TrueLiterals
    ensures ParseBool(s) == Ok(false) <==> s in FalseLiterals
    ensures ParseBool(s).Err? <==> s !in TrueLiterals + FalseLiterals
    ensures ParseBool(s).Err? ==> ParseBool(s).error == NumError("ParseBool", s, ErrSyntax)
  {
  }

  predicate IsDigit(c: char) { '0' <= c <= '9' }

  function DigitValue(c: char): nat
    requires IsDigit(c)
  {
    (c as int) - ('0' as int)
  }

  predicate AllDigits(s: string) { forall i :: 0 <= i < |s| ==> IsDigit(s[i]) }

  /** What a decimal numeral denotes, read from its last digit backwards. */
  function DecimalValue(s: string): nat
    requires AllDigits(s)
  {
    if |s| == 0 then 0 else DecimalValue(s[..|s| - 1]) * 10 + DigitValue(s[|s| - 1])
  }

  /** Outcome of the digit loop of ParseUint. */
  datatype Scan = Scanned(n: nat) | Failed(kind: NumErrKind)

  /** The digit loop of strconv.ParseUint for base 10: left to right,
      a syntax error at the first character that is not a digit, a range
      error as soon as the accumulated value exceeds maxVal. (Go tests
      overflow of 64-bit arithmetic first; with unbounded integers that test
      is subsumed by the comparison with maxVal.) */
  function ScanDigits(s: string, i: nat, n: nat, maxVal: nat): (r: Scan)
    requires i <= |s| && n <= maxVal
    ensures r.Scanned? ==> r.n <= maxVal
    decreases |s| - i
  {
    if i == |s| then Scanned(n)
    else if !IsDigit(s[i]) then Failed(ErrSyntax)
    else
      var n1 := n * 10 + DigitValue(s[i]);
      if n1 > maxVal then Failed(ErrRange) else ScanDigits(s, i + 1, n1, maxVal)
  }

  /** ParseUint's scan: an empty text is a syntax error, otherwise the digit
      loop with the largest bitSize-bit value as its maximum. */
  function ScanUint(s: string, bitSize: Width): (r: Scan)
    ensures s == "" ==> r == Failed(ErrSyntax)
    ensures r.Scanned? ==> r.n <= MaxUnsigned(bitSize)
  {
    if s == "" then Failed(ErrSyntax) else ScanDigits(s, 0, 0, Pow2(bitSize) - 1)
  }

  /** The bounds of a bitSize-bit integer. */
  function MinSigned(bitSize: Width): int { -(HalfPow2(bitSize) as int) }
  function MaxSigned(bitSize: Width): int { HalfPow2(bitSize) - 1 }
  function MaxUnsigned(bitSize: Width): int { Pow2(bitSize) - 1 }

  /** strconv.ParseUint(s, 10, bitSize). */
  function ParseUint(s: string, bitSize: Width): (r: Result<nat>)
    ensures r.Ok? ==> r.value <= MaxUnsigned(bitSize)
  {
    match ScanUint(s, bitSize)
    case Scanned(n) => Ok(n)
    case Failed(k) => Err(NumError("ParseUint", s, k))
  }

  /** strconv.ParseInt(s, 10, bitSize): an optional sign, then the digit
      loop of ParseUint, whose range error is replaced by a signed range check. */
  function ParseInt(s: string, bitSize: Width): (r: Result<int>)
    ensures r.Ok? ==> MinSigned(bitSize) <= r.value <= MaxSigned(bitSize)
  {
    if s == "" then Err(NumError("ParseInt", s, ErrSyntax))
    else
      var neg := s[0] == '-';
      var digits := if s[0] == '+' || s[0] == '-' then s[1..] else s;
      match ScanUint(digits, bitSize)
      case Failed(ErrSyntax) => Err(NumError("ParseInt", s, ErrSyntax))
      case Failed(ErrRange) => SignedCheck(s, neg, Pow2(bitSize) - 1, bitSize)
      case Scanned(n) => SignedCheck(s, neg, n, bitSize)
  }

  /** ParseInt's signed range check on the magnitude un scanned from s. */
  function SignedCheck(s: string, neg: bool, un: nat, bitSize: Width): (r: Result<int>)
    ensures r.Ok? ==> MinSigned(bitSize) <= r.value <= MaxSigned(bitSize)
    ensures r.Ok? <==> (if neg then un <= -MinSigned(bitSize) else un <= MaxSigned(bitSize))
    ensures r.Ok? ==> r.value == (if neg then -(un as int) else un)
    ensures r.Err? ==> r.error == NumError("ParseInt", s, ErrRange)
  {
    var cutoff := HalfPow2(bitSize);
    if !neg && un >= cutoff then Err(NumError("ParseInt", s, ErrRange))
    else if neg && un > cutoff then Err(NumError("ParseInt", s, ErrRange))
    else Ok(if neg then -(un as int) else un)
  }

  /** The text after an optional leading sign. */
  function Unsigned(s: string): string
  {
    if |s| > 0 && (s[0] == '+' || s[0] == '-') then s[1..] else s
  }

  /** An optional '+' or '-' followed by one or more decimal digits. */
  predicate SignedNumeral(s: string)
  {
    |Unsigned(s)| > 0 && AllDigits(Unsigned(s))
  }

  function SignedValue(s: string): int
    requires SignedNumeral(s)
  {
    var v: int := DecimalValue(Unsigned(s));
    if s[0] == '-' then -v else v
  }

  /** A numeral's value is at least the value of each of its prefixes. */
  lemma {:induction false} PrefixValueLe(s: string, j: nat)
    requires AllDigits(s) && j <= |s|
    ensures AllDigits(s[..j]) && DecimalValue(s[..j]) <= DecimalValue(s)
  {
    if j < |s| {
      var t := s[..|s| - 1];
      assert AllDigits(t);
      PrefixValueLe(t, j);
      assert t[..j] == s[..j];
    } else {
      assert s[..j] == s;
    }
  }

  lemma {:induction false} ScanDigitsSpec(s: string, i: nat, maxVal: nat)
    requires i <= |s| && AllDigits(s[..i]) && DecimalValue(s[..i]) <= maxVal
    ensures var r := ScanDigits(s, i, DecimalValue(s[..i]), maxVal);
      && (r.Scanned? <==> AllDigits(s) && DecimalValue(s) <= maxVal)
      && (r.Scanned? ==> r.n == DecimalValue(s))
      && (AllDigits(s) && DecimalValue(s) > maxVal ==> r == Failed(ErrRange))
    decreases |s| - i
  {
    if i == |s| {
      assert s[..i] == s;
    } else if IsDigit(s[i]) {
      var u := s[..i + 1];
      assert u[..i] == s[..i] && u[i] == s[i];
      assert AllDigits(u);
      assert DecimalValue(u) == DecimalValue(s[..i]) * 10 + DigitValue(s[i]);
      if DecimalValue(u) > maxVal {
        if AllDigits(s) {
          PrefixValueLe(s, i + 1);
        }
      } else {
        ScanDigitsSpec(s, i + 1, maxVal);
      }
    }
  }

  lemma ScanUintSpec(s: string, bitSize: Width)
    ensures var r := ScanUint(s, bitSize);
      && (r.Scanned? <==> |s| > 0 && AllDigits(s) && DecimalValue(s) <= MaxUnsigned(bitSize))
      && (r.Scanned? ==> r.n == DecimalValue(s))
      && (|s| > 0 && AllDigits(s) && DecimalValue(s) > MaxUnsigned(bitSize) ==> r == Failed(ErrRange))
  {
    if s != "" {
      var m := Pow2(bitSize) - 1;
      assert s[..0] == "" && AllDigits(s[..0]) && DecimalValue(s[..0]) == 0;
      ScanDigitsSpec(s, 0, m);
    }
  }

  /** ParseUint succeeds exactly on a non-empty run of digits whose value
      fits in bitSize bits; a sign is rejected. A well-formed numeral that is
      too large is a range error; every error names ParseUint and the text. */
  lemma ParseUintSpec(s: string, bitSize: Width)
    ensures ParseUint(s, bitSize).Ok? <==> |s| > 0 && AllDigits(s) && DecimalValue(s) <= MaxUnsigned(bitSize)
    ensures ParseUint(s, bitSize).Ok? ==> ParseUint(s, bitSize).value == DecimalValue(s)
    ensures |s| > 0 && AllDigits(s) && DecimalValue(s) > MaxUnsigned(bitSize) ==>
      ParseUint(s, bitSize) == Err(NumError("ParseUint", s, ErrRange))
    ensures ParseUint(s, bitSize).Err? ==>
      ParseUint(s, bitSize).error.NumError? && ParseUint(s, bitSize).error.func == "ParseUint" && ParseUint(s, bitSize).error.num == s
  {
    ScanUintSpec(s, bitSize);
  }

  /** ParseInt succeeds exactly on an optional sign followed by one or more
      digits whose value lies in [-2^(w-1), 2^(w-1)-1]; a well-formed numeral
      outside that range is a range error; every error names ParseInt and the
      whole text. */
  lemma ParseIntSpec(s: string, bitSize: Width)
    ensures ParseInt(s, bitSize).Ok? <==>
      SignedNumeral(s) && MinSigned(bitSize) <= SignedValue(s) <= MaxSigned(bitSize)
    ensures ParseInt(s, bitSize).Ok? ==> SignedNumeral(s) && ParseInt(s, bitSize).value == SignedValue(s)
    ensures SignedNumeral(s) && !(MinSigned(bitSize) <= SignedValue(s) <= MaxSigned(bitSize)) ==>
      ParseInt(s, bitSize) == Err(NumError("ParseInt", s, ErrRange))
    ensures ParseInt(s, bitSize).Err? ==>
      ParseInt(s, bitSize).error.NumError? && ParseInt(s, bitSize).error.func == "ParseInt" && ParseInt(s, bitSize).error.num == s
  {
    if s != "" {
      match ScanUint(Unsigned(s), bitSize)
      case Failed(ErrSyntax) => ParseIntSyntax(s, bitSize);
      case Failed(ErrRange) => ParseIntRange(s, bitSize);
      case Scanned(n) => ParseIntScanned(s, bitSize);
    }
  }

  lemma ParseIntSyntax(s: string, bitSize: Width)
    requires s != "" && ScanUint(Unsigned(s), bitSize) == Failed(ErrSyntax)
    ensures !SignedNumeral(s) && ParseInt(s, bitSize) == Err(NumError("ParseInt", s, ErrSyntax))
  {
    ScanUintSpec(Unsigned(s), bitSize);
  }

  lemma ParseIntRange(s: string, bitSize: Width)
    requires s != "" && ScanUint(Unsigned(s), bitSize) == Failed(ErrRange)
    ensures ParseInt(s, bitSize) == Err(NumError("ParseInt", s, ErrRange))
    ensures SignedNumeral(s) ==> !(MinSigned(bitSize) <= SignedValue(s) <= MaxSigned(bitSize))
  {
    ScanUintSpec(Unsigned(s), bitSize);
  }

  lemma ParseIntScanned(s: string, bitSize: Width)
    requires s != "" && ScanUint(Unsigned(s), bitSize).Scanned?
    ensures SignedNumeral(s)
    ensures ParseInt(s, bitSize) == SignedCheck(s, s[0] == '-', DecimalValue(Unsigned(s)), bitSize)
  {
    ScanUintSpec(Unsigned(s), bitSize);
  }


  /** A character that is not a digit is met while the digits before it
      still denote a value within maxVal. */
  predicate SyntaxFirst(s: string, maxVal: int)
  {
    exists j :: 0 <= j < |s| && !IsDigit(s[j]) && AllDigits(s[..j]) && DecimalValue(s[..j]) <= maxVal
  }

  lemma {:induction false} ScanDigitsSyntax(s: string, i: nat, maxVal: nat)
    requires i <= |s| && AllDigits(s[..i]) && DecimalValue(s[..i]) <= maxVal
    ensures ScanDigits(s, i, DecimalValue(s[..i]), maxVal) == Failed(ErrSyntax) <==>
      exists j :: i <= j < |s| && !IsDigit(s[j]) && AllDigits(s[..j]) && DecimalValue(s[..j]) <= maxVal
    decreases |s| - i
  {
    if i < |s| && IsDigit(s[i]) {
      var u := s[..i + 1];
      assert u[..i] == s[..i] && u[i] == s[i];
      assert AllDigits(u);
      assert DecimalValue(u) == DecimalValue(s[..i]) * 10 + DigitValue(s[i]);
      if DecimalValue(u) > maxVal {
        forall j | i < j < |s| && AllDigits(s[..j])
          ensures DecimalValue(s[..j]) > maxVal
        {
          PrefixValueLe(s[..j], i + 1);
          assert s[..j][..i + 1] == u;
        }
      } else {
        ScanDigitsSyntax(s, i + 1, maxVal);
      }
    }
  }

  /** Which error a malformed text gets: a syntax error exactly when the text
      is empty or a non-digit comes before the running value exceeds the
      maximum; so "999x" into 8 bits is a range error and "1_0" a syntax
      error. ParseInt applies this to the text after its sign. */
  lemma ErrorKinds(s: string, bitSize: Width)
    ensures ParseUint(s, bitSize) == Err(NumError("ParseUint", s, ErrSyntax)) <==>
      s == "" || SyntaxFirst(s, MaxUnsigned(bitSize))
    ensures ParseInt(s, bitSize) == Err(NumError("ParseInt", s, ErrSyntax)) <==>
      Unsigned(s) == "" || SyntaxFirst(Unsigned(s), MaxUnsigned(bitSize))
  {
    ScanUintSyntax(s, bitSize);
    if s != "" {
      var u := Unsigned(s);
      assert u == (if s[0] == '+' || s[0] == '-' then s[1..] else s);
      ScanUintSyntax(u, bitSize);
    }
  }

  lemma ScanUintSyntax(s: string, bitSize: Width)
    ensures ScanUint(s, bitSize) == Failed(ErrSyntax) <==> s == "" || SyntaxFirst(s, MaxUnsigned(bitSize))
  {
    if s != "" {
      assert s[..0] == "" && AllDigits(s[..0]) && DecimalValue(s[..0]) == 0;
      ScanDigitsSyntax(s, 0, Pow2(bitSize) - 1);
    }
  }
}
