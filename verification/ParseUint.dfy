/** Parsing of unsigned integers with machine arithmetic on 64-bit words. */
module ParseUint {
  import opened Wrappers
  import opened Arithmetic

  const WORD := 0x1_0000_0000_0000_0000

  datatype Error = Syntax | Range | InvalidBase

  /** What a digit stands for in the largest base. */
  function Digit(d: char): (v: Option<nat>)
    ensures v.Some? ==> v.value < 36
  {
    if '0' <= d <= '9' then Some(d as int - '0' as int)
    else if 'a' <= d <= 'z' then Some(d as int - 'a' as int + 10)
    else if 'A' <= d <= 'Z' then Some(d as int - 'A' as int + 10)
    else None
  }

  predicate IsDigit(d: char, base: nat) {
    Digit(d).Some? && Digit(d).value < base
  }

  predicate AllDigits(s: string, base: nat) {
    forall i | 0 <= i < |s| :: IsDigit(s[i], base)
  }

  /** The number that a string of digits writes, unbounded. */
  function Value(s: string, base: nat): (n: nat)
    requires AllDigits(s, base)
  {
    if s == [] then 0 else Value(s[..|s| - 1], base) * base + Digit(s[|s| - 1]).value
  }

  function Power(b: nat, n: nat): nat {
    if n == 0 then 1 else b * Power(b, n - 1)
  }

  /** One shifted to the left in a word; the count is converted to an unsigned word first. */
  function OneShifted(count: int): nat {
    Power(2, count % WORD) % WORD
  }

  /** The largest value of `bitSize` bits, as the word arithmetic gives it. Zero stands for a machine word. */
  function MaxValue(bitSize: int): (max: nat)
    ensures max < WORD
  {
    (OneShifted(if bitSize == 0 then 64 else bitSize) + WORD - 1) % WORD
  }

  lemma {:induction false} PowerAtLeastOne(b: nat, n: nat)
    requires 1 <= b
    ensures 1 <= Power(b, n)
  {
    if 0 < n {
      PowerAtLeastOne(b, n - 1);
      MulOrder(1, b, Power(b, n - 1));
    }
  }

  lemma {:induction false} PowerOrder(m: nat, n: nat)
    requires m <= n
    ensures Power(2, m) <= Power(2, n)
  {
    if m < n { PowerOrder(m, n - 1); }
  }

  lemma PowerOf64()
    ensures Power(2, 64) == WORD
  {
    assert Power(2, 8) == 0x100;
    PowerSum(2, 8, 8);
    PowerSum(2, 16, 16);
    PowerSum(2, 32, 32);
  }

  /** Every size from 1 to 64 bits allows exactly the numbers below two to that power. */
  lemma MaxValueOfBits(bitSize: int)
    requires 1 <= bitSize <= 64
    ensures MaxValue(bitSize) == Power(2, bitSize) - 1
  {
    if bitSize == 64 {
      PowerOf64();
      MaxValueOfWord(64);
    } else {
      PowerFits(bitSize);
      MaxValueBelow(bitSize);
    }
  }

  lemma PowerFits(n: nat)
    requires n < 64
    ensures 1 <= Power(2, n) < WORD
  {
    hide Power;
    PowerOf64();
    PowerAtLeastOne(2, n);
    PowerOrder(n, 63);
    PowerSum(2, 1, 63);
    PowerOfOne(2);
  }

  lemma MaxValueBelow(bitSize: int)
    requires 0 < bitSize < 64 && 1 <= Power(2, bitSize) < WORD
    ensures MaxValue(bitSize) == Power(2, bitSize) - 1
  {
    hide Power;
  }

  /** Zero, and every size that shifts the one out of the word, allow every word. */
  lemma MaxValueOfWord(bitSize: int)
    requires bitSize == 0 || 64 <= bitSize % WORD
    ensures MaxValue(bitSize) == WORD - 1
  {
    hide Power;
    PowerOf64();
    if bitSize != 0 {
      var more := bitSize % WORD - 64;
      PowerSum(2, more, 64);
      DivideUnique(Power(2, more) * WORD, WORD, Power(2, more), 0);
    }
  }

  lemma PowerOfOne(b: nat)
    ensures Power(b, 1) == b
  {
    assert Power(b, 0) == 1;
  }

  lemma {:induction false} PowerSum(b: nat, m: nat, n: nat)
    ensures Power(b, m + n) == Power(b, m) * Power(b, n)
  {
    if 0 < m {
      PowerSum(b, m - 1, n);
      Associate(b, Power(b, m - 1), Power(b, n));
    }
  }

  // ---- The base ------------------------------------------------------------------------------------

  /** The base and the digits that remain: base 0 asks for a look at the prefix. */
  function Prefixed(s: string, base: int): Result<(nat, string), Error> {
    if s == "" then Err(Syntax)
    else if 2 <= base <= 36 then Ok((base, s))
    else if base != 0 then Err(InvalidBase)
    else if s[0] == '0' && 1 < |s| && (s[1] == 'x' || s[1] == 'X') then
      if |s| == 2 then Err(Syntax) else Ok((16, s[2..]))
    else if s[0] == '0' then Ok((8, s))
    else Ok((10, s))
  }

  lemma PrefixedShape(s: string, base: int)
    ensures Prefixed(s, base).Ok? ==> 2 <= Prefixed(s, base).value.0 <= 36 && Prefixed(s, base).value.1 != ""
  {
  }

  // ---- The result ----------------------------------------------------------------------------------

  /** A beginning of the digits is too large. */
  ghost predicate Exceeds(s: string, base: nat, max: nat) {
    exists k: nat | k <= |s| :: PrefixExceeds(s, base, max, k)
  }

  predicate PrefixExceeds(s: string, base: nat, max: nat, k: nat)
    requires k <= |s|
  {
    AllDigits(s[..k], base) && max < Value(s[..k], base)
  }

  /** What parsing promises: the value when it fits, a range error when a beginning of the digits is already
      too large, and otherwise a syntax error. */
  ghost function Parsed(s: string, base: int, bitSize: int): (r: Result<nat, Error>)
  {
    match Prefixed(s, base)
    case Err(e) => Err(e)
    case Ok((b, digits)) =>
      if Exceeds(digits, b, MaxValue(bitSize)) then Err(Range)
      else if AllDigits(digits, b) then Ok(Value(digits, b))
      else Err(Syntax)
  }

  /** More digits never make a number smaller. */
  lemma {:induction false} ValueGrows(s: string, base: nat, k: nat)
    requires AllDigits(s, base) && 1 <= base && k <= |s|
    ensures AllDigits(s[..k], base) && Value(s[..k], base) <= Value(s, base)
  {
    if k == |s| {
      assert s[..k] == s;
    } else {
      var t := s[..|s| - 1];
      ValueGrows(t, base, k);
      assert t[..k] == s[..k];
      var n := Value(t, base);
      MulOrder(1, base, n);
      assert n <= base * n == n * base <= Value(s, base);
    }
  }

  /** It succeeds exactly on a non-empty string of digits whose value fits, with that value. */
  lemma ParsedOkIff(s: string, base: int, bitSize: int, n: nat)
    ensures Parsed(s, base, bitSize) == Ok(n)
            <==> Prefixed(s, base).Ok?
                 && var (b, digits) := Prefixed(s, base).value;
                    digits != "" && AllDigits(digits, b) && n == Value(digits, b) && n <= MaxValue(bitSize)
  {
    PrefixedShape(s, base);
    if Prefixed(s, base).Ok? {
      var (b, digits) := Prefixed(s, base).value;
      if AllDigits(digits, b) { ExceedsIffTooLarge(digits, b, MaxValue(bitSize)); }
    }
  }

  lemma ExceedsIffTooLarge(s: string, base: nat, max: nat)
    requires AllDigits(s, base) && 1 <= base
    ensures Exceeds(s, base, max) <==> max < Value(s, base)
  {
    if k: nat :| k <= |s| && PrefixExceeds(s, base, max, k) {
      ValueGrows(s, base, k);
    }
    assert s[..|s|] == s;
    if max < Value(s, base) { assert PrefixExceeds(s, base, max, |s|); }
  }

  // ---- Digits and prefixes -------------------------------------------------------------------------

  const LOWER := "0123456789abcdefghijklmnopqrstuvwxyz"
  const UPPER := "0123456789ABCDEFGHIJKLMNOPQRSTUVWXYZ"

  /** The digits are the ten figures and then the letters in the order of the alphabet, in either case. */
  lemma DigitIff(c: char, v: nat)
    ensures Digit(c) == Some(v) <==> v < 36 && (c == LOWER[v] || c == UPPER[v])
  {
    if v < 36 { Alphabet(v); }
  }

  lemma Alphabet(v: nat)
    requires v < 36
    ensures v < 10 ==> LOWER[v] as int == '0' as int + v && UPPER[v] == LOWER[v]
    ensures 10 <= v ==> LOWER[v] as int == 'a' as int + v - 10 && UPPER[v] as int == 'A' as int + v - 10
  {
  }

  /** Base zero is base 16 after `0x` or `0X`, base 8 after another `0`, which counts as a digit, and base 10
      otherwise. Every other base has to be from 2 to 36; the empty string is no number in any. */
  lemma BaseZero(t: string, bitSize: int)
    ensures Parsed("", 0, bitSize) == Err(Syntax)
    ensures forall x | x == "0x" || x == "0X" ::
              Parsed(x + t, 0, bitSize) == if t == "" then Err(Syntax) else Parsed(t, 16, bitSize)
    ensures t == "" || (t[0] != 'x' && t[0] != 'X') ==> Parsed("0" + t, 0, bitSize) == Parsed("0" + t, 8, bitSize)
    ensures t != "" && t[0] != '0' ==> Parsed(t, 0, bitSize) == Parsed(t, 10, bitSize)
    ensures forall base | base != 0 && (base < 2 || 36 < base) ::
              Parsed(t, base, bitSize) == if t == "" then Err(Syntax) else Err(InvalidBase)
  {
    hide AllDigits, Value, Exceeds, MaxValue;
    forall x | x == "0x" || x == "0X" ensures (x + t)[2..] == t { }
  }

  // ---- The algorithm -------------------------------------------------------------------------------

  function Cutoff(base: nat): nat {
    if base < 2 then 0 else (WORD - 1) / base + 1
  }

  /** The first number whose product with the base leaves the word. */
  lemma CutoffIff(base: nat, n: nat)
    requires 2 <= base
    ensures Cutoff(base) <= n <==> WORD <= n * base
  {
    var q := (WORD - 1) / base;
    assert q * base <= WORD - 1 < (q + 1) * base;
    MulOrder(n, q, base);
    MulOrder(q + 1, n, base);
  }

  lemma NextDigit(s: string, base: nat, i: nat)
    requires i < |s| && AllDigits(s[..i], base) && IsDigit(s[i], base)
    ensures AllDigits(s[..i + 1], base) && Value(s[..i + 1], base) == Value(s[..i], base) * base + Digit(s[i]).value
  {
    assert s[..i + 1][..i] == s[..i];
    assert s[..i + 1] == s[..i] + [s[i]];
  }

  /** A bad digit decides before anything after it is looked at. */
  lemma BadDigit(s: string, base: nat, max: nat, i: nat)
    requires i < |s| && !IsDigit(s[i], base) && 1 <= base && AllDigits(s[..i], base) && Value(s[..i], base) <= max
    ensures !Exceeds(s, base, max) && !AllDigits(s, base)
  {
    forall k: nat | k <= |s| ensures !PrefixExceeds(s, base, max, k) {
      NotYet(s, base, max, i, k);
    }
  }

  lemma NotYet(s: string, base: nat, max: nat, i: nat, k: nat)
    requires i < |s| && !IsDigit(s[i], base) && 1 <= base && AllDigits(s[..i], base) && Value(s[..i], base) <= max
             && k <= |s|
    ensures !PrefixExceeds(s, base, max, k)
  {
    if k <= i {
      ValueGrows(s[..i], base, k);
      assert s[..i][..k] == s[..k];
    } else {
      assert s[..k][i] == s[i];
    }
  }

  /** One round of the loop in machine arithmetic: it leaves the word, or passes the maximum, exactly when the
      exact number does. */
  lemma RoundIsExact(n: nat, base: nat, v: nat, max: nat)
    requires 2 <= base && v < base && base <= 36 && n <= max < WORD
    ensures Cutoff(base) <= n ==> max < n * base + v
    ensures n < Cutoff(base) ==>
              var p := n * base % WORD;
              var n1 := (p + v) % WORD;
              (n1 < p || max < n1 <==> max < n * base + v) && (n * base + v <= max ==> n1 == n * base + v)
  {
    CutoffIff(base, n);
    if n < Cutoff(base) { WordAdd(n * base, v, max); }
  }

  lemma WordAdd(x: nat, v: nat, max: nat)
    requires x < WORD && v < 36 && max < WORD
    ensures var p := x % WORD;
            var n1 := (p + v) % WORD;
            p == x && (n1 < p || max < n1 <==> max < x + v) && (x + v <= max ==> n1 == x + v)
  {
  }

  method Parse(s: string, base: int, bitSize: int) returns (n: nat, error: Option<Error>)
    ensures Parsed(s, base, bitSize) == if error.None? then Ok(n) else Err(error.value)
    ensures error.Some? ==> n == if error == Some(Range) then WORD - 1 else 0
  {
    if |s| < 1 { return 0, Some(Syntax); }
    var b, t := base, s;
    if base == 0 {
      if s[0] == '0' && |s| > 1 && (s[1] == 'x' || s[1] == 'X') {
        b, t := 16, s[2..];
        if |t| < 1 { return 0, Some(Syntax); }
      } else if s[0] == '0' {
        b := 8;
      } else {
        b := 10;
      }
    } else if !(2 <= base <= 36) {
      return 0, Some(InvalidBase);
    }
    assert Prefixed(s, base) == Ok((b, t));
    n, error := ParseDigits(t, b, MaxValue(bitSize));
  }

  method ParseDigits(s: string, base: nat, maxVal: nat) returns (n: nat, error: Option<Error>)
    requires 2 <= base <= 36 && maxVal < WORD
    ensures error.None? <==> AllDigits(s, base) && !Exceeds(s, base, maxVal)
    ensures error.None? ==> n == Value(s, base)
    ensures Exceeds(s, base, maxVal) <==> error == Some(Range) && n == WORD - 1
    ensures !Exceeds(s, base, maxVal) && !AllDigits(s, base) <==> error == Some(Syntax) && n == 0
  {
    hide AllDigits, Value, Exceeds, Digit, Cutoff;
    NoDigits(base);
    n := 0;
    var cutoff := Cutoff(base);
    for i := 0 to |s|
      invariant AllDigits(s[..i], base) && n == Value(s[..i], base) <= maxVal
    {
      var d := Digit(s[i]);
      if d.None? || base <= d.value {
        BadDigit(s, base, maxVal, i);
        return 0, Some(Syntax);
      }
      NextDigit(s, base, i);
      RoundIsExact(n, base, d.value, maxVal);
      if cutoff <= n {
        TooLarge(s, base, maxVal, i + 1);
        return WORD - 1, Some(Range);
      }
      n := n * base % WORD;
      var n1 := (n + d.value) % WORD;
      if n1 < n || maxVal < n1 {
        TooLarge(s, base, maxVal, i + 1);
        return WORD - 1, Some(Range);
      }
      n := n1;
    }
    assert s[..|s|] == s;
    ExceedsIffTooLarge(s, base, maxVal);
    error := None;
  }

  lemma NoDigits(base: nat)
    ensures AllDigits("", base) && Value("", base) == 0
  {
  }

  lemma TooLarge(s: string, base: nat, max: nat, k: nat)
    requires k <= |s| && AllDigits(s[..k], base) && max < Value(s[..k], base)
    ensures Exceeds(s, base, max)
  {
    assert PrefixExceeds(s, base, max, k);
  }
}
