/**
 * Go's `strconv.ParseUint` for an explicit base (2 to 36) and bit size
 * (1 to 64), and `strconv.FormatUint`, as the address parsers use them.
 *
 * ParseUint reads the digits from left to right. An empty string, a
 * character that is not a digit of the base (a sign, an underscore, a
 * space), is a syntax error; a running value above the largest value of the
 * bit size is a range error, and whichever of the two is met first is the
 * one reported. Letters are digits 10 to 35 in either case. Go's separate
 * test that `n * base` would leave 64 bits is implied here by the test
 * against the bit size's maximum, because integers are unbounded.
 */
module Strconv {
  import opened Wrappers
  import opened Strings

  datatype ErrKind = ErrSyntax | ErrRange

  /** strconv.NumError: the input that failed and why. */
  datatype NumError = NumError(num: string, err: ErrKind)

  /** The value of a digit character, or -1 for a character that is none. */
  function DigitVal(c: char): int {
    if '0' <= c <= '9' then c as int - '0' as int
    else if 'a' <= c <= 'z' then c as int - 'a' as int + 10
    else if 'A' <= c <= 'Z' then c as int - 'A' as int + 10
    else -1
  }

  predicate IsDigit(c: char, base: nat) {
    0 <= DigitVal(c) < base
  }

  predicate AllDigits(s: string, base: nat) {
    forall i :: 0 <= i < |s| ==> IsDigit(s[i], base)
  }

  /** The positional value of a digit string, least significant digit last. */
  function Value(s: string, base: nat): nat
    requires AllDigits(s, base)
  {
    if s == [] then 0 else Value(s[..|s| - 1], base) * base + DigitVal(s[|s| - 1])
  }

  /**
   * The largest unsigned integer of the given bit size, 2^bitSize - 1: an
   * even size squares the bound of half the size, an odd one doubles the
   * bound of one bit less.
   */
  function MaxUint(bitSize: nat): nat {
    if bitSize == 0 then 0
    else if bitSize % 2 == 0 then
      var half := MaxUint(bitSize / 2) + 1;
      half * half - 1
    else 2 * MaxUint(bitSize - 1) + 1
  }

  /** The digit loop of ParseUint, continuing from the running value `n`. */
  function ParseDigits(s: string, base: nat, maxVal: nat, n: nat): Result<nat, ErrKind>
    decreases |s|
  {
    if s == [] then Success(n)
    else if !IsDigit(s[0], base) then Failure(ErrSyntax)
    else if n * base + DigitVal(s[0]) > maxVal then Failure(ErrRange)
    else ParseDigits(s[1..], base, maxVal, n * base + DigitVal(s[0]))
  }

  /** strconv.ParseUint(s, base, bitSize) for 2 <= base <= 36. */
  function ParseUint(s: string, base: nat, bitSize: nat): Result<nat, NumError>
    requires 2 <= base <= 36 && 1 <= bitSize <= 64
  {
    if s == [] then Failure(NumError(s, ErrSyntax))
    else
      match ParseDigits(s, base, MaxUint(bitSize), 0)
      case Success(n) => Success(n)
      case Failure(kind) => Failure(NumError(s, kind))
  }

  /** The digit character strconv.FormatUint writes for `d` (lower-case letters). */
  function DigitChar(d: nat): (c: char)
    requires d < 36
    ensures DigitVal(c) == d
  {
    if d < 10 then ('0' as int + d) as char else ('a' as int + d - 10) as char
  }

  /** strconv.FormatUint(n, base): no sign, no leading zeros, "0" for zero. */
  function FormatUint(n: nat, base: nat): string
    requires 2 <= base <= 36
    decreases n
  {
    if n < base then [DigitChar(n)]
    else
      DivMod(n, base);
      FormatUint(n / base, base) + [DigitChar(n % base)]
  }

  lemma DivMod(n: nat, base: nat)
    requires 1 <= base
    ensures n == (n / base) * base + n % base
    ensures n % base < base
    ensures base <= n ==> 1 <= n / base < n || base == 1
  {
  }

  lemma MulMonotone(a: nat, b: nat)
    requires 1 <= b
    ensures a <= a * b
  {
  }

  /** A prefix of a digit string is worth no more than the whole string. */
  lemma {:induction false} ValuePrefix(s: string, base: nat, k: nat)
    requires 1 <= base && AllDigits(s, base) && k <= |s|
    ensures AllDigits(s[..k], base) && Value(s[..k], base) <= Value(s, base)
    decreases |s| - k
  {
    if k < |s| {
      var init := s[..|s| - 1];
      assert init[..k] == s[..k];
      ValuePrefix(init, base, k);
      MulMonotone(Value(init, base), base);
    } else {
      assert s[..k] == s;
    }
  }

  /**
   * The digit loop, started on the value of an already read prefix `p`,
   * accepts the rest `s` exactly when `p + s` is all digits and its value
   * fits, and then returns that value; it reports a syntax error only when
   * a non-digit is present.
   */
  lemma {:induction false} ParseDigitsCorrect(p: string, s: string, base: nat, maxVal: nat)
    requires 2 <= base && AllDigits(p, base) && Value(p, base) <= maxVal
    ensures var r := ParseDigits(s, base, maxVal, Value(p, base));
      && (r.Success? <==> AllDigits(p + s, base) && Value(p + s, base) <= maxVal)
      && (r.Success? ==> r.value == Value(p + s, base))
      && (AllDigits(p + s, base) ==> r != Failure(ErrSyntax))
    decreases |s|
  {
    if s == [] {
      assert p + s == p;
    } else {
      var c := s[0];
      if !IsDigit(c, base) {
        assert (p + s)[|p|] == c;
      } else {
        ValueAppend(p, c, base);
        var p' := p + [c];
        assert p' + s[1..] == p + s;
        if Value(p', base) > maxVal {
          if AllDigits(p + s, base) {
            assert (p + s)[..|p'|] == p';
            ValuePrefix(p + s, base, |p'|);
          }
        } else {
          ParseDigitsCorrect(p', s[1..], base, maxVal);
        }
      }
    }
  }

  /**
   * What ParseUint accepts and returns: it succeeds exactly on a non-empty
   * string of digits of the base whose value fits in the bit size, and then
   * returns that value. An empty string is a syntax error, an all-digit
   * string that is too large a range error, and every error names the input.
   */
  lemma ParseUintMeaning(s: string, base: nat, bitSize: nat)
    requires 2 <= base <= 36 && 1 <= bitSize <= 64
    ensures ParseUint(s, base, bitSize).Success?
        <==> s != [] && AllDigits(s, base) && Value(s, base) <= MaxUint(bitSize)
    ensures ParseUint(s, base, bitSize).Success? ==> ParseUint(s, base, bitSize).value == Value(s, base)
    ensures ParseUint(s, base, bitSize).Failure? ==> ParseUint(s, base, bitSize).error.num == s
    ensures s == [] ==> ParseUint(s, base, bitSize) == Failure(NumError(s, ErrSyntax))
    ensures s != [] && AllDigits(s, base) && Value(s, base) > MaxUint(bitSize)
        ==> ParseUint(s, base, bitSize) == Failure(NumError(s, ErrRange))
  {
    if s != [] {
      var empty: string := [];
      var maxVal := MaxUint(bitSize);
      assert empty + s == s;
      assert AllDigits(empty, base) && Value(empty, base) == 0;
      ParseDigitsCorrect(empty, s, base, maxVal);
      var r := ParseDigits(s, base, maxVal, 0);
      assert r.Success? <==> AllDigits(s, base) && Value(s, base) <= maxVal;
      assert r.Success? ==> r.value == Value(s, base);
      assert AllDigits(s, base) ==> r != Failure(ErrSyntax);
      if AllDigits(s, base) && Value(s, base) > maxVal {
        assert r.Failure?;
        assert r.error != ErrSyntax;
        assert r == Failure(ErrRange);
      }
    }
  }

  /** Appending a digit multiplies by the base and adds the digit. */
  lemma ValueAppend(t: string, c: char, base: nat)
    requires AllDigits(t, base) && IsDigit(c, base)
    ensures AllDigits(t + [c], base)
    ensures Value(t + [c], base) == Value(t, base) * base + DigitVal(c)
  {
    var s := t + [c];
    assert s[..|s| - 1] == t;
  }

  /** FormatUint writes a non-empty digit string whose value is the number. */
  lemma {:induction false} FormatUintValue(n: nat, base: nat)
    requires 2 <= base <= 36
    ensures FormatUint(n, base) != [] && AllDigits(FormatUint(n, base), base)
    ensures Value(FormatUint(n, base), base) == n
    decreases n
  {
    if n < base {
      var s := FormatUint(n, base);
      assert s[..0] == [];
    } else {
      DivMod(n, base);
      FormatUintValue(n / base, base);
      FormatUintStep(n, base);
    }
  }

  /** One more digit: if the leading digits are right, so is the whole string. */
  lemma FormatUintStep(n: nat, base: nat)
    requires 2 <= base <= 36 && base <= n
    requires AllDigits(FormatUint(n / base, base), base)
    requires Value(FormatUint(n / base, base), base) == n / base
    ensures FormatUint(n, base) != [] && AllDigits(FormatUint(n, base), base)
    ensures Value(FormatUint(n, base), base) == n
  {
    var q, m := n / base, n % base;
    DivMod(n, base);
    var t := FormatUint(q, base);
    ValueAppend(t, DigitChar(m), base);
    assert FormatUint(n, base) == t + [DigitChar(m)];
    calc {
      Value(FormatUint(n, base), base);
      Value(t, base) * base + m;
      q * base + m;
      n;
    }
  }

  /** Round trip: ParseUint reads back what FormatUint writes, for every value that fits. */
  lemma FormatParseRoundTrip(n: nat, base: nat, bitSize: nat)
    requires 2 <= base <= 36 && 1 <= bitSize <= 64 && n <= MaxUint(bitSize)
    ensures ParseUint(FormatUint(n, base), base, bitSize) == Success(n)
  {
    FormatUintValue(n, base);
    ParseUintMeaning(FormatUint(n, base), base, bitSize);
  }

  lemma {:induction false} ParseDigitsIgnoresCase(s: string, base: nat, maxVal: nat, n: nat)
    ensures ParseDigits(ToUpper(s), base, maxVal, n) == ParseDigits(s, base, maxVal, n)
    decreases |s|
  {
    if s != [] {
      assert ToUpper(s)[0] == UpperChar(s[0]);
      assert ToUpper(s)[1..] == ToUpper(s[1..]);
      if IsDigit(s[0], base) {
        ParseDigitsIgnoresCase(s[1..], base, maxVal, n * base + DigitVal(s[0]));
      }
    }
  }

  /**
   * Digits above 9 are read in either case: upper-casing the input changes
   * neither whether ParseUint succeeds, nor its value, nor the kind of error.
   */
  lemma ParseUintIgnoresCase(s: string, base: nat, bitSize: nat)
    requires 2 <= base <= 36 && 1 <= bitSize <= 64
    ensures ParseUint(ToUpper(s), base, bitSize).Success? == ParseUint(s, base, bitSize).Success?
    ensures ParseUint(s, base, bitSize).Success?
        ==> ParseUint(ToUpper(s), base, bitSize).value == ParseUint(s, base, bitSize).value
    ensures ParseUint(s, base, bitSize).Failure?
        ==> ParseUint(ToUpper(s), base, bitSize).error.err == ParseUint(s, base, bitSize).error.err
  {
    ParseDigitsIgnoresCase(s, base, MaxUint(bitSize), 0);
  }
}
