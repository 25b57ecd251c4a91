/** The few C library string functions the programs rely on: strtok_r with a single
    delimiter, %d printing and atoi. Strings are sequences without a NUL. */
module CStrings {

  // ----- strtok_r

  /** The length of the prefix of `s` up to its first `d`. */
  function TokenLength(s: string, d: char): (n: nat)
    ensures n <= |s|
    ensures (forall i :: 0 <= i < n ==> s[i] != d) && (n < |s| ==> s[n] == d)
  {
    if s == "" || s[0] == d then 0 else 1 + TokenLength(s[1..], d)
  }

  /** All tokens that repeated strtok_r calls yield: empty ones are skipped. */
  function Tokens(s: string, d: char): seq<string>
    decreases |s|
  {
    if s == "" then []
    else if s[0] == d then Tokens(s[1..], d)
    else
      var n := TokenLength(s, d);
      [s[..n]] + Tokens(s[n..], d)
  }

  lemma {:induction false} TokenLengthOfConcat(a: string, b: string, d: char)
    requires d !in a
    ensures TokenLength(a + b, d) == |a| + TokenLength(b, d)
  {
    if a == "" {
      assert a + b == b;
    } else {
      assert (a + b)[1..] == a[1..] + b;
      TokenLengthOfConcat(a[1..], b, d);
    }
  }

  /** A delimiter anywhere in the text splits its tokens. */
  lemma {:induction false} TokensSplit(a: string, b: string, d: char)
    ensures Tokens(a + [d] + b, d) == Tokens(a, d) + Tokens(b, d)
    decreases |a|
  {
    var s := a + [d] + b;
    if a == "" {
      assert s[1..] == b;
    } else if a[0] == d {
      assert s[1..] == a[1..] + [d] + b;
      TokensSplit(a[1..], b, d);
    } else {
      var n := TokenLength(a, d);
      var rest := a[n..];
      assert s == a[..n] + (rest + [d] + b);
      TokenLengthOfConcat(a[..n], rest + [d] + b, d);
      assert TokenLength(rest + [d] + b, d) == 0;
      assert s[n..] == rest + [d] + b;
      TokensSplit(rest, b, d);
    }
  }

  /** A non-empty text without the delimiter is one token. */
  lemma TokensOfWord(w: string, d: char)
    requires w != "" && d !in w
    ensures Tokens(w, d) == [w]
  {
    TokenLengthOfConcat(w, "", d);
    assert w + "" == w;
    assert w[..|w|] == w;
    assert w[|w|..] == "";
  }

  // ----- strncpy

  /** strncpy into a field of `size` characters, the last of which is set to NUL. */
  function Truncate(s: string, size: nat): string
    requires size > 0
  {
    if |s| < size then s else s[..size - 1]
  }

  // ----- decimal numbers

  function Digit(n: nat): char
    requires n < 10
  {
    '0' + n as char
  }

  predicate IsDigit(c: char) { '0' <= c <= '9' }

  /** What %d prints for a number that is not negative. */
  function Decimal(n: nat): (s: string)
    ensures s != "" && forall c :: c in s ==> IsDigit(c)
  {
    if n < 10 then [Digit(n)] else Decimal(n / 10) + [Digit(n % 10)]
  }

  /** What %d prints. */
  function SignedDecimal(x: int): (s: string)
    ensures s != "" && forall c :: c in s ==> IsDigit(c) || c == '-'
  {
    if x < 0 then "-" + Decimal(-x) else Decimal(x)
  }

  lemma {:induction false} DecimalLength(n: nat, bound: nat, digits: nat)
    requires n < bound && bound <= Power10(digits) && digits > 0
    ensures |Decimal(n)| <= digits
    decreases digits
  {
    if n >= 10 {
      DecimalLength(n / 10, Power10(digits - 1), digits - 1);
    }
  }

  function Power10(k: nat): nat {
    if k == 0 then 1 else 10 * Power10(k - 1)
  }

  /** An int has at most ten digits. */
  lemma ShortText(n: nat)
    requires n < 0x8000_0000
    ensures |Decimal(n)| <= 10
  {
    assert Power10(10) == 100_0000_0000 by {
      assert Power10(5) == 100_000;
      assert Power10(8) == 100_000_000;
    }
    DecimalLength(n, 0x8000_0000, 10);
  }

  /** The value of the digits at the front of `s`, appended to those read so far. */
  function ReadDigits(s: string, sofar: nat): nat {
    if s == "" || !IsDigit(s[0]) then sofar
    else ReadDigits(s[1..], 10 * sofar + (s[0] as int - '0' as int))
  }

  /** atoi: blanks, an optional sign, digits; anything after them is ignored. */
  function Atoi(s: string): int
    decreases |s|
  {
    if s == "" then 0
    else if s[0] == ' ' then Atoi(s[1..])
    else if s[0] == '-' then -(ReadDigits(s[1..], 0) as int)
    else if s[0] == '+' then ReadDigits(s[1..], 0)
    else ReadDigits(s, 0)
  }

  lemma {:induction false} ReadDigitsOfConcat(a: string, b: string, sofar: nat)
    requires forall c :: c in a ==> IsDigit(c)
    ensures ReadDigits(a + b, sofar) == ReadDigits(b, ReadDigits(a, sofar))
  {
    if a == "" {
      assert a + b == b;
    } else {
      assert IsDigit(a[0]);
      assert (a + b)[1..] == a[1..] + b;
      ReadDigitsOfConcat(a[1..], b, 10 * sofar + (a[0] as int - '0' as int));
    }
  }

  lemma {:induction false} ReadDecimal(n: nat)
    ensures ReadDigits(Decimal(n), 0) == n
  {
    if n >= 10 {
      ReadDecimal(n / 10);
      ReadDigitsOfConcat(Decimal(n / 10), [Digit(n % 10)], 0);
      assert ReadDigits([Digit(n % 10)], n / 10) == 10 * (n / 10) + n % 10;
    }
  }

  /** Reading back what %d printed gives the number. */
  lemma AtoiOfDecimal(x: int)
    ensures Atoi(SignedDecimal(x)) == x
  {
    if x < 0 {
      ReadDecimal(-x);
      assert SignedDecimal(x)[1..] == Decimal(-x);
    } else {
      ReadDecimal(x);
      assert IsDigit(Decimal(x)[0]);
    }
  }
}
