/**
 * Output file names of movie mode: frame `f` is written to
 * "mandel" + decimal(f) + ".jpg", the text `sprintf(outname, "mandel%d.jpg", f)`
 * produces for a non-negative `f` (frame numbers are never negative).
 */
module FrameNames {

  datatype Option<T> = None | Some(value: T)

  predicate IsDigit(c: char) {
    '0' <= c <= '9'
  }

  predicate AllDigits(s: string) {
    forall k :: 0 <= k < |s| ==> IsDigit(s[k])
  }

  /** The text of a natural number as `%d` prints it: at least one digit, no leading zero. */
  predicate IsCanonical(s: string) {
    |s| >= 1 && AllDigits(s) && (s[0] == '0' ==> |s| == 1)
  }

  function DigitChar(d: nat): (c: char)
    requires d < 10
    ensures IsDigit(c) && c as int - '0' as int == d
  {
    ('0' as int + d) as char
  }

  function DigitValue(c: char): nat
    requires IsDigit(c)
  {
    c as int - '0' as int
  }

  function Pow10(k: nat): nat {
    if k == 0 then 1 else 10 * Pow10(k - 1)
  }

  /** Decimal text of `n`, most significant digit first. */
  function Decimal(n: nat): (s: string)
    ensures IsCanonical(s)
    ensures s[0] == '0' <==> n == 0
    decreases n
  {
    if n < 10 then [DigitChar(n)] else Decimal(n / 10) + [DigitChar(n % 10)]
  }

  /** Value of a string of digits, most significant digit first. */
  function ParseDecimal(s: string): nat
    requires AllDigits(s)
  {
    if s == [] then 0 else 10 * ParseDecimal(s[..|s| - 1]) + DigitValue(s[|s| - 1])
  }

  /** Parsing the decimal text of `n` gives back `n`. */
  lemma {:induction false} ParseDecimalOfDecimal(n: nat)
    ensures ParseDecimal(Decimal(n)) == n
    decreases n
  {
    var s := Decimal(n);
    if n >= 10 {
      ParseDecimalOfDecimal(n / 10);
      assert s[..|s| - 1] == Decimal(n / 10);
    }
  }

  /** A digit string with a non-zero first digit denotes a positive number. */
  lemma {:induction false} ParsePositive(s: string)
    requires AllDigits(s) && |s| >= 1 && s[0] != '0'
    ensures ParseDecimal(s) >= 1
    decreases |s|
  {
    if |s| > 1 {
      ParsePositive(s[..|s| - 1]);
    }
  }

  /** Every canonical digit string is the decimal text of the number it denotes. */
  lemma {:induction false} DecimalOfParseDecimal(s: string)
    requires IsCanonical(s)
    ensures Decimal(ParseDecimal(s)) == s
    decreases |s|
  {
    if |s| > 1 {
      var init := s[..|s| - 1];
      DecimalOfParseDecimal(init);
      ParsePositive(init);
      var n := ParseDecimal(s);
      assert n / 10 == ParseDecimal(init) && n % 10 == DigitValue(s[|s| - 1]);
      assert s == init + [s[|s| - 1]];
    }
  }

  /** The decimal text of a number below 10^k has at most k digits. */
  lemma {:induction false} DecimalLength(n: nat, k: nat)
    requires k >= 1 && n < Pow10(k)
    ensures |Decimal(n)| <= k
    decreases k
  {
    if n >= 10 {
      assert k >= 2;
      DecimalLength(n / 10, k - 1);
    }
  }

  /** Name of the output file of frame `f`. */
  function FrameName(f: nat): string {
    "mandel" + Decimal(f) + ".jpg"
  }

  /** The frame number a file name stands for, if it has the form "mandel<digits>.jpg". */
  function FrameOfName(name: string): Option<nat> {
    if |name| >= 11 && name[..6] == "mandel" && name[|name| - 4..] == ".jpg"
      && IsCanonical(name[6..|name| - 4])
    then Some(ParseDecimal(name[6..|name| - 4]))
    else None
  }

  /** FrameOfName inverts FrameName over all names, in both directions. */
  lemma {:induction false} FrameOfNameInverse(name: string, f: nat)
    ensures FrameOfName(name) == Some(f) <==> name == FrameName(f)
  {
    var d := Decimal(f);
    var fname := FrameName(f);
    assert fname[..6] == "mandel" && fname[|fname| - 4..] == ".jpg" && fname[6..|fname| - 4] == d;
    ParseDecimalOfDecimal(f);
    if FrameOfName(name) == Some(f) {
      var mid := name[6..|name| - 4];
      DecimalOfParseDecimal(mid);
      assert name == name[..6] + mid + name[|name| - 4..];
    }
  }

  /** Distinct frames are written to distinct files. */
  lemma {:induction false} FrameNameInjective(f: nat, g: nat)
    ensures FrameName(f) == FrameName(g) <==> f == g
  {
    FrameOfNameInverse(FrameName(f), f);
    FrameOfNameInverse(FrameName(f), g);
  }

  /**
   * The name of any frame number a C `int` can hold takes at most 20
   * characters, so it fits the 64-byte `outname` buffer with its terminator.
   */
  lemma {:induction false} FrameNameFits(f: nat)
    requires f <= 0x7FFF_FFFF
    ensures |FrameName(f)| <= 20 < 64
  {
    assert Pow10(10) == 10_000_000_000;
    DecimalLength(f, 10);
  }
}
