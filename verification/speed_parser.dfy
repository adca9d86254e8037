/** `speed_str_to_fraction`: turns a speed such as "10pct", "10%" or "0.1"
    into a fraction of full CPU speed.

    The source tries two regular expressions with `re.match`, so both are
    anchored at the start and whatever follows the match is ignored:

      1. `(([0-9]+(\.[0-9]*)?)|([0-9]*\.[0-9]+))(pct|%)`: the number / 100
      2. `(([0-9]+(\.[0-9]*))|([0-9]*\.[0-9]+))`:         the number itself

    The model reads the input with a small scanner (a digit run, then, when a
    '.' follows, the dot and a second digit run) and proves that it accepts
    exactly what the two expressions match, and with the same number. */
module SpeedParser {
  import opened Results
  import opened Text

  /** The number the scanner reads at the start of the input: the whole
      digits, and the fraction digits when a '.' follows them. */
  datatype Numeral = Numeral(whole: string, frac: Option<string>) {
    predicate WellFormed() {
      AllDigits(whole) && (frac.Some? ==> AllDigits(frac.value))
    }

    /** The characters of the input the numeral spans. */
    function Text(): string {
      whole + (if frac.Some? then "." + frac.value else "")
    }

    /** Both alternatives of the expressions need at least one digit. */
    predicate HasDigit() {
      |whole| > 0 || (frac.Some? && |frac.value| > 0)
    }

    /** Whole part plus fraction part. */
    function Value(): (v: real)
      requires WellFormed()
      ensures v >= 0.0
    {
      DigitsValue(whole) as real
        + (if frac.Some? then DigitsValue(frac.value) as real / Pow10(|frac.value|) as real else 0.0)
    }
  }

  /** The length of the longest run of digits at the start of `s`. */
  function DigitRun(s: string): (n: nat)
    ensures n <= |s| && AllDigits(s[..n])
    ensures n < |s| ==> !IsDigit(s[n])
  {
    if |s| == 0 || !IsDigit(s[0]) then 0
    else
      var m := DigitRun(s[1..]);
      assert s[..m + 1] == [s[0]] + s[1..][..m];
      m + 1
  }

  /** A run of digits that cannot be extended is the longest one. */
  lemma {:induction false} DigitRunIs(s: string, m: nat)
    requires m <= |s| && AllDigits(s[..m])
    requires m < |s| ==> !IsDigit(s[m])
    ensures DigitRun(s) == m
  {
    if m > 0 {
      assert IsDigit(s[..m][0]);
      assert s[1..][..m - 1] == s[..m][1..];
      DigitRunIs(s[1..], m - 1);
    }
  }

  lemma {:induction false} DigitRunAtLeast(s: string, m: nat)
    requires m <= |s| && AllDigits(s[..m])
    ensures DigitRun(s) >= m
  {
    if m > 0 {
      assert IsDigit(s[..m][0]);
      assert s[1..][..m - 1] == s[..m][1..];
      DigitRunAtLeast(s[1..], m - 1);
    }
  }

  /** Greedy scan: maximal digit run, then '.' and a maximal digit run when the dot is there. */
  function ScanNumeral(s: string): (t: Numeral)
    ensures t.WellFormed()
    ensures t.Text() <= s
    ensures |t.whole| == DigitRun(s)
    ensures t.frac.Some? <==> |t.whole| < |s| && s[|t.whole|] == '.'
    ensures t.frac.Some? ==> |t.frac.value| == DigitRun(s[|t.whole| + 1..])
  {
    var w := DigitRun(s);
    if w < |s| && s[w] == '.' then
      var rest := s[w + 1..];
      var f := DigitRun(rest);
      var t := Numeral(s[..w], Some(rest[..f]));
      assert t.Text() == s[..w + 1 + f];
      t
    else
      Numeral(s[..w], None)
  }

  /** `(pct|%)` matches at position `j`. */
  predicate PercentSuffixAt(s: string, j: nat) {
    j <= |s| && ((j + 3 <= |s| && s[j..j + 3] == "pct") || (j < |s| && s[j] == '%'))
  }

  /** Expression 1: the numeral followed at once by "pct" or "%". */
  function ParsePercent(s: string): (r: Option<real>)
    ensures r.Some? ==> r.value >= 0.0
  {
    var t := ScanNumeral(s);
    if t.HasDigit() && PercentSuffixAt(s, |t.Text()|) then Some(t.Value() / 100.0) else None
  }

  /** Expression 2: a numeral that has a decimal point. */
  function ParseFraction(s: string): (r: Option<real>)
    ensures r.Some? ==> r.value >= 0.0
  {
    var t := ScanNumeral(s);
    if t.frac.Some? && t.HasDigit() then Some(t.Value()) else None
  }

  /** The ValueError "Could not parse speed". */
  datatype SpeedError = CouldNotParseSpeed

  /** `speed_str_to_fraction`: the percent form first, then the fraction form. */
  function SpeedStrToFraction(s: string): (r: Result<real, SpeedError>)
    ensures r.Success? ==> r.value >= 0.0
    ensures r.Failure? ==> r.error == CouldNotParseSpeed
  {
    match ParsePercent(s)
    case Some(v) => Success(v)
    case None =>
      match ParseFraction(s)
      case Some(v) => Success(v)
      case None => Failure(CouldNotParseSpeed)
  }

  // ---------------------------------------------------------------------------
  // The regular expressions, stated as languages over the matched text.

  /** `[0-9]+\.[0-9]*` */
  ghost predicate WholeDotFrac(n: string) {
    exists k :: 0 < k < |n| && n[k] == '.' && AllDigits(n[..k]) && AllDigits(n[k + 1..])
  }

  /** `[0-9]*\.[0-9]+` */
  ghost predicate OptWholeDotDigits(n: string) {
    exists k :: 0 <= k && k + 1 < |n| && n[k] == '.' && AllDigits(n[..k]) && AllDigits(n[k + 1..])
  }

  /** `[0-9]+(\.[0-9]*)?` */
  ghost predicate WholeOptFrac(n: string) {
    (|n| > 0 && AllDigits(n)) || WholeDotFrac(n)
  }

  /** Expression 1 matches the first `j` characters of `s` plus the suffix. */
  ghost predicate PercentMatch(s: string, j: nat) {
    j <= |s| && (WholeOptFrac(s[..j]) || OptWholeDotDigits(s[..j])) && PercentSuffixAt(s, j)
  }

  /** Expression 2 matches the first `j` characters of `s`. */
  ghost predicate FractionMatch(s: string, j: nat) {
    j <= |s| && (WholeDotFrac(s[..j]) || OptWholeDotDigits(s[..j]))
  }

  /** What Python's `float` makes of matched text: its digits with the dot
      removed, divided by ten to the number of digits after the dot. */
  function Undotted(n: string): string {
    if |n| == 0 then "" else (if n[0] == '.' then "" else [n[0]]) + Undotted(n[1..])
  }

  function Scale(n: string): nat {
    match IndexOf(n, '.')
    case None => 0
    case Some(k) => |n| - 1 - k
  }

  function LiteralValue(n: string): real
    requires AllDigits(Undotted(n))
  {
    DigitsValue(Undotted(n)) as real / Pow10(Scale(n)) as real
  }

  // ---------------------------------------------------------------------------
  // The scanner against the expressions.

  /** The suffix starts with a character that cannot extend a numeral. */
  lemma SuffixStops(s: string, j: nat)
    requires PercentSuffixAt(s, j)
    ensures j < |s| && !IsDigit(s[j]) && s[j] != '.'
  {
    if !(j < |s| && s[j] == '%') {
      assert s[j..j + 3][0] == s[j];
    }
  }

  /** A dot right after the leading digits is where the scanner takes its fraction from. */
  lemma ScanAtDot(s: string, k: nat)
    requires k < |s| && s[k] == '.' && AllDigits(s[..k])
    ensures var t := ScanNumeral(s);
      t.whole == s[..k] && t.frac == Some(s[k + 1..][..DigitRun(s[k + 1..])])
  {
    DigitRunIs(s, k);
  }

  /** The dot a match of `[0-9]+\.[0-9]*` or `[0-9]*\.[0-9]+` has, read off the input. */
  lemma DotOfMatch(s: string, j: nat) returns (k: nat)
    requires j <= |s| && (WholeDotFrac(s[..j]) || OptWholeDotDigits(s[..j]))
    ensures k < j && s[k] == '.' && AllDigits(s[..k]) && AllDigits(s[k + 1..][..j - k - 1])
    ensures 0 < k || k + 1 < j
  {
    var n := s[..j];
    k :| 0 <= k < |n| && n[k] == '.' && AllDigits(n[..k]) && AllDigits(n[k + 1..]) && (0 < k || k + 1 < |n|);
    assert n[..k] == s[..k];
    assert s[k + 1..][..j - k - 1] == n[k + 1..];
  }

  /** Every match of expression 1 is the numeral the scanner reads: the match
      ends where the scan ends, because the suffix starts with a character
      that is neither a digit nor a dot. */
  lemma PercentMatchIsScan(s: string, j: nat)
    requires PercentMatch(s, j)
    ensures var t := ScanNumeral(s); t.HasDigit() && |t.Text()| == j && s[..j] == t.Text()
  {
    SuffixStops(s, j);
    if |s[..j]| > 0 && AllDigits(s[..j]) {
      DigitRunIs(s, j);
    } else {
      var k := DotOfMatch(s, j);
      ScanAtDot(s, k);
      var rest := s[k + 1..];
      assert rest[j - k - 1] == s[j];
      DigitRunIs(rest, j - k - 1);
      assert s[..j] == s[..k] + "." + rest[..j - k - 1];
    }
  }

  /** What the scanner accepts as a percent is a match of expression 1. */
  lemma ScanIsPercentMatch(s: string)
    requires var t := ScanNumeral(s); t.HasDigit() && PercentSuffixAt(s, |t.Text()|)
    ensures PercentMatch(s, |ScanNumeral(s).Text()|)
  {
    var t := ScanNumeral(s);
    var n := t.Text();
    assert s[..|n|] == n;
    if t.frac.Some? {
      var k := |t.whole|;
      assert n[k] == '.' && n[..k] == t.whole && n[k + 1..] == t.frac.value;
      if k == 0 {
        assert OptWholeDotDigits(n);
      } else {
        assert WholeDotFrac(n);
      }
    }
  }

  /** Every match of expression 2 is a prefix of the numeral the scanner reads,
      and the scanner finds a dot and a digit. */
  lemma FractionMatchWithinScan(s: string, j: nat)
    requires FractionMatch(s, j)
    ensures var t := ScanNumeral(s); t.frac.Some? && t.HasDigit() && j <= |t.Text()|
  {
    var k := DotOfMatch(s, j);
    ScanAtDot(s, k);
    DigitRunAtLeast(s[k + 1..], j - k - 1);
  }

  /** What the scanner accepts as a fraction is a match of expression 2. */
  lemma ScanIsFractionMatch(s: string)
    requires var t := ScanNumeral(s); t.frac.Some? && t.HasDigit()
    ensures FractionMatch(s, |ScanNumeral(s).Text()|)
  {
    var t := ScanNumeral(s);
    var n := t.Text();
    assert s[..|n|] == n;
    var k := |t.whole|;
    assert n[k] == '.' && n[..k] == t.whole && n[k + 1..] == t.frac.value;
    if k == 0 {
      assert OptWholeDotDigits(n);
    } else {
      assert WholeDotFrac(n);
    }
  }

  lemma {:induction false} UndottedDigits(n: string)
    requires AllDigits(n)
    ensures Undotted(n) == n
  {
    if |n| > 0 {
      UndottedDigits(n[1..]);
      assert n == [n[0]] + n[1..];
    }
  }

  lemma {:induction false} UndottedAppend(a: string, b: string)
    ensures Undotted(a + b) == Undotted(a) + Undotted(b)
  {
    if |a| > 0 {
      assert (a + b)[1..] == a[1..] + b;
      UndottedAppend(a[1..], b);
    } else {
      assert a + b == b;
    }
  }

  lemma UndottedDotDigits(b: string)
    requires AllDigits(b)
    ensures Undotted("." + b) == b
  {
    assert ("." + b)[1..] == b;
    UndottedDigits(b);
  }

  /** `w.b` reads as the digits `wb` ... */
  lemma UndottedDecimal(w: string, b: string)
    requires AllDigits(w) && AllDigits(b)
    ensures Undotted(w + "." + b) == w + b
  {
    assert w + "." + b == w + ("." + b);
    UndottedAppend(w, "." + b);
    UndottedDigits(w);
    UndottedDotDigits(b);
  }

  /** ... with `|b|` digits after the dot. */
  lemma ScaleDecimal(w: string, b: string)
    requires AllDigits(w)
    ensures Scale(w + "." + b) == |b|
  {
    var n := w + "." + b;
    assert n[..|w|] == w;
    IndexOfUnique(n, '.', |w|);
  }

  lemma ShiftFraction(v: nat, x: nat, y: nat, p: nat)
    requires p > 0 && v == x * p + y
    ensures v as real / p as real == x as real + y as real / p as real
  {
    assert (x * p) as real == x as real * p as real;
  }

  /** `float` of "w.b" is the whole part plus the fraction digits over ten to their count. */
  lemma LiteralOfDecimal(w: string, b: string)
    requires AllDigits(w) && AllDigits(b)
    ensures AllDigits(Undotted(w + "." + b))
    ensures LiteralValue(w + "." + b)
      == DigitsValue(w) as real + DigitsValue(b) as real / Pow10(|b|) as real
  {
    UndottedDecimal(w, b);
    ScaleDecimal(w, b);
    DigitsValueAppend(w, b);
    ShiftFraction(DigitsValue(w + b), DigitsValue(w), DigitsValue(b), Pow10(|b|));
  }

  /** `float` of a digit string is its value. */
  lemma LiteralOfDigits(w: string)
    requires AllDigits(w)
    ensures AllDigits(Undotted(w))
    ensures LiteralValue(w) == DigitsValue(w) as real
  {
    UndottedDigits(w);
    assert Scale(w) == 0;
  }

  /** The scanner's whole-plus-fraction value is what `float` makes of the text. */
  lemma ValueIsLiteral(t: Numeral)
    requires t.WellFormed()
    ensures AllDigits(Undotted(t.Text()))
    ensures t.Value() == LiteralValue(t.Text())
  {
    if t.frac.None? {
      assert t.Text() == t.whole;
      LiteralOfDigits(t.whole);
    } else {
      assert t.Text() == t.whole + "." + t.frac.value;
      LiteralOfDecimal(t.whole, t.frac.value);
    }
  }

  // ---------------------------------------------------------------------------
  // What `speed_str_to_fraction` returns, in terms of the expressions.

  /** A match of expression 1 gives its number divided by 100. */
  lemma PercentFormValue(s: string, j: nat)
    requires PercentMatch(s, j)
    ensures AllDigits(Undotted(s[..j]))
    ensures SpeedStrToFraction(s) == Success(LiteralValue(s[..j]) / 100.0)
  {
    PercentMatchIsScan(s, j);
    ValueIsLiteral(ScanNumeral(s));
    assert s[..j] == ScanNumeral(s).Text();
  }

  /** Otherwise the longest match of expression 2 gives its number as it is;
      Python's greedy backtracking picks exactly that match. */
  lemma FractionFormValue(s: string, j: nat)
    requires forall i :: !PercentMatch(s, i)
    requires FractionMatch(s, j)
    requires forall i: nat :: FractionMatch(s, i) ==> i <= j
    ensures AllDigits(Undotted(s[..j]))
    ensures SpeedStrToFraction(s) == Success(LiteralValue(s[..j]))
  {
    var t := ScanNumeral(s);
    FractionMatchWithinScan(s, j);
    ScanIsFractionMatch(s);
    if t.HasDigit() && PercentSuffixAt(s, |t.Text()|) {
      ScanIsPercentMatch(s);
    }
    assert |t.Text()| == j;
    ValueIsLiteral(t);
    assert s[..j] == t.Text();
  }

  /** The parse fails exactly when neither expression matches. */
  lemma SpeedRejects(s: string)
    ensures SpeedStrToFraction(s).Failure?
      <==> (forall i :: !PercentMatch(s, i)) && (forall i :: !FractionMatch(s, i))
  {
    var t := ScanNumeral(s);
    if t.HasDigit() && PercentSuffixAt(s, |t.Text()|) {
      ScanIsPercentMatch(s);
    } else if t.frac.Some? && t.HasDigit() {
      ScanIsFractionMatch(s);
    } else {
      forall i ensures !PercentMatch(s, i) {
        if PercentMatch(s, i) { PercentMatchIsScan(s, i); }
      }
      forall i ensures !FractionMatch(s, i) {
        if FractionMatch(s, i) { FractionMatchWithinScan(s, i); }
      }
    }
  }

  /** The scanner reads exactly the numeral written at the front, when what
      follows cannot extend it. */
  lemma ScanOf(t: Numeral, rest: string)
    requires t.WellFormed()
    requires t.frac.None? ==> rest == [] || (!IsDigit(rest[0]) && rest[0] != '.')
    requires t.frac.Some? ==> rest == [] || !IsDigit(rest[0])
    ensures ScanNumeral(t.Text() + rest) == t
  {
    var s := t.Text() + rest;
    var w := t.whole;
    assert s[..|w|] == w;
    DigitRunIs(s, |w|);
    if t.frac.Some? {
      var b := t.frac.value;
      assert s == w + "." + (b + rest);
      assert s[|w| + 1..] == b + rest;
      assert (b + rest)[..|b|] == b;
      DigitRunIs(b + rest, |b|);
      assert s[|w| + 1..][..|b|] == b;
    }
  }

  /** A number followed by "pct" or "%" gives the number divided by 100,
      whatever comes after the suffix. */
  lemma PercentOf(t: Numeral, rest: string)
    requires t.WellFormed() && t.HasDigit()
    requires PercentSuffixAt(rest, 0)
    ensures SpeedStrToFraction(t.Text() + rest) == Success(t.Value() / 100.0)
  {
    assert rest[0] == 'p' || rest[0] == '%' by {
      if rest[0] != '%' { assert rest[0..3][0] == rest[0]; }
    }
    ScanOf(t, rest);
    var s := t.Text() + rest;
    assert s[|t.Text()|..] == rest;
    assert PercentSuffixAt(s, |t.Text()|) by {
      if rest[0] == '%' {
        assert s[|t.Text()|] == rest[0];
      } else {
        assert s[|t.Text()|..|t.Text()| + 3] == rest[0..3];
      }
    }
  }

  /** A number with a decimal point and no percent suffix is taken as it is,
      whatever comes after it. */
  lemma FractionOf(t: Numeral, rest: string)
    requires t.WellFormed() && t.HasDigit() && t.frac.Some?
    requires rest == [] || !IsDigit(rest[0])
    requires !PercentSuffixAt(rest, 0)
    ensures SpeedStrToFraction(t.Text() + rest) == Success(t.Value())
  {
    ScanOf(t, rest);
  }

  /** A bare integer (no dot, no suffix) is rejected, and so is input that
      starts with neither a digit nor a dot. */
  lemma IntegerRejected(w: string, rest: string)
    requires AllDigits(w)
    requires rest == [] || (!IsDigit(rest[0]) && rest[0] != '.')
    requires w != "" ==> !PercentSuffixAt(rest, 0)
    ensures SpeedStrToFraction(w + rest).Failure?
  {
    var t := Numeral(w, None);
    assert t.Text() == w;
    ScanOf(t, rest);
  }

  lemma OneDigit(c: char)
    requires IsDigit(c)
    ensures DigitsValue([c]) == DigitValue(c)
  {
    assert [c][..0] == "";
  }

  lemma TwoDigits(c: char, d: char)
    requires IsDigit(c) && IsDigit(d)
    ensures DigitsValue([c, d]) == 10 * DigitValue(c) + DigitValue(d)
  {
    assert [c, d][..1] == [c];
    OneDigit(c);
  }

  /** The percent forms the command line documents. */
  lemma PercentExamples()
    ensures SpeedStrToFraction("10pct") == Success(0.1)
    ensures SpeedStrToFraction("10%") == Success(0.1)
    ensures SpeedStrToFraction("25%") == Success(0.25)
  {
    var ten := Numeral("10", None);
    TwoDigits('1', '0');
    assert ten.Value() == 10.0;
    assert ten.Text() + "pct" == "10pct";
    PercentOf(ten, "pct");
    assert ten.Text() + "%" == "10%";
    PercentOf(ten, "%");
    var twentyFive := Numeral("25", None);
    TwoDigits('2', '5');
    assert twentyFive.Value() == 25.0;
    assert twentyFive.Text() + "%" == "25%";
    PercentOf(twentyFive, "%");
  }

  /** The fraction forms: plain, leading-dot and trailing-dot decimals. */
  lemma FractionExamples()
    ensures SpeedStrToFraction("0.5") == Success(0.5)
    ensures SpeedStrToFraction(".25") == Success(0.25)
    ensures SpeedStrToFraction("1.") == Success(1.0)
  {
    OneDigit('0');
    OneDigit('1');
    OneDigit('5');
    TwoDigits('2', '5');
    assert Pow10(1) == 10 && Pow10(2) == 100;
    var half := Numeral("0", Some("5"));
    assert half.Value() == 0.5;
    assert half.Text() + "" == "0.5";
    FractionOf(half, "");
    var quarter := Numeral("", Some("25"));
    assert quarter.Value() == 0.25;
    assert quarter.Text() + "" == ".25";
    FractionOf(quarter, "");
    var one := Numeral("1", Some(""));
    assert one.Value() == 1.0;
    assert one.Text() + "" == "1.";
    FractionOf(one, "");
  }

  /** Only a prefix is matched: what follows an accepted form is ignored. */
  lemma PrefixExamples()
    ensures SpeedStrToFraction("10pctXYZ") == Success(0.1)
    ensures SpeedStrToFraction("0.5abc") == Success(0.5)
  {
    var ten := Numeral("10", None);
    TwoDigits('1', '0');
    assert ten.Value() == 10.0;
    assert ten.Text() + "pctXYZ" == "10pctXYZ";
    PercentOf(ten, "pctXYZ");
    OneDigit('0');
    OneDigit('5');
    assert Pow10(1) == 10;
    var half := Numeral("0", Some("5"));
    assert half.Value() == 0.5;
    assert half.Text() + "abc" == "0.5abc";
    FractionOf(half, "abc");
  }

  /** "1.5.3pct" is 1.5, not 0.0153: the percent expression cannot take the
      second dot, and the fraction expression stops before it. */
  lemma SecondDotExample()
    ensures SpeedStrToFraction("1.5.3pct") == Success(1.5)
  {
    OneDigit('1');
    OneDigit('5');
    assert Pow10(1) == 10;
    var oneHalf := Numeral("1", Some("5"));
    assert oneHalf.Value() == 1.5;
    assert oneHalf.Text() + ".3pct" == "1.5.3pct";
    FractionOf(oneHalf, ".3pct");
  }

  /** A bare integer, the empty string, a lone dot and text raise ValueError. */
  lemma RejectExamples()
    ensures SpeedStrToFraction("5").Failure?
    ensures SpeedStrToFraction("").Failure?
    ensures SpeedStrToFraction(".").Failure?
    ensures SpeedStrToFraction("garbage").Failure?
  {
    assert "5" + "" == "5";
    IntegerRejected("5", "");
    assert "" + "" == "";
    IntegerRejected("", "");
    assert "" + "garbage" == "garbage";
    IntegerRejected("", "garbage");
    var dot := Numeral("", Some(""));
    assert dot.Text() + "" == ".";
    ScanOf(dot, "");
  }
}
