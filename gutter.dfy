/// The line-number gutter of the change report: the `Display` of the
/// `Line` cell, which prints an optional 0-based line index as the
/// 1-based line number, left-aligned in a field four characters wide
/// (`{:<4}`), or as four blanks when the line does not exist on that side.
module Gutter {
  import opened Wrappers

  /// Width of the `{:<4}` field.
  const Width: nat := 4

  function Pow10(k: nat): (r: nat)
    ensures r >= 1
  {
    if k == 0 then 1 else 10 * Pow10(k - 1)
  }

  function Max(a: nat, b: nat): nat
  {
    if a >= b then a else b
  }

  predicate IsDigit(ch: char)
  {
    '0' <= ch <= '9'
  }

  predicate AllDigits(s: string)
  {
    forall i :: 0 <= i < |s| ==> IsDigit(s[i])
  }

  function DigitValue(ch: char): (d: nat)
    requires IsDigit(ch)
    ensures d < 10
  {
    ch as int - '0' as int
  }

  function DigitChar(d: nat): (ch: char)
    requires d < 10
    ensures IsDigit(ch) && DigitValue(ch) == d
  {
    ('0' as int + d) as char
  }

  // ---------------------------------------------------------------------
  // Decimal rendering of an unsigned integer, as `{}` prints a `usize`
  // ---------------------------------------------------------------------

  /// The decimal digits of `n`, most significant first, without leading zeros.
  function Decimal(n: nat): (r: string)
    ensures 1 <= |r| && AllDigits(r)
    ensures r[0] == '0' ==> n == 0
    decreases n
  {
    if n < 10 then [DigitChar(n)] else Decimal(n / 10) + [DigitChar(n % 10)]
  }

  /// The number a string of decimal digits denotes (the reading of a gutter).
  function ValueOf(s: string): nat
    requires AllDigits(s)
  {
    if s == [] then 0 else 10 * ValueOf(s[..|s| - 1]) + DigitValue(s[|s| - 1])
  }

  /// A digit string as `Decimal` produces it: non-empty, no leading zero.
  predicate Canonical(s: string)
  {
    |s| >= 1 && AllDigits(s) && (s[0] == '0' ==> |s| == 1)
  }

  /// Reading back the printed digits gives the number printed.
  lemma {:induction false} DecimalRoundTrip(n: nat)
    ensures ValueOf(Decimal(n)) == n
    decreases n
  {
    var r := Decimal(n);
    if n < 10 {
      assert r[..|r| - 1] == [];
    } else {
      DecimalRoundTrip(n / 10);
      assert r[..|r| - 1] == Decimal(n / 10);
    }
  }

  lemma {:induction false} LeadingDigitPositive(s: string)
    requires |s| >= 1 && AllDigits(s) && s[0] != '0'
    ensures ValueOf(s) >= 1
    decreases |s|
  {
    if |s| > 1 {
      LeadingDigitPositive(s[..|s| - 1]);
    }
  }

  /// Every canonical digit string is what `Decimal` prints for its value.
  lemma {:induction false} DecimalOfValue(s: string)
    requires Canonical(s)
    ensures Decimal(ValueOf(s)) == s
    decreases |s|
  {
    var v := ValueOf(s);
    var last := s[|s| - 1];
    if |s| == 1 {
      assert s[..0] == [] && ValueOf(s[..0]) == 0;
      assert v == DigitValue(last) < 10;
      assert DigitValue(DigitChar(v)) == DigitValue(last);
    } else {
      var t := s[..|s| - 1];
      assert t[0] == s[0];
      LeadingDigitPositive(t);
      DecimalOfValue(t);
      assert v == 10 * ValueOf(t) + DigitValue(last);
      assert v / 10 == ValueOf(t) && v % 10 == DigitValue(last);
      assert DigitValue(DigitChar(v % 10)) == DigitValue(last);
      assert s == t + [last];
    }
  }

  /// `Decimal(n)` fits in `k` characters exactly when `n < 10^k`.
  lemma {:induction false} DecimalWidth(n: nat, k: nat)
    requires k >= 1
    ensures |Decimal(n)| <= k <==> n < Pow10(k)
    decreases n
  {
    if n >= 10 && k > 1 {
      DecimalWidth(n / 10, k - 1);
      assert n / 10 < Pow10(k - 1) <==> n < 10 * Pow10(k - 1);
    } else if n < 10 && k > 1 {
      assert Pow10(k) == 10 * Pow10(k - 1);
    }
  }

  // ---------------------------------------------------------------------
  // Left alignment in a field and trimming the fill
  // ---------------------------------------------------------------------

  function Spaces(n: nat): (r: string)
    ensures |r| == n
  {
    seq(n, _ => ' ')
  }

  /// `{:<width}`: the text followed by blanks up to `width`; longer text is kept whole.
  function PadRight(s: string, width: nat): (r: string)
    ensures |r| == Max(|s|, width)
    ensures r == s + Spaces(|r| - |s|)
  {
    if |s| >= width then s else s + Spaces(width - |s|)
  }

  /// The text with its trailing blanks removed.
  function TrimEnd(s: string): (r: string)
    ensures |r| <= |s| && r == s[..|r|]
    ensures r == [] || r[|r| - 1] != ' '
    ensures forall i :: |r| <= i < |s| ==> s[i] == ' '
  {
    if s != [] && s[|s| - 1] == ' ' then TrimEnd(s[..|s| - 1]) else s
  }

  lemma TrimEndPadding(d: string, p: nat)
    requires d == [] || d[|d| - 1] != ' '
    ensures TrimEnd(d + Spaces(p)) == d
  {
    var s := d + Spaces(p);
    assert s[..|d|] == d;
  }

  // ---------------------------------------------------------------------
  // The `Line` cell
  // ---------------------------------------------------------------------

  /// `Display` for `Line(index)`: blanks for no line, else `index + 1` in `{:<4}`.
  function Line(index: Option<nat>): (r: string)
    ensures |r| >= Width
  {
    match index
    case None => "    "
    case Some(i) => PadRight(Decimal(i + 1), Width)
  }

  /// The gutter a reader sees, read back: the number before the fill, minus one.
  function ParseLine(cell: string): Option<nat>
  {
    var digits := TrimEnd(cell);
    if digits != [] && AllDigits(digits) && ValueOf(digits) >= 1
    then Some(ValueOf(digits) - 1)
    else None
  }

  /// The shape of a gutter cell: four blanks for an absent line; otherwise the
  /// digits of the 1-based number followed by blanks, exactly four characters
  /// while the number has at most four digits and never truncated beyond that.
  lemma LineLayout(index: Option<nat>)
    ensures index.None? ==> Line(index) == Spaces(Width)
    ensures index.Some? ==> |Line(index)| == Max(|Decimal(index.value + 1)|, Width)
    ensures index.Some? ==>
      Line(index) == Decimal(index.value + 1) + Spaces(|Line(index)| - |Decimal(index.value + 1)|)
    ensures |Line(index)| == Width <==> index.None? || index.value + 1 <= 9999
  {
    if index.Some? {
      DecimalWidth(index.value + 1, Width);
    }
  }

  /// A gutter cell determines the line it shows: reading it back gives the index.
  lemma LineRoundTrip(index: Option<nat>)
    ensures ParseLine(Line(index)) == index
  {
    LineLayout(index);
    match index
    case None =>
      TrimEndPadding([], Width);
      assert [] + Spaces(Width) == Line(index);
    case Some(i) =>
      var d := Decimal(i + 1);
      TrimEndPadding(d, |Line(index)| - |d|);
      DecimalRoundTrip(i + 1);
  }
}
