/** The template filters of usuarios/templatetags/currency_tags.py: `to_ars`
    and `format_ars`, the latter on top of Python's `str(Decimal)`. */
module CurrencyTags {
  import opened Decimals
  import opened Optional
  import opened Text
  import opened Currency

  // ------------------------------------------------------------ str(Decimal)

  function Zeros(n: nat): (s: string)
    ensures |s| == n && forall i :: 0 <= i < n ==> s[i] == '0'
  {
    if n == 0 then "" else "0" + Zeros(n - 1)
  }

  /** Python's `str()` of a finite Decimal with a non-positive exponent:
      plain notation while the adjusted exponent is at least -6, scientific
      (`1.23E-7`) below that. */
  function DecText(d: Dec): (s: string)
    ensures |s| > 0
  {
    var digits := NatToString(Abs(d.coef));
    var sign := if d.coef < 0 then "-" else "";
    var left := |digits| - d.scale;
    if left > -6 then
      if left <= 0 then sign + "0." + Zeros(-left) + digits
      else if d.scale == 0 then sign + digits
      else sign + digits[..left] + "." + digits[left..]
    else
      sign + digits[..1] + (if |digits| > 1 then "." + digits[1..] else "") + "E-" + NatToString(1 - left)
  }

  /** The digits of a value with two decimals print as the integer digits,
      a dot and the two cent digits. */
  lemma CentsText(d: Dec)
    requires d.scale == 2 && Abs(d.coef) >= 100
    ensures var digits := NatToString(Abs(d.coef));
      DecText(d) == (if d.coef < 0 then "-" else "") + digits[..|digits| - 2] + "." + digits[|digits| - 2..]
  {
    NatToStringLength(Abs(d.coef));
  }

  /** A number of at least 100 has at least three digits. */
  lemma NatToStringLength(n: nat)
    requires n >= 100
    ensures |NatToString(n)| >= 3
  {
    var m := n / 10;
    assert m >= 10;
    assert |NatToString(n)| == |NatToString(m)| + 1;
    assert |NatToString(m)| == |NatToString(m / 10)| + 1;
  }

  // ------------------------------------------------------------ splitting

  /** The index of the first '.' of s, if any. */
  function FirstDot(s: string): (r: Option<nat>)
    ensures r.Some? ==> r.value < |s| && s[r.value] == '.' && forall i :: 0 <= i < r.value ==> s[i] != '.'
    ensures r.None? ==> forall i :: 0 <= i < |s| ==> s[i] != '.'
  {
    if |s| == 0 then None
    else if s[0] == '.' then Some(0)
    else match FirstDot(s[1..])
      case None => None
      case Some(i) => Some(i + 1)
  }

  /** `s.split('.')[0]` and, when there is a second part, `s.split('.')[1]`. */
  function SplitDot(s: string): (r: (string, Option<string>))
    ensures forall i :: 0 <= i < |r.0| ==> r.0[i] != '.'
    ensures r.1.None? <==> FirstDot(s).None?
    ensures r.1.None? ==> r.0 == s
    ensures r.1.Some? ==> forall i :: 0 <= i < |r.1.value| ==> r.1.value[i] != '.'
    ensures r.1.Some? ==> |r.0| < |s| && s[..|r.0| + 1] == r.0 + "." && StartsWith(s[|r.0| + 1..], r.1.value)
  {
    match FirstDot(s)
    case None => (s, None)
    case Some(p) =>
      var rest := s[p + 1..];
      var second := match FirstDot(rest) case None => rest case Some(q) => rest[..q];
      assert s[..p + 1] == s[..p] + ".";
      (s[..p], Some(second))
  }

  // ------------------------------------------------------------ grouping

  /** Reference definition of the thousands grouping: a '.' goes before
      every block of three characters counted from the right. */
  function Grouped(s: string): (r: string)
    ensures |s| == 0 <==> |r| == 0
    ensures |s| > 0 ==> |r| == |s| + (|s| - 1) / 3
  {
    if |s| == 0 then ""
    else
      var t := s[1..];
      [s[0]] + (if |t| > 0 && |t| % 3 == 0 then "." else "") + Grouped(t)
  }

  /** The grouping loop of `format_ars`: walks the characters from the
      right, inserting '.' before every position that is a non-zero multiple
      of three. */
  method GroupThousands(entero: string) returns (r: string)
    ensures r == Grouped(entero)
  {
    r := "";
    var i := 0;
    while i < |entero|
      invariant 0 <= i <= |entero|
      invariant r == Grouped(entero[|entero| - i..])
    {
      var digit := entero[|entero| - 1 - i];
      var sep := if i > 0 && i % 3 == 0 then "." else "";
      GroupedStep(entero[|entero| - (i + 1)..], entero[|entero| - i..], digit, sep);
      r := [digit] + sep + r;
      i := i + 1;
    }
  }

  /** One step of the loop: the grouping of a string one character longer. */
  lemma GroupedStep(longer: string, s: string, c: char, sep: string)
    requires longer == [c] + s
    requires sep == if |s| > 0 && |s| % 3 == 0 then "." else ""
    ensures Grouped(longer) == [c] + sep + Grouped(s)
  {
    assert longer[0] == c && longer[1..] == s;
  }

  function RemoveDots(s: string): (r: string)
    ensures forall i :: 0 <= i < |r| ==> r[i] != '.'
  {
    if |s| == 0 then "" else (if s[0] == '.' then "" else [s[0]]) + RemoveDots(s[1..])
  }

  predicate NoDots(s: string) {
    forall i :: 0 <= i < |s| ==> s[i] != '.'
  }

  /** Deleting the separators gives back the original characters. */
  lemma {:induction false} GroupedRemoveDots(s: string)
    requires NoDots(s)
    ensures RemoveDots(Grouped(s)) == s
  {
    if |s| > 0 {
      var t := s[1..];
      assert NoDots(t) by {
        forall i | 0 <= i < |t| ensures t[i] != '.' { assert t[i] == s[i + 1]; }
      }
      GroupedRemoveDots(t);
      var head := [s[0]] + (if |t| > 0 && |t| % 3 == 0 then "." else "");
      assert Grouped(s) == head + Grouped(t);
      assert RemoveDots(head) == [s[0]] by {
        assert s[0] != '.';
        assert head[1..] == [] || head[1..] == ".";
        assert RemoveDots(".") == [];
      }
      RemoveDotsAppend(head, Grouped(t));
      assert s == [s[0]] + t;
    }
  }

  lemma {:induction false} RemoveDotsAppend(a: string, b: string)
    ensures RemoveDots(a + b) == RemoveDots(a) + RemoveDots(b)
  {
    if |a| > 0 {
      assert (a + b)[0] == a[0] && (a + b)[1..] == a[1..] + b;
      RemoveDotsAppend(a[1..], b);
    } else {
      assert a + b == b;
    }
  }

  /** Separators sit exactly at the positions 4, 8, 12, ... counted from the
      right (1-based), so every group but the first has three characters and
      the first has one to three. */
  predicate DotsEveryThree(r: string) {
    forall q :: 0 <= q < |r| ==> (r[q] == '.' <==> (|r| - 1 - q) % 4 == 3)
  }

  lemma {:induction false} GroupedDotPositions(s: string)
    requires NoDots(s)
    ensures DotsEveryThree(Grouped(s))
  {
    if |s| > 0 {
      var t := s[1..];
      var g := Grouped(t);
      var r := Grouped(s);
      GroupedDotPositions(t);
      var sep := if |t| > 0 && |t| % 3 == 0 then "." else "";
      assert r == [s[0]] + sep + g;
      var off := 1 + |sep|;
      assert |r| == off + |g|;
      forall q | 0 <= q < |r| ensures r[q] == '.' <==> (|r| - 1 - q) % 4 == 3 {
        if q >= off {
          assert r[q] == g[q - off];
          assert |r| - 1 - q == |g| - 1 - (q - off);
        } else if q == 0 {
          assert r[q] == s[0];
          FirstPosition(|t|);
        } else {
          assert |t| > 0 && |t| % 3 == 0;
          assert |r| - 1 - q == |g|;
        }
      }
    }
  }

  /** The arithmetic behind GroupedDotPositions for the first character. */
  lemma FirstPosition(n: nat)
    ensures var g := if n == 0 then 0 else n + (n - 1) / 3;
      var len := 1 + (if n > 0 && n % 3 == 0 then 1 else 0) + g;
      (len - 1) % 4 != 3 && (n > 0 && n % 3 == 0 ==> g % 4 == 3)
  {
  }

  // ------------------------------------------------------------ the filters

  /** A value handed to a filter: falsy (None, 0, ""), a number Decimal can
      read (possibly a string such as "0.0"), or something it cannot. */
  datatype TagValue = Falsy | Num(d: Dec) | Unreadable

  /** A filter's result: a string, or the input value itself when an
      exception was swallowed. */
  datatype TagResult = Text(s: string) | Unchanged

  /** The fraction shown: the first two characters after the first '.', not
      padded, or "00" when there is no '.'. */
  function FractionPart(text: string): (f: string)
    ensures |f| <= 2
    ensures FirstDot(text).None? ==> f == "00"
  {
    var (_, dec) := SplitDot(text);
    var frac := if dec.Some? then dec.value else "00";
    if |frac| <= 2 then frac else frac[..2]
  }

  /** `format_ars` as written: the integer part of `str(value)` — its sign
      included — is grouped, so a '-' counts as a digit. */
  function FormatArs(v: TagValue): (r: TagResult)
    ensures v.Falsy? ==> r == Text("$ 0,00")
    ensures v.Unreadable? ==> r == Unchanged
    ensures v.Num? ==> r.Text? && StartsWith(r.s, "$ ")
    ensures v.Num? ==> var (entero, _) := SplitDot(DecText(v.d));
      r.s == "$ " + Grouped(entero) + "," + FractionPart(DecText(v.d))
  {
    match v
    case Falsy => Text("$ 0,00")
    case Unreadable => Unchanged
    case Num(d) =>
      var text := DecText(d);
      var (entero, _) := SplitDot(text);
      Text("$ " + Grouped(entero) + "," + FractionPart(text))
  }

  /** Decimal("-123") formats as "$ -.123,00": the sign is grouped as a
      fourth digit. */
  lemma NegativeGroupedAsDigit()
    ensures FormatArs(Num(Dec(-123, 0))) == Text("$ -.123,00")
  {
    TextOfMinus123();
    NoDotInMinus123();
    GroupedMinus123();
  }

  lemma TextOfMinus123()
    ensures DecText(Dec(-123, 0)) == "-123"
  {
    assert NatToString(1) == "1";
    assert NatToString(12) == "12";
    assert NatToString(123) == "123";
  }

  lemma NoDotInMinus123()
    ensures SplitDot("-123") == ("-123", None)
    ensures FractionPart("-123") == "00"
  {
    assert FirstDot("-123") == None by {
      assert forall i :: 0 <= i < |"-123"| ==> "-123"[i] != '.';
    }
  }

  lemma GroupedMinus123()
    ensures Grouped("-123") == "-.123"
  {
    assert "-123"[1..] == "123" && "123"[1..] == "23" && "23"[1..] == "3" && "3"[1..] == "";
    assert Grouped("3") == "3";
    assert Grouped("23") == "23";
    assert Grouped("123") == "123";
  }

  /** The grouping the format intends: the sign stays in front and only the
      digits are grouped. */
  function FormatArsSigned(v: TagValue): (r: TagResult)
    ensures v.Falsy? ==> r == Text("$ 0,00")
    ensures v.Unreadable? ==> r == Unchanged
    ensures v.Num? && v.d.coef >= 0 ==> r == FormatArs(v)
    ensures v.Num? && v.d.coef < 0 ==> var (entero, _) := SplitDot(DecText(v.d));
      && |entero| > 0 && entero[0] == '-'
      && r.Text? && r.s == "$ -" + Grouped(entero[1..]) + "," + FractionPart(DecText(v.d))
  {
    match v
    case Falsy => Text("$ 0,00")
    case Unreadable => Unchanged
    case Num(d) =>
      var text := DecText(d);
      var (entero, _) := SplitDot(text);
      if d.coef < 0 then
        NegativeTextStartsWithSign(d);
        Text("$ -" + Grouped(entero[1..]) + "," + FractionPart(text))
      else Text("$ " + Grouped(entero) + "," + FractionPart(text))
  }

  /** The text of a negative decimal starts with '-' followed by a digit. */
  lemma NegativeTextStartsWithSign(d: Dec)
    requires d.coef < 0
    ensures var (entero, _) := SplitDot(DecText(d));
      |entero| >= 2 && entero[0] == '-' && IsDigit(entero[1])
  {
    var text := DecText(d);
    var digits := NatToString(Abs(d.coef));
    assert text[0] == '-' && IsDigit(text[1]);
    var (entero, rest) := SplitDot(text);
    assert text[1] != '.';
    if rest.Some? {
      assert FirstDot(text).value >= 2;
    }
  }

  /** In the corrected format the sign is never followed by a separator:
      the grouped part after "$ -" starts with a digit. */
  lemma SignedNeverSeparatesSign(d: Dec)
    requires d.coef < 0
    ensures var r := FormatArsSigned(Num(d));
      r.Text? && |r.s| > 3 && r.s[..3] == "$ -" && r.s[3] != '.'
  {
    NegativeTextStartsWithSign(d);
    var (entero, _) := SplitDot(DecText(d));
    var g := Grouped(entero[1..]);
    assert g[0] == entero[1..][0];
  }

  /** `to_ars`: "0.00" for a falsy value, the converted amount (ARS cents)
      otherwise; a value Decimal cannot read comes back unchanged. The quote
      is the caller's. */
  datatype ArsResult = ZeroText | Converted(cents: int) | ValueBack

  function ToArs(v: TagValue, rate: Dec): (r: ArsResult)
    ensures v.Falsy? <==> r == ZeroText
    ensures v.Unreadable? <==> r == ValueBack
    ensures v.Num? ==> r == Converted(ConvertUsdcToArs(Some(v.d), rate))
  {
    match v
    case Falsy => ZeroText
    case Unreadable => ValueBack
    case Num(d) => Converted(ConvertUsdcToArs(Some(d), rate))
  }
}
