/** Decimal rendering of integers: plain `String(n)` digits and the
    `en-US` locale form with a comma between every group of three digits. */
module NumberFormat {
  import opened Text

  function DigitChar(d: nat): (c: char)
    requires d < 10
    ensures IsAsciiDigit(c) && c as int - '0' as int == d
  {
    ('0' as int + d) as char
  }

  /** The decimal digits of `n`, most significant first, without leading zeros. */
  function Decimal(n: nat): (r: string)
    ensures |r| >= 1
    ensures forall i :: 0 <= i < |r| ==> IsAsciiDigit(r[i])
    ensures r[0] == '0' ==> n == 0
  {
    if n < 10 then [DigitChar(n)] else Decimal(n / 10) + [DigitChar(n % 10)]
  }

  /** Exactly three digits of `m`, padded with leading zeros. */
  function Pad3(m: nat): (r: string)
    requires m < 1000
    ensures |r| == 3 && forall i :: 0 <= i < 3 ==> IsAsciiDigit(r[i])
  {
    [DigitChar(m / 100), DigitChar(m / 10 % 10), DigitChar(m % 10)]
  }

  /** The digits of `n` with a comma before every group of three counted
      from the right, as `Number.prototype.toLocaleString('en-US')` writes
      a non-negative integer. */
  function Grouped(n: nat): (r: string)
    ensures |r| >= 1 && r[0] != ','
    ensures forall i :: 0 <= i < |r| ==> IsAsciiDigit(r[i]) || r[i] == ','
    ensures r[0] == '0' ==> n == 0
  {
    if n < 1000 then Decimal(n) else Grouped(n / 1000) + [','] + Pad3(n % 1000)
  }

  /** `String(n)` for an integer. */
  function IntToString(n: int): (r: string)
    ensures n >= 0 ==> |r| >= 1 && IsNumeral(r) && ValueOf(r) == n && (r[0] == '0' ==> n == 0)
    ensures n < 0 ==> |r| >= 2 && r[0] == '-' && r[1] != '0'
    ensures forall i :: 0 <= i < |r| ==> IsAsciiDigit(r[i]) || (i == 0 && r[i] == '-')
  {
    if n < 0 then "-" + Decimal(-n) else DecimalValue(n); Decimal(n)
  }

  /** `n.toLocaleString('en-US')` for an integer. */
  function LocaleInt(n: int): (r: string)
    ensures n >= 0 ==> IsNumeral(r) && ValueOf(r) == n
    ensures n < 0 ==> |r| >= 2 && r[0] == '-' && IsNumeral(r[1..]) && ValueOf(r[1..]) == -n
    ensures n >= 0 ==> r == Grouped(n)
    ensures n < 0 ==> r == "-" + Grouped(-n)
  {
    if n < 0 then
      GroupedValue(-n);
      assert ("-" + Grouped(-n))[1..] == Grouped(-n);
      "-" + Grouped(-n)
    else
      GroupedValue(n);
      Grouped(n)
  }

  predicate IsNumeral(s: string)
  {
    forall i :: 0 <= i < |s| ==> IsAsciiDigit(s[i]) || s[i] == ','
  }

  /** The number a string of digits denotes, commas being ignored: the
      reading a person gives `3,444`. */
  function ValueOf(s: string): nat
    requires IsNumeral(s)
  {
    if s == [] then 0
    else
      var last := s[|s| - 1];
      if last == ',' then ValueOf(s[..|s| - 1])
      else ValueOf(s[..|s| - 1]) * 10 + (last as int - '0' as int)
  }

  lemma {:induction false} ValueOfSnoc(s: string, c: char)
    requires IsNumeral(s) && (IsAsciiDigit(c) || c == ',')
    ensures IsNumeral(s + [c])
    ensures ValueOf(s + [c]) == if c == ',' then ValueOf(s) else ValueOf(s) * 10 + (c as int - '0' as int)
  {
    assert (s + [c])[..|s + [c]| - 1] == s;
  }

  /** Reading back the plain digits gives the number. */
  lemma {:induction false} DecimalValue(n: nat)
    ensures IsNumeral(Decimal(n)) && ValueOf(Decimal(n)) == n
  {
    if n >= 10 {
      DecimalValue(n / 10);
      ValueOfSnoc(Decimal(n / 10), DigitChar(n % 10));
    } else {
      ValueOfSnoc([], DigitChar(n));
      assert [] + [DigitChar(n)] == Decimal(n);
    }
  }

  /** Round trip: reading back the comma-grouped digits gives the number. */
  lemma {:induction false} GroupedValue(n: nat)
    ensures IsNumeral(Grouped(n)) && ValueOf(Grouped(n)) == n
  {
    if n < 1000 {
      DecimalValue(n);
    } else {
      GroupedValue(n / 1000);
      GroupValue(Grouped(n / 1000), n % 1000);
    }
  }

  /** Appending `,ddd` multiplies the value read so far by 1000 and adds `ddd`. */
  lemma {:induction false} GroupValue(head: string, m: nat)
    requires m < 1000 && IsNumeral(head)
    ensures IsNumeral(head + [','] + Pad3(m))
    ensures ValueOf(head + [','] + Pad3(m)) == ValueOf(head) * 1000 + m
  {
    var p := Pad3(m);
    var v := ValueOf(head);
    ValueOfSnoc(head, ',');
    ValueOfSnoc(head + [','], p[0]);
    ValueOfSnoc(head + [','] + [p[0]], p[1]);
    ValueOfSnoc(head + [','] + [p[0]] + [p[1]], p[2]);
    assert head + [','] + [p[0]] + [p[1]] + [p[2]] == head + [','] + p;
    var d0, d1, d2 := m / 100, m / 10 % 10, m % 10;
    assert ValueOf(head + [','] + p) == ((v * 10 + d0) * 10 + d1) * 10 + d2;
    assert ((v * 10 + d0) * 10 + d1) * 10 + d2 == v * 1000 + (d0 * 100 + d1 * 10 + d2);
    assert d0 * 100 + d1 * 10 + d2 == m;
  }

  /** The commas of `Grouped(n)` sit exactly at every fourth position counted
      from the end: one separator per group of three digits. */
  lemma {:induction false} GroupedShape(n: nat)
    ensures forall i :: 0 <= i < |Grouped(n)| ==> (Grouped(n)[i] == ',' <==> (|Grouped(n)| - i) % 4 == 0)
  {
    if n < 1000 {
      assert |Decimal(n)| <= 3 by { DecimalLength(n); }
    } else {
      GroupedShape(n / 1000);
      var head := Grouped(n / 1000);
      var r := Grouped(n);
      assert r == head + [','] + Pad3(n % 1000);
      forall i | 0 <= i < |r| ensures r[i] == ',' <==> (|r| - i) % 4 == 0 {
        if i < |head| {
          assert r[i] == head[i];
          assert |r| - i == (|head| - i) + 4;
        }
      }
    }
  }

  lemma {:induction false} DecimalLength(n: nat)
    ensures n < 1000 ==> |Decimal(n)| <= 3
  {
    if n >= 10 { DecimalLength(n / 10); }
  }
}
