/** Exact display of a token amount: an integer count of base units as decimal text. */
module FormatUnits {
  import opened Options
  import opened Numerals
  import opened DecimalText

  function TrimZeros(s: string): (t: string)
    ensures t <= s && (t != "" ==> t[|t| - 1] != '0')
  {
    if s != "" && s[|s| - 1] == '0' then TrimZeros(s[..|s| - 1]) else s
  }

  /** Padded on the left with zeros to at least this width. */
  function PadLeft(s: string, width: nat): (t: string)
    ensures |t| == if |s| < width then width else |s|
  {
    if |s| < width then Zeros(width - |s|) + s else s
  }

  function Signed(value: int): string {
    if value < 0 then "-" + Decimal(-value) else Decimal(value)
  }

  function Magnitude(value: int): nat { if value < 0 then -value else value }

  /** The digits, wide enough for at least one before the point. */
  function Padded(value: int, decimals: nat): (s: string)
    ensures |s| > decimals
  {
    PadLeft(Decimal(Magnitude(value)), decimals + 1)
  }

  function Joined(whole: string, fraction: string): string {
    if fraction == "" then whole else whole + "." + fraction
  }

  /** The text without its sign. */
  function Unsigned(value: int, decimals: nat): string {
    var s := Padded(value, decimals);
    Joined(s[..|s| - decimals], TrimZeros(s[|s| - decimals..]))
  }

  function Format(value: int, decimals: int): string {
    if decimals <= 0 then Signed(value)
    else if value == 0 then "0"
    else (if value < 0 then "-" else "") + Unsigned(value, decimals)
  }

  // ----- what decimal text means -----

  /** The first decimal point, or the end. */
  function PointAt(s: string): (i: nat)
    ensures i <= |s| && (i < |s| ==> s[i] == '.') && forall k :: 0 <= k < i ==> s[k] != '.'
  {
    if s == "" then 0 else if s[0] == '.' then 0 else 1 + PointAt(s[1..])
  }

  /** Unsigned text w or w.f scaled by 10^decimals, when that is an integer as written. */
  function ReadUnsigned(s: string, decimals: nat): Option<nat> {
    var point := PointAt(s);
    var whole, fraction := s[..point], if point < |s| then s[point + 1..] else "";
    if whole == "" || !AllDigits(whole) || !AllDigits(fraction) || |fraction| > decimals then None
    else Some(Parse(whole) * Pow(10, decimals) + Parse(fraction) * Pow(10, decimals - |fraction|))
  }

  function Read(s: string, decimals: nat): Option<int> {
    if s != "" && s[0] == '-' then
      match ReadUnsigned(s[1..], decimals)
      case Some(v) => var n: int := v; Some(-n)
      case None => None
    else
      match ReadUnsigned(s, decimals)
      case Some(v) => Some(v)
      case None => None
  }

  lemma {:induction false} TrimmedValue(s: string)
    ensures Parse(s) == Parse(TrimZeros(s)) * Pow(10, |s| - |TrimZeros(s)|)
  {
    if s != "" && s[|s| - 1] == '0' {
      var init := s[..|s| - 1];
      TrimmedValue(init);
      var t := TrimZeros(init);
      Shift(Parse(t), Pow(10, |init| - |t|));
    }
  }

  lemma Shift(v: nat, p: nat)
    ensures v * p * 10 == v * (10 * p)
  {}

  lemma PointAtOf(whole: string, fraction: string)
    requires AllDigits(whole)
    ensures PointAt(Joined(whole, fraction)) == |whole|
  {
    var s := Joined(whole, fraction);
    assert fraction != "" ==> s[|whole|] == '.';
    assert forall k :: 0 <= k < |whole| ==> s[k] == whole[k] && IsDigit(whole[k]);
  }

  lemma PaddedValue(n: nat, width: nat)
    ensures AllDigits(PadLeft(Decimal(n), width)) && Parse(PadLeft(Decimal(n), width)) == n
  {
    ParseDecimal(n);
    var s := Decimal(n);
    hide Decimal, Parse;
    if |s| < width {
      ParseZeros(width - |s|);
      ParseAppend(Zeros(width - |s|), s);
    }
  }

  lemma ReadJoined(whole: string, fraction: string, decimals: nat)
    requires whole != "" && AllDigits(whole) && AllDigits(fraction) && |fraction| <= decimals
    ensures ReadUnsigned(Joined(whole, fraction), decimals)
            == Some(Parse(whole) * Pow(10, decimals) + Parse(fraction) * Pow(10, decimals - |fraction|))
  {
    hide Parse, Pow, PointAt, AllDigits;
    PointAtOf(whole, fraction);
    var s := Joined(whole, fraction);
    assert s[..|whole|] == whole;
    assert fraction != "" ==> s[|whole| + 1..] == fraction;
  }

  lemma SplitValue(s: string, decimals: nat)
    requires |s| > decimals
    ensures var whole, trimmed := s[..|s| - decimals], TrimZeros(s[|s| - decimals..]);
            Parse(s) == Parse(whole) * Pow(10, decimals) + Parse(trimmed) * Pow(10, decimals - |trimmed|)
  {
    hide Parse, Pow, TrimZeros;
    var whole, fraction := s[..|s| - decimals], s[|s| - decimals..];
    assert s == whole + fraction;
    ParseAppend(whole, fraction);
    TrimmedValue(fraction);
  }

  lemma JoinedStart(whole: string, fraction: string)
    requires whole != ""
    ensures Joined(whole, fraction) != "" && Joined(whole, fraction)[0] == whole[0]
  {}

  lemma SplitReadsBack(s: string, whole: string, trimmed: string, decimals: nat)
    requires AllDigits(s) && |s| > decimals
    requires whole == s[..|s| - decimals] && trimmed == TrimZeros(s[|s| - decimals..])
    ensures ReadUnsigned(Joined(whole, trimmed), decimals) == Some(Parse(s))
    ensures whole != "" && IsDigit(whole[0]) && AllDigits(trimmed) && AllDigits(whole)
  {
    hide Parse, Pow, TrimZeros, ReadUnsigned, Joined;
    assert trimmed <= s[|s| - decimals..];
    SplitValue(s, decimals);
    ReadJoined(whole, trimmed, decimals);
  }

  /** The digits of an amount, and the two parts its text is joined from. */
  lemma UnsignedParts(value: int, decimals: nat) returns (s: string, whole: string, trimmed: string)
    ensures AllDigits(s) && |s| > decimals && Parse(s) == Magnitude(value)
    ensures whole == s[..|s| - decimals] && trimmed == TrimZeros(s[|s| - decimals..])
    ensures trimmed != "" ==> trimmed[|trimmed| - 1] != '0'
    ensures Unsigned(value, decimals) == Joined(whole, trimmed)
  {
    hide Parse, Joined, Decimal;
    PaddedValue(Magnitude(value), decimals + 1);
    s := Padded(value, decimals);
    whole, trimmed := s[..|s| - decimals], TrimZeros(s[|s| - decimals..]);
  }

  lemma UnsignedReadsBack(value: int, decimals: nat)
    ensures ReadUnsigned(Unsigned(value, decimals), decimals) == Some(Magnitude(value))
    ensures Unsigned(value, decimals) != "" && IsDigit(Unsigned(value, decimals)[0])
  {
    hide Parse, Pow, TrimZeros, PadLeft, Decimal, ReadUnsigned, Joined, AllDigits, IsDigit, Unsigned, Padded, Magnitude;
    var s, whole, trimmed := UnsignedParts(value, decimals);
    SplitReadsBack(s, whole, trimmed, decimals);
    JoinedStart(whole, trimmed);
  }

  lemma ZeroReadsBack(decimals: nat)
    ensures ReadUnsigned("0", decimals) == Some(0)
  {
    ReadJoined("0", "", decimals);
    assert Parse("0"[..0]) == 0 && Parse("0") == 0 && Parse("") == 0;
    hide Pow, Parse, ReadUnsigned;
  }

  /** For every value and every positive number of decimals: reading the text as a decimal and
      scaling it gives the value back. */
  lemma ReadsBack(value: int, decimals: nat)
    requires decimals > 0
    ensures Read(Format(value, decimals), decimals) == Some(value)
  {
    hide Read, ReadUnsigned, Unsigned, Signed;
    if value == 0 {
      ZeroReadsBack(decimals);
      SignedReads("0", 0, decimals);
    } else {
      var text := Unsigned(value, decimals);
      UnsignedReadsBack(value, decimals);
      SignedReads(text, Magnitude(value), decimals);
    }
  }

  lemma SignedReads(text: string, v: int, decimals: nat)
    requires ReadUnsigned(text, decimals).Some? && ReadUnsigned(text, decimals).value == v
    requires text != "" && IsDigit(text[0])
    ensures Read("-" + text, decimals) == Some(-v) && Read("" + text, decimals) == Some(v)
        && Read(text, decimals) == Some(v)
  {
    hide ReadUnsigned;
    assert ("-" + text)[1..] == text && "" + text == text;
  }

  /** A point is written only before a fraction that is not zero, and that never ends in zero. */
  lemma NoIdleZeros(value: int, decimals: nat)
    requires decimals > 0
    ensures var s := Format(value, decimals);
            PointAt(s) < |s| ==> PointAt(s) + 1 < |s| && IsDigit(s[|s| - 1]) && s[|s| - 1] != '0'
  {
    if value == 0 {
      PointAtOf("0", "");
    } else {
      UnsignedPoint(value, decimals);
      hide Parse, Pow, Unsigned;
      var text := Unsigned(value, decimals);
      if value < 0 {
        assert ("-" + text)[1..] == text;
      } else {
        assert "" + text == text;
      }
    }
  }

  lemma UnsignedPoint(value: int, decimals: nat)
    ensures var s := Unsigned(value, decimals);
            PointAt(s) < |s| ==> PointAt(s) + 1 < |s| && IsDigit(s[|s| - 1]) && s[|s| - 1] != '0'
  {
    hide Parse, Pow, TrimZeros, PadLeft, Decimal, ReadUnsigned, Joined, AllDigits, IsDigit, Unsigned, PointAt, Padded,
      Magnitude;
    var s, whole, trimmed := UnsignedParts(value, decimals);
    SplitReadsBack(s, whole, trimmed, decimals);
    JoinedPoint(whole, trimmed);
  }

  lemma JoinedPoint(whole: string, fraction: string)
    requires AllDigits(whole) && AllDigits(fraction) && (fraction != "" ==> fraction[|fraction| - 1] != '0')
    ensures var s := Joined(whole, fraction);
            PointAt(s) < |s| ==> PointAt(s) + 1 < |s| && IsDigit(s[|s| - 1]) && s[|s| - 1] != '0'
  {
    hide PointAt;
    PointAtOf(whole, fraction);
    JoinedEnd(whole, fraction);
  }

  lemma JoinedEnd(whole: string, fraction: string)
    requires AllDigits(fraction)
    ensures var s := Joined(whole, fraction);
            if fraction == "" then |s| == |whole|
            else |s| == |whole| + 1 + |fraction| && s[|s| - 1] == fraction[|fraction| - 1] && IsDigit(s[|s| - 1])
  {}

  lemma {:induction false} NoLeadingZero(n: nat)
    ensures Decimal(n)[0] == '0' ==> Decimal(n) == "0"
    ensures n > 0 ==> Decimal(n)[0] != '0'
  {
    if n >= 10 {
      NoLeadingZero(n / 10);
    }
  }

  /** A minus sign is written exactly for a negative value, and no zero in front of another digit;
      without decimals the text is the number itself. */
  lemma NoIdleFront(value: int, decimals: int)
    ensures var s := Format(value, decimals);
            && s != "" && (s[0] == '-' <==> value < 0)
            && var body := if value < 0 then s[1..] else s;
            && body != "" && IsDigit(body[0]) && (body[0] == '0' && |body| > 1 ==> body[1] == '.')
            && (decimals <= 0 ==> body == Decimal(if value < 0 then -value else value))
  {
    NoLeadingZero(Magnitude(value));
    if decimals > 0 && value != 0 {
      UnsignedFront(value, decimals);
      hide Unsigned, Decimal;
      assert ("-" + Unsigned(value, decimals))[1..] == Unsigned(value, decimals);
      assert "" + Unsigned(value, decimals) == Unsigned(value, decimals);
    } else {
      hide Decimal;
      assert ("-" + Decimal(Magnitude(value)))[1..] == Decimal(Magnitude(value));
    }
  }

  lemma UnsignedFront(value: int, decimals: nat)
    ensures var s := Unsigned(value, decimals);
            s != "" && IsDigit(s[0]) && (s[0] == '0' && |s| > 1 ==> s[1] == '.')
  {
    var digits := Decimal(Magnitude(value));
    NoLeadingZero(Magnitude(value));
    hide Decimal, TrimZeros;
    var s := Padded(value, decimals);
    var whole, fraction := s[..|s| - decimals], TrimZeros(s[|s| - decimals..]);
    if |digits| >= decimals + 1 {
      assert whole[0] == digits[0];
    } else {
      assert s[0] == '0' && |whole| == 1;
    }
  }

  /** Different amounts never look the same. */
  lemma FormatInjective(a: int, b: int, decimals: nat)
    requires decimals > 0 && Format(a, decimals) == Format(b, decimals)
    ensures a == b
  {
    ReadsBack(a, decimals);
    ReadsBack(b, decimals);
  }
}
