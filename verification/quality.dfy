/** The pngquant-style quality range ("min-max") and the single lossy quality
    derived from it (src/main.rs, `parse_quality_range` and the midpoint in
    `compress_image_inproc`). */
module Quality {
  import opened Basics

  /** The parsed pair; `min <= max` is a convention, never checked. */
  datatype QualityRange = QualityRange(min: uint8, max: uint8)

  const DefaultMin: uint8 := 50
  const DefaultMax: uint8 := 80

  /** `str::split(sep)`: the fields between occurrences of `sep`; there is always
      at least one field, the empty string for empty input. */
  function Split(s: string, sep: char): (fields: seq<string>)
    ensures |fields| >= 1
  {
    if s == [] then [""]
    else
      var rest := Split(s[1..], sep);
      if s[0] == sep then [""] + rest else [[s[0]] + rest[0]] + rest[1..]
  }

  /** Text without a separator is a single field. */
  lemma {:induction false} SplitWithoutSeparator(x: string, sep: char)
    requires sep !in x
    ensures Split(x, sep) == [x]
  {
    if x != [] {
      assert sep !in x[1..];
      SplitWithoutSeparator(x[1..], sep);
      assert [x[0]] + x[1..] == x;
    }
  }

  /** The first separator ends the first field; the rest splits on its own. */
  lemma {:induction false} SplitAtFirstSeparator(x: string, y: string, sep: char)
    requires sep !in x
    ensures Split(x + [sep] + y, sep) == [x] + Split(y, sep)
  {
    var s := x + [sep] + y;
    if x == [] {
      assert s == [sep] + y;
      assert s[1..] == y;
    } else {
      assert s[0] == x[0];
      assert s[1..] == x[1..] + [sep] + y;
      assert sep !in x[1..];
      SplitAtFirstSeparator(x[1..], y, sep);
      assert [x[0]] + x[1..] == x;
    }
  }

  predicate IsDigit(c: char) {
    '0' <= c <= '9'
  }

  predicate IsDigits(s: string) {
    forall i :: 0 <= i < |s| ==> IsDigit(s[i])
  }

  /** The decimal value of a string of ASCII digits (leading zeros allowed). */
  function DigitsValue(s: string): nat
    requires IsDigits(s)
  {
    if s == [] then 0
    else DigitsValue(s[..|s| - 1]) * 10 + (s[|s| - 1] as int - '0' as int)
  }

  /** `str::parse::<u8>`: an optional leading `+`, then at least one ASCII digit,
      with a value of at most 255. Anything else (empty text, a sign alone, a `-`,
      a space, an overflowing value) is rejected. */
  function ParseU8(s: string): (r: Option<uint8>)
    ensures r.Some? ==> s != [] && (IsDigit(s[0]) || s[0] == '+')
  {
    var digits := if |s| > 1 && s[0] == '+' then s[1..] else s;
    if digits != [] && IsDigits(digits) && DigitsValue(digits) <= 255
    then Some(DigitsValue(digits))
    else None
  }

  /** Only digits, with an optional `+` in front, are accepted, and the result is
      their decimal value. */
  lemma ParseU8AcceptsOnlyDigits(s: string)
    requires ParseU8(s).Some?
    ensures exists d :: (s == d || s == "+" + d) && d != [] && IsDigits(d) && ParseU8(s).value == DigitsValue(d)
  {
    var digits := if |s| > 1 && s[0] == '+' then s[1..] else s;
    assert s == digits || s == "+" + digits;
  }

  /** Every digit string that fits in a `u8` parses to its value, with or without a `+`. */
  lemma ParseU8OfDigits(x: string)
    requires x != [] && IsDigits(x) && DigitsValue(x) <= 255
    ensures ParseU8(x) == Some(DigitsValue(x))
    ensures ParseU8("+" + x) == Some(DigitsValue(x))
  {
    assert ("+" + x)[1..] == x;
  }

  /** `parse_quality_range`: split on `-`; the first field gives `min` (default 50),
      the second gives `max` (default 80); each falls back on its own and parsing
      never fails. */
  function ParseQualityRange(s: string): QualityRange {
    var parts := Split(s, '-');
    var min := ParseU8(parts[0]).GetOr(DefaultMin);
    var max := if |parts| > 1 then ParseU8(parts[1]).GetOr(DefaultMax) else DefaultMax;
    QualityRange(min, max)
  }

  /** Text with a `-`: the fields before the first and the second `-` are parsed
      independently; anything after a second `-` is ignored. */
  lemma ParseQualityRangeOfPair(x: string, y: string, rest: string)
    requires '-' !in x && '-' !in y
    requires rest == [] || rest[0] == '-'
    ensures ParseQualityRange(x + "-" + y + rest)
         == QualityRange(ParseU8(x).GetOr(DefaultMin), ParseU8(y).GetOr(DefaultMax))
  {
    var s := x + "-" + y + rest;
    assert s == x + ['-'] + (y + rest);
    SplitAtFirstSeparator(x, y + rest, '-');
    if rest == [] {
      assert y + rest == y;
      SplitWithoutSeparator(y, '-');
    } else {
      assert y + rest == y + ['-'] + rest[1..];
      SplitAtFirstSeparator(y, rest[1..], '-');
    }
  }

  /** Text without a `-`: it gives `min`; `max` is always the default 80. */
  lemma ParseQualityRangeOfSingle(x: string)
    requires '-' !in x
    ensures ParseQualityRange(x) == QualityRange(ParseU8(x).GetOr(DefaultMin), DefaultMax)
  {
    SplitWithoutSeparator(x, '-');
  }

  /** Two `u8` digit strings joined by `-` come back exactly. */
  lemma ParseQualityRangeExact(a: string, b: string)
    requires a != [] && IsDigits(a) && DigitsValue(a) <= 255
    requires b != [] && IsDigits(b) && DigitsValue(b) <= 255
    ensures ParseQualityRange(a + "-" + b) == QualityRange(DigitsValue(a), DigitsValue(b))
  {
    ParseQualityRangeOfPair(a, b, "");
    assert a + "-" + b + "" == a + "-" + b;
  }

  /** The value of a two-digit string, spelled out for literal arguments. */
  lemma TwoDigitsValue(s: string)
    requires |s| == 2 && IsDigits(s)
    ensures DigitsValue(s) == (s[0] as int - '0' as int) * 10 + (s[1] as int - '0' as int)
  {
    var a := s[..1];
    assert a[..0] == [] && a[0] == s[0];
    assert DigitsValue(a) == s[0] as int - '0' as int;
    assert s[..|s| - 1] == a;
  }

  /** The cases the source's own unit test checks (src/main.rs:919-926), plus
      two more defaulting ones: an empty string, and an empty first field. */
  lemma ParseQualityRangeExamples()
    ensures ParseQualityRange("50-80") == QualityRange(50, 80)
    ensures ParseQualityRange("40-70") == QualityRange(40, 70)
    ensures ParseQualityRange("20-60") == QualityRange(20, 60)
    ensures ParseQualityRange("70-90") == QualityRange(70, 90)
    ensures ParseQualityRange("60") == QualityRange(60, 80)
    ensures ParseQualityRange("invalid") == QualityRange(50, 80)
    ensures ParseQualityRange("") == QualityRange(50, 80)
    ensures ParseQualityRange("-90") == QualityRange(50, 90)
  {
    Example5080();
    Example4070();
    Example2060();
    Example7090();
    ExampleSingle();
    ExampleInvalid();
    ParseQualityRangeOfSingle("");
    ExampleMissingMin();
  }

  // One literal per lemma keeps each proof small.
  lemma Example5080()
    ensures ParseQualityRange("50-80") == QualityRange(50, 80)
  {
    ExamplePair("50", "80");
    assert "50" + "-" + "80" == "50-80";
  }

  lemma Example4070()
    ensures ParseQualityRange("40-70") == QualityRange(40, 70)
  {
    ExamplePair("40", "70");
    assert "40" + "-" + "70" == "40-70";
  }

  lemma Example2060()
    ensures ParseQualityRange("20-60") == QualityRange(20, 60)
  {
    ExamplePair("20", "60");
    assert "20" + "-" + "60" == "20-60";
  }

  lemma Example7090()
    ensures ParseQualityRange("70-90") == QualityRange(70, 90)
  {
    ExamplePair("70", "90");
    assert "70" + "-" + "90" == "70-90";
  }

  lemma ExampleSingle()
    ensures ParseQualityRange("60") == QualityRange(60, 80)
  {
    TwoDigitsValue("60");
    ParseQualityRangeOfSingle("60");
  }

  lemma ExampleInvalid()
    ensures ParseQualityRange("invalid") == QualityRange(50, 80)
  {
    ParseQualityRangeOfSingle("invalid");
    assert !IsDigit("invalid"[0]);
  }

  lemma ExampleMissingMin()
    ensures ParseQualityRange("-90") == QualityRange(50, 90)
  {
    TwoDigitsValue("90");
    ParseQualityRangeOfPair("", "90", "");
    assert "" + "-" + "90" + "" == "-90";
  }

  lemma ExamplePair(a: string, b: string)
    requires |a| == 2 && IsDigits(a) && |b| == 2 && IsDigits(b)
    ensures ParseQualityRange(a + "-" + b)
         == QualityRange((a[0] as int - '0' as int) * 10 + (a[1] as int - '0' as int),
                         (b[0] as int - '0' as int) * 10 + (b[1] as int - '0' as int))
  {
    TwoDigitsValue(a);
    TwoDigitsValue(b);
    ParseQualityRangeExact(a, b);
  }

  /** The shared lossy quality for WebP, JPEG and AVIF: the midpoint of the range,
      computed without overflow. It always lies between the two bounds, whichever
      order they come in. */
  function Midpoint(q: QualityRange): (m: uint8)
    ensures q.min <= q.max ==> q.min <= m <= q.max
    ensures q.max <= q.min ==> q.max <= m <= q.min
  {
    (q.min + q.max) / 2
  }

  /** `(min_q + max_q) / 2` as the source writes it: a `u8` addition, which wraps
      (release build) once the sum passes 255. */
  function MidpointAsWritten(q: QualityRange): (m: uint8)
    ensures m <= 127
  {
    ((q.min + q.max) % 0x100) / 2
  }

  /** Without overflow the source's arithmetic is the midpoint. */
  lemma MidpointAsWrittenWithoutOverflow(q: QualityRange)
    requires q.min + q.max <= 255
    ensures MidpointAsWritten(q) == Midpoint(q)
  {
    assert (q.min + q.max) % 0x100 == q.min + q.max;
  }

  /** With overflow the source's value falls below both bounds, so it is never
      the midpoint: "200-200" gives 72, not 200. */
  lemma MidpointAsWrittenOverflow(q: QualityRange)
    requires q.min + q.max > 255
    ensures MidpointAsWritten(q) < q.min && MidpointAsWritten(q) < q.max
    ensures MidpointAsWritten(q) != Midpoint(q)
  {
  }

  /** The concrete input that shows the overflow. */
  lemma MidpointOverflowExample()
    ensures ParseQualityRange("200-200") == QualityRange(200, 200)
    ensures MidpointAsWritten(QualityRange(200, 200)) == 72
    ensures Midpoint(QualityRange(200, 200)) == 200
  {
    Example200200();
  }

  lemma Example200200()
    ensures ParseQualityRange("200-200") == QualityRange(200, 200)
  {
    var d := "200";
    TwoDigitsValue("20");
    assert d[..|d| - 1] == "20";
    assert DigitsValue(d) == 200;
    ParseQualityRangeExact(d, d);
    assert d + "-" + d == "200-200";
  }
}
