/**
 * The raw-table preparation steps of the ingest script (scripts/ingest.py): column-name
 * normalisation, the 30-day readmission target, and numeric coercion of the key columns.
 * Every step works on a copy; here every frame is a value, so the input is never changed.
 */
module Ingest {
  import opened Wrappers
  import opened Frames
  import Validate

  // ---------------------------------------------------------------------------
  // Column names
  // ---------------------------------------------------------------------------

  /** Python's `str.isspace` for one character: the characters `str.strip()` removes. */
  predicate IsSpace(c: char)
  {
    c == ' ' || c == '\t' || c == '\n' || c == '\r' || c == '\U{000B}' || c == '\U{000C}'
    || ('\U{001C}' <= c <= '\U{001F}') || c == '\U{0085}' || c == '\U{00A0}' || c == '\U{1680}'
    || ('\U{2000}' <= c <= '\U{200A}') || c == '\U{2028}' || c == '\U{2029}' || c == '\U{202F}'
    || c == '\U{205F}' || c == '\U{3000}'
  }

  /** The length of the leading whitespace of `s`. */
  function LeadingSpaces(s: string): (n: nat)
    ensures n <= |s|
    ensures forall k :: 0 <= k < n ==> IsSpace(s[k])
    ensures n == |s| || !IsSpace(s[n])
    decreases |s|
  {
    if s != [] && IsSpace(s[0]) then 1 + LeadingSpaces(s[1..]) else 0
  }

  /** The length of the trailing whitespace of `s`. */
  function TrailingSpaces(s: string): (n: nat)
    ensures n <= |s|
    ensures forall k :: |s| - n <= k < |s| ==> IsSpace(s[k])
    ensures n == |s| || !IsSpace(s[|s| - n - 1])
    decreases |s|
  {
    if s != [] && IsSpace(s[|s| - 1]) then 1 + TrailingSpaces(s[..|s| - 1]) else 0
  }

  /**
   * `strip()`: the input with its leading and trailing whitespace removed. The result is the
   * slice that starts right after the leading whitespace, only whitespace lies around it, and it
   * neither starts nor ends with whitespace.
   */
  function Strip(s: string): (r: string)
    ensures |r| <= |s|
    ensures var i := LeadingSpaces(s);
            && i + |r| <= |s| && r == s[i..i + |r|]
            && (forall k :: 0 <= k < i ==> IsSpace(s[k]))
            && (forall k :: i + |r| <= k < |s| ==> IsSpace(s[k]))
    ensures r == [] || (!IsSpace(r[0]) && !IsSpace(r[|r| - 1]))
  {
    var i := LeadingSpaces(s);
    if i == |s| then []
    else
      var j := TrailingSpaces(s);
      assert !IsSpace(s[i]);
      s[i..|s| - j]
  }

  /** `upper()` of one character; only ASCII letters have a case here. */
  function UpperChar(c: char): char
  {
    if 'a' <= c <= 'z' then (c as int - 32) as char else c
  }

  function Upper(s: string): string
  {
    seq(|s|, k requires 0 <= k < |s| => UpperChar(s[k]))
  }

  /** `replace(from, to)` for single characters. */
  function Replace(s: string, from: char, to: char): string
  {
    seq(|s|, k requires 0 <= k < |s| => if s[k] == from then to else s[k])
  }

  /** The name normalisation of `standardize_columns`: strip, upper-case, then ' ' and '-' become '_'. */
  function Normalize(name: string): string
  {
    Replace(Replace(Upper(Strip(name)), ' ', '_'), '-', '_')
  }

  /** `standardize_columns`: every column name normalised, the cells untouched. */
  function StandardizeColumns(df: Frame): Frame
  {
    Frame(seq(|df.columns| , i requires 0 <= i < |df.columns| => Normalize(df.columns[i])), df.rows)
  }

  /** Stripping a string that has no outer whitespace leaves it as it is. */
  lemma StripUnchanged(s: string)
    requires s == [] || (!IsSpace(s[0]) && !IsSpace(s[|s| - 1]))
    ensures Strip(s) == s
  {
  }

  /** What normalisation does to one character of the stripped name. */
  function NormalizeChar(c: char): char
  {
    var u := UpperChar(c);
    if u == ' ' || u == '-' then '_' else u
  }

  /** Normalisation works character by character on the stripped name. */
  lemma NormalizePointwise(name: string)
    ensures |Normalize(name)| == |Strip(name)|
    ensures forall k :: 0 <= k < |Strip(name)| ==> Normalize(name)[k] == NormalizeChar(Strip(name)[k])
  {
  }

  /**
   * A normalised character is no space, hyphen or lower-case ASCII letter, is whitespace only
   * when it was left alone, and is its own normal form.
   */
  lemma NormalizeCharSpec(c: char)
    ensures var r := NormalizeChar(c);
            && r != ' ' && r != '-' && !('a' <= r <= 'z')
            && (IsSpace(r) ==> r == c)
            && NormalizeChar(r) == r
  {
    if 'a' <= c <= 'z' {
      assert 'A' <= UpperChar(c) <= 'Z';
    }
  }

  /**
   * A normalised name holds no space, hyphen or lower-case ASCII letter, does not start or end
   * with whitespace, and is no longer than the original.
   */
  lemma NormalizeShape(name: string)
    ensures var r := Normalize(name);
            && |r| <= |name|
            && ' ' !in r && '-' !in r
            && (forall k :: 0 <= k < |r| ==> !('a' <= r[k] <= 'z'))
            && (r == [] || (!IsSpace(r[0]) && !IsSpace(r[|r| - 1])))
  {
    var s := Strip(name);
    var r := Normalize(name);
    NormalizePointwise(name);
    forall k | 0 <= k < |r|
      ensures r[k] != ' ' && r[k] != '-' && !('a' <= r[k] <= 'z')
      ensures IsSpace(r[k]) ==> r[k] == s[k]
    {
      NormalizeCharSpec(s[k]);
    }
  }

  /** Normalising an already normalised name changes nothing. */
  lemma NormalizeIdempotent(name: string)
    ensures Normalize(Normalize(name)) == Normalize(name)
  {
    var r := Normalize(name);
    assert Strip(r) == r by {
      NormalizeShape(name);
      StripUnchanged(r);
    }
    assert |Normalize(r)| == |r| by {
      NormalizePointwise(r);
    }
    forall k | 0 <= k < |r|
      ensures Normalize(r)[k] == r[k]
    {
      NormalizePointwise(name);
      NormalizePointwise(r);
      NormalizeCharSpec(Strip(name)[k]);
    }
  }

  /** Every character of `s` is whitespace. */
  predicate AllSpace(s: string)
  {
    forall k :: 0 <= k < |s| ==> IsSpace(s[k])
  }

  /**
   * Two ways of cutting `x` into outer whitespace around a part that neither starts nor ends
   * with whitespace give the same part: `[i, i + n)` with `i` the end of the leading run,
   * and `[j, j + m)`.
   */
  lemma SameTrim(x: string, i: nat, n: nat, j: nat, m: nat)
    requires i + n <= |x| && j + m <= |x|
    requires forall k :: 0 <= k < i ==> IsSpace(x[k])
    requires i == |x| || !IsSpace(x[i])
    requires forall k :: i + n <= k < |x| ==> IsSpace(x[k])
    requires n == 0 || !IsSpace(x[i + n - 1])
    requires forall k :: 0 <= k < j ==> IsSpace(x[k])
    requires forall k :: j + m <= k < |x| ==> IsSpace(x[k])
    requires m == 0 || (!IsSpace(x[j]) && !IsSpace(x[j + m - 1]))
    ensures n == m && (m == 0 || i == j)
  {
    if m == 0 {
      assert forall k :: 0 <= k < |x| ==> IsSpace(x[k]);
    } else {
      assert !IsSpace(x[j]) && !IsSpace(x[j + m - 1]);
      if i < |x| {
        assert !IsSpace(x[i]);
      }
      if n > 0 {
        assert !IsSpace(x[i + n - 1]);
      }
    }
  }

  /**
   * `strip()` is determined by its contract: a string that is whitespace, then a part without
   * outer whitespace, then whitespace, strips to that part.
   */
  lemma StripUnique(p: string, r: string, q: string)
    requires AllSpace(p) && AllSpace(q)
    requires r == [] || (!IsSpace(r[0]) && !IsSpace(r[|r| - 1]))
    ensures Strip(p + r + q) == r
  {
    PaddedParts(p, r, q, 0, |r|);
    StripOfPadded(p + r + q, |p|, |r|);
  }

  /** A string that is whitespace outside `[j, j + m)`, a part without outer whitespace, strips to that part. */
  lemma StripOfPadded(x: string, j: nat, m: nat)
    requires j + m <= |x|
    requires forall k :: 0 <= k < j ==> IsSpace(x[k])
    requires forall k :: j + m <= k < |x| ==> IsSpace(x[k])
    requires m == 0 || (!IsSpace(x[j]) && !IsSpace(x[j + m - 1]))
    ensures Strip(x) == x[j..j + m]
  {
    var i := LeadingSpaces(x);
    var y := Strip(x);
    assert y == [] || !IsSpace(x[i + |y| - 1]) by {
      if y != [] {
        assert y[|y| - 1] == x[i + |y| - 1];
      }
    }
    SameTrim(x, i, |y|, j, m);
  }

  /**
   * Padding `s` with whitespace on both sides moves its part `[i, i + m)` right by `|a|`, and
   * whitespace around that part in `s` stays whitespace around it in the padded string.
   */
  lemma PaddedParts(a: string, s: string, b: string, i: nat, m: nat)
    requires AllSpace(a) && AllSpace(b) && i + m <= |s|
    requires forall k :: 0 <= k < i ==> IsSpace(s[k])
    requires forall k :: i + m <= k < |s| ==> IsSpace(s[k])
    ensures var x, j := a + s + b, |a| + i;
            && j + m <= |x| && x[j..j + m] == s[i..i + m]
            && (m > 0 ==> x[j] == s[i] && x[j + m - 1] == s[i + m - 1])
            && (forall k :: 0 <= k < j ==> IsSpace(x[k]))
            && (forall k :: j + m <= k < |x| ==> IsSpace(x[k]))
  {
    var x := a + s + b;
    forall k | 0 <= k < |a| + i
      ensures IsSpace(x[k])
    {
      if k >= |a| {
        assert x[k] == s[k - |a|];
      }
    }
    forall k | |a| + i + m <= k < |x|
      ensures IsSpace(x[k])
    {
      if k < |a| + |s| {
        assert x[k] == s[k - |a|];
      } else {
        assert x[k] == b[k - |a| - |s|];
      }
    }
    assert x[|a| + i..|a| + i + m] == s[i..i + m];
  }

  /** Whitespace around a name is dropped by `strip()`, whatever the name. */
  lemma StripOuterBlanks(a: string, s: string, b: string)
    requires AllSpace(a) && AllSpace(b)
    ensures Strip(a + s + b) == Strip(s)
  {
    var i := LeadingSpaces(s);
    var r := Strip(s);
    var x, j := a + s + b, |a| + i;
    assert r != [] ==> s[i] == r[0] && s[i + |r| - 1] == r[|r| - 1];
    PaddedParts(a, s, b, i, |r|);
    StripOfPadded(x, j, |r|);
    assert Strip(x) == x[j..j + |r|] == s[i..i + |r|] == r;
  }

  /** Padding a name with any whitespace on either side does not change its normal form. */
  lemma NormalizeOuterBlanks(a: string, s: string, b: string)
    requires AllSpace(a) && AllSpace(b)
    ensures Normalize(a + s + b) == Normalize(s)
  {
    StripOuterBlanks(a, s, b);
  }

  /** Hyphens and inner blanks both become underscores. */
  lemma NormalizeSeparatorExample()
    ensures Normalize("a-b c") == "A_B_C"
  {
    StripUnchanged("a-b c");
    assert UpperChar('a') == 'A' && UpperChar('b') == 'B' && UpperChar('c') == 'C';
    var v := Upper("a-b c");
    assert v[0] == 'A' && v[1] == '-' && v[2] == 'B' && v[3] == ' ' && v[4] == 'C';
    var w := Replace(Replace(v, ' ', '_'), '-', '_');
    assert w[0] == 'A' && w[1] == '_' && w[2] == 'B' && w[3] == '_' && w[4] == 'C';
  }

  /** `standardize_columns` keeps every row and every cell and normalises each name. */
  lemma StandardizeColumnsSpec(df: Frame)
    ensures var r := StandardizeColumns(df);
            && r.rows == df.rows && |r.columns| == |df.columns|
            && (Rectangular(df) ==> Rectangular(r))
            && (forall i :: 0 <= i < |r.columns| ==> ' ' !in r.columns[i] && '-' !in r.columns[i])
  {
    var r := StandardizeColumns(df);
    forall i | 0 <= i < |r.columns|
      ensures ' ' !in r.columns[i] && '-' !in r.columns[i]
    {
      NormalizeShape(df.columns[i]);
    }
  }

  /** Standardising the names twice is the same as once. */
  lemma StandardizeColumnsIdempotent(df: Frame)
    ensures StandardizeColumns(StandardizeColumns(df)) == StandardizeColumns(df)
  {
    var r := StandardizeColumns(df);
    forall i | 0 <= i < |r.columns|
      ensures Normalize(r.columns[i]) == r.columns[i]
    {
      NormalizeIdempotent(df.columns[i]);
    }
    assert StandardizeColumns(r).columns == r.columns;
  }

  // ---------------------------------------------------------------------------
  // The 30-day readmission target
  // ---------------------------------------------------------------------------

  const RawLabel: string := "READMITTED"
  const TargetCol: string := "READMITTED_30D"
  const MissingLabelMessage: string := "Expected column READMITTED in raw dataset"

  /** The raw label that means "readmitted within 30 days". */
  const Within30: string := "<30"

  /**
   * `build_traget_readmitted_30d`: the label column becomes its string form, and the target
   * is 1 where that string is "<30" and 0 elsewhere. Without a label column it raises.
   */
  function BuildTargetReadmitted30d(df: Frame): (r: Result<Frame, string>)
    requires Rectangular(df)
    ensures r.Failure? <==> RawLabel !in df.columns
    ensures r.Failure? ==> r.error == MissingLabelMessage
    ensures r.Success? ==> Rectangular(r.value) && |r.value.rows| == |df.rows|
    ensures r.Success? ==> r.value.columns == if TargetCol in df.columns then df.columns else df.columns + [TargetCol]
  {
    if RawLabel !in df.columns then Failure(MissingLabelMessage)
    else
      var raw := Column(df, RawLabel);
      var labels := seq(|df.rows|, i requires 0 <= i < |df.rows| => Text(Str(raw[i])));
      var withLabels := SetColumn(df, RawLabel, labels);
      var target := seq(|df.rows|, i requires 0 <= i < |df.rows| => if labels[i] == Text(Within30) then Num(1) else Num(0));
      Success(SetColumn(withLabels, TargetCol, target))
  }

  /**
   * The target is 1 exactly for the rows whose label reads "<30", the label column holds the
   * labels as strings, and every other column is unchanged.
   */
  lemma TargetSpec(df: Frame)
    requires Rectangular(df) && RawLabel in df.columns
    ensures var r := BuildTargetReadmitted30d(df).value;
            && (forall i :: 0 <= i < |df.rows| ==>
                  Column(r, TargetCol)[i] == (if Str(Column(df, RawLabel)[i]) == Within30 then Num(1) else Num(0)))
            && (forall i :: 0 <= i < |df.rows| ==> Column(r, RawLabel)[i] == Text(Str(Column(df, RawLabel)[i])))
            && (forall c :: c != RawLabel && c != TargetCol ==> Column(r, c) == Column(df, c))
  {
    var raw := Column(df, RawLabel);
    var labels := seq(|df.rows|, i requires 0 <= i < |df.rows| => Text(Str(raw[i])));
    var withLabels := SetColumn(df, RawLabel, labels);
    var target := seq(|df.rows|, i requires 0 <= i < |df.rows| => if labels[i] == Text(Within30) then Num(1) else Num(0));
    SetColumnSpec(df, RawLabel, labels);
    SetColumnSpec(withLabels, TargetCol, target);
  }

  /** The target built here always passes the validator's binary-target check. */
  lemma TargetIsBinary(df: Frame)
    requires Rectangular(df) && RawLabel in df.columns
    ensures Validate.NonBinary(Column(BuildTargetReadmitted30d(df).value, TargetCol)) == {}
  {
    var t := Column(BuildTargetReadmitted30d(df).value, TargetCol);
    TargetSpec(df);
    forall c | c in t
      ensures c == Num(0) || c == Num(1)
    {
    }
  }

  // ---------------------------------------------------------------------------
  // Numeric coercion
  // ---------------------------------------------------------------------------

  /** The columns `coerce_types` converts, in the order it visits them. */
  const CoercedColumns: seq<string> := ["ENCOUNTER_ID", "PATIENT_NBR", "TIME_IN_HOSPITAL"]

  predicate IsDigit(c: char)
  {
    '0' <= c <= '9'
  }

  function DigitValue(c: char): nat
    requires IsDigit(c)
  {
    c as int - '0' as int
  }

  /** The value of a string of decimal digits. */
  function DigitsValue(s: string): (v: nat)
    requires forall k :: 0 <= k < |s| ==> IsDigit(s[k])
    decreases |s|
  {
    if s == [] then 0
    else DigitsValue(s[..|s| - 1]) * 10 + DigitValue(s[|s| - 1])
  }

  predicate AllDigits(s: string)
  {
    s != [] && forall k :: 0 <= k < |s| ==> IsDigit(s[k])
  }

  /** An integer literal: an optional sign and one or more decimal digits. */
  function ParseInt(s: string): (r: Option<int>)
    ensures r.Some? <==> AllDigits(s) || (|s| > 1 && (s[0] == '-' || s[0] == '+') && AllDigits(s[1..]))
    ensures AllDigits(s) ==> r == Some(DigitsValue(s))
    ensures |s| > 1 && s[0] == '+' && AllDigits(s[1..]) ==> r == Some(DigitsValue(s[1..]))
    ensures |s| > 1 && s[0] == '-' && AllDigits(s[1..]) ==> r == Some(0 - DigitsValue(s[1..]))
  {
    if AllDigits(s) then Some(DigitsValue(s))
    else if |s| > 1 && s[0] == '-' && AllDigits(s[1..]) then Some(0 - DigitsValue(s[1..]))
    else if |s| > 1 && s[0] == '+' && AllDigits(s[1..]) then Some(DigitsValue(s[1..]))
    else None
  }

  /**
   * `pd.to_numeric(errors="coerce").astype("Int64")` on one cell: an integer stays, a missing
   * value stays missing, a string that spells an integer becomes it, and anything else
   * becomes missing.
   */
  function ToNumeric(c: Cell): (r: Cell)
    ensures r.Null? || r.Num?
    ensures c.Null? ==> r.Null?
    ensures c.Num? ==> r == c
    ensures c.Text? ==> (r.Null? <==> ParseInt(c.s).None?)
    ensures c.Text? && ParseInt(c.s).Some? ==> r == Num(ParseInt(c.s).value)
  {
    match c
    case Null => Null
    case Num(n) => Num(n)
    case Text(s) => match ParseInt(s) { case Some(n) => Num(n) case None => Null }
  }

  /** The digits of a natural number read back as that number. */
  lemma {:induction false} DigitsValueOfNat(n: nat)
    ensures DigitsValue(NatToString(n)) == n
    decreases n
  {
    var s := NatToString(n);
    if n < 10 {
      assert s == [DigitChar(n)];
      DigitOfChar(n);
    } else {
      var q, d := n / 10, n % 10;
      DigitsValueOfNat(q);
      assert s == NatToString(q) + [DigitChar(d)];
      assert s[..|s| - 1] == NatToString(q);
      DigitOfChar(d);
      assert DigitsValue(s) == q * 10 + d;
    }
  }

  /** The digit character of a value below ten reads back as that value. */
  lemma DigitOfChar(d: nat)
    requires d < 10
    ensures IsDigit(DigitChar(d)) && DigitValue(DigitChar(d)) == d
  {
  }

  /** Parsing a printed integer gives the integer back. */
  lemma ParsePrinted(n: int)
    ensures ParseInt(IntToString(n)) == Some(n)
    ensures ToNumeric(Text(IntToString(n))) == Num(n)
  {
    if n < 0 {
      ParsePrintedNegative(-n);
    } else {
      ParsePrintedNat(n);
    }
  }

  /** The printed form of a negative integer parses back to it. */
  lemma ParsePrintedNegative(m: int)
    requires m > 0
    ensures ParseInt(IntToString(-m)) == Some(-m)
  {
    assert IntToString(-m) == "-" + NatToString(m);
    ParsePrintedNat(m);
    ParseNegative(NatToString(m));
  }

  /** The digits of a natural number parse as that number. */
  lemma ParsePrintedNat(n: nat)
    ensures AllDigits(NatToString(n)) && DigitsValue(NatToString(n)) == n
    ensures ParseInt(NatToString(n)) == Some(n)
  {
    DigitsValueOfNat(n);
  }

  /** A minus sign followed by digits parses as the negated digit value. */
  lemma ParseNegative(digits: string)
    requires AllDigits(digits)
    ensures ParseInt("-" + digits) == Some(0 - DigitsValue(digits))
  {
    var s := "-" + digits;
    assert s[1..] == digits;
    assert !IsDigit(s[0]);
  }

  /** Converting twice is converting once. */
  lemma ToNumericIdempotent(c: Cell)
    ensures ToNumeric(ToNumeric(c)) == ToNumeric(c)
  {
  }

  function MapToNumeric(cells: seq<Cell>): (r: seq<Cell>)
    ensures |r| == |cells|
  {
    seq(|cells|, i requires 0 <= i < |cells| => ToNumeric(cells[i]))
  }

  /** One step of the loop: convert column `c` if the frame has it. */
  function CoerceColumn(df: Frame, c: string): (r: Frame)
    requires Rectangular(df)
    ensures Rectangular(r) && r.columns == df.columns && |r.rows| == |df.rows|
  {
    if c in df.columns then SetColumn(df, c, MapToNumeric(Column(df, c))) else df
  }

  /** The loop over `names`, one column after another. */
  function CoerceAll(df: Frame, names: seq<string>): (r: Frame)
    requires Rectangular(df)
    ensures Rectangular(r) && r.columns == df.columns && |r.rows| == |df.rows|
    decreases |names|
  {
    if names == [] then df
    else CoerceColumn(CoerceAll(df, names[..|names| - 1]), names[|names| - 1])
  }

  /** A listed column that is present holds its converted cells; every other column is unchanged. */
  lemma {:induction false} CoerceAllSpec(df: Frame, names: seq<string>)
    requires Rectangular(df)
    ensures forall c :: c in names && c in df.columns ==> Column(CoerceAll(df, names), c) == MapToNumeric(Column(df, c))
    ensures forall c :: c !in names ==> Column(CoerceAll(df, names), c) == Column(df, c)
    decreases |names|
  {
    if names != [] {
      var n := |names| - 1;
      var prev := CoerceAll(df, names[..n]);
      CoerceAllSpec(df, names[..n]);
      var last := names[n];
      if last in prev.columns {
        SetColumnSpec(prev, last, MapToNumeric(Column(prev, last)));
      }
      forall c | c in names && c in df.columns
        ensures Column(CoerceAll(df, names), c) == MapToNumeric(Column(df, c))
      {
        if c == last && c in names[..n] {
          forall i | 0 <= i < |df.rows|
            ensures ToNumeric(MapToNumeric(Column(df, c))[i]) == MapToNumeric(Column(df, c))[i]
          {
            ToNumericIdempotent(Column(df, c)[i]);
          }
        }
        if c != last {
          assert c in names[..n];
        }
      }
      forall c | c !in names
        ensures Column(CoerceAll(df, names), c) == Column(df, c)
      {
        assert c !in names[..n];
      }
    }
  }

  /**
   * `coerce_types`: converts ENCOUNTER_ID, PATIENT_NBR and TIME_IN_HOSPITAL where present,
   * skips the absent ones, and leaves every other column as it was.
   */
  method CoerceTypes(df: Frame) returns (r: Frame)
    requires Rectangular(df)
    ensures r == CoerceAll(df, CoercedColumns)
    ensures Rectangular(r) && r.columns == df.columns && |r.rows| == |df.rows|
    ensures forall c :: c in CoercedColumns && c in df.columns ==> Column(r, c) == MapToNumeric(Column(df, c))
    ensures forall c :: c !in CoercedColumns ==> Column(r, c) == Column(df, c)
  {
    r := df;
    for i := 0 to |CoercedColumns|
      invariant Rectangular(r)
      invariant r == CoerceAll(df, CoercedColumns[..i])
    {
      assert CoercedColumns[..i + 1][..i] == CoercedColumns[..i];
      var c := CoercedColumns[i];
      if c in r.columns {
        r := SetColumn(r, c, MapToNumeric(Column(r, c)));
      }
    }
    assert CoercedColumns[..|CoercedColumns|] == CoercedColumns;
    CoerceAllSpec(df, CoercedColumns);
  }

  /** After coercion the key columns hold only integers and missing values, and coercing again changes no column. */
  lemma CoerceTypesIdempotent(df: Frame)
    requires Rectangular(df)
    ensures var r := CoerceAll(df, CoercedColumns);
            && (forall c, i :: c in CoercedColumns && c in df.columns && 0 <= i < |df.rows| ==>
                  Column(r, c)[i].Null? || Column(r, c)[i].Num?)
            && (forall c :: Column(CoerceAll(r, CoercedColumns), c) == Column(r, c))
  {
    var r := CoerceAll(df, CoercedColumns);
    CoerceAllSpec(df, CoercedColumns);
    CoerceAllSpec(r, CoercedColumns);
    forall c | c in CoercedColumns && c in df.columns
      ensures MapToNumeric(Column(r, c)) == Column(r, c)
    {
      forall i | 0 <= i < |df.rows|
        ensures ToNumeric(MapToNumeric(Column(df, c))[i]) == MapToNumeric(Column(df, c))[i]
      {
        ToNumericIdempotent(Column(df, c)[i]);
      }
    }
  }
}
