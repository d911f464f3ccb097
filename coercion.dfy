/**
 * Lenient integer coercion of CSV cells: to_int_or_none in
 * django_backend/core/management/commands/load_items.py, together with the
 * part of Python's int() on a str that it relies on (base 10).
 */
module Coercion {
  import opened Wrappers

  predicate IsDigit(c: char) {
    '0' <= c <= '9'
  }

  /** The ASCII whitespace int() strips from both ends of its argument. */
  predicate IsSpace(c: char) {
    c == ' ' || c == '\t' || c == '\n' || c == '\r' || c == '\U{000B}' || c == '\U{000C}'
  }

  /** `s` with every occurrence of `c` removed (str.replace(c, "")). */
  function Remove(s: string, c: char): (r: string)
    ensures |r| <= |s|
  {
    if s == [] then []
    else (if s[0] == c then [] else [s[0]]) + Remove(s[1..], c)
  }

  /** Removing `c` keeps exactly the other characters. */
  lemma {:induction false} RemoveMembers(s: string, c: char, x: char)
    ensures x in Remove(s, c) <==> x in s && x != c
  {
    if s != [] {
      RemoveMembers(s[1..], c, x);
      assert s == [s[0]] + s[1..];
    }
  }

  lemma {:induction false} RemoveAppend(a: string, b: string, c: char)
    ensures Remove(a + b, c) == Remove(a, c) + Remove(b, c)
  {
    if a != [] {
      assert (a + b)[0] == a[0];
      assert (a + b)[1..] == a[1..] + b;
      RemoveAppend(a[1..], b, c);
    } else {
      assert a + b == b;
    }
  }

  lemma {:induction false} RemoveAbsent(s: string, c: char)
    requires c !in s
    ensures Remove(s, c) == s
  {
    if s != [] {
      assert c !in s[1..];
      RemoveAbsent(s[1..], c);
    }
  }

  /** Drops leading whitespace, and only that. */
  function TrimStart(s: string): (r: string)
    ensures |r| <= |s|
  {
    if s != [] && IsSpace(s[0]) then TrimStart(s[1..]) else s
  }

  /** What TrimStart drops is whitespace, and what it keeps does not start with any. */
  lemma {:induction false} TrimStartDropsSpaces(s: string)
    ensures var r := TrimStart(s);
      && r == s[|s| - |r|..]
      && (r == [] || !IsSpace(r[0]))
      && forall i :: 0 <= i < |s| - |r| ==> IsSpace(s[i])
  {
    if s != [] && IsSpace(s[0]) {
      TrimStartDropsSpaces(s[1..]);
      var r := TrimStart(s);
      forall i | 0 < i < |s| - |r| ensures IsSpace(s[i]) {
        assert s[i] == s[1..][i - 1];
      }
    }
  }

  /** Drops trailing whitespace, and only that. */
  function TrimEnd(s: string): (r: string)
    ensures |r| <= |s|
  {
    if s != [] && IsSpace(s[|s| - 1]) then TrimEnd(s[..|s| - 1]) else s
  }

  /** What TrimEnd drops is whitespace, and what it keeps does not end with any. */
  lemma {:induction false} TrimEndDropsSpaces(s: string)
    ensures var r := TrimEnd(s);
      && r == s[..|r|]
      && (r == [] || !IsSpace(r[|r| - 1]))
      && forall i :: |r| <= i < |s| ==> IsSpace(s[i])
  {
    if s != [] && IsSpace(s[|s| - 1]) {
      TrimEndDropsSpaces(s[..|s| - 1]);
      var r := TrimEnd(s);
      forall i | |r| <= i < |s| - 1 ensures IsSpace(s[i]) {
        assert s[i] == s[..|s| - 1][i];
      }
    }
  }

  /** str.strip() of ASCII whitespace: what remains neither starts nor ends with whitespace. */
  function Strip(s: string): (r: string)
    ensures |r| <= |s|
    ensures r == [] || (!IsSpace(r[0]) && !IsSpace(r[|r| - 1]))
  {
    var t0 := TrimStart(s);
    TrimStartDropsSpaces(s);
    TrimEndDropsSpaces(t0);
    TrimEnd(t0)
  }

  /**
   * The digits int() accepts in base 10: one or more decimal digits, where a
   * single underscore may separate two digits.
   */
  predicate IsDigitPart(s: string) {
    && |s| > 0
    && IsDigit(s[0])
    && IsDigit(s[|s| - 1])
    && (forall i :: 0 <= i < |s| ==> IsDigit(s[i]) || s[i] == '_')
    && (forall i :: 0 <= i < |s| - 1 ==> s[i] == '_' ==> s[i + 1] != '_')
  }

  function DigitValue(c: char): nat
    requires IsDigit(c)
  {
    (c as int) - ('0' as int)
  }

  /** The number a run of digits denotes, reading it left to right and skipping underscores. */
  function DigitsValue(s: string): nat
    requires forall i :: 0 <= i < |s| ==> IsDigit(s[i]) || s[i] == '_'
  {
    if s == [] then 0
    else if s[|s| - 1] == '_' then DigitsValue(s[..|s| - 1])
    else DigitsValue(s[..|s| - 1]) * 10 + DigitValue(s[|s| - 1])
  }

  /**
   * The digit part of an integer literal, or None when it is malformed: read
   * from the right, each digit may be preceded by one underscore that itself
   * follows a digit.
   */
  function ParseDigitPart(d: string): Option<nat> {
    if d == [] || !IsDigit(d[|d| - 1]) then None
    else if |d| == 1 then Some(DigitValue(d[0]))
    else
      var rest := if d[|d| - 2] == '_' then d[..|d| - 2] else d[..|d| - 1];
      match ParseDigitPart(rest)
      case None => None
      case Some(v) => Some(v * 10 + DigitValue(d[|d| - 1]))
  }

  /** ParseDigitPart accepts exactly the well-formed digit parts, with the value they denote. */
  lemma {:induction false} ParseDigitPartMeaning(d: string)
    ensures ParseDigitPart(d) == if IsDigitPart(d) then Some(DigitsValue(d)) else None
  {
    var n := |d|;
    if n == 0 || !IsDigit(d[n - 1]) {
    } else if n == 1 {
      assert d[..0] == [];
    } else if d[n - 2] == '_' {
      var rest := d[..n - 2];
      ParseDigitPartMeaning(rest);
      assert d[..n - 1][..n - 2] == rest;
      if IsDigitPart(d) {
        assert n > 2 && d[n - 3] != '_';
        assert IsDigitPart(rest) by {
          forall i | 0 <= i < |rest| ensures IsDigit(rest[i]) || rest[i] == '_' {
            assert rest[i] == d[i];
          }
          forall i | 0 <= i < |rest| - 1 ensures rest[i] == '_' ==> rest[i + 1] != '_' {
            assert rest[i] == d[i] && rest[i + 1] == d[i + 1];
          }
        }
      } else if IsDigitPart(rest) {
        assert IsDigitPart(d) by {
          forall i | 0 <= i < n ensures IsDigit(d[i]) || d[i] == '_' {
            if i < n - 2 { assert d[i] == rest[i]; }
          }
          forall i | 0 <= i < n - 1 ensures d[i] == '_' ==> d[i + 1] != '_' {
            if i < n - 3 { assert d[i] == rest[i] && d[i + 1] == rest[i + 1]; }
            if i == n - 3 { assert d[i] == rest[|rest| - 1]; }
          }
        }
      }
    } else {
      var rest := d[..n - 1];
      ParseDigitPartMeaning(rest);
      if IsDigitPart(d) {
        assert IsDigitPart(rest) by {
          forall i | 0 <= i < |rest| ensures IsDigit(rest[i]) || rest[i] == '_' {
            assert rest[i] == d[i];
          }
          forall i | 0 <= i < |rest| - 1 ensures rest[i] == '_' ==> rest[i + 1] != '_' {
            assert rest[i] == d[i] && rest[i + 1] == d[i + 1];
          }
        }
      } else if IsDigitPart(rest) {
        assert IsDigitPart(d) by {
          forall i | 0 <= i < n ensures IsDigit(d[i]) || d[i] == '_' {
            if i < n - 1 { assert d[i] == rest[i]; }
          }
          forall i | 0 <= i < n - 1 ensures d[i] == '_' ==> d[i + 1] != '_' {
            if i < n - 2 { assert d[i] == rest[i] && d[i + 1] == rest[i + 1]; }
          }
        }
      }
    }
  }

  /** An optional sign and a digit part, with the surrounding whitespace already stripped. */
  function ParseSigned(t: string): Option<int> {
    if |t| > 0 && (t[0] == '+' || t[0] == '-') then
      match ParseDigitPart(t[1..])
      case None => None
      case Some(n) => Some(if t[0] == '-' then -(n as int) else n)
    else
      match ParseDigitPart(t)
      case None => None
      case Some(n) => Some(n)
  }

  /**
   * The default of sys.get_int_max_str_digits(): int() raises ValueError for a
   * base-10 string with more digits than this.
   */
  const MaxStrDigits := 4300

  /** The number of decimal digits in `s`; underscores, signs and whitespace do not count. */
  function DigitCount(s: string): (k: nat)
    ensures k <= |s|
  {
    if s == [] then 0 else DigitCount(s[..|s| - 1]) + (if IsDigit(s[|s| - 1]) then 1 else 0)
  }

  lemma {:induction false} DigitCountAppend(a: string, b: string)
    ensures DigitCount(a + b) == DigitCount(a) + DigitCount(b)
    decreases |b|
  {
    if b == [] {
      assert a + b == a;
    } else {
      assert (a + b)[..|a + b| - 1] == a + b[..|b| - 1];
      DigitCountAppend(a, b[..|b| - 1]);
    }
  }

  /** A string of digits counts every character. */
  lemma {:induction false} DigitCountOfDigits(s: string)
    requires forall i :: 0 <= i < |s| ==> IsDigit(s[i])
    ensures DigitCount(s) == |s|
  {
    if s != [] {
      var p := s[..|s| - 1];
      assert forall i :: 0 <= i < |p| ==> p[i] == s[i];
      DigitCountOfDigits(p);
    }
  }

  lemma {:induction false} TrimStartKeepsDigitCount(s: string)
    ensures DigitCount(TrimStart(s)) == DigitCount(s)
  {
    if s != [] && IsSpace(s[0]) {
      TrimStartKeepsDigitCount(s[1..]);
      assert s == [s[0]] + s[1..];
      DigitCountAppend([s[0]], s[1..]);
      assert DigitCount([s[0]]) == 0 by {
        assert [s[0]][..0] == [];
      }
    }
  }

  lemma {:induction false} TrimEndKeepsDigitCount(s: string)
    ensures DigitCount(TrimEnd(s)) == DigitCount(s)
  {
    if s != [] && IsSpace(s[|s| - 1]) {
      TrimEndKeepsDigitCount(s[..|s| - 1]);
    }
  }

  /** Stripping whitespace keeps every digit. */
  lemma StripKeepsDigitCount(s: string)
    ensures DigitCount(Strip(s)) == DigitCount(s)
  {
    TrimStartKeepsDigitCount(s);
    TrimEndKeepsDigitCount(TrimStart(s));
  }

  /** Removing a character that is not a digit keeps every digit. */
  lemma {:induction false} RemoveKeepsDigitCount(s: string, c: char)
    requires !IsDigit(c)
    ensures DigitCount(Remove(s, c)) == DigitCount(s)
  {
    if s != [] {
      var head := if s[0] == c then [] else [s[0]];
      assert s == [s[0]] + s[1..];
      RemoveKeepsDigitCount(s[1..], c);
      DigitCountAppend(head, Remove(s[1..], c));
      DigitCountAppend([s[0]], s[1..]);
      assert DigitCount([s[0]]) == (if IsDigit(s[0]) then 1 else 0) by {
        assert [s[0]][..0] == [];
      }
    }
  }

  /**
   * int(s) in base 10; None where int() raises ValueError: a malformed literal,
   * or one with more than MaxStrDigits digits.
   */
  function ParseInt(s: string): (r: Option<int>)
    ensures r.Some? ==> DigitCount(s) <= MaxStrDigits
  {
    StripKeepsDigitCount(s);
    var t := Strip(s);
    if DigitCount(t) > MaxStrDigits then None else ParseSigned(t)
  }

  /**
   * to_int_or_none: None and "" give None; anything else has its commas removed
   * and is parsed by int(), a parse failure giving None instead of an exception.
   * A value is produced only from a cell that holds a digit, and no more than
   * MaxStrDigits of them, and a negative value only from a cell that holds a
   * minus sign.
   */
  function ToIntOrNone(value: Option<string>): (r: Option<int>)
    ensures value.None? || value == Some("") ==> r.None?
    ensures r.Some? ==> value.Some? && HasDigit(value.value) && DigitCount(value.value) <= MaxStrDigits
    ensures r.Some? && r.value < 0 ==> value.Some? && '-' in value.value
  {
    if value.None? || value.value == "" then None
    else
      CoercedCellWitness(value.value);
      RemoveKeepsDigitCount(value.value, ',');
      ParseInt(Remove(value.value, ','))
  }

  predicate HasDigit(s: string) {
    exists i :: 0 <= i < |s| && IsDigit(s[i])
  }

  /** What a successful parse says about the characters of the cell it came from. */
  lemma CoercedCellWitness(v: string)
    ensures ParseInt(Remove(v, ',')).Some? ==> HasDigit(v)
    ensures ParseInt(Remove(v, ',')).Some? && ParseInt(Remove(v, ',')).value < 0 ==> '-' in v
  {
    var s := Remove(v, ',');
    var t0 := TrimStart(s);
    var t := Strip(s);
    TrimStartDropsSpaces(s);
    TrimEndDropsSpaces(t0);
    if ParseInt(s).Some? {
      var k := if t[0] == '+' || t[0] == '-' then 1 else 0;
      ParseDigitPartMeaning(t[k..]);
      assert IsDigitPart(t[k..]);
      assert IsDigit(t[k]);
      assert t[k] == t0[k] == s[|s| - |t0| + k];
      assert s[|s| - |t0| + k] in s;
      RemoveMembers(v, ',', t[k]);
      var j :| 0 <= j < |v| && v[j] == t[k];
      assert IsDigit(v[j]);
      if ParseInt(s).value < 0 {
        assert t[0] == '-';
        assert t[0] == s[|s| - |t0|];
        assert s[|s| - |t0|] in s;
        RemoveMembers(v, ',', '-');
      }
    }
  }

  /** The decimal digits of `n`, most significant first, without leading zeros. */
  function NatToDigits(n: nat): (r: string)
    ensures |r| > 0
    ensures forall i :: 0 <= i < |r| ==> IsDigit(r[i])
  {
    var last := ['0' + ((n % 10) as char)];
    if n < 10 then last else NatToDigits(n / 10) + last
  }

  /** str(n): the decimal form of an integer. */
  function ShowInt(n: int): string {
    if n < 0 then "-" + NatToDigits(-n) else NatToDigits(n)
  }

  /** The digits of a natural number parse back to it. */
  lemma {:induction false} ParseDigitPartOfNat(n: nat)
    ensures ParseDigitPart(NatToDigits(n)) == Some(n)
  {
    if n >= 10 {
      var d, p := NatToDigits(n), NatToDigits(n / 10);
      ParseDigitPartOfNat(n / 10);
      assert d[..|d| - 1] == p;
      assert d[|d| - 2] == p[|p| - 1];
    }
  }

  lemma StripUnspaced(s: string)
    requires |s| > 0 && !IsSpace(s[0]) && !IsSpace(s[|s| - 1])
    ensures Strip(s) == s
  {
    assert TrimStart(s) == s;
    assert TrimEnd(s) == s;
  }

  /** int() reads the digits of `n` back as `n`, unless there are more than MaxStrDigits of them. */
  lemma ParseIntOfDigits(n: nat)
    ensures ParseInt(NatToDigits(n)) == if |NatToDigits(n)| <= MaxStrDigits then Some(n) else None
  {
    var d := NatToDigits(n);
    assert IsDigit(d[0]) && IsDigit(d[|d| - 1]);
    StripUnspaced(d);
    DigitCountOfDigits(d);
    ParseDigitPartOfNat(n);
  }

  lemma StripNegated(s: string)
    requires |s| > 0 && IsDigit(s[|s| - 1])
    ensures Strip("-" + s) == "-" + s
  {
    var t := "-" + s;
    assert t[0] == '-' && t[|t| - 1] == s[|s| - 1];
    StripUnspaced(t);
  }

  lemma ParseSignedNegated(s: string, n: nat)
    requires ParseDigitPart(s) == Some(n)
    ensures ParseSigned("-" + s) == Some(-(n as int))
  {
    var t := "-" + s;
    assert |t| > 0 && t[0] == '-' && t[1..] == s;
  }

  /** int() reads a minus sign and the digits of `n` as -n, unless there are more than MaxStrDigits digits. */
  lemma ParseIntOfNegated(n: nat)
    ensures ParseInt("-" + NatToDigits(n)) == if |NatToDigits(n)| <= MaxStrDigits then Some(-(n as int)) else None
  {
    var d := NatToDigits(n);
    assert IsDigit(d[|d| - 1]);
    StripNegated(d);
    DigitCountOfDigits(d);
    DigitCountAppend("-", d);
    assert DigitCount("-") == 0;
    ParseDigitPartOfNat(n);
    ParseSignedNegated(d, n);
  }

  lemma DigitsHaveNoComma(n: nat)
    ensures ',' !in NatToDigits(n) && ',' !in "-" + NatToDigits(n)
  {
    var d := NatToDigits(n);
    var t := "-" + d;
    forall i | 0 <= i < |t| ensures t[i] != ',' {
      if i > 0 {
        assert t[i] == d[i - 1] && IsDigit(d[i - 1]);
      }
    }
  }

  lemma NonNegativeRoundTrip(n: nat)
    ensures ToIntOrNone(Some(NatToDigits(n))) == if |NatToDigits(n)| <= MaxStrDigits then Some(n) else None
  {
    DigitsHaveNoComma(n);
    RemoveAbsent(NatToDigits(n), ',');
    ParseIntOfDigits(n);
  }

  lemma NegativeRoundTrip(n: nat)
    ensures ToIntOrNone(Some("-" + NatToDigits(n))) == if |NatToDigits(n)| <= MaxStrDigits then Some(-(n as int)) else None
  {
    DigitsHaveNoComma(n);
    RemoveAbsent("-" + NatToDigits(n), ',');
    ParseIntOfNegated(n);
  }

  /** The number of decimal digits of |n|. */
  function DigitLength(n: int): nat {
    |NatToDigits(if n < 0 then -n else n)|
  }

  /**
   * Printing an integer and reading it back with to_int_or_none gives it back
   * exactly when it has at most MaxStrDigits digits; a longer one reads as None.
   */
  lemma ShowIntRoundTrip(n: int)
    ensures ToIntOrNone(Some(ShowInt(n))) == if DigitLength(n) <= MaxStrDigits then Some(n) else None
  {
    if n < 0 {
      NegativeRoundTrip(-n);
    } else {
      NonNegativeRoundTrip(n);
    }
  }

  /** Groups a run of digits in threes from the right with thousands separators: "1234567" becomes "1,234,567". */
  function GroupThousands(d: string): (r: string)
    ensures |r| >= |d|
    decreases |d|
  {
    if |d| <= 3 then d else GroupThousands(d[..|d| - 3]) + "," + d[|d| - 3..]
  }

  /** An integer with thousands separators, as spreadsheets export it. */
  function ShowGrouped(n: int): string {
    if n < 0 then "-" + GroupThousands(NatToDigits(-n)) else GroupThousands(NatToDigits(n))
  }

  lemma {:induction false} UngroupThousands(d: string)
    requires ',' !in d
    ensures Remove(GroupThousands(d), ',') == d
    decreases |d|
  {
    if |d| <= 3 {
      RemoveAbsent(d, ',');
    } else {
      var hi, lo := d[..|d| - 3], d[|d| - 3..];
      assert d == hi + lo;
      assert ',' !in hi && ',' !in lo;
      UngroupThousands(hi);
      RemoveAppend(GroupThousands(hi) + ",", lo, ',');
      RemoveAppend(GroupThousands(hi), ",", ',');
      RemoveAbsent(lo, ',');
    }
  }

  lemma GroupedNonNegativeRoundTrip(n: nat)
    ensures ToIntOrNone(Some(GroupThousands(NatToDigits(n)))) == if |NatToDigits(n)| <= MaxStrDigits then Some(n) else None
  {
    DigitsHaveNoComma(n);
    UngroupThousands(NatToDigits(n));
    ParseIntOfDigits(n);
  }

  lemma GroupedNegativeRoundTrip(n: nat)
    ensures ToIntOrNone(Some("-" + GroupThousands(NatToDigits(n)))) == if |NatToDigits(n)| <= MaxStrDigits then Some(-(n as int)) else None
  {
    var g := GroupThousands(NatToDigits(n));
    DigitsHaveNoComma(n);
    UngroupThousands(NatToDigits(n));
    RemoveAppend("-", g, ',');
    assert Remove("-", ',') == "-";
    ParseIntOfNegated(n);
  }

  /** A cell such as "1,234" is read as the number it groups, within the same digit limit. */
  lemma ShowGroupedRoundTrip(n: int)
    ensures ToIntOrNone(Some(ShowGrouped(n))) == if DigitLength(n) <= MaxStrDigits then Some(n) else None
  {
    if n < 0 {
      GroupedNegativeRoundTrip(-n);
    } else {
      GroupedNonNegativeRoundTrip(n);
    }
  }

  lemma {:induction false} RemoveIdempotent(s: string, c: char)
    ensures Remove(Remove(s, c), c) == Remove(s, c)
  {
    RemoveMembers(s, c, c);
    RemoveAbsent(Remove(s, c), c);
  }

  /** Where the commas of a cell stand, and how many there are, never changes what it coerces to. */
  lemma CommasAreIgnored(s: string, t: string)
    requires Remove(s, ',') == Remove(t, ',')
    ensures ToIntOrNone(Some(s)) == ToIntOrNone(Some(t))
  {
    if s == "" {
      assert Remove(t, ',') == "";
    }
    if t == "" {
      assert Remove(s, ',') == "";
    }
  }

  /** Examples of the coercion rules. */
  lemma EmptyCellsAreNone()
    ensures ToIntOrNone(None) == None
    ensures ToIntOrNone(Some("")) == None
  {
  }

  lemma LettersAreNone()
    ensures ToIntOrNone(Some("abc")) == None
  {
    assert !HasDigit("abc") by {
      forall i | 0 <= i < 3 ensures !IsDigit("abc"[i]) { }
    }
  }

  lemma ThousandsSeparatorExample()
    ensures ToIntOrNone(Some("1,234")) == Some(1234)
  {
    assert NatToDigits(1) == "1";
    assert NatToDigits(12) == "12";
    assert NatToDigits(123) == "123";
    assert NatToDigits(1234) == "1234";
    assert GroupThousands("1234") == "1,234" by {
      assert "1234"[..1] == "1" && "1234"[1..] == "234";
    }
    assert DigitLength(1234) == 4;
    ShowGroupedRoundTrip(1234);
  }
}
