/**
 * The strings the listing displays: the day/month/year form of a date,
 * built as `date.split('-').reverse().join('/')`, and the expiry warning
 * with its day count.
 */
module Text {
  import opened Wrappers
  import opened Dates

  // ---------------------------------------------------------------------------
  // split / reverse / join
  // ---------------------------------------------------------------------------

  /** `s.split(sep)` for a one-character separator: never empty. */
  function Split(s: string, sep: char): (fields: seq<string>)
    ensures |fields| >= 1
    decreases |s|
  {
    if s == [] then [""]
    else
      var rest := Split(s[1..], sep);
      if s[0] == sep then [""] + rest
      else [[s[0]] + rest[0]] + rest[1..]
  }

  /** No field of a split holds the separator. */
  lemma {:induction false} SplitFieldsOmitSeparator(s: string, sep: char)
    ensures forall i :: 0 <= i < |Split(s, sep)| ==> sep !in Split(s, sep)[i]
    decreases |s|
  {
    if s != [] {
      SplitFieldsOmitSeparator(s[1..], sep);
      var rest := Split(s[1..], sep);
      var fields := Split(s, sep);
      if s[0] == sep {
        assert fields == [""] + rest;
        assert forall i :: 0 < i < |fields| ==> fields[i] == rest[i - 1];
      } else {
        assert fields == [[s[0]] + rest[0]] + rest[1..];
        assert forall i :: 0 < i < |fields| ==> fields[i] == rest[i];
        assert sep !in rest[0];
        assert forall c :: c in fields[0] ==> c == s[0] || c in rest[0];
      }
    }
  }

  /** The total length of the fields. */
  function Lengths(fields: seq<string>): nat
  {
    if fields == [] then 0 else |fields[0]| + Lengths(fields[1..])
  }

  /** `fields.join(sep)`: the fields with one separator between neighbours. */
  function Join(fields: seq<string>, sep: char): (s: string)
    ensures fields == [] ==> s == ""
    ensures fields != [] ==> |s| == Lengths(fields) + |fields| - 1
  {
    if |fields| == 0 then ""
    else if |fields| == 1 then fields[0]
    else fields[0] + [sep] + Join(fields[1..], sep)
  }

  /** `fields.reverse()`, as a value. */
  function Reverse<T>(fields: seq<T>): (r: seq<T>)
    ensures |r| == |fields|
  {
    if fields == [] then [] else Reverse(fields[1..]) + [fields[0]]
  }

  /** `reverse` puts element `i` at position `n - 1 - i`. */
  lemma {:induction false} ReverseAt<T>(fields: seq<T>)
    ensures forall i :: 0 <= i < |fields| ==> Reverse(fields)[i] == fields[|fields| - 1 - i]
  {
    if fields != [] {
      ReverseAt(fields[1..]);
      var front := Reverse(fields[1..]);
      var r := Reverse(fields);
      assert r == front + [fields[0]];
      forall i | 0 <= i < |fields| ensures r[i] == fields[|fields| - 1 - i] {
        if i < |front| {
          assert r[i] == front[i] == fields[1..][|front| - 1 - i];
        }
      }
    }
  }

  /** Joining the fields of a split gives back the string. */
  lemma {:induction false} SplitThenJoin(s: string, sep: char)
    ensures Join(Split(s, sep), sep) == s
    decreases |s|
  {
    if s != [] {
      var rest := Split(s[1..], sep);
      SplitThenJoin(s[1..], sep);
      if s[0] == sep {
        assert ([""] + rest)[1..] == rest;
      } else if |rest| > 1 {
        assert ([[s[0]] + rest[0]] + rest[1..])[1..] == rest[1..];
      }
      assert s == [s[0]] + s[1..];
    }
  }

  lemma {:induction false} SplitWithoutSeparator(a: string, sep: char)
    requires sep !in a
    ensures Split(a, sep) == [a]
    decreases |a|
  {
    if a != [] {
      SplitWithoutSeparator(a[1..], sep);
      assert a == [a[0]] + a[1..];
    }
  }

  lemma {:induction false} SplitAtFirstSeparator(a: string, b: string, sep: char)
    requires sep !in a
    ensures Split(a + [sep] + b, sep) == [a] + Split(b, sep)
    decreases |a|
  {
    if a == [] {
      assert ([] + [sep] + b)[1..] == b;
    } else {
      SplitAtFirstSeparator(a[1..], b, sep);
      assert (a + [sep] + b)[1..] == a[1..] + [sep] + b;
      assert a == [a[0]] + a[1..];
    }
  }

  /** Splitting a join gives back the fields, when no field holds the separator. */
  lemma {:induction false} JoinThenSplit(fields: seq<string>, sep: char)
    requires |fields| >= 1
    requires forall i :: 0 <= i < |fields| ==> sep !in fields[i]
    ensures Split(Join(fields, sep), sep) == fields
  {
    if |fields| == 1 {
      SplitWithoutSeparator(fields[0], sep);
    } else {
      JoinThenSplit(fields[1..], sep);
      SplitAtFirstSeparator(fields[0], Join(fields[1..], sep), sep);
      assert fields == [fields[0]] + fields[1..];
    }
  }

  /**
   * The day/month/year display of a date string: `date.split('-').reverse().join('/')`.
   * Every dash becomes a slash and no character is lost, so the display is as
   * long as the date.
   */
  function DisplayDate(date: string): (shown: string)
    ensures |shown| == |date|
  {
    var fields := Split(date, '-');
    SplitThenJoin(date, '-');
    ReverseKeepsLengths(fields);
    Join(Reverse(fields), '/')
  }

  lemma {:induction false} LengthsOfAppend(a: seq<string>, b: seq<string>)
    ensures Lengths(a + b) == Lengths(a) + Lengths(b)
  {
    if a != [] {
      LengthsOfAppend(a[1..], b);
      assert (a + b)[1..] == a[1..] + b;
    } else {
      assert a + b == b;
    }
  }

  /** Reversing the fields keeps their total length. */
  lemma {:induction false} ReverseKeepsLengths(fields: seq<string>)
    ensures Lengths(Reverse(fields)) == Lengths(fields)
  {
    if fields != [] {
      ReverseKeepsLengths(fields[1..]);
      LengthsOfAppend(Reverse(fields[1..]), [fields[0]]);
      assert [fields[0]][1..] == [];
    }
  }

  /** A `YYYY-MM-DD` string is displayed as `DD/MM/YYYY`. */
  lemma DisplayOfWellFormedDate(date: string)
    requires HasDateShape(date)
    ensures DisplayDate(date) == date[8..] + "/" + date[5..7] + "/" + date[..4]
  {
    var y, m, d := date[..4], date[5..7], date[8..];
    assert date == y + ['-'] + (m + ['-'] + d);
    SplitAtFirstSeparator(y, m + ['-'] + d, '-');
    SplitAtFirstSeparator(m, d, '-');
    SplitWithoutSeparator(d, '-');
    assert Split(date, '-') == [y, m, d];
    ReverseAt([y, m, d]);
    assert Reverse([y, m, d]) == [d, m, y];
    assert [d, m, y][1..] == [m, y] && [m, y][1..] == [y];
    assert Join([m, y], '/') == m + ['/'] + y;
    assert Join([d, m, y], '/') == d + ['/'] + Join([m, y], '/');
  }

  /** The displayed fields are the stored fields in reverse order. */
  lemma DisplayReversesFields(date: string)
    requires '/' !in date
    ensures Split(DisplayDate(date), '/') == Reverse(Split(date, '-'))
  {
    var parts := Split(date, '-');
    forall k | 0 <= k < |parts| ensures '/' !in parts[k] {
      SplitFieldIsSlice(date, '-', k);
    }
    ReversedJoinSplits(parts, '/');
  }

  /** Fields free of the separator, reversed and joined, split back into the reversed fields. */
  lemma ReversedJoinSplits(parts: seq<string>, sep: char)
    requires |parts| >= 1
    requires forall k :: 0 <= k < |parts| ==> sep !in parts[k]
    ensures Split(Join(Reverse(parts), sep), sep) == Reverse(parts)
  {
    var fields := Reverse(parts);
    ReverseAt(parts);
    forall i | 0 <= i < |fields| ensures sep !in fields[i] {
      assert fields[i] == parts[|parts| - 1 - i];
    }
    JoinThenSplit(fields, sep);
  }

  /** Every field of a split is made of characters of the string. */
  lemma {:induction false} SplitFieldIsSlice(s: string, sep: char, k: nat)
    requires k < |Split(s, sep)|
    ensures forall c :: c in Split(s, sep)[k] ==> c in s
    decreases |s|
  {
    if s != [] {
      var rest := Split(s[1..], sep);
      if s[0] == sep {
        if k > 0 { SplitFieldIsSlice(s[1..], sep, k - 1); }
      } else if k == 0 {
        SplitFieldIsSlice(s[1..], sep, 0);
      } else {
        SplitFieldIsSlice(s[1..], sep, k);
      }
    }
  }

  // ---------------------------------------------------------------------------
  // Decimal numbers
  // ---------------------------------------------------------------------------

  function DigitChar(d: nat): (c: char)
    requires d < 10
    ensures IsDigit(c) && DigitValue(c) == d
  {
    ('0' as int + d) as char
  }

  /** `String(n)` for a non-negative integer: its decimal numeral. */
  function Decimal(n: nat): (s: string)
    ensures |s| >= 1 && AllDigits(s)
    ensures s[0] == '0' ==> n == 0 && |s| == 1
  {
    if n < 10 then [DigitChar(n)] else Decimal(n / 10) + [DigitChar(n % 10)]
  }

  lemma {:induction false} NumeralOfAppend(s: string, c: char)
    requires AllDigits(s) && IsDigit(c)
    ensures AllDigits(s + [c]) && Numeral(s + [c]) == 10 * Numeral(s) + DigitValue(c)
  {
    if s != [] {
      var t := s + [c];
      assert t[0] == s[0] && t[1..] == s[1..] + [c];
      NumeralOfAppend(s[1..], c);
      var d, p := DigitValue(s[0]), Pow10(|s| - 1);
      assert Pow10(|s|) == 10 * p;
      assert Numeral(t) == d * (10 * p) + Numeral(s[1..] + [c]);
      assert Numeral(s) == d * p + Numeral(s[1..]);
      ShiftByOneDigit(d, p);
    }
  }

  lemma ShiftByOneDigit(d: nat, p: nat)
    ensures d * (10 * p) == 10 * (d * p)
  {
  }

  /** Reading back the numeral gives the number. */
  lemma {:induction false} DecimalRoundTrip(n: nat)
    ensures Numeral(Decimal(n)) == n
  {
    if n >= 10 {
      DecimalRoundTrip(n / 10);
      NumeralOfAppend(Decimal(n / 10), DigitChar(n % 10));
    }
  }

  // ---------------------------------------------------------------------------
  // The expiry warning
  // ---------------------------------------------------------------------------

  const Ahead := "Essa tarefa expira em "
  const Behind := "Essa tarefa expirou há "
  const Tail := " dias."
  const DueToday := "Essa tarefa expira HOJE!"

  /**
   * The warning for a signed day difference: ahead, today, or past by its
   * absolute value. The "today" text is given exactly for a difference of
   * zero; a future and a past difference are told apart by their openings.
   */
  function ExpiryText(days: int): (text: string)
    ensures text == DueToday <==> days == 0
    ensures days > 0 ==> StartsWith(text, Ahead) && !StartsWith(text, Behind)
    ensures days < 0 ==> StartsWith(text, Behind) && !StartsWith(text, Ahead)
  {
    if days > 0 then
      var text := Ahead + Decimal(days) + Tail;
      assert text[..|Ahead|] == Ahead;
      assert text[19] == 'e' != DueToday[19];
      assert text[17] == 'a' != Behind[17];
      text
    else if days == 0 then DueToday
    else
      var text := Behind + Decimal(-days) + Tail;
      assert text[..|Behind|] == Behind;
      assert text[17] == 'o' != DueToday[17];
      text
  }

  /** Reads the signed day count back out of a warning. */
  function DaysInExpiryText(text: string): Option<int>
  {
    if text == DueToday then Some(0)
    else if |text| > |Ahead| + |Tail| && StartsWith(text, Ahead)
      && text[|text| - |Tail|..] == Tail && AllDigits(text[|Ahead|..|text| - |Tail|])
    then Some(Numeral(text[|Ahead|..|text| - |Tail|]))
    else if |text| > |Behind| + |Tail| && StartsWith(text, Behind)
      && text[|text| - |Tail|..] == Tail && AllDigits(text[|Behind|..|text| - |Tail|])
    then Some(-(Numeral(text[|Behind|..|text| - |Tail|]) as int))
    else None
  }

  /** The warning determines the day difference it was built from. */
  lemma ExpiryTextRoundTrip(days: int)
    ensures DaysInExpiryText(ExpiryText(days)) == Some(days)
  {
    var text := ExpiryText(days);
    if days > 0 {
      var digits := Decimal(days);
      DecimalRoundTrip(days);
      assert text[..|Ahead|] == Ahead;
      assert text[|text| - |Tail|..] == Tail;
      assert text[|Ahead|..|text| - |Tail|] == digits;
    } else if days < 0 {
      var digits := Decimal(-days);
      DecimalRoundTrip(-days);
      assert text[..|Behind|] == Behind;
      assert text[17] == Behind[17] == 'o' != Ahead[17];
      assert text[|text| - |Tail|..] == Tail;
      assert text[|Behind|..|text| - |Tail|] == digits;
    }
  }
}
