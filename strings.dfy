/**
  The Python string operations the recommender relies on: `str.split` and
  `str.join` with a one-character separator, `split(sep)[-1]`, `str.lower`
  and `str.strip` on ASCII text, and the decimal rendering of integers used by
  f-strings (`{n}` and `{n:02d}`), each with a reference or an inverse.
*/
module Strings {

  // ---------------------------------------------------------------------------
  // split and join
  // ---------------------------------------------------------------------------

  /** Python's `s.split(sep)`: the pieces between occurrences of `sep`. */
  function Split(s: string, sep: char): (pieces: seq<string>)
    ensures |pieces| >= 1
    ensures forall i :: 0 <= i < |pieces| ==> sep !in pieces[i]
    decreases |s|
  {
    if |s| == 0 then [""]
    else
      var init := Split(s[..|s| - 1], sep);
      var last := s[|s| - 1];
      if last == sep then init + [""]
      else init[..|init| - 1] + [init[|init| - 1] + [last]]
  }

  /** Python's `sep.join(pieces)`. */
  function Join(pieces: seq<string>, sep: char): string
  {
    if |pieces| == 0 then ""
    else if |pieces| == 1 then pieces[0]
    else Join(pieces[..|pieces| - 1], sep) + [sep] + pieces[|pieces| - 1]
  }

  /** Splitting one more character either starts a new piece or extends the last one. */
  lemma SplitSnoc(s: string, c: char, sep: char)
    ensures var init := Split(s, sep);
      Split(s + [c], sep) == if c == sep then init + [""] else init[..|init| - 1] + [init[|init| - 1] + [c]]
  {
    assert (s + [c])[..|s|] == s;
  }

  /** Joining a non-empty list is joining all but the last, then the separator and the last. */
  lemma JoinSnoc(pieces: seq<string>, x: string, sep: char)
    requires |pieces| >= 1
    ensures Join(pieces + [x], sep) == Join(pieces, sep) + [sep] + x
  {
    assert (pieces + [x])[..|pieces|] == pieces;
  }

  /** Splitting a text and joining the pieces again gives back the text. */
  lemma {:induction false} JoinSplit(s: string, sep: char)
    ensures Join(Split(s, sep), sep) == s
    decreases |s|
  {
    if |s| > 0 {
      var s', last := s[..|s| - 1], s[|s| - 1];
      assert s == s' + [last];
      var init := Split(s', sep);
      JoinSplit(s', sep);
      if last == sep {
        JoinSnoc(init, "", sep);
      } else if |init| == 1 {
        assert Split(s, sep) == [init[0] + [last]];
      } else {
        var front := init[..|init| - 1];
        assert init == front + [init[|init| - 1]];
        JoinSnoc(front, init[|init| - 1], sep);
        JoinSnoc(front, init[|init| - 1] + [last], sep);
      }
    }
  }

  /** A text without the separator is a single piece. */
  lemma {:induction false} SplitWithoutSep(s: string, sep: char)
    requires sep !in s
    ensures Split(s, sep) == [s]
    decreases |s|
  {
    if |s| > 0 {
      assert s == s[..|s| - 1] + [s[|s| - 1]];
      SplitWithoutSep(s[..|s| - 1], sep);
    }
  }

  /** Extending the last piece of `left + right` extends the last piece of `right`. */
  lemma ExtendLastPiece(left: seq<string>, right: seq<string>, c: char)
    requires |right| >= 1
    ensures var lr := left + right;
      lr[..|lr| - 1] + [lr[|lr| - 1] + [c]] == left + (right[..|right| - 1] + [right[|right| - 1] + [c]])
  {
    var lr := left + right;
    assert lr[..|lr| - 1] == left + right[..|right| - 1];
  }

  /** Appending `b` is appending all of `b` but its last element, then that element. */
  lemma {:induction false} AppendLast<T>(p: seq<T>, b: seq<T>)
    requires |b| > 0
    ensures b == b[..|b| - 1] + [b[|b| - 1]]
    ensures p + b == (p + b[..|b| - 1]) + [b[|b| - 1]]
  {
    assert b == b[..|b| - 1] + [b[|b| - 1]];
  }

  /** Splitting at one separator splits the two sides independently. */
  lemma {:induction false} SplitAround(a: string, b: string, sep: char)
    ensures Split(a + [sep] + b, sep) == Split(a, sep) + Split(b, sep)
    decreases |b|
  {
    if |b| == 0 {
      SplitSnoc(a, sep, sep);
      assert a + [sep] + b == a + [sep];
    } else {
      SplitAround(a, b[..|b| - 1], sep);
      SplitAroundStep(a, b, sep);
    }
  }

  /** The last character of the right side extends only the split of the right side. */
  lemma {:induction false} SplitAroundStep(a: string, b: string, sep: char)
    requires |b| > 0
    requires Split(a + [sep] + b[..|b| - 1], sep) == Split(a, sep) + Split(b[..|b| - 1], sep)
    ensures Split(a + [sep] + b, sep) == Split(a, sep) + Split(b, sep)
  {
    var b', last := b[..|b| - 1], b[|b| - 1];
    var x := a + [sep] + b';
    AppendLast(a + [sep], b);
    SplitSnoc(x, last, sep);
    SplitSnoc(b', last, sep);
    if last == sep {
      assert Split(a, sep) + Split(b', sep) + [""] == Split(a, sep) + (Split(b', sep) + [""]);
    } else {
      ExtendLastPiece(Split(a, sep), Split(b', sep), last);
    }
  }

  /** The pieces of every text in `texts`, in order (a flat list). */
  function SplitEach(texts: seq<string>, sep: char): seq<string>
  {
    if |texts| == 0 then []
    else SplitEach(texts[..|texts| - 1], sep) + Split(texts[|texts| - 1], sep)
  }

  /** Splitting a joined list gives the pieces of each joined text, in order. */
  lemma {:induction false} SplitJoin(texts: seq<string>, sep: char)
    requires |texts| >= 1
    ensures Split(Join(texts, sep), sep) == SplitEach(texts, sep)
    decreases |texts|
  {
    if |texts| > 1 {
      var front := texts[..|texts| - 1];
      SplitJoin(front, sep);
      SplitAround(Join(front, sep), texts[|texts| - 1], sep);
      assert SplitEach(front, sep) == SplitEach(front[..|front| - 1], sep) + Split(front[|front| - 1], sep);
    } else {
      assert texts[..0] == [];
    }
  }

  /** Joining texts without the separator and splitting again gives back the texts. */
  lemma {:induction false} SplitJoinWithoutSep(texts: seq<string>, sep: char)
    requires |texts| >= 1
    requires forall i :: 0 <= i < |texts| ==> sep !in texts[i]
    ensures Split(Join(texts, sep), sep) == texts
  {
    SplitJoin(texts, sep);
    SplitEachWithoutSep(texts, sep);
  }

  lemma {:induction false} SplitEachWithoutSep(texts: seq<string>, sep: char)
    requires forall i :: 0 <= i < |texts| ==> sep !in texts[i]
    ensures SplitEach(texts, sep) == texts
    decreases |texts|
  {
    if |texts| > 0 {
      SplitEachWithoutSep(texts[..|texts| - 1], sep);
      SplitWithoutSep(texts[|texts| - 1], sep);
    }
  }

  /** Python's `s.split(sep)[-1]`: the text after the last separator. */
  function LastSegment(s: string, sep: char): string
  {
    var pieces := Split(s, sep);
    pieces[|pieces| - 1]
  }

  /**
    The last segment is the longest suffix without the separator: it holds no
    separator, it ends the text, and it is the whole text or preceded by a
    separator. A text without the separator is its own last segment.
  */
  lemma {:induction false} LastSegmentSpec(s: string, sep: char)
    ensures var id := LastSegment(s, sep);
      && sep !in id
      && |id| <= |s|
      && s[|s| - |id|..] == id
      && (|id| == |s| || s[|s| - |id| - 1] == sep)
      && (sep !in s ==> id == s)
    decreases |s|
  {
    if |s| > 0 {
      var s', last := s[..|s| - 1], s[|s| - 1];
      LastSegmentSpec(s', sep);
      var id' := LastSegment(s', sep);
      if last != sep {
        assert LastSegment(s, sep) == id' + [last];
        assert s[|s| - |id'| - 1..] == s'[|s'| - |id'|..] + [last];
        if sep !in s {
          assert sep !in s';
        }
      }
    }
  }

  // ---------------------------------------------------------------------------
  // lower and strip
  // ---------------------------------------------------------------------------

  predicate IsUpper(c: char) { 'A' <= c <= 'Z' }

  /** Python's `c.lower()` on ASCII: upper-case letters map to lower case, the rest is kept. */
  function LowerChar(c: char): char
  {
    if IsUpper(c) then (c as int - 'A' as int + 'a' as int) as char else c
  }

  /** Python's `s.lower()`, ASCII-only. */
  function Lower(s: string): string
  {
    seq(|s|, i requires 0 <= i < |s| => LowerChar(s[i]))
  }

  /**
    Lower-casing keeps the length, leaves no upper-case letter, changes nothing
    but upper-case letters, and lower-casing twice is lower-casing once.
  */
  lemma LowerSpec(s: string)
    ensures |Lower(s)| == |s|
    ensures forall i :: 0 <= i < |s| ==> !IsUpper(Lower(s)[i])
    ensures forall i :: 0 <= i < |s| && !IsUpper(s[i]) ==> Lower(s)[i] == s[i]
    ensures forall i :: 0 <= i < |s| && IsUpper(s[i]) ==> Lower(s)[i] as int == s[i] as int + 32
    ensures Lower(Lower(s)) == Lower(s)
  {
  }

  /** Python's `c.isspace()` on ASCII: space, tab, LF, VT, FF, CR and the separators 0x1C-0x1F. */
  predicate IsSpace(c: char)
  {
    c as int == 32 || 9 <= c as int <= 13 || 28 <= c as int <= 31
  }

  predicate IsBlank(s: string)
  {
    forall i :: 0 <= i < |s| ==> IsSpace(s[i])
  }

  /** The first position at or after `i` that does not hold whitespace (|s| when there is none). */
  function SkipSpaces(s: string, i: nat): (j: nat)
    requires i <= |s|
    ensures i <= j <= |s|
    ensures forall k :: i <= k < j ==> IsSpace(s[k])
    ensures j == |s| || !IsSpace(s[j])
    decreases |s| - i
  {
    if i < |s| && IsSpace(s[i]) then SkipSpaces(s, i + 1) else i
  }

  /** Going back from `j`, the end of the last position at or after `lo` that does not hold whitespace (`lo` when there is none). */
  function BackSpaces(s: string, lo: nat, j: nat): (e: nat)
    requires lo <= j <= |s|
    ensures lo <= e <= j
    ensures forall k :: e <= k < j ==> IsSpace(s[k])
    ensures e == lo || !IsSpace(s[e - 1])
    decreases j
  {
    if j > lo && IsSpace(s[j - 1]) then BackSpaces(s, lo, j - 1) else j
  }

  /** Where the stripped text starts: after the leading whitespace. */
  function StripStart(s: string): nat
  {
    SkipSpaces(s, 0)
  }

  /** Where the stripped text ends: before the trailing whitespace. */
  function StripEnd(s: string): (e: nat)
    ensures StripStart(s) <= e <= |s|
  {
    BackSpaces(s, StripStart(s), |s|)
  }

  /** Python's `s.strip()`: `s` without its leading and trailing whitespace. */
  function Strip(s: string): string
  {
    s[StripStart(s)..StripEnd(s)]
  }

  /**
    Stripping removes exactly the surrounding whitespace: the result is the
    part of the text between its leading and its trailing whitespace, it
    neither starts nor ends with whitespace, and it is empty exactly when the
    text is blank.
  */
  lemma StripSpec(s: string)
    ensures var r, a, b := Strip(s), StripStart(s), StripEnd(s);
      && a <= b <= |s| && r == s[a..b]
      && (forall i :: 0 <= i < a ==> IsSpace(s[i]))
      && (forall i :: b <= i < |s| ==> IsSpace(s[i]))
      && (r == [] || (!IsSpace(r[0]) && !IsSpace(r[|r| - 1])))
      && (r == [] <==> IsBlank(s))
  {
    var a, b := StripStart(s), StripEnd(s);
    if a < b {
      assert !IsSpace(s[a]);
      assert !IsSpace(s[b - 1]);
    }
  }

  // ---------------------------------------------------------------------------
  // decimal rendering
  // ---------------------------------------------------------------------------

  predicate IsDigit(c: char) { '0' <= c <= '9' }

  predicate AllDigits(s: string)
  {
    forall i :: 0 <= i < |s| ==> IsDigit(s[i])
  }

  function DigitChar(d: nat): (c: char)
    requires d < 10
    ensures IsDigit(c)
  {
    ('0' as int + d) as char
  }

  function DigitValue(c: char): (d: nat)
    requires IsDigit(c)
    ensures d < 10
  {
    c as int - '0' as int
  }

  /** Python's `str(n)` for `n >= 0`: decimal digits without a leading zero. */
  function NatToString(n: nat): (s: string)
    ensures 1 <= |s| && AllDigits(s)
    ensures |s| == 1 || s[0] != '0'
  {
    if n < 10 then [DigitChar(n)] else NatToString(n / 10) + [DigitChar(n % 10)]
  }

  /** The value of a string of decimal digits (the empty string reads as 0). */
  function ParseNat(s: string): nat
    requires AllDigits(s)
  {
    if |s| == 0 then 0 else ParseNat(s[..|s| - 1]) * 10 + DigitValue(s[|s| - 1])
  }

  /** Reading back the rendering of `n` gives `n`. */
  lemma {:induction false} ParseNatToString(n: nat)
    ensures ParseNat(NatToString(n)) == n
  {
    var s := NatToString(n);
    if n < 10 {
      assert s[..0] == [];
    } else {
      assert s[..|s| - 1] == NatToString(n / 10);
      ParseNatToString(n / 10);
    }
  }

  /** Python's `str(i)` (and f-string `{i}`) for any integer. */
  function IntToString(i: int): string
  {
    if i < 0 then "-" + NatToString(-i) else NatToString(i)
  }

  /** An optional minus sign followed by at least one digit. */
  predicate IsIntLiteral(s: string)
  {
    if |s| > 0 && s[0] == '-' then |s| > 1 && AllDigits(s[1..]) else |s| > 0 && AllDigits(s)
  }

  function ParseInt(s: string): int
    requires IsIntLiteral(s)
  {
    if s[0] == '-' then -(ParseNat(s[1..]) as int) else ParseNat(s)
  }

  /** The rendering of an integer is an integer literal that reads back as the integer. */
  lemma IntToStringRoundTrip(i: int)
    ensures IsIntLiteral(IntToString(i))
    ensures ParseInt(IntToString(i)) == i
  {
    var s := IntToString(i);
    if i < 0 {
      assert s[1..] == NatToString(-i);
      ParseNatToString(-i);
    } else {
      ParseNatToString(i);
    }
  }

  /** Python's f-string `{n:02d}` for `0 <= n < 100`: two digits, zero-padded. */
  function TwoDigits(n: nat): string
    requires n < 100
  {
    [DigitChar(n / 10), DigitChar(n % 10)]
  }

  /**
    The padded rendering has exactly two digits, reads back as `n`, and is the
    plain rendering with a `0` in front when `n` has one digit.
  */
  lemma TwoDigitsSpec(n: nat)
    requires n < 100
    ensures |TwoDigits(n)| == 2 && AllDigits(TwoDigits(n))
    ensures ParseNat(TwoDigits(n)) == n
    ensures TwoDigits(n) == if n < 10 then "0" + NatToString(n) else NatToString(n)
  {
    var s := TwoDigits(n);
    assert s[..1][..0] == [];
    assert s[..1] == [DigitChar(n / 10)];
    assert DigitValue(s[0]) == n / 10 && DigitValue(s[1]) == n % 10;
    assert ParseNat(s[..1]) == n / 10;
  }
}
