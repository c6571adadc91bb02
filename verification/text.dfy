/**
 The string primitives the checker relies on, each written as the Python 2
 built-in it stands for: `str.split` with an explicit separator, `str.join`,
 `str.strip()` with no argument, iteration over the lines of a text file and
 `%d` formatting of a non-negative integer.
 */
module Text {

  /** Number of occurrences of `c` in `s`. */
  function Occurrences(s: string, c: char): nat
  {
    if |s| == 0 then 0
    else (if s[0] == c then 1 else 0) + Occurrences(s[1..], c)
  }

  // ---------------------------------------------------------------------
  // str.split(sep) and str.join

  /** `s.split(sep)` for a one-character separator: the pieces between the
      separators, empty pieces included, so there is one piece more than
      there are separators. */
  function Split(s: string, sep: char): (pieces: seq<string>)
    ensures |pieces| == Occurrences(s, sep) + 1
    ensures forall i :: 0 <= i < |pieces| ==> sep !in pieces[i]
  {
    if |s| == 0 then [""]
    else if s[0] == sep then [""] + Split(s[1..], sep)
    else
      var rest := Split(s[1..], sep);
      [[s[0]] + rest[0]] + rest[1..]
  }

  /** `sep.join(pieces)`. */
  function Join(pieces: seq<string>, sep: char): string
  {
    if |pieces| == 0 then ""
    else if |pieces| == 1 then pieces[0]
    else pieces[0] + [sep] + Join(pieces[1..], sep)
  }

  /** Joining the pieces of a split gives the original string back. */
  lemma {:induction false} JoinSplit(s: string, sep: char)
    ensures Join(Split(s, sep), sep) == s
  {
    if |s| == 0 {
    } else if s[0] == sep {
      JoinSplit(s[1..], sep);
      assert s == [sep] + s[1..];
    } else {
      var rest := Split(s[1..], sep);
      JoinSplit(s[1..], sep);
      if |rest| == 1 {
        assert s == [s[0]] + rest[0];
      } else {
        assert Join(rest, sep) == rest[0] + [sep] + Join(rest[1..], sep);
        assert s == [s[0]] + s[1..];
      }
    }
  }

  /** Splitting a join of separator-free pieces gives the pieces back. */
  lemma {:induction false} SplitJoin(pieces: seq<string>, sep: char)
    requires |pieces| >= 1
    requires forall i :: 0 <= i < |pieces| ==> sep !in pieces[i]
    ensures Split(Join(pieces, sep), sep) == pieces
  {
    if |pieces| == 1 {
      SplitFree(pieces[0], sep);
    } else {
      SplitJoin(pieces[1..], sep);
      SplitPrefix(pieces[0], Join(pieces[1..], sep), sep);
    }
  }

  /** A separator-free string splits into itself alone. */
  lemma {:induction false} SplitFree(s: string, sep: char)
    requires sep !in s
    ensures Split(s, sep) == [s]
  {
    if |s| > 0 {
      assert s[0] != sep;
      SplitFree(s[1..], sep);
      assert [s[0]] + s[1..] == s;
    }
  }

  /** Splitting `a + [sep] + b`, with `a` separator-free, yields `a` and
      then the pieces of `b`. */
  lemma {:induction false} SplitPrefix(a: string, b: string, sep: char)
    requires sep !in a
    ensures Split(a + [sep] + b, sep) == [a] + Split(b, sep)
  {
    if |a| == 0 {
      assert a + [sep] + b == [sep] + b;
      assert ([sep] + b)[1..] == b;
    } else {
      SplitPrefix(a[1..], b, sep);
      assert (a + [sep] + b)[1..] == a[1..] + [sep] + b;
      assert [a[0]] + a[1..] == a;
    }
  }

  // ---------------------------------------------------------------------
  // str.strip()

  /** The characters Python 2's byte-string `strip()` removes. */
  predicate IsSpace(c: char)
  {
    c == ' ' || c == '\t' || c == '\n' || c == '\r' || c == '\U{0B}' || c == '\U{0C}'
  }

  /** Every character of `s[lo..hi]` is whitespace. */
  predicate SpaceBetween(s: string, lo: int, hi: int)
    requires 0 <= lo && hi <= |s|
  {
    forall k :: lo <= k < hi ==> IsSpace(s[k])
  }

  /** Length of the leading run of whitespace. */
  function LeadingSpace(s: string, lo: nat := 0): (i: nat)
    requires lo <= |s|
    ensures lo <= i <= |s| && SpaceBetween(s, lo, i)
    ensures i < |s| ==> !IsSpace(s[i])
    decreases |s| - lo
  {
    if lo < |s| && IsSpace(s[lo]) then LeadingSpace(s, lo + 1) else lo
  }

  /** Start of the trailing run of whitespace of `s[lo..hi]`. */
  function TrailingStart(s: string, lo: nat, hi: nat): (j: nat)
    requires lo <= hi <= |s|
    ensures lo <= j <= hi && SpaceBetween(s, j, hi)
    ensures lo < j ==> !IsSpace(s[j - 1])
    decreases hi
  {
    if lo < hi && IsSpace(s[hi - 1]) then TrailingStart(s, lo, hi - 1) else hi
  }

  /** `s.strip()`: `s` without its leading and trailing whitespace. */
  function Strip(s: string): (r: string)
    ensures exists i, j :: 0 <= i <= j <= |s| && r == s[i..j] && SpaceBetween(s, 0, i) && SpaceBetween(s, j, |s|)
    ensures r == [] || (!IsSpace(r[0]) && !IsSpace(r[|r| - 1]))
  {
    var i := LeadingSpace(s);
    var j := TrailingStart(s, i, |s|);
    assert i < j ==> s[i..j][0] == s[i] && s[i..j][j - i - 1] == s[j - 1];
    s[i..j]
  }

  /** Stripping a stripped string changes nothing. */
  lemma StripIdempotent(s: string)
    ensures Strip(Strip(s)) == Strip(s)
  {
    var r := Strip(s);
    StripOfTrimmed(r);
  }

  /** A string that neither starts nor ends with whitespace strips to itself. */
  lemma StripOfTrimmed(r: string)
    requires r == [] || (!IsSpace(r[0]) && !IsSpace(r[|r| - 1]))
    ensures Strip(r) == r
  {
    if r != [] {
      assert LeadingSpace(r) == 0;
      assert TrailingStart(r, 0, |r|) == |r|;
    }
  }

  // ---------------------------------------------------------------------
  // Iterating over the lines of a file

  /** Concatenation of a sequence of strings. */
  function Concat(parts: seq<string>): string
  {
    if |parts| == 0 then "" else Concat(parts[..|parts| - 1]) + parts[|parts| - 1]
  }

  lemma {:induction false} ConcatCons(head: string, tail: seq<string>)
    ensures Concat([head] + tail) == head + Concat(tail)
    decreases |tail|
  {
    if |tail| == 0 {
      assert [head] + tail == [head];
    } else {
      var n := |tail|;
      ConcatCons(head, tail[..n - 1]);
      assert ([head] + tail)[..n] == [head] + tail[..n - 1];
    }
  }

  /** A well-formed line as the file iterator yields it: non-empty, with a
      newline only as its last character. */
  predicate IsLine(l: string)
  {
    |l| > 0 && '\n' !in l[..|l| - 1]
  }

  /** Position of the first `c` in `s`. */
  function IndexOf(s: string, c: char): (k: nat)
    requires c in s
    ensures k < |s| && s[k] == c && c !in s[..k]
  {
    if s[0] == c then 0 else 1 + IndexOf(s[1..], c)
  }

  /** The lines `for line in file` yields for a file with contents `text`:
      each ends with its newline, except possibly the last one. */
  function Lines(text: string): (lines: seq<string>)
    ensures Concat(lines) == text
    ensures forall i :: 0 <= i < |lines| ==>
              IsLine(lines[i]) && (i < |lines| - 1 ==> lines[i][|lines[i]| - 1] == '\n')
    decreases |text|
  {
    if '\n' !in text then
      if |text| == 0 then [] else assert Concat([text]) == Concat([]) + text; [text]
    else
      var k := IndexOf(text, '\n');
      var line := text[..k + 1];
      var rest := Lines(text[k + 1..]);
      ConcatCons(line, rest);
      assert line + text[k + 1..] == text;
      assert line[..|line| - 1] == text[..k];
      [line] + rest
  }

  // ---------------------------------------------------------------------
  // %d

  function DigitChar(d: nat): (c: char)
    requires d < 10
    ensures '0' <= c <= '9' && (c as int) - ('0' as int) == d
  {
    (('0' as int) + d) as char
  }

  predicate IsDigit(c: char)
  {
    '0' <= c <= '9'
  }

  /** The canonical decimal spelling of `n`, as `"%d" % n` writes it. */
  function Decimal(n: nat): (s: string)
    ensures |s| >= 1
    ensures forall k :: 0 <= k < |s| ==> IsDigit(s[k])
    ensures |s| > 1 ==> s[0] != '0'
  {
    if n < 10 then [DigitChar(n)] else Decimal(n / 10) + [DigitChar(n % 10)]
  }

  function DigitValue(c: char): nat
    requires IsDigit(c)
  {
    (c as int) - ('0' as int)
  }

  /** The number a string of decimal digits denotes. */
  function DigitsValue(s: string): nat
    requires forall k :: 0 <= k < |s| ==> IsDigit(s[k])
  {
    if |s| == 0 then 0
    else 10 * DigitsValue(s[..|s| - 1]) + DigitValue(s[|s| - 1])
  }

  /** Reading back the spelling `%d` produced gives the number again. */
  lemma {:induction false} DecimalRoundTrip(n: nat)
    ensures DigitsValue(Decimal(n)) == n
  {
    if n >= 10 {
      DecimalRoundTrip(n / 10);
      var s := Decimal(n);
      assert s[..|s| - 1] == Decimal(n / 10);
    }
  }

  /** `d` is the canonical decimal spelling of `v`: one or more digits,
      no leading zero, denoting `v`. */
  predicate Spells(d: string, v: nat)
  {
    && |d| >= 1
    && (forall k :: 0 <= k < |d| ==> IsDigit(d[k]))
    && (|d| > 1 ==> d[0] != '0')
    && DigitsValue(d) == v
  }

  /** `%d` writes the canonical spelling. */
  lemma DecimalSpells(n: nat)
    ensures Spells(Decimal(n), n)
  {
    DecimalRoundTrip(n);
  }

  /** A number has one canonical spelling, and it is the one `%d` writes. */
  lemma {:induction false} SpellingUnique(d: string, v: nat)
    requires Spells(d, v)
    ensures d == Decimal(v)
    decreases |d|
  {
    var last := d[|d| - 1];
    if |d| > 1 {
      var init := d[..|d| - 1];
      LeadingDigitPositive(init);
      assert v / 10 == DigitsValue(init) && v % 10 == DigitValue(last);
      SpellingUnique(init, DigitsValue(init));
      assert d == init + [last];
    } else {
      assert d[..0] == [] && DigitsValue(d[..0]) == 0;
      assert v == DigitValue(last);
      assert DigitValue(last) < 10;
      assert d == [last];
    }
  }

  /** Digits that do not start with `0` denote a positive number. */
  lemma {:induction false} LeadingDigitPositive(d: string)
    requires |d| >= 1 && forall k :: 0 <= k < |d| ==> IsDigit(d[k])
    requires d[0] != '0'
    ensures DigitsValue(d) >= 1
    decreases |d|
  {
    if |d| > 1 {
      LeadingDigitPositive(d[..|d| - 1]);
    }
  }
}
