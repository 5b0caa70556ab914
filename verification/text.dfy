/**
 This module mirrors the handful of Rust `str` operations the shell-output
 parsers are written with: `find`/`rfind` of a character, `splitn`, the
 `trim` family, `lines`, `BufRead::read_line` chunking and integer `parse`.
 Strings are sequences of Unicode scalar values (`char`).
 */
module Text {
  import opened Options

  predicate StartsWith(s: string, prefix: string)
  {
    |prefix| <= |s| && s[..|prefix|] == prefix
  }

  /** `s.find(c)`: the index of the first occurrence of `c`. */
  function IndexOf(s: string, c: char): (r: Option<nat>)
    ensures r.None? <==> c !in s
    ensures r.Some? ==> r.value < |s| && s[r.value] == c && c !in s[..r.value]
  {
    if |s| == 0 then None
    else if s[0] == c then Some(0)
    else match IndexOf(s[1..], c)
      case None => None
      case Some(i) => assert s[1..][..i] == s[1..i + 1]; Some(i + 1)
  }

  /** `s.rfind(c)`: the index of the last occurrence of `c`. */
  function LastIndexOf(s: string, c: char): (r: Option<nat>)
    ensures r.None? <==> c !in s
    ensures r.Some? ==> r.value < |s| && s[r.value] == c && c !in s[r.value + 1..]
  {
    if |s| == 0 then None
    else if s[|s| - 1] == c then Some(|s| - 1)
    else
      var r := LastIndexOf(s[..|s| - 1], c);
      assert s == s[..|s| - 1] + [s[|s| - 1]];
      r
  }

  /** Number of occurrences of `c` in `s`. */
  function Count(s: string, c: char): nat
  {
    if |s| == 0 then 0 else (if s[0] == c then 1 else 0) + Count(s[1..], c)
  }

  /** The inverse of splitting: the parts joined with `sep` between them. */
  function Join(parts: seq<string>, sep: char): string
  {
    if |parts| == 0 then ""
    else if |parts| == 1 then parts[0]
    else parts[0] + [sep] + Join(parts[1..], sep)
  }

  /** `s.split(sep)`: every piece between separators, empty ones included. */
  function Split(s: string, sep: char): (parts: seq<string>)
    ensures |parts| > 0
    ensures forall i :: 0 <= i < |parts| ==> sep !in parts[i]
    decreases |s|
  {
    match IndexOf(s, sep)
    case None => [s]
    case Some(i) => [s[..i]] + Split(s[i + 1..], sep)
  }

  /** Splitting the join of separator-free pieces gives the pieces back. */
  lemma {:induction false} SplitJoin(parts: seq<string>, sep: char)
    requires |parts| > 0
    requires forall i :: 0 <= i < |parts| ==> sep !in parts[i]
    ensures Split(Join(parts, sep), sep) == parts
    decreases |parts|
  {
    if |parts| > 1 {
      var head := parts[0];
      var rest := Join(parts[1..], sep);
      JoinStep(head, parts[1..], sep);
      assert [head] + parts[1..] == parts;
      var s := head + [sep] + rest;
      assert s[..|head|] == head;
      IndexOfAt(s, sep, |head|);
      assert s[|head| + 1..] == rest;
      SplitJoin(parts[1..], sep);
    } else {
      assert Join(parts, sep) == parts[0];
    }
  }

  /**
   `s.splitn(n, sep)`: at most `n` pieces; the last piece keeps every further
   separator.
   */
  function SplitN(s: string, n: nat, sep: char): (parts: seq<string>)
    ensures n == 0 <==> parts == []
    ensures n > 0 ==> 1 <= |parts| <= n
    ensures forall i :: 0 <= i < |parts| - 1 ==> sep !in parts[i]
    ensures 0 < |parts| < n ==> sep !in parts[|parts| - 1]
    decreases n
  {
    if n == 0 then []
    else if n == 1 then [s]
    else match IndexOf(s, sep)
      case None => [s]
      case Some(i) =>
        [s[..i]] + SplitN(s[i + 1..], n - 1, sep)
  }

  /** Joining the pieces of `splitn` gives the string back. */
  lemma {:induction false} JoinSplitN(s: string, n: nat, sep: char)
    requires n > 0
    ensures Join(SplitN(s, n, sep), sep) == s
    decreases n
  {
    if n > 1 && IndexOf(s, sep).Some? {
      var i := IndexOf(s, sep).value;
      var head := s[..i];
      var tail := s[i + 1..];
      var rest := SplitN(tail, n - 1, sep);
      JoinSplitN(tail, n - 1, sep);
      SplitNStep(s, n, sep, i);
      JoinStep(head, rest, sep);
      SplitAround(s, i);
    }
  }

  lemma SplitAround(s: string, i: nat)
    requires i < |s|
    ensures s == s[..i] + [s[i]] + s[i + 1..]
  {
  }

  lemma JoinStep(head: string, rest: seq<string>, sep: char)
    requires |rest| > 0
    ensures Join([head] + rest, sep) == head + [sep] + Join(rest, sep)
  {
    assert ([head] + rest)[1..] == rest;
  }

  lemma {:induction false} CountSplit(a: string, b: string, c: char)
    ensures Count(a + b, c) == Count(a, c) + Count(b, c)
    decreases |a|
  {
    if |a| > 0 {
      assert (a + b)[1..] == a[1..] + b;
      CountSplit(a[1..], b, c);
    } else {
      assert a + b == b;
    }
  }

  lemma {:induction false} CountAbsent(s: string, c: char)
    requires c !in s
    ensures Count(s, c) == 0
    decreases |s|
  {
    if |s| > 0 {
      CountAbsent(s[1..], c);
    }
  }

  /** `splitn(n, sep)` yields `min(n, separators + 1)` pieces. */
  lemma {:induction false} SplitNLength(s: string, n: nat, sep: char)
    requires n > 0
    ensures |SplitN(s, n, sep)| == if Count(s, sep) + 1 < n then Count(s, sep) + 1 else n
    decreases n
  {
    if n > 1 {
      if IndexOf(s, sep).None? {
        CountAbsent(s, sep);
      } else {
        var i := IndexOf(s, sep).value;
        var tail := s[i + 1..];
        SplitNLength(tail, n - 1, sep);
        SplitNStep(s, n, sep, i);
        assert |SplitN(s, n, sep)| == 1 + |SplitN(tail, n - 1, sep)|;
        CountAt(s, sep, i);
      }
    }
  }

  lemma SplitNStep(s: string, n: nat, sep: char, i: nat)
    requires n > 1 && IndexOf(s, sep) == Some(i)
    ensures SplitN(s, n, sep) == [s[..i]] + SplitN(s[i + 1..], n - 1, sep)
  {
  }

  /** Where the first separator is. */
  lemma IndexOfAt(s: string, c: char, k: nat)
    requires k < |s| && s[k] == c && c !in s[..k]
    ensures IndexOf(s, c) == Some(k)
  {
  }

  lemma CountAt(s: string, c: char, i: nat)
    requires i < |s| && s[i] == c && c !in s[..i]
    ensures Count(s, c) == 1 + Count(s[i + 1..], c)
  {
    assert s == s[..i] + [c] + s[i + 1..];
    CountSeparator(s[..i], s[i + 1..], c);
  }

  lemma CountSeparator(a: string, b: string, c: char)
    requires c !in a
    ensures Count(a + [c] + b, c) == 1 + Count(b, c)
  {
    CountSplit(a, [c] + b, c);
    CountAbsent(a, c);
    assert a + [c] + b == a + ([c] + b);
    assert ([c] + b)[1..] == b;
  }

  /** Unicode `White_Space`, the set `char::is_whitespace` and `str::trim` use. */
  predicate IsWhitespace(c: char)
  {
    || ('\t' <= c <= '\r') || c == ' '
    || c == '\U{85}' || c == '\U{A0}' || c == '\U{1680}'
    || ('\U{2000}' <= c <= '\U{200A}')
    || c == '\U{2028}' || c == '\U{2029}' || c == '\U{202F}' || c == '\U{205F}' || c == '\U{3000}'
  }

  /** Drops the longest prefix of characters satisfying `strip`. */
  function TrimStart(s: string, strip: char -> bool): (r: string)
    ensures |r| <= |s| && r == s[|s| - |r|..]
    ensures forall i :: 0 <= i < |s| - |r| ==> strip(s[i])
    ensures r == [] || !strip(r[0])
  {
    if |s| == 0 || !strip(s[0]) then s else TrimStart(s[1..], strip)
  }

  /** Drops the longest suffix of characters satisfying `strip`. */
  function TrimEnd(s: string, strip: char -> bool): (r: string)
    ensures |r| <= |s| && r == s[..|r|]
    ensures forall i :: |r| <= i < |s| ==> strip(s[i])
    ensures r == [] || !strip(r[|r| - 1])
  {
    if |s| == 0 || !strip(s[|s| - 1]) then s else TrimEnd(s[..|s| - 1], strip)
  }

  /** `trim_matches`: both ends stripped; nothing inside is touched. */
  function TrimBoth(s: string, strip: char -> bool): (r: string)
    ensures |r| <= |s|
    ensures r == [] || (!strip(r[0]) && !strip(r[|r| - 1]))
    ensures (forall i :: 0 <= i < |s| ==> strip(s[i])) ==> r == []
    ensures |s| > 0 && !strip(s[0]) && !strip(s[|s| - 1]) ==> r == s
  {
    TrimEnd(TrimStart(s, strip), strip)
  }

  /** No whitespace at either end. */
  predicate Trimmed(s: string)
  {
    s == [] || (!IsWhitespace(s[0]) && !IsWhitespace(s[|s| - 1]))
  }

  /** `str::trim`. */
  function Trim(s: string): (r: string)
    ensures Trimmed(r)
  {
    TrimBoth(s, IsWhitespace)
  }

  /** Concatenation of a sequence of strings. */
  function Concat(chunks: seq<string>): string
  {
    if |chunks| == 0 then "" else chunks[0] + Concat(chunks[1..])
  }

  /**
   The pieces `BufRead::read_line` returns one after another (equivalently
   `split_inclusive('\n')`): each ends with its newline, except possibly the
   last, and none is empty.
   */
  function ReadLines(s: string): (chunks: seq<string>)
    ensures forall i :: 0 <= i < |chunks| ==> |chunks[i]| > 0 && '\n' !in chunks[i][..|chunks[i]| - 1]
    ensures forall i :: 0 <= i < |chunks| - 1 ==> chunks[i][|chunks[i]| - 1] == '\n'
  {
    match IndexOf(s, '\n')
    case None => if s == "" then [] else [s]
    case Some(i) =>
      var head := s[..i + 1];
      var rest := ReadLines(s[i + 1..]);
      var r := [head] + rest;
      assert head[..i] == s[..i];
      assert forall k :: 0 < k < |r| ==> r[k] == rest[k - 1];
      r
  }

  /** The pieces `read_line` returns make up the whole text: nothing is lost or repeated. */
  lemma {:induction false} ReadLinesConcat(s: string)
    ensures Concat(ReadLines(s)) == s
    decreases |s|
  {
    match IndexOf(s, '\n')
    case None =>
    case Some(i) =>
      var r := ReadLines(s);
      ReadLinesConcat(s[i + 1..]);
      assert r[1..] == ReadLines(s[i + 1..]);
      assert s == s[..i + 1] + s[i + 1..];
  }

  /** One element of `str::lines`: the line ending `\n` or `\r\n` removed. */
  function StripLineEnding(chunk: string): (r: string)
    ensures |r| <= |chunk| && r == chunk[..|r|]
    ensures |chunk| > 0 && '\n' !in chunk[..|chunk| - 1] ==> '\n' !in r
  {
    if |chunk| > 0 && chunk[|chunk| - 1] == '\n' then
      var l := chunk[..|chunk| - 1];
      if |l| > 0 && l[|l| - 1] == '\r' then l[..|l| - 1] else l
    else chunk
  }

  /** `str::lines`. */
  function Lines(s: string): (r: seq<string>)
    ensures |r| == |ReadLines(s)|
    ensures forall i :: 0 <= i < |r| ==> '\n' !in r[i]
  {
    var chunks := ReadLines(s);
    seq(|chunks|, i requires 0 <= i < |chunks| => StripLineEnding(chunks[i]))
  }

  predicate IsDigit(c: char)
  {
    '0' <= c <= '9'
  }

  predicate AllDigits(s: string)
  {
    forall i :: 0 <= i < |s| ==> IsDigit(s[i])
  }

  function DigitChar(d: nat): (c: char)
    requires d < 10
    ensures IsDigit(c)
  {
    ('0' as int + d) as char
  }

  /** The value of a string of decimal digits, most significant first. */
  function DecimalValue(s: string): nat
    requires AllDigits(s)
  {
    if |s| == 0 then 0 else DecimalValue(s[..|s| - 1]) * 10 + (s[|s| - 1] as int - '0' as int)
  }

  /** The shortest decimal rendering of `v`, as `stat` and `find` print numbers. */
  function Decimal(v: nat): (s: string)
    ensures |s| > 0 && AllDigits(s)
  {
    if v < 10 then [DigitChar(v)] else Decimal(v / 10) + [DigitChar(v % 10)]
  }

  lemma {:induction false} DecimalValueOfDecimal(v: nat)
    ensures DecimalValue(Decimal(v)) == v
  {
    if v >= 10 {
      DecimalValueOfDecimal(v / 10);
      var s := Decimal(v);
      assert s[..|s| - 1] == Decimal(v / 10);
    }
  }

  /** 2^64: `usize` (on a 64-bit target) and `u64` hold the values below it. */
  const U64_LIMIT: nat := 0x1_0000_0000_0000_0000

  /** 2^31: `i32` holds the values in `[-2^31, 2^31)`. */
  const I32_LIMIT: nat := 0x8000_0000

  /**
   `str::parse` for an unsigned integer type holding the values below `limit`:
   an optional `+`, then at least one decimal digit and nothing else, and no
   overflow.
   */
  function ParseUnsigned(s: string, limit: nat): (r: Option<nat>)
    ensures r.Some? ==> r.value < limit && |s| > 0
    ensures r.Some? ==> IsDigit(s[|s| - 1])
  {
    var digits := if |s| > 0 && s[0] == '+' then s[1..] else s;
    if |digits| > 0 && AllDigits(digits) && DecimalValue(digits) < limit then
      Some(DecimalValue(digits))
    else
      None
  }

  /** Every number below the limit, printed in decimal, parses back to itself. */
  lemma ParseUnsignedDecimal(v: nat, limit: nat)
    requires v < limit
    ensures ParseUnsigned(Decimal(v), limit) == Some(v)
  {
    DecimalValueOfDecimal(v);
  }

  /** `str::parse::<i32>`: an optional sign, then at least one digit, no overflow. */
  function ParseI32(s: string): (r: Option<int>)
    ensures r.Some? ==> -(I32_LIMIT as int) <= r.value < I32_LIMIT
    ensures r.Some? ==> |s| > 0 && IsDigit(s[|s| - 1])
  {
    if |s| > 0 && s[0] == '-' then
      var digits := s[1..];
      if |digits| > 0 && AllDigits(digits) && DecimalValue(digits) <= I32_LIMIT then
        Some(-(DecimalValue(digits) as int))
      else
        None
    else
      match ParseUnsigned(s, I32_LIMIT)
      case None => None
      case Some(v) => Some(v as int)
  }

  lemma ParseI32Decimal(v: int)
    requires -(I32_LIMIT as int) <= v < I32_LIMIT
    ensures v >= 0 ==> ParseI32(Decimal(v)) == Some(v)
    ensures v < 0 ==> ParseI32("-" + Decimal(-v)) == Some(v)
  {
    if v >= 0 {
      DecimalValueOfDecimal(v);
    } else {
      DecimalValueOfDecimal(-v);
      assert ("-" + Decimal(-v))[1..] == Decimal(-v);
    }
  }

  /** A non-negative number from 2^31 on does not parse as an `i32`. */
  lemma ParseI32Overflow(v: nat)
    requires v >= I32_LIMIT
    ensures ParseI32(Decimal(v)) == None
  {
    DecimalValueOfDecimal(v);
    var d := Decimal(v);
    assert IsDigit(d[0]);
  }

  /** Appending a part to a non-empty join adds one separator and the part. */
  lemma {:induction false} JoinAppend(parts: seq<string>, last: string, sep: char)
    requires |parts| > 0
    ensures Join(parts + [last], sep) == Join(parts, sep) + [sep] + last
    decreases |parts|
  {
    if |parts| == 1 {
      assert (parts + [last])[1..] == [last];
    } else {
      assert (parts + [last])[1..] == parts[1..] + [last];
      JoinAppend(parts[1..], last, sep);
    }
  }
}
