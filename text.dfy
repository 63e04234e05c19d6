/**
 * The Kotlin string operations the query-clause parser and the write-ahead log rely on:
 * whitespace, `isBlank`, `trim`, `split` on a character, `split` with a limit, `split` on a
 * regular expression of the form `c+`, `toInt()` and the decimal rendering of an `Int`.
 */
module Text {
  import opened Bytes
  import opened StorageApi

  /**
   * Kotlin's `Char.isWhitespace`: Java's `isWhitespace` (tab to carriage return, the separators
   * 28-31, and the space, line and paragraph separators other than the no-break ones) or Java's
   * `isSpaceChar` (every space, line and paragraph separator, the no-break ones included).
   */
  predicate IsWhitespace(c: char) {
    var x := c as int;
    (9 <= x <= 13) || (28 <= x <= 32) || x == 0xA0 || x == 0x1680 || (0x2000 <= x <= 0x200A)
    || x == 0x2028 || x == 0x2029 || x == 0x202F || x == 0x205F || x == 0x3000
  }

  /** `isBlank()`: empty, or whitespace only. */
  predicate Blank(s: string) {
    forall i :: 0 <= i < |s| ==> IsWhitespace(s[i])
  }

  /** The index of the first `d` in `s`, if any. */
  function IndexOf(s: string, d: char): (r: Option<nat>)
    ensures r.None? <==> d !in s
    ensures r.Some? ==> r.value < |s| && s[r.value] == d && d !in s[..r.value]
  {
    if s == [] then None
    else if s[0] == d then Some(0)
    else
      match IndexOf(s[1..], d)
      case None => None
      case Some(i) =>
        assert s[1..][..i] == s[1..i + 1];
        Some(i + 1)
  }

  // ===========================================================================
  // trim
  // ===========================================================================

  /** The first index from `i` on that does not hold whitespace. */
  function SkipStart(s: string, i: nat): (a: nat)
    requires i <= |s|
    ensures i <= a <= |s| && (a == |s| || !IsWhitespace(s[a]))
    ensures forall k :: i <= k < a ==> IsWhitespace(s[k])
    decreases |s| - i
  {
    if i < |s| && IsWhitespace(s[i]) then SkipStart(s, i + 1) else i
  }

  /** The end of `s[a..j]` once its trailing whitespace is cut off. */
  function SkipEnd(s: string, a: nat, j: nat): (b: nat)
    requires a <= j <= |s|
    ensures a <= b <= j && (b == a || !IsWhitespace(s[b - 1]))
    ensures forall k :: b <= k < j ==> IsWhitespace(s[k])
    decreases j
  {
    if a < j && IsWhitespace(s[j - 1]) then SkipEnd(s, a, j - 1) else j
  }

  /** `trim()`: whitespace removed at both ends. */
  function Trim(s: string): (t: string)
    ensures t == [] || (!IsWhitespace(t[0]) && !IsWhitespace(t[|t| - 1]))
    ensures exists a :: 0 <= a <= |s| - |t| && t == s[a..a + |t|] && Blank(s[..a]) && Blank(s[a + |t|..])
  {
    var a := SkipStart(s, 0);
    var b := SkipEnd(s, a, |s|);
    assert Blank(s[..a]) && Blank(s[b..]);
    s[a..b]
  }

  /** A string that neither starts nor ends with whitespace trims to itself. */
  lemma TrimUnchanged(s: string)
    requires s == [] || (!IsWhitespace(s[0]) && !IsWhitespace(s[|s| - 1]))
    ensures Trim(s) == s
  {
    assert SkipStart(s, 0) == 0;
    assert SkipEnd(s, 0, |s|) == |s|;
  }

  /** Trimming a trimmed string changes nothing; a string trims to nothing exactly when it is blank. */
  lemma TrimIdempotent(s: string)
    ensures Trim(Trim(s)) == Trim(s)
    ensures Blank(s) <==> Trim(s) == []
  {
    TrimUnchanged(Trim(s));
    var a := SkipStart(s, 0);
    if Blank(s) {
      assert a == |s|;
    }
  }

  // ===========================================================================
  // split
  // ===========================================================================

  /** `split(d)` for a one-character delimiter: the pieces between the occurrences of `d`. */
  function Split(s: string, d: char): (r: seq<string>)
    ensures |r| >= 1
    decreases |s|
  {
    match IndexOf(s, d)
    case None => [s]
    case Some(i) => [s[..i]] + Split(s[i + 1..], d)
  }

  /** The pieces joined with `d` between them. */
  function Join(parts: seq<string>, d: char): string
    decreases |parts|
  {
    if parts == [] then []
    else if |parts| == 1 then parts[0]
    else parts[0] + [d] + Join(parts[1..], d)
  }

  /** Splitting loses nothing: the pieces joined with the delimiter give the string back, and no piece holds the delimiter. */
  lemma {:induction false} JoinSplit(s: string, d: char)
    ensures Join(Split(s, d), d) == s
    ensures forall k :: 0 <= k < |Split(s, d)| ==> d !in Split(s, d)[k]
    decreases |s|
  {
    match IndexOf(s, d)
    case None =>
    case Some(i) =>
      JoinSplit(s[i + 1..], d);
      var rest := Split(s[i + 1..], d);
      assert Split(s, d) == [s[..i]] + rest;
      assert Split(s, d)[1..] == rest;
      assert s == s[..i] + [d] + s[i + 1..];
  }

  /** The first `d` is the one with no `d` before it. */
  lemma IndexOfAt(s: string, d: char, i: nat)
    requires i < |s| && s[i] == d && d !in s[..i]
    ensures IndexOf(s, d) == Some(i)
  {
  }

  /** A join starts with the first piece. */
  lemma JoinHead(parts: seq<string>, d: char)
    requires |parts| >= 1 && parts[0] != []
    ensures Join(parts, d) != [] && Join(parts, d)[0] == parts[0][0]
  {
    if |parts| > 1 {
      assert Join(parts, d) == parts[0] + [d] + Join(parts[1..], d);
    }
  }

  /** Joining pieces that do not hold the delimiter and splitting again gives the pieces back. */
  lemma {:induction false} SplitJoin(parts: seq<string>, d: char)
    requires |parts| >= 1 && forall k :: 0 <= k < |parts| ==> d !in parts[k]
    ensures Split(Join(parts, d), d) == parts
    decreases |parts|
  {
    if |parts| > 1 {
      var rest := Join(parts[1..], d);
      SplitJoin(parts[1..], d);
      var s := parts[0] + [d] + rest;
      assert s[..|parts[0]|] == parts[0];
      IndexOfAt(s, d, |parts[0]|);
      assert s[|parts[0]| + 1..] == rest;
    }
  }

  /** `split(d, limit = 2)`: the part before the first `d` and the rest, or the whole string. */
  function SplitFirst(s: string, d: char): (r: seq<string>)
    ensures IndexOf(s, d).None? ==> r == [s]
    ensures IndexOf(s, d).Some? ==> |r| == 2 && r[0] + [d] + r[1] == s && d !in r[0]
  {
    match IndexOf(s, d)
    case None => [s]
    case Some(i) =>
      assert s == s[..i] + [d] + s[i + 1..];
      [s[..i], s[i + 1..]]
  }

  /** The two regular expressions the clause parser splits on: `\\s+` and `&+`. */
  datatype Separator = Spaces | Ampersands

  /** A regular-expression `\\s` is narrower than `isWhitespace`: space and tab to carriage return only. */
  predicate IsSep(sep: Separator, c: char) {
    match sep
    case Spaces => c == ' ' || (9 <= c as int <= 13)
    case Ampersands => c == '&'
  }

  /** The index of the first character of `s` that is a separator, if any. */
  function FirstSep(s: string, sep: Separator): (r: Option<nat>)
    ensures r.None? ==> forall k :: 0 <= k < |s| ==> !IsSep(sep, s[k])
    ensures r.Some? ==> r.value < |s| && IsSep(sep, s[r.value]) && forall k :: 0 <= k < r.value ==> !IsSep(sep, s[k])
  {
    if s == [] then None
    else if IsSep(sep, s[0]) then Some(0)
    else
      match FirstSep(s[1..], sep)
      case None => None
      case Some(i) => Some(i + 1)
  }

  /** The end of the run of separators that starts at `i`. */
  function RunEnd(s: string, sep: Separator, i: nat): (j: nat)
    requires i <= |s|
    ensures i <= j <= |s| && (j == |s| || !IsSep(sep, s[j]))
    ensures forall k :: i <= k < j ==> IsSep(sep, s[k])
    decreases |s| - i
  {
    if i < |s| && IsSep(sep, s[i]) then RunEnd(s, sep, i + 1) else i
  }

  /**
   * `split(Regex(...), limit)` for the separator class `sep`: the pieces between maximal runs of
   * separators, at most `limit` of them (no bound for `limit <= 0`), the last one holding the
   * rest of the string. A leading run gives an empty first piece and a trailing run an empty last one.
   */
  function SplitRuns(s: string, sep: Separator, limit: int): (r: seq<string>)
    ensures |r| >= 1
    ensures limit > 0 ==> |r| <= limit
    decreases |s|
  {
    match FirstSep(s, sep)
    case None => [s]
    case Some(i) =>
      if limit == 1 then [s]
      else [s[..i]] + SplitRuns(s[RunEnd(s, sep, i)..], sep, if limit <= 0 then 0 else limit - 1)
  }

  /** `t` holds no separator. */
  predicate NoSep(t: string, sep: Separator) {
    forall m :: 0 <= m < |t| ==> !IsSep(sep, t[m])
  }

  function Last(parts: seq<string>): string
    requires |parts| >= 1
  {
    parts[|parts| - 1]
  }

  /** The characters of `s` that are not separators. */
  function Strip(s: string, sep: Separator): string
    decreases |s|
  {
    if s == [] then []
    else if IsSep(sep, s[0]) then Strip(s[1..], sep)
    else [s[0]] + Strip(s[1..], sep)
  }

  /** The pieces, one after another. */
  function Concat(parts: seq<string>): string
    decreases |parts|
  {
    if parts == [] then [] else parts[0] + Concat(parts[1..])
  }

  /** Stripping a string that starts with `i` non-separators and then has separators up to `j` keeps those `i` and drops the run. */
  lemma {:induction false} StripAtRun(s: string, sep: Separator, i: nat, j: nat)
    requires i <= j <= |s|
    requires forall k :: 0 <= k < i ==> !IsSep(sep, s[k])
    requires forall k :: i <= k < j ==> IsSep(sep, s[k])
    ensures Strip(s, sep) == s[..i] + Strip(s[j..], sep)
    decreases j
  {
    if i > 0 {
      StripAtRun(s[1..], sep, i - 1, j - 1);
      assert s[1..][j - 1..] == s[j..];
      assert s[..i] == [s[0]] + s[1..][..i - 1];
    } else if j > 0 {
      StripAtRun(s[1..], sep, 0, j - 1);
      assert s[1..][j - 1..] == s[j..];
    } else {
      assert s[j..] == s;
    }
  }

  /** One step of a split: a separator-free piece, then one separator, then a rest that does not start with one. */
  lemma SplitRunsStep(a: string, c: char, b: string, sep: Separator, limit: int)
    requires NoSep(a, sep) && IsSep(sep, c) && (b == [] || !IsSep(sep, b[0])) && limit != 1
    ensures SplitRuns(a + [c] + b, sep, limit) == [a] + SplitRuns(b, sep, if limit <= 0 then 0 else limit - 1)
  {
    var s := a + [c] + b;
    assert s[|a|] == c;
    var first := FirstSep(s, sep);
    assert first == Some(|a|);
    assert RunEnd(s, sep, |a| + 1) == |a| + 1;
    assert s[..|a|] == a && s[|a| + 1..] == b;
  }

  /** Three separator-free pieces, the middle one not empty, joined by single spaces split into three at most give them back. */
  lemma SplitThree(a: string, b: string, c: string)
    requires NoSep(a, Spaces) && NoSep(b, Spaces) && b != [] && (c == [] || !IsSep(Spaces, c[0]))
    ensures SplitRuns(a + " " + b + " " + c, Spaces, 3) == [a, b, c]
  {
    var rest := b + " " + c;
    assert a + " " + b + " " + c == a + [' '] + rest;
    SplitRunsStep(a, ' ', rest, Spaces, 3);
    SplitRunsStep(b, ' ', c, Spaces, 2);
  }

  /** Joining non-empty, separator-free pieces with one separator and splitting on separator runs gives the pieces back. */
  lemma {:induction false} SplitRunsJoin(parts: seq<string>, c: char, sep: Separator)
    requires |parts| >= 1 && IsSep(sep, c)
    requires forall k :: 0 <= k < |parts| ==> parts[k] != [] && NoSep(parts[k], sep)
    ensures SplitRuns(Join(parts, c), sep, 0) == parts
    decreases |parts|
  {
    if |parts| == 1 {
      assert FirstSep(parts[0], sep).None?;
    } else {
      SplitRunsJoin(parts[1..], c, sep);
      var rest := Join(parts[1..], c);
      JoinHead(parts[1..], c);
      SplitRunsStep(parts[0], c, rest, sep, 0);
    }
  }

  /** A piece put in front does not change the last piece. */
  lemma LastCons(a: string, parts: seq<string>)
    requires |parts| >= 1
    ensures Last([a] + parts) == Last(parts)
  {
  }

  /** A string that starts with a separator splits into an empty first piece, and one that ends with one into an empty last piece. */
  lemma {:induction false} SplitRunsEdges(s: string, sep: Separator)
    requires s != []
    ensures IsSep(sep, s[0]) ==> SplitRuns(s, sep, 0)[0] == []
    ensures IsSep(sep, s[|s| - 1]) ==> Last(SplitRuns(s, sep, 0)) == []
    decreases |s|
  {
    if IsSep(sep, s[|s| - 1]) {
      var i := FirstSep(s, sep).value;
      var j := RunEnd(s, sep, i);
      var t := s[j..];
      var rest := SplitRuns(t, sep, 0);
      assert SplitRuns(s, sep, 0) == [s[..i]] + rest;
      if j < |s| {
        assert t[|t| - 1] == s[|s| - 1];
        SplitRunsEdges(t, sep);
        assert Last(rest) == [];
      } else {
        assert t == [] && FirstSep(t, sep) == None;
        assert rest == [[]];
      }
      LastCons(s[..i], rest);
    }
  }

  /**
   * Splitting on separator runs without a limit loses only the separators: one after another,
   * the pieces are the string with its separators removed.
   */
  lemma {:induction false} SplitRunsStrip(s: string, sep: Separator)
    ensures Concat(SplitRuns(s, sep, 0)) == Strip(s, sep)
    decreases |s|
  {
    match FirstSep(s, sep)
    case None =>
      StripAtRun(s, sep, |s|, |s|);
      assert s[..|s|] == s && s[|s|..] == [];
      assert Concat([s]) == s + Concat([]);
    case Some(i) =>
      var j := RunEnd(s, sep, i);
      var rest := SplitRuns(s[j..], sep, 0);
      SplitRunsStrip(s[j..], sep);
      assert SplitRuns(s, sep, 0) == [s[..i]] + rest;
      assert ([s[..i]] + rest)[1..] == rest;
      StripAtRun(s, sep, i, j);
  }

  /** No piece of a split on separator runs holds a separator, whatever the limit, except the last, which holds the rest. */
  lemma {:induction false} SplitRunsPieces(s: string, sep: Separator, limit: int)
    ensures forall k :: 0 <= k < |SplitRuns(s, sep, limit)| - 1 ==> NoSep(SplitRuns(s, sep, limit)[k], sep)
    ensures limit <= 0 ==> NoSep(Last(SplitRuns(s, sep, limit)), sep)
    decreases |s|
  {
    match FirstSep(s, sep)
    case None =>
    case Some(i) =>
      if limit != 1 {
        var j := RunEnd(s, sep, i);
        var lim := if limit <= 0 then 0 else limit - 1;
        var rest := SplitRuns(s[j..], sep, lim);
        SplitRunsPieces(s[j..], sep, lim);
        var r := [s[..i]] + rest;
        assert SplitRuns(s, sep, limit) == r;
        forall k | 0 <= k < |r| - 1
          ensures NoSep(r[k], sep)
        {
          if k > 0 {
            assert r[k] == rest[k - 1];
          } else {
            assert forall m :: 0 <= m < i ==> r[0][m] == s[m];
          }
        }
        assert Last(r) == Last(rest);
      }
  }

  // ===========================================================================
  // Integers as text
  // ===========================================================================

  /** `s` holds no whitespace and none of the characters `extra`. */
  predicate Word(s: string, extra: set<char>) {
    forall c :: c in s ==> !IsWhitespace(c) && c !in extra
  }

  /** A word has no whitespace separator in it. */
  lemma WordNoSep(s: string, extra: set<char>)
    requires Word(s, extra)
    ensures NoSep(s, Spaces)
  {
    assert forall k :: 0 <= k < |s| ==> s[k] in s;
  }

  /** A string without `&` has no `&` separator. */
  lemma NoAmpersand(s: string)
    requires '&' !in s
    ensures NoSep(s, Ampersands)
  {
    assert forall k :: 0 <= k < |s| ==> s[k] in s;
  }

  /** A word trims to itself. */
  lemma WordTrims(s: string, extra: set<char>)
    requires Word(s, extra)
    ensures Trim(s) == s
  {
    if s != [] {
      assert s[0] in s && s[|s| - 1] in s;
    }
    TrimUnchanged(s);
  }

  /** A string of ASCII digits and minus signs holds no whitespace and no `&`. */
  lemma NumeralWord(t: string)
    requires forall k :: 0 <= k < |t| ==> t[k] == '-' || '0' <= t[k] <= '9'
    ensures Word(t, {'&'})
  {
    forall c | c in t
      ensures !IsWhitespace(c) && c != '&'
    {
      var k :| 0 <= k < |t| && t[k] == c;
    }
  }

  /** A string with a character that is not whitespace is not blank. */
  lemma NotBlank(s: string, k: nat)
    requires k < |s| && !IsWhitespace(s[k])
    ensures !Blank(s)
  {
  }

  /**
   * The first code point of the block of ten decimal digits that holds `x`, or -1. These are
   * the digit blocks of the Basic Multilingual Plane: ASCII, Arabic-Indic, extended
   * Arabic-Indic, N'Ko, the Indic scripts, Sinhala, Thai, Lao, Tibetan, Myanmar, Khmer,
   * Mongolian, Limbu, New Tai Lue, Tai Tham, Balinese, Sundanese, Lepcha, Ol Chiki, Vai,
   * Saurashtra, Kayah Li, Javanese, Myanmar Tai Laing, Cham, Meetei Mayek and the fullwidth
   * forms. A `String` is UTF-16, so a digit outside this plane reaches `parseInt` as two
   * surrogate units, neither of them a digit.
   */
  function DigitZero(x: int): (z: int)
    ensures z == -1 || z <= x < z + 10
  {
    if x < 0x30 then -1 else if x <= 0x39 then 0x30
    else if x < 0x660 then -1 else if x <= 0x669 then 0x660
    else if x < 0x6F0 then -1 else if x <= 0x6F9 then 0x6F0
    else if x < 0x7C0 then -1 else if x <= 0x7C9 then 0x7C0
    else if x < 0x966 then -1 else if x <= 0x96F then 0x966
    else if x < 0x9E6 then -1 else if x <= 0x9EF then 0x9E6
    else if x < 0xA66 then -1 else if x <= 0xA6F then 0xA66
    else if x < 0xAE6 then -1 else if x <= 0xAEF then 0xAE6
    else if x < 0xB66 then -1 else if x <= 0xB6F then 0xB66
    else if x < 0xBE6 then -1 else if x <= 0xBEF then 0xBE6
    else if x < 0xC66 then -1 else if x <= 0xC6F then 0xC66
    else if x < 0xCE6 then -1 else if x <= 0xCEF then 0xCE6
    else if x < 0xD66 then -1 else if x <= 0xD6F then 0xD66
    else if x < 0xDE6 then -1 else if x <= 0xDEF then 0xDE6
    else if x < 0xE50 then -1 else if x <= 0xE59 then 0xE50
    else if x < 0xED0 then -1 else if x <= 0xED9 then 0xED0
    else if x < 0xF20 then -1 else if x <= 0xF29 then 0xF20
    else if x < 0x1040 then -1 else if x <= 0x1049 then 0x1040
    else if x < 0x1090 then -1 else if x <= 0x1099 then 0x1090
    else if x < 0x17E0 then -1 else if x <= 0x17E9 then 0x17E0
    else if x < 0x1810 then -1 else if x <= 0x1819 then 0x1810
    else if x < 0x1946 then -1 else if x <= 0x194F then 0x1946
    else if x < 0x19D0 then -1 else if x <= 0x19D9 then 0x19D0
    else if x < 0x1A80 then -1 else if x <= 0x1A89 then 0x1A80
    else if x < 0x1A90 then -1 else if x <= 0x1A99 then 0x1A90
    else if x < 0x1B50 then -1 else if x <= 0x1B59 then 0x1B50
    else if x < 0x1BB0 then -1 else if x <= 0x1BB9 then 0x1BB0
    else if x < 0x1C40 then -1 else if x <= 0x1C49 then 0x1C40
    else if x < 0x1C50 then -1 else if x <= 0x1C59 then 0x1C50
    else if x < 0xA620 then -1 else if x <= 0xA629 then 0xA620
    else if x < 0xA8D0 then -1 else if x <= 0xA8D9 then 0xA8D0
    else if x < 0xA900 then -1 else if x <= 0xA909 then 0xA900
    else if x < 0xA9D0 then -1 else if x <= 0xA9D9 then 0xA9D0
    else if x < 0xA9F0 then -1 else if x <= 0xA9F9 then 0xA9F0
    else if x < 0xAA50 then -1 else if x <= 0xAA59 then 0xAA50
    else if x < 0xABF0 then -1 else if x <= 0xABF9 then 0xABF0
    else if x < 0xFF10 then -1 else if x <= 0xFF19 then 0xFF10
    else -1
  }

  /** `Character.digit(c, 10) >= 0`: `c` is a decimal digit of some script. */
  predicate IsDigit(c: char) {
    DigitZero(c as int) >= 0
  }

  /** `Character.digit(c, 10)`, for a digit. */
  function DigitValue(c: char): (d: nat)
    ensures d <= 9
  {
    var z := DigitZero(c as int);
    if z < 0 then 0 else c as int - z
  }

  /** The ASCII digits are digits with their usual values. */
  lemma AsciiDigit(k: nat)
    requires k <= 9
    ensures IsDigit('0' + k as char) && DigitValue('0' + k as char) == k
  {
  }

  /** The decimal digits of `n`, most significant first, without leading zeros. */
  function Digits(n: nat): (r: string)
    ensures |r| >= 1 && forall k :: 0 <= k < |r| ==> '0' <= r[k] <= '9' && IsDigit(r[k])
  {
    var d := ['0' + (n % 10) as char];
    AsciiDigit(n % 10);
    if n < 10 then d else Digits(n / 10) + d
  }

  /** The number a string of decimal digits denotes. */
  function DigitsValue(s: string): nat
    decreases |s|
  {
    if s == [] then 0 else 10 * DigitsValue(s[..|s| - 1]) + DigitValue(s[|s| - 1])
  }

  lemma {:induction false} DigitsValueDigits(n: nat)
    ensures DigitsValue(Digits(n)) == n
  {
    if n >= 10 {
      DigitsValueDigits(n / 10);
      assert Digits(n)[..|Digits(n)| - 1] == Digits(n / 10);
    }
  }

  /** `Int.toString()`: a minus sign for a negative number, then its digits. */
  function Decimal(v: int): (r: string)
    ensures |r| >= 1
  {
    if v < 0 then "-" + Digits(-v) else Digits(v)
  }

  /** Every character of `s` is a digit. */
  predicate AllDigits(s: string) {
    forall k :: 0 <= k < |s| ==> IsDigit(s[k])
  }

  /** `String.toInt()`: an optional sign, at least one digit of any script, and a value that fits an `Int`. */
  function ToInt(s: string): (r: Result<int>)
    ensures r.Ok? ==> IsInt32(r.value)
  {
    var signed := |s| >= 1 && (s[0] == '-' || s[0] == '+');
    var digits := if signed then s[1..] else s;
    var n: int := DigitsValue(digits);
    var v := if signed && s[0] == '-' then -n else n;
    if digits == [] || !AllDigits(digits) then Err(NumberFormat)
    else if !IsInt32(v) then Err(NumberFormat)
    else Ok(v)
  }

  /** `toInt()` reads back what `toString()` writes, for every `Int`. */
  lemma ToIntDecimal(v: int)
    requires IsInt32(v)
    ensures ToInt(Decimal(v)) == Ok(v)
  {
    var s := Decimal(v);
    var n: nat := if v < 0 then -v else v;
    var ds := Digits(n);
    DigitsValueDigits(n);
    assert AllDigits(ds);
    assert '0' <= ds[0] <= '9';
    if v < 0 {
      assert s[1..] == ds;
    } else {
      assert s == ds;
    }
  }

  /** Different numbers are written differently. */
  lemma DecimalInjective(v: int, w: int)
    requires IsInt32(v) && IsInt32(w) && Decimal(v) == Decimal(w)
    ensures v == w
  {
    ToIntDecimal(v);
    ToIntDecimal(w);
  }
}
