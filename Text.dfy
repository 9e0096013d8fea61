/** The pieces of Python's string behaviour the library relies on: substring
    search and `in`, `str.split(sep)`, `sep.join(parts)`, `str.strip()`,
    `str(int)` as used inside f-strings, and the lexicographic `>=` that
    compares ISO-8601 timestamps. */
module Text {
  import opened Wrappers

  // ---------------------------------------------------------------------
  // Substring search
  // ---------------------------------------------------------------------

  /** `sep` occurs in `s` starting at index `i`. */
  predicate OccursAt(s: string, sep: string, i: int) {
    0 <= i && i + |sep| <= |s| && s[i..i + |sep|] == sep
  }

  /** `sep` occurs nowhere in `s`. */
  ghost predicate Free(s: string, sep: string) {
    forall i :: !OccursAt(s, sep, i)
  }

  /** The first index at which `sep` occurs in `s` (Python's `str.find`). */
  function Find(s: string, sep: string): (r: Option<nat>)
    ensures r.Some? ==> OccursAt(s, sep, r.value)
    ensures r.Some? ==> forall j :: 0 <= j < r.value ==> !OccursAt(s, sep, j)
    ensures r.None? ==> Free(s, sep)
    decreases |s|
  {
    if |s| < |sep| then None
    else if s[..|sep|] == sep then Some(0)
    else
      match Find(s[1..], sep)
      case None =>
        assert forall j :: OccursAt(s, sep, j) ==> j == 0 || OccursAt(s[1..], sep, j - 1);
        None
      case Some(i) =>
        assert OccursAt(s, sep, i + 1) by { SuffixSlice(s, 1, i, i + |sep|); }
        assert forall j :: 1 <= j < i + 1 && OccursAt(s, sep, j) ==> OccursAt(s[1..], sep, j - 1);
        Some(i + 1)
  }

  /** Python's `sep in s`. */
  function Contains(s: string, sep: string): (b: bool)
    ensures b <==> exists i :: OccursAt(s, sep, i)
  {
    Find(s, sep).Some?
  }

  // ---------------------------------------------------------------------
  // Split and join
  // ---------------------------------------------------------------------

  /** Python's `sep.join(parts)`. */
  function Join(parts: seq<string>, sep: string): string
    decreases |parts|
  {
    if |parts| == 0 then ""
    else if |parts| == 1 then parts[0]
    else parts[0] + sep + Join(parts[1..], sep)
  }

  /** Python's `s.split(sep)` for a non-empty separator: cut at every
      occurrence found scanning left to right, without overlaps. */
  function Split(s: string, sep: string): (parts: seq<string>)
    requires |sep| > 0
    ensures |parts| >= 1
    ensures |parts| == 1 <==> Free(s, sep)
    ensures forall k :: 0 <= k < |parts| ==> Free(parts[k], sep)
    ensures Join(parts, sep) == s
    decreases |s|
  {
    match Find(s, sep)
    case None => [s]
    case Some(i) =>
      var rest := Split(s[i + |sep|..], sep);
      SplitAtFirst(s, sep, i, rest);
      [s[..i]] + rest
  }

  /** One step of `Split`: the text before the first separator, then the
      pieces of what follows it. */
  lemma SplitAtFirst(s: string, sep: string, i: nat, rest: seq<string>)
    requires |sep| > 0 && OccursAt(s, sep, i)
    requires forall j :: 0 <= j < i ==> !OccursAt(s, sep, j)
    requires |rest| >= 1
    requires forall k :: 0 <= k < |rest| ==> Free(rest[k], sep)
    requires Join(rest, sep) == s[i + |sep|..]
    ensures |[s[..i]] + rest| != 1 && !Free(s, sep)
    ensures forall k :: 0 <= k < |[s[..i]] + rest| ==> Free(([s[..i]] + rest)[k], sep)
    ensures Join([s[..i]] + rest, sep) == s
  {
    FreePrefixOfFirst(s, sep, i);
    JoinCons(s[..i], rest, sep);
    assert s == s[..i] + sep + s[i + |sep|..];
    forall k | 0 <= k < |[s[..i]] + rest| ensures Free(([s[..i]] + rest)[k], sep) {
      if k > 0 {
        assert ([s[..i]] + rest)[k] == rest[k - 1];
      }
    }
  }

  lemma FreePrefixOfFirst(s: string, sep: string, i: nat)
    requires |sep| > 0 && i <= |s|
    requires forall j :: 0 <= j < i ==> !OccursAt(s, sep, j)
    ensures Free(s[..i], sep)
  {
    forall j ensures !OccursAt(s[..i], sep, j) {
      if 0 <= j && j + |sep| <= i {
        assert !OccursAt(s, sep, j);
        assert s[..i][j..j + |sep|] == s[j..j + |sep|];
      }
    }
  }

  lemma JoinCons(first: string, rest: seq<string>, sep: string)
    requires |rest| >= 1
    ensures Join([first] + rest, sep) == first + sep + Join(rest, sep)
  {
    assert ([first] + rest)[1..] == rest;
  }

  /** The first piece of a split is the text before the first separator. */
  lemma SplitHead(s: string, sep: string)
    requires |sep| > 0
    ensures Find(s, sep).None? ==> Split(s, sep)[0] == s
    ensures Find(s, sep).Some? ==> Split(s, sep)[0] == s[..Find(s, sep).value]
    ensures Find(s, sep).Some? ==>
      Split(s, sep)[1..] == Split(s[Find(s, sep).value + |sep|..], sep)
  {
  }

  /** Joining a non-empty list ends with its last element, preceded by the
      separator when there is more than one. */
  lemma {:induction false} JoinLast(parts: seq<string>, sep: string)
    requires |parts| >= 2
    ensures Join(parts, sep) == Join(parts[..|parts| - 1], sep) + sep + parts[|parts| - 1]
    decreases |parts|
  {
    if |parts| > 2 {
      JoinLast(parts[1..], sep);
      assert parts[1..][..|parts| - 2] == parts[..|parts| - 1][1..];
    }
  }

  /** A non-empty join starts with its first element. */
  lemma JoinFirst(parts: seq<string>, sep: string)
    requires |parts| >= 1
    ensures |Join(parts, sep)| >= |parts[0]|
    ensures Join(parts, sep)[..|parts[0]|] == parts[0]
  {
  }

  /** Python's `parts[-1]`. */
  function Last(parts: seq<string>): string
    requires |parts| > 0
  {
    parts[|parts| - 1]
  }

  /** The text before the first `sep`, or all of it when there is none. */
  function Before(s: string, sep: string): (piece: string)
    requires |sep| > 0
    ensures |piece| <= |s| && piece == s[..|piece|] && Free(piece, sep)
    ensures |piece| == |s| || OccursAt(s, sep, |piece|)
    ensures forall j :: 0 <= j < |piece| ==> !OccursAt(s, sep, j)
  {
    match Find(s, sep)
    case None => s
    case Some(i) => FreePrefixOfFirst(s, sep, i); s[..i]
  }

  /** `s.split(sep)[0]` is the text before the first separator. */
  lemma FirstPiece(s: string, sep: string)
    requires |sep| > 0
    ensures Split(s, sep)[0] == Before(s, sep)
  {
    SplitHead(s, sep);
  }

  /** `s.split(sep)[1]`, when `sep` occurs, is the text between the first
      separator and the next. */
  lemma SecondPiece(s: string, sep: string)
    requires |sep| > 0 && Find(s, sep).Some?
    ensures |Split(s, sep)| >= 2
    ensures Split(s, sep)[1] == Before(s[Find(s, sep).value + |sep|..], sep)
  {
    SplitHead(s, sep);
    FirstPiece(s[Find(s, sep).value + |sep|..], sep);
  }

  /** The last of several pieces joined with `sep` follows the last
      separator the join puts in. */
  lemma JoinedLast(parts: seq<string>, sep: string) returns (j: nat)
    requires |parts| >= 2
    ensures j + |sep| <= |Join(parts, sep)|
    ensures Join(parts, sep)[j..j + |sep|] == sep
    ensures Join(parts, sep)[j + |sep|..] == parts[|parts| - 1]
  {
    JoinLast(parts, sep);
    var head := Join(parts[..|parts| - 1], sep);
    j := |head|;
    ThreeParts(head, sep, parts[|parts| - 1]);
  }

  /** `s.split(sep)[-1]`, when `sep` occurs, is the text after the
      separator the split cut at last: the returned `j` is where that
      separator starts, and every occurrence of `sep` after `j` overlaps
      it, so for a separator that cannot overlap itself it is the last. */
  lemma LastPiece(s: string, sep: string) returns (j: nat)
    requires |sep| > 0 && !Free(s, sep)
    ensures OccursAt(s, sep, j)
    ensures s[j + |sep|..] == Last(Split(s, sep)) && Free(s[j + |sep|..], sep)
    ensures forall k :: j < k && OccursAt(s, sep, k) ==> k < j + |sep|
  {
    var parts := Split(s, sep);
    j := JoinedLast(parts, sep);
    assert Free(parts[|parts| - 1], sep);
    FreeSuffix(s, sep, j + |sep|);
  }

  /** A suffix without `sep` holds no occurrence of `sep` in the whole text. */
  lemma FreeSuffix(s: string, sep: string, m: nat)
    requires m <= |s| && Free(s[m..], sep)
    ensures forall k :: m <= k ==> !OccursAt(s, sep, k)
  {
    forall k | m <= k && k + |sep| <= |s|
      ensures !OccursAt(s, sep, k)
    {
      SuffixSlice(s, m, k - m, k - m + |sep|);
      assert !OccursAt(s[m..], sep, k - m);
    }
  }

  /** A prefix of a text without `sep` has no `sep` either. */
  lemma FreePrefix(s: string, sep: string, n: nat)
    requires n <= |s| && Free(s, sep)
    ensures Free(s[..n], sep)
  {
    forall j ensures !OccursAt(s[..n], sep, j) {
      if 0 <= j && j + |sep| <= n {
        assert !OccursAt(s, sep, j);
        assert s[..n][j..j + |sep|] == s[j..j + |sep|];
      }
    }
  }

  /** Where the three parts of a concatenation sit in it. */
  lemma ThreeParts(a: string, b: string, c: string)
    ensures (a + b + c)[..|a|] == a
    ensures (a + b + c)[|a|..|a| + |b|] == b
    ensures (a + b + c)[|a| + |b|..] == c
  {
    assert (a + b + c)[..|a|] == a;
    assert (a + b + c)[|a|..|a| + |b|] == b;
    assert (a + b + c)[|a| + |b|..] == c;
  }

  /** A slice of a prefix is the same slice of the whole. */
  lemma PrefixSlice(a: string, p: string, i: nat, j: nat)
    requires |p| <= |a| && p == a[..|p|] && i <= j <= |p|
    ensures p[i..j] == a[i..j]
  {
    assert forall k :: 0 <= k < j - i ==> p[i..j][k] == p[i + k];
  }

  /** A slice of a suffix is the matching slice of the whole. */
  lemma SuffixSlice(s: string, start: nat, i: nat, j: nat)
    requires start <= |s| && i <= j <= |s| - start
    ensures s[start..][i..j] == s[start + i..start + j]
  {
    assert forall k :: 0 <= k < j - i ==> s[start..][i..j][k] == s[start + i + k];
  }

  // ---------------------------------------------------------------------
  // Whitespace stripping
  // ---------------------------------------------------------------------

  /** The characters Python's `str.isspace()` accepts, which `str.strip()`
      with no argument removes. */
  predicate IsSpace(c: char) {
    c == ' ' || ('\t' <= c <= '\r') || ('\U{1C}' <= c <= '\U{1F}')
    || c == '\U{85}' || c == '\U{A0}' || c == '\U{1680}'
    || ('\U{2000}' <= c <= '\U{200A}') || c == '\U{2028}' || c == '\U{2029}'
    || c == '\U{202F}' || c == '\U{205F}' || c == '\U{3000}'
  }

  ghost predicate AllSpace(s: string) {
    forall i :: 0 <= i < |s| ==> IsSpace(s[i])
  }

  function StripLeading(s: string): (r: string)
    ensures |r| <= |s| && r == s[|s| - |r|..]
    ensures AllSpace(s[..|s| - |r|])
    ensures |r| > 0 ==> !IsSpace(r[0])
    decreases |s|
  {
    if |s| > 0 && IsSpace(s[0]) then StripLeading(s[1..]) else s
  }

  function StripTrailing(s: string): (r: string)
    ensures |r| <= |s| && r == s[..|r|]
    ensures AllSpace(s[|r|..])
    ensures |r| > 0 ==> !IsSpace(r[|r| - 1])
    decreases |s|
  {
    if |s| > 0 && IsSpace(s[|s| - 1]) then StripTrailing(s[..|s| - 1]) else s
  }

  /** Python's `s.strip()`. */
  function Strip(s: string): string {
    StripTrailing(StripLeading(s))
  }

  /** Where the stripped text starts inside the original. */
  ghost function StripOffset(s: string): nat
    ensures StripOffset(s) <= |s|
  {
    |s| - |StripLeading(s)|
  }

  /** `strip()` keeps one contiguous slice of the input, removes only
      whitespace around it, and leaves none at either end. */
  lemma StripSlice(s: string)
    ensures StripOffset(s) + |Strip(s)| <= |s|
    ensures Strip(s) == s[StripOffset(s)..StripOffset(s) + |Strip(s)|]
    ensures AllSpace(s[..StripOffset(s)])
    ensures AllSpace(s[StripOffset(s) + |Strip(s)|..])
    ensures |Strip(s)| > 0 ==> !IsSpace(Strip(s)[0]) && !IsSpace(Strip(s)[|Strip(s)| - 1])
  {
    var lead := StripLeading(s);
    var r := StripTrailing(lead);
    var o := |s| - |lead|;
    assert r == lead[..|r|];
    SuffixSlice(s, o, 0, |r|);
    SuffixSlice(s, o, |r|, |lead|);
    assert lead[|r|..] == s[o + |r|..];
    if |r| > 0 {
      assert r[0] == lead[0];
    }
  }

  /** Stripping twice is stripping once. */
  lemma StripIdempotent(s: string)
    ensures Strip(Strip(s)) == Strip(s)
  {
    var r := Strip(s);
    StripSlice(s);
    if |r| > 0 {
      assert StripLeading(r) == r;
      assert StripTrailing(r) == r;
    }
  }

  // ---------------------------------------------------------------------
  // Decimal integers
  // ---------------------------------------------------------------------

  predicate IsDigit(c: char) {
    '0' <= c <= '9'
  }

  ghost predicate AllDigits(s: string) {
    forall i :: 0 <= i < |s| ==> IsDigit(s[i])
  }

  function DigitChar(d: nat): (c: char)
    requires d < 10
    ensures IsDigit(c)
  {
    (('0' as int) + d) as char
  }

  function DigitValue(c: char): (d: nat)
    requires IsDigit(c)
    ensures d < 10
  {
    (c as int) - ('0' as int)
  }

  /** Python's `str(n)` for `n >= 0`: decimal digits, no leading zero. */
  function NatToString(n: nat): (s: string)
    ensures |s| >= 1 && AllDigits(s)
    decreases n
  {
    if n < 10 then [DigitChar(n)] else NatToString(n / 10) + [DigitChar(n % 10)]
  }

  /** Python's `str(n)`: a minus sign before the digits of a negative number. */
  function IntToString(n: int): string {
    if n < 0 then "-" + NatToString(-n) else NatToString(n)
  }

  /** The value of a run of decimal digits. */
  function ParseDigits(s: string): nat
    requires AllDigits(s)
    decreases |s|
  {
    if |s| == 0 then 0 else ParseDigits(s[..|s| - 1]) * 10 + DigitValue(s[|s| - 1])
  }

  /** The number of decimal digits at the front of `s`. */
  function DigitRun(s: string): (n: nat)
    ensures n <= |s| && AllDigits(s[..n])
    ensures n < |s| ==> !IsDigit(s[n])
    decreases |s|
  {
    if |s| > 0 && IsDigit(s[0]) then
      var k := DigitRun(s[1..]);
      assert s[..k + 1] == [s[0]] + s[1..][..k];
      k + 1
    else 0
  }

  /** Reads a run of decimal digits from the front of `s` and returns its
      value with the text that follows. */
  function LeadingNat(s: string): Option<(nat, string)> {
    var n := DigitRun(s);
    if n == 0 then None else Some((ParseDigits(s[..n]), s[n..]))
  }

  /** Reads an optionally signed decimal integer from the front of `s` and
      returns it with the text that follows. */
  function LeadingInt(s: string): Option<(int, string)> {
    if |s| > 0 && s[0] == '-' then Signed(LeadingNat(s[1..]), -1) else Signed(LeadingNat(s), 1)
  }

  /** A read digit run with its sign applied. */
  function Signed(r: Option<(nat, string)>, sign: int): Option<(int, string)> {
    if r.None? then None else Some((sign * r.value.0, r.value.1))
  }

  lemma {:induction false} ParseNatToString(n: nat)
    ensures ParseDigits(NatToString(n)) == n
    decreases n
  {
    if n >= 10 {
      ParseNatToString(n / 10);
      var s := NatToString(n);
      assert s[..|s| - 1] == NatToString(n / 10);
    }
  }

  lemma {:induction false} DigitRunOfDigits(d: string, rest: string)
    requires AllDigits(d)
    requires |rest| == 0 || !IsDigit(rest[0])
    ensures DigitRun(d + rest) == |d|
    decreases |d|
  {
    if |d| > 0 {
      DigitRunOfDigits(d[1..], rest);
      assert (d + rest)[1..] == d[1..] + rest;
    } else {
      assert d + rest == rest;
    }
  }

  /** A run of digits followed by a non-digit is read as its value. */
  lemma LeadingDigits(d: string, rest: string)
    requires |d| >= 1 && AllDigits(d)
    requires |rest| == 0 || !IsDigit(rest[0])
    ensures LeadingNat(d + rest) == Some((ParseDigits(d), rest))
  {
    DigitRunOfDigits(d, rest);
    assert (d + rest)[..|d|] == d && (d + rest)[|d|..] == rest;
  }

  /** A minus sign before a run of digits reads as the negated value. */
  lemma LeadingSignedDigits(s: string, d: string, rest: string)
    requires |d| >= 1 && AllDigits(d)
    requires |rest| == 0 || !IsDigit(rest[0])
    requires |s| > 0 && s[0] == '-' && s[1..] == d + rest
    ensures LeadingInt(s) == Some((-(ParseDigits(d) as int), rest))
  {
    LeadingDigits(d, rest);
  }

  lemma DropFirst(c: string, d: string, rest: string)
    requires |c| == 1
    ensures |c + d + rest| > 0 && (c + d + rest)[0] == c[0] && (c + d + rest)[1..] == d + rest
  {
    assert (c + d + rest)[1..] == d + rest;
  }

  lemma NegativeRoundTrip(n: int, rest: string)
    requires n < 0
    requires |rest| == 0 || !IsDigit(rest[0])
    ensures LeadingInt(IntToString(n) + rest) == Some((n, rest))
  {
    var d := NatToString(-n);
    ParseNatToString(-n);
    DropFirst("-", d, rest);
    LeadingSignedDigits("-" + d + rest, d, rest);
  }

  lemma NonNegativeRoundTrip(n: nat, rest: string)
    requires |rest| == 0 || !IsDigit(rest[0])
    ensures LeadingInt(IntToString(n) + rest) == Some((n, rest))
  {
    var d := NatToString(n);
    ParseNatToString(n);
    LeadingDigits(d, rest);
    assert IntToString(n) + rest == d + rest;
    assert IsDigit(d[0]);
  }

  /** `str(n)` can be read back: the decimal text of `n`, followed by
      anything that does not start with a digit, yields `n` and that text. */
  lemma IntToStringRoundTrip(n: int, rest: string)
    requires |rest| == 0 || !IsDigit(rest[0])
    ensures LeadingInt(IntToString(n) + rest) == Some((n, rest))
  {
    if n < 0 {
      NegativeRoundTrip(n, rest);
    } else {
      NonNegativeRoundTrip(n, rest);
    }
  }

  // ---------------------------------------------------------------------
  // String order
  // ---------------------------------------------------------------------

  /** Python's `a < b` on strings: code points compared left to right, a
      proper prefix before any extension of it. */
  predicate LexLess(a: string, b: string)
    decreases |a|
  {
    if |b| == 0 then false
    else if |a| == 0 then true
    else if a[0] != b[0] then a[0] < b[0]
    else LexLess(a[1..], b[1..])
  }

  /** `<` on strings is transitive. */
  lemma {:induction false} LexLessTransitive(a: string, b: string, c: string)
    requires LexLess(a, b) && LexLess(b, c)
    ensures LexLess(a, c)
    decreases |a|
  {
    if |a| > 0 && a[0] == b[0] && b[0] == c[0] {
      LexLessTransitive(a[1..], b[1..], c[1..]);
    }
  }
}
