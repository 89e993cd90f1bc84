/** The parts of Rust's `str` that the daemon relies on, stated on `string`:
    `trim`, `trim_matches(char)`, `contains`, `starts_with`, `strip_prefix`,
    `split(&str)`, `lines`, `u32::from_str` and `to_string` on integers. */
module Text {
  import opened Wrappers

  /** Rust's `u32`. */
  type uint32 = x: int | 0 <= x <= 0xFFFF_FFFF

  const U32_MAX: int := 0xFFFF_FFFF

  // ---------------------------------------------------------------------
  // Whitespace and trimming
  // ---------------------------------------------------------------------

  /** `char::is_whitespace`: the Unicode White_Space property. */
  predicate IsWhitespace(c: char) {
    ('\t' <= c <= '\r') || c == ' ' || c == '\U{0085}' || c == '\U{00A0}' || c == '\U{1680}'
    || ('\U{2000}' <= c <= '\U{200A}') || c == '\U{2028}' || c == '\U{2029}'
    || c == '\U{202F}' || c == '\U{205F}' || c == '\U{3000}'
  }

  /** Removes every leading character satisfying `drop`. */
  function TrimStartBy(s: string, drop: char -> bool): (r: string)
    ensures |r| <= |s|
    ensures forall k :: 0 <= k < |s| - |r| ==> drop(s[k])
    ensures r != [] ==> !drop(r[0])
    decreases |s|
  {
    if s != [] && drop(s[0]) then TrimStartBy(s[1..], drop) else s
  }

  /** Removes every trailing character satisfying `drop`. */
  function TrimEndBy(s: string, drop: char -> bool): (r: string)
    ensures |r| <= |s|
    ensures forall k :: |r| <= k < |s| ==> drop(s[k])
    ensures r != [] ==> !drop(r[|r| - 1])
    decreases |s|
  {
    if s != [] && drop(s[|s| - 1]) then TrimEndBy(s[..|s| - 1], drop) else s
  }

  /** What `TrimStartBy` leaves is a suffix of its input. */
  lemma {:induction false} TrimStartBySuffix(s: string, drop: char -> bool)
    ensures TrimStartBy(s, drop) == s[|s| - |TrimStartBy(s, drop)|..]
  {
    if s != [] && drop(s[0]) {
      TrimStartBySuffix(s[1..], drop);
    }
  }

  /** What `TrimEndBy` leaves is a prefix of its input. */
  lemma {:induction false} TrimEndByPrefix(s: string, drop: char -> bool)
    ensures TrimEndBy(s, drop) == s[..|TrimEndBy(s, drop)|]
  {
    if s != [] && drop(s[|s| - 1]) {
      TrimEndByPrefix(s[..|s| - 1], drop);
    }
  }

  /** Trimming on both sides, as `str::trim_matches` does for a character
      pattern and `str::trim` for whitespace. */
  function TrimBy(s: string, drop: char -> bool): string {
    TrimEndBy(TrimStartBy(s, drop), drop)
  }

  /** `str::trim`. */
  function Trim(s: string): string {
    TrimBy(s, IsWhitespace)
  }

  /** `str::trim_matches(c)` for a single character `c`. */
  function TrimMatches(s: string, c: char): string {
    TrimBy(s, x => x == c)
  }

  /** What `TrimBy` leaves is an infix of `s` with everything around it
      dropped and neither of its ends droppable. */
  lemma TrimBySpec(s: string, drop: char -> bool)
    ensures var r, i := TrimBy(s, drop), |s| - |TrimStartBy(s, drop)|;
      && 0 <= i <= |s| - |r| && r == s[i..i + |r|]
      && (forall k :: 0 <= k < i ==> drop(s[k]))
      && (forall k :: i + |r| <= k < |s| ==> drop(s[k]))
      && (r != [] ==> !drop(r[0]) && !drop(r[|r| - 1]))
  {
    var t := TrimStartBy(s, drop);
    var r := TrimEndBy(t, drop);
    var i := |s| - |t|;
    TrimByInfix(s, drop);
    forall k | i + |r| <= k < |s| ensures drop(s[k]) {
      assert s[k] == t[k - i];
    }
    if r != [] {
      assert r[0] == t[0];
    }
  }

  /** The two trims compose to a slice of the input. */
  lemma TrimByInfix(s: string, drop: char -> bool)
    ensures var t := TrimStartBy(s, drop);
      t == s[|s| - |t|..] && TrimEndBy(t, drop) == t[..|TrimEndBy(t, drop)|]
    ensures var i, r := |s| - |TrimStartBy(s, drop)|, TrimBy(s, drop);
      r == s[i..i + |r|]
  {
    var t := TrimStartBy(s, drop);
    var r := TrimEndBy(t, drop);
    var i := |s| - |t|;
    TrimStartBySuffix(s, drop);
    TrimEndByPrefix(t, drop);
    assert s[i..][..|r|] == s[i..i + |r|];
  }

  /** Trimming twice is trimming once. */
  lemma TrimIdempotent(s: string)
    ensures Trim(Trim(s)) == Trim(s)
  {
    var t := TrimStartBy(s, IsWhitespace);
    var r := TrimEndBy(t, IsWhitespace);
    TrimEndByPrefix(t, IsWhitespace);
    if r != [] {
      assert r[0] == t[0];
    }
  }

  /** Appending a character to a string extends what `TrimStartBy` leaves,
      unless everything was dropped and so is the new character. */
  lemma {:induction false} TrimStartByAppend(s: string, c: char, drop: char -> bool)
    ensures TrimStartBy(s + [c], drop)
      == if drop(c) && TrimStartBy(s, drop) == [] then [] else TrimStartBy(s, drop) + [c]
  {
    if s != [] {
      assert (s + [c])[1..] == s[1..] + [c];
      TrimStartByAppend(s[1..], c, drop);
    }
  }

  /** A trailing whitespace character does not change the trim. */
  lemma TrimIgnoresTrailingWhitespace(s: string, c: char)
    requires IsWhitespace(c)
    ensures Trim(s + [c]) == Trim(s)
  {
    TrimStartByAppend(s, c, IsWhitespace);
    var t := TrimStartBy(s, IsWhitespace);
    if t != [] {
      assert TrimEndBy(t + [c], IsWhitespace) == TrimEndBy(t, IsWhitespace) by {
        assert (t + [c])[..|t|] == t;
      }
    }
  }

  // ---------------------------------------------------------------------
  // Substrings, prefixes and splitting
  // ---------------------------------------------------------------------

  /** `pat` occurs in `s` starting at index `i`. */
  predicate OccursAt(s: string, pat: string, i: nat) {
    i + |pat| <= |s| && s[i..i + |pat|] == pat
  }

  /** `str::contains(&str)`. */
  predicate Contains(s: string, pat: string) {
    exists i: nat | i <= |s| :: OccursAt(s, pat, i)
  }

  /** `str::find(&str)`: the first index at which `pat` occurs. */
  function IndexOf(s: string, pat: string): (r: Option<nat>)
    ensures r.Some? ==> OccursAt(s, pat, r.value)
    ensures r.Some? ==> forall k: nat :: k < r.value ==> !OccursAt(s, pat, k)
    ensures r.None? <==> !Contains(s, pat)
    decreases |s|
  {
    if |s| < |pat| then None
    else if s[..|pat|] == pat then Some(0)
    else
      match IndexOf(s[1..], pat)
      case None =>
        NoOccurrenceAfterFirst(s, pat);
        None
      case Some(j) =>
        FirstOccurrenceAfterFirst(s, pat, j);
        Some(j + 1)
  }

  /** `pat` does not occur in `s` if it does not start `s` and does not
      occur in `s[1..]`. */
  lemma NoOccurrenceAfterFirst(s: string, pat: string)
    requires |pat| <= |s| && s[..|pat|] != pat && !Contains(s[1..], pat)
    ensures !Contains(s, pat)
  {
    forall i: nat | i <= |s| ensures !OccursAt(s, pat, i) {
      if i == 0 {
        assert s[..|pat|] == s[0..|pat|];
      } else if i + |pat| <= |s| {
        var t := s[1..];
        assert !OccursAt(t, pat, i - 1);
        assert t[i - 1..i - 1 + |pat|] == s[i..i + |pat|];
      }
    }
  }

  /** If `pat` does not start `s`, its first occurrence in `s` is one past
      its first occurrence in `s[1..]`. */
  lemma FirstOccurrenceAfterFirst(s: string, pat: string, j: nat)
    requires |pat| <= |s| && s[..|pat|] != pat
    requires OccursAt(s[1..], pat, j) && forall k: nat :: k < j ==> !OccursAt(s[1..], pat, k)
    ensures OccursAt(s, pat, j + 1)
    ensures forall k: nat :: k < j + 1 ==> !OccursAt(s, pat, k)
  {
    assert s[1..][j..j + |pat|] == s[j + 1..j + 1 + |pat|];
    forall k: nat | k < j + 1 ensures !OccursAt(s, pat, k) {
      if k == 0 {
        assert s[..|pat|] == s[0..|pat|];
      } else if k + |pat| <= |s| {
        assert s[k..k + |pat|] == s[1..][k - 1..k - 1 + |pat|];
        assert !OccursAt(s[1..], pat, k - 1);
      }
    }
  }

  /** `str::starts_with(&str)`. */
  predicate StartsWith(s: string, prefix: string) {
    |prefix| <= |s| && s[..|prefix|] == prefix
  }

  /** `parts` glued back together with `sep` between neighbours. */
  function JoinWith(parts: seq<string>, sep: string): string
    requires parts != []
  {
    if |parts| == 1 then parts[0] else parts[0] + sep + JoinWith(parts[1..], sep)
  }

  /** `str::split(&str)` collected into a vector: the pieces between the
      non-overlapping occurrences of `sep`, found from left to right. Joining
      the pieces with `sep` gives back `s`, and no piece contains `sep`. */
  function Split(s: string, sep: string): (parts: seq<string>)
    requires sep != []
    ensures parts != []
    ensures JoinWith(parts, sep) == s
    ensures forall k :: 0 <= k < |parts| ==> !Contains(parts[k], sep)
    ensures |parts| == 1 <==> !Contains(s, sep)
    ensures forall k :: 0 <= k < |parts| - 1 ==> !Contains(parts[k] + sep[..|sep| - 1], sep)
    decreases |s|
  {
    match IndexOf(s, sep)
    case None => [s]
    case Some(i) =>
      BeforeFirstOccurrence(s, sep, i);
      LeftmostCut(s, sep, i);
      var tail := Split(s[i + |sep|..], sep);
      var parts := [s[..i]] + tail;
      assert parts[1..] == tail;
      assert forall k :: 1 <= k < |parts| ==> parts[k] == tail[k - 1];
      parts
  }

  /** A prefix of `s` contains `sep` only if an occurrence in `s` fits in it. */
  lemma NoOccurrenceInPrefix(s: string, sep: string, m: nat)
    requires m <= |s|
    requires forall k: nat :: k + |sep| <= m ==> !OccursAt(s, sep, k)
    ensures !Contains(s[..m], sep)
  {
    var head := s[..m];
    forall k: nat | k <= |head| ensures !OccursAt(head, sep, k) {
      if k + |sep| <= m {
        assert !OccursAt(s, sep, k);
        assert head[k..k + |sep|] == s[k..k + |sep|];
      } else {
        assert k + |sep| > |head|;
      }
    }
  }

  /** Cutting `s` at the first occurrence of `sep`: no occurrence of `sep`
      starts before the cut, not even one overlapping it. */
  lemma LeftmostCut(s: string, sep: string, i: nat)
    requires sep != [] && IndexOf(s, sep) == Some(i)
    ensures !Contains(s[..i] + sep[..|sep| - 1], sep)
  {
    assert s[..i] + sep[..|sep| - 1] == s[..i + |sep| - 1] by {
      assert s[i..i + |sep|] == sep;
    }
    NoOccurrenceInPrefix(s, sep, i + |sep| - 1);
  }

  /** Cutting `s` at the first occurrence of `sep`: the part before it does
      not contain `sep`. */
  lemma BeforeFirstOccurrence(s: string, sep: string, i: nat)
    requires sep != [] && IndexOf(s, sep) == Some(i)
    ensures i + |sep| <= |s|
    ensures !Contains(s[..i], sep)
    ensures s == s[..i] + sep + s[i + |sep|..]
  {
    NoOccurrenceInPrefix(s, sep, i);
    assert s[i..i + |sep|] == sep;
  }

  /** If `sep` occurs in `a + sep + b` only at the junction, splitting gives
      back exactly `a` and `b`. The first condition says that no occurrence
      starts inside `a`. */
  lemma SplitAtSoleSeparator(a: string, sep: string, b: string)
    requires sep != []
    requires !Contains(a + sep[..|sep| - 1], sep)
    requires !Contains(b, sep)
    ensures Split(a + sep + b, sep) == [a, b]
  {
    var s := a + sep + b;
    var front := a + sep[..|sep| - 1];
    assert OccursAt(s, sep, |a|) by { assert s[|a|..|a| + |sep|] == sep; }
    forall k: nat | k < |a| ensures !OccursAt(s, sep, k) {
      assert s[k..k + |sep|] == front[k..k + |sep|];
      assert !OccursAt(front, sep, k);
    }
    assert IndexOf(s, sep) == Some(|a|);
    assert s[..|a|] == a && s[|a| + |sep|..] == b;
  }

  // ---------------------------------------------------------------------
  // Lines
  // ---------------------------------------------------------------------

  /** Removes one trailing carriage return, as `lines` does for a line that
      ended in "\r\n". */
  function DropCarriageReturn(line: string): string {
    if line != [] && line[|line| - 1] == '\r' then line[..|line| - 1] else line
  }

  function DropCarriageReturns(lines: seq<string>): (r: seq<string>)
    ensures |r| == |lines|
    ensures forall k :: 0 <= k < |r| ==> r[k] == DropCarriageReturn(lines[k])
  {
    if lines == [] then [] else [DropCarriageReturn(lines[0])] + DropCarriageReturns(lines[1..])
  }

  /** `str::lines`: split at "\n", a final line ending is optional and does
      not produce an empty last line, and a "\r" just before a "\n" is
      removed. */
  function Lines(s: string): seq<string> {
    if s == [] then []
    else
      var parts := Split(s, "\n");
      var init := DropCarriageReturns(parts[..|parts| - 1]);
      if parts[|parts| - 1] == [] then init else init + [parts[|parts| - 1]]
  }

  /** `.map(|l| l.trim()).filter(|l| !l.is_empty())`: every piece trimmed,
      blank ones dropped, order kept. */
  function TrimNonBlank(lines: seq<string>): (r: seq<string>)
    ensures |r| <= |lines|
    ensures forall k :: 0 <= k < |r| ==> r[k] != []
  {
    if lines == [] then []
    else
      var t := Trim(lines[0]);
      (if t == [] then [] else [t]) + TrimNonBlank(lines[1..])
  }

  /** Every piece `TrimNonBlank` keeps is already trimmed. */
  lemma {:induction false} TrimNonBlankTrimmed(lines: seq<string>)
    ensures forall k :: 0 <= k < |TrimNonBlank(lines)| ==> Trim(TrimNonBlank(lines)[k]) == TrimNonBlank(lines)[k]
  {
    if lines != [] {
      TrimIdempotent(lines[0]);
      TrimNonBlankTrimmed(lines[1..]);
    }
  }

  lemma {:induction false} TrimNonBlankAppend(a: seq<string>, b: seq<string>)
    ensures TrimNonBlank(a + b) == TrimNonBlank(a) + TrimNonBlank(b)
  {
    if a != [] {
      assert (a + b)[0] == a[0];
      assert (a + b)[1..] == a[1..] + b;
      TrimNonBlankAppend(a[1..], b);
      var t := Trim(a[0]);
      var head: seq<string> := if t == [] then [] else [t];
      assert TrimNonBlank(a + b) == head + (TrimNonBlank(a[1..]) + TrimNonBlank(b));
      assert TrimNonBlank(a) == head + TrimNonBlank(a[1..]);
    } else {
      assert a + b == b;
    }
  }

  lemma {:induction false} TrimNonBlankIgnoresCarriageReturns(lines: seq<string>)
    ensures TrimNonBlank(DropCarriageReturns(lines)) == TrimNonBlank(lines)
  {
    if lines != [] {
      var l := lines[0];
      if l != [] && l[|l| - 1] == '\r' {
        assert l == l[..|l| - 1] + ['\r'];
        TrimIgnoresTrailingWhitespace(l[..|l| - 1], '\r');
      }
      assert DropCarriageReturns(lines)[1..] == DropCarriageReturns(lines[1..]);
      TrimNonBlankIgnoresCarriageReturns(lines[1..]);
    }
  }

  /** Once lines are trimmed and blank ones dropped, the fine points of
      `lines` ("\r\n" endings, an optional last newline) make no difference:
      the result is that of splitting at every "\n". */
  lemma LinesCleanedAsSplit(s: string)
    ensures TrimNonBlank(Lines(s)) == TrimNonBlank(Split(s, "\n"))
  {
    var parts := Split(s, "\n");
    if s == [] {
      assert parts == [[]] by {
        assert !Contains(s, "\n") by {
          forall k: nat ensures !OccursAt(s, "\n", k) { }
        }
      }
      assert Trim([]) == [];
    } else {
      var init, last := parts[..|parts| - 1], parts[|parts| - 1];
      assert parts == init + [last];
      TrimNonBlankAppend(init, [last]);
      TrimNonBlankIgnoresCarriageReturns(init);
      if last == [] {
        assert Trim([]) == [];
        assert TrimNonBlank([last]) == [];
      } else {
        TrimNonBlankAppend(DropCarriageReturns(init), [last]);
      }
    }
  }

  // ---------------------------------------------------------------------
  // Decimal numbers
  // ---------------------------------------------------------------------

  predicate IsDigit(c: char) { '0' <= c <= '9' }

  predicate AllDigits(s: string) {
    forall k :: 0 <= k < |s| ==> IsDigit(s[k])
  }

  function DigitValue(c: char): nat
    requires IsDigit(c)
  {
    c as int - '0' as int
  }

  function DigitChar(d: nat): (c: char)
    requires d < 10
    ensures IsDigit(c) && DigitValue(c) == d
  {
    ('0' as int + d) as char
  }

  /** The number a string of decimal digits denotes. */
  function DigitsValue(s: string): nat
    requires AllDigits(s)
  {
    if s == [] then 0 else DigitsValue(s[..|s| - 1]) * 10 + DigitValue(s[|s| - 1])
  }

  /** Rust's `IntErrorKind` for the cases `u32::from_str` can produce. */
  datatype IntErrorKind = EmptyInput | InvalidDigit | PosOverflow

  /** The digit loop of `u32::from_str`, left to right: the first position
      that is not a digit or that would overflow decides the error. */
  function ParseDigits(s: string): Result<uint32, IntErrorKind> {
    if s == [] then Ok(0)
    else
      match ParseDigits(s[..|s| - 1])
      case Err(e) => Err(e)
      case Ok(v) =>
        var c := s[|s| - 1];
        if !IsDigit(c) then Err(InvalidDigit)
        else if v * 10 + DigitValue(c) > U32_MAX then Err(PosOverflow)
        else Ok(v * 10 + DigitValue(c))
  }

  /** `u32::from_str`: an optional '+' then digits; a lone sign is an invalid
      digit, the empty string its own error. */
  function ParseU32(s: string): Result<uint32, IntErrorKind> {
    if s == [] then Err(EmptyInput)
    else if |s| == 1 && (s[0] == '+' || s[0] == '-') then Err(InvalidDigit)
    else ParseDigits(Unsigned(s))
  }

  /** The digits part of `s`: one leading '+' removed. */
  function Unsigned(s: string): string {
    if s != [] && s[0] == '+' then s[1..] else s
  }

  lemma {:induction false} ParseDigitsSpec(s: string)
    ensures ParseDigits(s).Ok? <==> AllDigits(s) && DigitsValue(s) <= U32_MAX
    ensures ParseDigits(s).Ok? ==> ParseDigits(s).value == DigitsValue(s)
  {
    if s != [] {
      var p := s[..|s| - 1];
      ParseDigitsSpec(p);
      assert AllDigits(s) ==> AllDigits(p);
      if AllDigits(s) {
        assert DigitsValue(s) >= DigitsValue(p);
      }
    }
  }

  /** `u32::from_str` succeeds exactly on an optional '+' followed by at least
      one digit whose value fits in 32 bits, and then yields that value. */
  lemma ParseU32Spec(s: string)
    ensures ParseU32(s).Ok? <==>
      Unsigned(s) != [] && AllDigits(Unsigned(s)) && DigitsValue(Unsigned(s)) <= U32_MAX
    ensures ParseU32(s).Ok? ==> ParseU32(s).value == DigitsValue(Unsigned(s))
  {
    ParseDigitsSpec(Unsigned(s));
    if |s| == 1 && s[0] == '-' {
      assert !IsDigit(Unsigned(s)[0]);
    }
  }

  /** `to_string` on an unsigned integer: decimal, no leading zeros. */
  function NatToString(n: nat): (r: string)
    ensures r != [] && AllDigits(r) && DigitsValue(r) == n
    ensures |r| == 1 || r[0] != '0'
  {
    if n < 10 then [DigitChar(n)]
    else
      var r := NatToString(n / 10) + [DigitChar(n % 10)];
      assert r[..|r| - 1] == NatToString(n / 10);
      r
  }

  /** `to_string` on a signed integer. */
  function IntToString(i: int): string {
    if i < 0 then "-" + NatToString(-i) else NatToString(i)
  }

  /** Printing a `u32` and parsing it back gives the same number. */
  lemma ParseU32OfNatToString(n: uint32)
    ensures ParseU32(NatToString(n)) == Ok(n)
  {
    var r := NatToString(n);
    ParseU32Spec(r);
    assert IsDigit(r[0]);
    if |r| == 1 { assert r[0] != '-'; }
  }
}
