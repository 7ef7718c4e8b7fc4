/** Character-level helpers: Python 2 `str.strip`, `re.split` on a one-character
    class, `str.join`, `str.isdigit`/`int`, and the decimal text of a timestamp. */
module Text {
  import opened Wrappers

  /** Whitespace as Python 2's `str.strip()` removes it: space, tab, newline,
      carriage return, vertical tab and form feed. */
  predicate IsSpace(c: char) {
    c == ' ' || c == '\t' || c == '\n' || c == '\r' || c == '\U{000B}' || c == '\U{000C}'
  }

  predicate IsDigit(c: char) {
    '0' <= c <= '9'
  }

  /** Python 2's `str.isdigit()` on a byte string: non-empty and all ASCII digits. */
  predicate IsDigits(s: string) {
    |s| > 0 && forall i | 0 <= i < |s| :: IsDigit(s[i])
  }

  // ---------------------------------------------------------------------------
  // strip

  function LeadingSpaces(s: string): (n: nat)
    ensures n <= |s|
    ensures forall i | 0 <= i < n :: IsSpace(s[i])
    ensures n < |s| ==> !IsSpace(s[n])
  {
    if |s| == 0 || !IsSpace(s[0]) then 0 else 1 + LeadingSpaces(s[1..])
  }

  function TrailingSpaces(s: string): (n: nat)
    ensures n <= |s|
    ensures forall i | |s| - n <= i < |s| :: IsSpace(s[i])
    ensures n < |s| ==> !IsSpace(s[|s| - 1 - n])
  {
    if |s| == 0 || !IsSpace(s[|s| - 1]) then 0 else 1 + TrailingSpaces(s[..|s| - 1])
  }

  /** `r` is what is left of `s`, starting at offset `a`, once all of its
      leading and trailing whitespace (and nothing else) is removed. */
  ghost predicate StrippedAt(s: string, r: string, a: int) {
    && 0 <= a && a + |r| <= |s|
    && s[a..a + |r|] == r
    && (forall i | 0 <= i < a :: IsSpace(s[i]))
    && (forall i | a + |r| <= i < |s| :: IsSpace(s[i]))
    && (|r| > 0 ==> !IsSpace(r[0]) && !IsSpace(r[|r| - 1]))
  }

  /** `str.strip()`. */
  function Strip(s: string): (r: string)
    ensures StrippedAt(s, r, LeadingSpaces(s))
  {
    var t := s[LeadingSpaces(s)..];
    t[..|t| - TrailingSpaces(t)]
  }

  /** A character that is not whitespace survives `strip`. */
  lemma NonSpaceSurvivesStrip(s: string, i: int)
    requires 0 <= i < |s| && !IsSpace(s[i])
    ensures LeadingSpaces(s) <= i < LeadingSpaces(s) + |Strip(s)|
    ensures Strip(s)[i - LeadingSpaces(s)] == s[i]
  {
    var a := LeadingSpaces(s);
    var r := Strip(s);
    assert StrippedAt(s, r, a);
    assert a <= i;
    assert i < a + |r|;
    assert r[i - a] == s[a..a + |r|][i - a];
  }

  /** `strip` leaves nothing exactly when the text is all whitespace. */
  lemma StripEmptyIff(s: string)
    ensures |Strip(s)| == 0 <==> forall i | 0 <= i < |s| :: IsSpace(s[i])
  {
    if forall i | 0 <= i < |s| :: IsSpace(s[i]) {
      if |Strip(s)| > 0 {
        NonSpaceSurvivesStrip(s, LeadingSpaces(s));
      }
    }
  }

  /** Text with no whitespace at either end is left alone by `strip`. */
  lemma StripTrimmed(s: string)
    requires |s| > 0 ==> !IsSpace(s[0]) && !IsSpace(s[|s| - 1])
    ensures Strip(s) == s
  {
    if |s| > 0 {
      NonSpaceSurvivesStrip(s, 0);
      NonSpaceSurvivesStrip(s, |s| - 1);
    }
  }

  // ---------------------------------------------------------------------------
  // re.split on a character class, str.join

  predicate NoneIn(s: string, d: set<char>) {
    forall i | 0 <= i < |s| :: s[i] !in d
  }

  /** Number of characters of `s` that belong to `d`. */
  function CountIn(s: string, d: set<char>): nat {
    if |s| == 0 then 0 else (if s[0] in d then 1 else 0) + CountIn(s[1..], d)
  }

  /** Position of the first character of `s` in `d`, or `|s|` if there is none. */
  function FirstIn(s: string, d: set<char>): (i: nat)
    ensures i <= |s|
    ensures forall j | 0 <= j < i :: s[j] !in d
    ensures i < |s| ==> s[i] in d
  {
    if |s| == 0 || s[0] in d then 0 else 1 + FirstIn(s[1..], d)
  }

  lemma CountInNone(s: string, d: set<char>)
    requires NoneIn(s, d)
    ensures CountIn(s, d) == 0
  {
    if |s| > 0 {
      CountInNone(s[1..], d);
    }
  }

  lemma {:induction false} CountInAfterFirst(s: string, d: set<char>)
    requires FirstIn(s, d) < |s|
    ensures CountIn(s, d) == 1 + CountIn(s[FirstIn(s, d) + 1..], d)
  {
    if s[0] !in d {
      assert FirstIn(s, d) == 1 + FirstIn(s[1..], d);
      CountInAfterFirst(s[1..], d);
      assert s[1..][FirstIn(s[1..], d) + 1..] == s[FirstIn(s, d) + 1..];
    }
  }

  /** `re.split` with a pattern that is a one-character class `d`: the pieces
      between consecutive delimiters, empty pieces included, one more piece
      than there are delimiters. */
  function Split(s: string, d: set<char>): (r: seq<string>)
    ensures |r| == CountIn(s, d) + 1
    ensures forall k | 0 <= k < |r| :: NoneIn(r[k], d)
    decreases |s|
  {
    var i := FirstIn(s, d);
    if i == |s| then
      CountInNone(s, d);
      [s]
    else
      CountInAfterFirst(s, d);
      [s[..i]] + Split(s[i + 1..], d)
  }

  /** `sep.join(ps)`. */
  function Join(ps: seq<string>, sep: string): string
    decreases |ps|
  {
    if |ps| == 0 then [] else if |ps| == 1 then ps[0] else ps[0] + sep + Join(ps[1..], sep)
  }

  lemma SplitNoDelimiter(s: string, d: set<char>)
    requires NoneIn(s, d)
    ensures Split(s, d) == [s]
  {
  }

  /** Splitting `a + [c] + b` where `a` has no delimiter and `c` is one. */
  lemma SplitAtDelimiter(a: string, c: char, b: string, d: set<char>)
    requires NoneIn(a, d) && c in d
    ensures Split(a + [c] + b, d) == [a] + Split(b, d)
  {
    var s := a + [c] + b;
    assert s[|a|] == c;
    assert FirstIn(s, d) == |a|;
    assert s[..|a|] == a;
    assert s[|a| + 1..] == b;
  }

  /** Joining the pieces of a split on a single separator gives the text back. */
  lemma {:induction false} JoinSplit(s: string, c: char)
    ensures Join(Split(s, {c}), [c]) == s
    decreases |s|
  {
    var i := FirstIn(s, {c});
    if i < |s| {
      var rest := s[i + 1..];
      JoinSplit(rest, c);
      assert Split(s, {c}) == [s[..i]] + Split(rest, {c});
      assert s == s[..i] + [c] + rest;
    }
  }

  /** Splitting the join of fields free of the separator gives the fields back. */
  lemma {:induction false} SplitJoin(fs: seq<string>, c: char)
    requires |fs| > 0
    requires forall k | 0 <= k < |fs| :: NoneIn(fs[k], {c})
    ensures Split(Join(fs, [c]), {c}) == fs
    decreases |fs|
  {
    if |fs| == 1 {
      SplitNoDelimiter(fs[0], {c});
    } else {
      SplitJoin(fs[1..], c);
      assert Join(fs, [c]) == fs[0] + [c] + Join(fs[1..], [c]);
      SplitAtDelimiter(fs[0], c, Join(fs[1..], [c]), {c});
      assert fs == [fs[0]] + fs[1..];
    }
  }

  lemma JoinNoneIn(ps: seq<string>, sep: string, d: set<char>)
    requires NoneIn(sep, d) && forall k | 0 <= k < |ps| :: NoneIn(ps[k], d)
    ensures NoneIn(Join(ps, sep), d)
    decreases |ps|
  {
    if |ps| > 1 {
      JoinNoneIn(ps[1..], sep, d);
    }
  }

  // ---------------------------------------------------------------------------
  // Python slicing and digits

  /** `xs[a:b]` for `0 <= a <= b`: clamps to the length instead of failing. */
  function PySlice<T>(xs: seq<T>, a: nat, b: nat): (r: seq<T>)
    requires a <= b
    ensures |r| == (if b <= |xs| then b - a else if a <= |xs| then |xs| - a else 0)
    ensures forall i | 0 <= i < |r| :: r[i] == xs[a + i]
  {
    var lo := if a <= |xs| then a else |xs|;
    var hi := if b <= |xs| then b else |xs|;
    xs[lo..hi]
  }

  /** `xs[:-1]`: everything but the last element; empty stays empty. */
  function DropLast<T>(xs: seq<T>): (r: seq<T>)
    ensures |r| == if |xs| == 0 then 0 else |xs| - 1
    ensures forall i | 0 <= i < |r| :: r[i] == xs[i]
  {
    if |xs| == 0 then [] else xs[..|xs| - 1]
  }

  function DigitValue(c: char): nat
    requires IsDigit(c)
  {
    (c as int) - ('0' as int)
  }

  function DigitChar(n: nat): (c: char)
    requires n < 10
    ensures IsDigit(c) && DigitValue(c) == n
  {
    (('0' as int) + n) as char
  }

  /** `int(s)` on a string of decimal digits. */
  function DigitsValue(s: string): nat
    requires forall i | 0 <= i < |s| :: IsDigit(s[i])
  {
    if |s| == 0 then 0 else 10 * DigitsValue(s[..|s| - 1]) + DigitValue(s[|s| - 1])
  }

  /** Decimal text of a natural number, without leading zeros. */
  function NatText(n: nat): (s: string)
    ensures IsDigits(s)
    ensures DigitsValue(s) == n
  {
    if n < 10 then [DigitChar(n)]
    else
      var s := NatText(n / 10) + [DigitChar(n % 10)];
      assert s[..|s| - 1] == NatText(n / 10);
      s
  }

  /** `str(float(t))` for an integral `t` of at most twelve digits, as Python 2
      prints it: the integer's decimal text followed by ".0". */
  function TimestampText(t: int): string {
    (if t < 0 then "-" + NatText(-t) else NatText(t)) + ".0"
  }

  /** Reads back the text `TimestampText` writes (float() on such a text). */
  function ParseTimestamp(s: string): (r: Option<int>)
    ensures r.Some? ==> s == TimestampText(r.value)
  {
    if |s| < 3 || s[|s| - 2..] != ".0" then None
    else
      var body := s[..|s| - 2];
      if body[0] == '-' && IsDigits(body[1..]) && body[1] != '0' then
        assert body == "-" + body[1..];
        NatTextCanonical(body[1..]);
        var v: int := DigitsValue(body[1..]);
        Some(-v)
      else if IsDigits(body) && (body[0] != '0' || |body| == 1) then
        NatTextCanonical(body);
        Some(DigitsValue(body))
      else None
  }

  /** A digit string without a leading zero is the text of its own value. */
  lemma {:induction false} NatTextCanonical(s: string)
    requires IsDigits(s) && (s[0] != '0' || |s| == 1)
    ensures NatText(DigitsValue(s)) == s
    decreases |s|
  {
    if |s| > 1 {
      var p := s[..|s| - 1];
      assert p[0] == s[0];
      NatTextCanonical(p);
      assert DigitsValue(p) > 0 by { LeadingDigitPositive(p); }
      var n := DigitsValue(s);
      assert n / 10 == DigitsValue(p) && n % 10 == DigitValue(s[|s| - 1]);
      assert n >= 10;
      assert DigitChar(n % 10) == s[|s| - 1];
      assert s == p + [s[|s| - 1]];
    } else {
      assert DigitChar(DigitValue(s[0])) == s[0];
    }
  }

  lemma {:induction false} LeadingDigitPositive(s: string)
    requires IsDigits(s) && s[0] != '0'
    ensures DigitsValue(s) > 0
    decreases |s|
  {
    if |s| > 1 {
      var p := s[..|s| - 1];
      assert p[0] == s[0];
      LeadingDigitPositive(p);
    }
  }

  /** Round trip of the timestamp text: reading back what was written gives the
      same integer. */
  lemma TimestampTextRoundTrip(t: int)
    ensures ParseTimestamp(TimestampText(t)) == Some(t)
  {
    var s := TimestampText(t);
    assert s[|s| - 2..] == ".0";
    var body := s[..|s| - 2];
    if t < 0 {
      var n := NatText(-t);
      assert body == "-" + n;
      assert body[1..] == n;
      NatLeadingDigit(-t);
    } else {
      var n := NatText(t);
      assert body == n;
      NatLeadingDigit(t);
    }
  }

  /** The text of a number of two or more digits does not start with zero. */
  lemma {:induction false} NatLeadingDigit(n: nat)
    ensures |NatText(n)| > 1 ==> NatText(n)[0] != '0'
    ensures n > 0 ==> NatText(n)[0] != '0'
  {
    if n >= 10 {
      NatLeadingDigit(n / 10);
    }
  }

  // ---------------------------------------------------------------------------
  // occurrence of pieces in order

  /** `t` occurs in `s` at offset `p`. */
  ghost predicate OccursAt(t: string, s: string, p: int) {
    0 <= p && p + |t| <= |s| && s[p..p + |t|] == t
  }

  /** The texts `ts` occur in `s` at the offsets `offs`, each one ending no
      later than the next one starts. */
  ghost predicate AtOffsets(ts: seq<string>, s: string, offs: seq<int>) {
    && |offs| == |ts|
    && (forall i | 0 <= i < |ts| :: OccursAt(ts[i], s, offs[i]))
    && (forall i | 0 <= i < |ts| - 1 :: offs[i] + |ts[i]| <= offs[i + 1])
  }

  /** The texts `ts` are non-overlapping substrings of `s`, in the order they appear. */
  ghost predicate InOrderIn(ts: seq<string>, s: string) {
    exists offs :: AtOffsets(ts, s, offs)
  }

  lemma InOrderInIntro(ts: seq<string>, s: string, offs: seq<int>)
    requires AtOffsets(ts, s, offs)
    ensures InOrderIn(ts, s)
  {
  }

  function Shifted(offs: seq<int>, k: int): (r: seq<int>)
    ensures |r| == |offs|
    ensures forall i | 0 <= i < |r| :: r[i] == offs[i] + k
  {
    seq(|offs|, i requires 0 <= i < |offs| => offs[i] + k)
  }

  /** Offsets found in a suffix `s[m..]` carry over to `s` shifted by `m`. */
  lemma AtOffsetsInSuffix(ts: seq<string>, s: string, m: int, offs: seq<int>)
    requires 0 <= m <= |s|
    requires AtOffsets(ts, s[m..], offs)
    ensures AtOffsets(ts, s, Shifted(offs, m))
  {
    forall i | 0 <= i < |ts|
      ensures OccursAt(ts[i], s, offs[i] + m)
    {
      assert OccursAt(ts[i], s[m..], offs[i]);
      assert s[m..][offs[i]..offs[i] + |ts[i]|] == s[offs[i] + m..offs[i] + m + |ts[i]|];
    }
  }

  /** Offsets found in a window `s[a..b]` carry over to `s` shifted by `a`. */
  lemma AtOffsetsInWindow(ts: seq<string>, s: string, a: int, b: int, offs: seq<int>)
    requires 0 <= a <= b <= |s|
    requires AtOffsets(ts, s[a..b], offs)
    ensures AtOffsets(ts, s, Shifted(offs, a))
  {
    forall i | 0 <= i < |ts|
      ensures OccursAt(ts[i], s, offs[i] + a)
    {
      assert OccursAt(ts[i], s[a..b], offs[i]);
      assert s[a..b] == s[a..][..b - a];
      assert s[a..b][offs[i]..offs[i] + |ts[i]|] == s[a..][offs[i]..offs[i] + |ts[i]|];
      assert s[a..][offs[i]..offs[i] + |ts[i]|] == s[offs[i] + a..offs[i] + a + |ts[i]|];
    }
  }

  /** Putting one more occurrence in front of occurrences that start at or
      after its end. */
  lemma AtOffsetsCons(t: string, ts: seq<string>, s: string, p: int, offs: seq<int>)
    requires OccursAt(t, s, p)
    requires AtOffsets(ts, s, offs)
    requires |ts| > 0 ==> p + |t| <= offs[0]
    ensures AtOffsets([t] + ts, s, [p] + offs)
  {
    var ts' := [t] + ts;
    var offs' := [p] + offs;
    forall i | 0 <= i < |ts'|
      ensures OccursAt(ts'[i], s, offs'[i])
    {
      if i > 0 {
        assert ts'[i] == ts[i - 1] && offs'[i] == offs[i - 1];
      }
    }
    forall i | 0 <= i < |ts'| - 1
      ensures offs'[i] + |ts'[i]| <= offs'[i + 1]
    {
      if i > 0 {
        assert ts'[i] == ts[i - 1] && offs'[i] == offs[i - 1] && offs'[i + 1] == offs[i];
      }
    }
  }
}
