/** The embedded date tuples of a log line: finding them (`re.findall` of
    `datime\(.*?\)`), reading their integers (`parseDate`), building a
    `datetime.datetime` from them, and turning one into Unix seconds three
    hours later (`time.mktime((d + timedelta(hours=3)).timetuple())`, with the
    local time zone taken to be UTC). */
module Datime {
  import opened Wrappers
  import opened Text

  // ---------------------------------------------------------------------------
  // re.findall(r"datime\(.*?\)", line)

  const Opener: string := "datime("

  /** The lazy `.*?\)` that starts at `k` ends with the `)` at `j`: `j` is the
      first `)` from `k` on and no newline (which `.` does not match) comes
      before it. */
  predicate ClosesAt(s: string, k: int, j: int) {
    && 0 <= k <= j < |s|
    && s[j] == ')'
    && forall n | k <= n < j :: s[n] != ')' && s[n] != '\n'
  }

  function CloseFrom(s: string, k: nat): (r: Option<nat>)
    ensures r.Some? ==> ClosesAt(s, k, r.value)
    ensures r.None? ==> forall j :: !ClosesAt(s, k, j)
    decreases |s| - k
  {
    if k >= |s| || s[k] == '\n' then None
    else if s[k] == ')' then Some(k)
    else
      var r := CloseFrom(s, k + 1);
      assert forall j | ClosesAt(s, k, j) :: ClosesAt(s, k + 1, j);
      r
  }

  /** The pattern `datime\(.*?\)` matches at position `p` of `s`. */
  predicate MatchesAt(s: string, p: int) {
    && 0 <= p && p + |Opener| <= |s|
    && s[p..p + |Opener|] == Opener
    && CloseFrom(s, p + |Opener|).Some?
  }

  /** The shape of every text the pattern matches: the opener, then anything
      but `)` and newline, then `)`. */
  predicate IsDatimeText(m: string) {
    && |m| > |Opener|
    && m[..|Opener|] == Opener
    && m[|m| - 1] == ')'
    && forall n | |Opener| <= n < |m| - 1 :: m[n] != ')' && m[n] != '\n'
  }

  /** `findall` from position `p` on: at each position the pattern is tried,
      and after a match the search resumes just past it. */
  function FindFrom(s: string, p: nat): (r: seq<string>)
    ensures forall i | 0 <= i < |r| :: IsDatimeText(r[i])
    ensures |r| == 0 <==> forall q | p <= q :: !MatchesAt(s, q)
    decreases |s| - p
  {
    if p + |Opener| > |s| then []
    else if MatchesAt(s, p) then
      var j := CloseFrom(s, p + |Opener|).value;
      var m := s[p..j + 1];
      assert m[..|Opener|] == s[p..p + |Opener|];
      assert forall n | |Opener| <= n < |m| - 1 :: m[n] == s[p + n];
      [m] + FindFrom(s, j + 1)
    else
      FindFrom(s, p + 1)
  }

  /** `re.findall(r"datime\(.*?\)", line)`. */
  function FindAll(s: string): (r: seq<string>)
    ensures forall i | 0 <= i < |r| :: IsDatimeText(r[i])
    ensures |r| == 0 <==> forall q: nat :: !MatchesAt(s, q)
  {
    FindFrom(s, 0)
  }

  /** A match at `p` goes in front of the matches found after it. */
  lemma FindFromConsOffsets(s: string, p: nat, j: nat, rest: seq<int>)
    requires MatchesAt(s, p) && j == CloseFrom(s, p + |Opener|).value
    requires AtOffsets(FindFrom(s, j + 1), s, rest)
    requires forall i | 0 <= i < |rest| :: rest[i] >= j + 1
    ensures AtOffsets(FindFrom(s, p), s, [p] + rest)
  {
    var m := s[p..j + 1];
    assert FindFrom(s, p) == [m] + FindFrom(s, j + 1);
    assert OccursAt(m, s, p);
    AtOffsetsCons(m, FindFrom(s, j + 1), s, p, rest);
  }

  lemma {:induction false} FindFromOffsets(s: string, p: nat) returns (offs: seq<int>)
    ensures AtOffsets(FindFrom(s, p), s, offs)
    ensures forall i | 0 <= i < |offs| :: offs[i] >= p
    decreases |s| - p
  {
    if p + |Opener| > |s| {
      offs := [];
    } else if MatchesAt(s, p) {
      var j := CloseFrom(s, p + |Opener|).value;
      var rest := FindFromOffsets(s, j + 1);
      FindFromConsOffsets(s, p, j, rest);
      offs := [p] + rest;
    } else {
      offs := FindFromOffsets(s, p + 1);
    }
  }

  /** The matches are non-overlapping pieces of the line, in line order. */
  lemma FindAllInOrder(s: string)
    ensures InOrderIn(FindAll(s), s)
  {
    var offs := FindFromOffsets(s, 0);
    InOrderInIntro(FindAll(s), s, offs);
  }

  /** The pattern, as `at` says, matches at `q`. */
  ghost predicate PatternAt(at: nat -> bool, q: nat) {
    at(q)
  }

  /** `ms` is what a leftmost, non-overlapping scan of `s` from `p` finds,
      with `at(q)` saying that the pattern matches at `q` and `end(q)` where
      that match ends: match `k` is the text from `offs[k]` to its end, the
      matches come in order without overlapping, and every position from `p`
      on where the pattern matches is either one of the matches or lies
      inside one (so it was passed over, never skipped). */
  ghost predicate Scanned(s: string, at: nat -> bool, end: nat -> nat, p: nat, offs: seq<nat>, ms: seq<string>) {
    && |offs| == |ms|
    && (forall k | 0 <= k < |offs| ::
          && at(offs[k])
          && p <= offs[k] < end(offs[k]) <= |s|
          && ms[k] == s[offs[k]..end(offs[k])])
    && (forall k, l | 0 <= k < l < |offs| :: end(offs[k]) <= offs[l])
    && (forall q: nat | p <= q < |s| && PatternAt(at, q) ::
          q in offs || exists k | 0 <= k < |offs| :: offs[k] < q < end(offs[k]))
  }

  /** A match at `p` in front of a scan from its end. */
  lemma ScannedCons(s: string, at: nat -> bool, end: nat -> nat, p: nat, rest: seq<nat>, ms: seq<string>)
    requires at(p) && p < end(p) <= |s|
    requires Scanned(s, at, end, end(p), rest, ms)
    ensures Scanned(s, at, end, p, [p] + rest, [s[p..end(p)]] + ms)
  {
    var offs := [p] + rest;
    var all := [s[p..end(p)]] + ms;
    forall k | 0 <= k < |offs|
      ensures at(offs[k]) && p <= offs[k] < end(offs[k]) <= |s| && all[k] == s[offs[k]..end(offs[k])]
    {
      if k > 0 {
        assert offs[k] == rest[k - 1] && all[k] == ms[k - 1];
      }
    }
    forall k, l | 0 <= k < l < |offs|
      ensures end(offs[k]) <= offs[l]
    {
      assert offs[l] == rest[l - 1];
      if k > 0 {
        assert offs[k] == rest[k - 1];
      }
    }
    ConsCovers(s, at, end, p, rest, ms);
  }

  /** Every match position from `p` on is covered by `[p] + rest`. */
  lemma ConsCovers(s: string, at: nat -> bool, end: nat -> nat, p: nat, rest: seq<nat>, ms: seq<string>)
    requires at(p) && p < end(p) <= |s|
    requires Scanned(s, at, end, end(p), rest, ms)
    ensures forall q: nat | p <= q < |s| && PatternAt(at, q) ::
              q in [p] + rest || exists k | 0 <= k < |[p] + rest| :: ([p] + rest)[k] < q < end(([p] + rest)[k])
  {
    var offs := [p] + rest;
    forall q: nat | p <= q < |s| && PatternAt(at, q)
      ensures q in offs || exists k | 0 <= k < |offs| :: offs[k] < q < end(offs[k])
    {
      if q == p {
        assert offs[0] == q;
      } else if q < end(p) {
        assert offs[0] < q < end(offs[0]);
      } else if q in rest {
        var t :| 0 <= t < |rest| && rest[t] == q;
        assert offs[t + 1] == q;
      } else {
        var t :| 0 <= t < |rest| && rest[t] < q < end(rest[t]);
        assert offs[t + 1] == rest[t];
      }
    }
  }

  /** No match at `p`: the scan from `p` finds what the scan from `p + 1`
      does. */
  lemma ScannedSkip(s: string, at: nat -> bool, end: nat -> nat, p: nat, offs: seq<nat>, ms: seq<string>)
    requires !at(p)
    requires Scanned(s, at, end, p + 1, offs, ms)
    ensures Scanned(s, at, end, p, offs, ms)
  {
    forall q: nat | p <= q < |s| && PatternAt(at, q)
      ensures q in offs || exists k | 0 <= k < |offs| :: offs[k] < q < end(offs[k])
    {
      assert q != p;
      assert PatternAt(at, q);
    }
  }

  /** Just past the `)` that closes a match at `q`. */
  function MatchEnd(s: string, q: nat): nat {
    match CloseFrom(s, q + |Opener|)
    case Some(j) => j + 1
    case None => q + |Opener|
  }

  /** A scan in the usual terms: the first match is the leftmost match from
      `p` on, each further match is the leftmost one from the end of the
      previous match on, and after the last match there is none. */
  lemma ScannedLeftmost(s: string, at: nat -> bool, end: nat -> nat, p: nat, offs: seq<nat>, ms: seq<string>)
    requires Scanned(s, at, end, p, offs, ms)
    ensures |offs| == 0 ==> forall q: nat | p <= q < |s| :: !at(q)
    ensures |offs| > 0 ==> forall q: nat | p <= q < offs[0] :: !at(q)
    ensures forall k, l, q | 0 <= k && l == k + 1 && l < |offs| && end(offs[k]) <= q < offs[l] :: !at(q)
    ensures |offs| > 0 ==> forall q: nat | end(offs[|offs| - 1]) <= q < |s| :: !at(q)
  {
    forall q: nat | p <= q < |s| && at(q)
      ensures exists t | 0 <= t < |offs| :: offs[t] <= q < end(offs[t])
    {
      assert PatternAt(at, q);
      if q in offs {
        var t :| 0 <= t < |offs| && offs[t] == q;
      }
    }
  }

  /** The pattern `datime\(.*?\)` as a test on positions of `s`. */
  function At(s: string): nat -> bool {
    q => MatchesAt(s, q)
  }

  /** Where the match at a position of `s` ends. */
  function End(s: string): nat -> nat {
    q => MatchEnd(s, q)
  }

  lemma FindFromScanEnd(s: string, p: nat)
    requires p + |Opener| > |s|
    ensures Scanned(s, At(s), End(s), p, [], FindFrom(s, p))
  {
    assert forall q: nat | p <= q :: !PatternAt(At(s), q);
  }

  lemma FindFromScanMatch(s: string, p: nat, rest: seq<nat>)
    requires MatchesAt(s, p)
    requires Scanned(s, At(s), End(s), MatchEnd(s, p), rest, FindFrom(s, MatchEnd(s, p)))
    ensures Scanned(s, At(s), End(s), p, [p] + rest, FindFrom(s, p))
  {
    FindFromMatchStep(s, p);
    assert At(s)(p) && End(s)(p) == MatchEnd(s, p);
    ScannedCons(s, At(s), End(s), p, rest, FindFrom(s, MatchEnd(s, p)));
  }

  /** A match at `p` is the text up to its end, and the search resumes there. */
  lemma FindFromMatchStep(s: string, p: nat)
    requires MatchesAt(s, p)
    ensures p < MatchEnd(s, p) <= |s|
    ensures FindFrom(s, p) == [s[p..MatchEnd(s, p)]] + FindFrom(s, MatchEnd(s, p))
  {
    var j := CloseFrom(s, p + |Opener|).value;
    assert MatchEnd(s, p) == j + 1;
  }

  lemma FindFromScanSkip(s: string, p: nat, offs: seq<nat>)
    requires p + |Opener| <= |s| && !MatchesAt(s, p)
    requires Scanned(s, At(s), End(s), p + 1, offs, FindFrom(s, p + 1))
    ensures Scanned(s, At(s), End(s), p, offs, FindFrom(s, p))
  {
    assert FindFrom(s, p) == FindFrom(s, p + 1);
    ScannedSkip(s, At(s), End(s), p, offs, FindFrom(s, p));
  }

  /** `findall` is the leftmost, non-overlapping scan: each match is the
      first one at or after the end of the previous match, and none is left
      after the last. */
  lemma {:induction false} FindFromScan(s: string, p: nat) returns (offs: seq<nat>)
    ensures Scanned(s, At(s), End(s), p, offs, FindFrom(s, p))
    decreases |s| - p
  {
    if p + |Opener| > |s| {
      FindFromScanEnd(s, p);
      offs := [];
    } else if MatchesAt(s, p) {
      var rest := FindFromScan(s, MatchEnd(s, p));
      FindFromScanMatch(s, p, rest);
      offs := [p] + rest;
    } else {
      offs := FindFromScan(s, p + 1);
      FindFromScanSkip(s, p, offs);
    }
  }

  /** `re.findall` on the whole line is the leftmost, non-overlapping scan
      from its start. */
  lemma FindAllScan(s: string) returns (offs: seq<nat>)
    ensures Scanned(s, At(s), End(s), 0, offs, FindAll(s))
    ensures |offs| > 0 ==> forall q: nat | q < offs[0] :: !MatchesAt(s, q)
    ensures forall k, l, q | 0 <= k && l == k + 1 && l < |offs| && MatchEnd(s, offs[k]) <= q < offs[l] ::
              !MatchesAt(s, q)
    ensures |offs| > 0 ==> forall q: nat | MatchEnd(s, offs[|offs| - 1]) <= q :: !MatchesAt(s, q)
  {
    offs := FindFromScan(s, 0);
    ScannedLeftmost(s, At(s), End(s), 0, offs, FindAll(s));
    assert forall q: nat :: At(s)(q) == MatchesAt(s, q);
    assert forall q: nat :: End(s)(q) == MatchEnd(s, q);
  }

  // ---------------------------------------------------------------------------
  // parseDate: the integers of a date tuple

  const DateDelims: set<char> := {'(', ')', ','}

  /** The pieces whose stripped text is all digits, stripped, in order. */
  function DigitPieces(ps: seq<string>): (r: seq<string>)
    ensures |r| <= |ps|
    ensures forall i | 0 <= i < |r| :: IsDigits(r[i])
  {
    KeepDigits(ps, Strip)
  }

  /** The piece at `i` is all digits once mapped by `g`. */
  predicate DigitAt(ps: seq<string>, g: string -> string, i: nat)
    requires i < |ps|
  {
    IsDigits(g(ps[i]))
  }

  /** `idx` lists, in increasing order, exactly the positions of the pieces
      that are all digits once mapped by `g`, and `r[t]` is the piece at
      `idx[t]`, mapped. */
  ghost predicate DigitPositions(ps: seq<string>, g: string -> string, idx: seq<nat>, r: seq<string>) {
    && |idx| == |r|
    && (forall t | 0 <= t < |idx| :: idx[t] < |ps| && r[t] == g(ps[idx[t]]))
    && (forall t, u | 0 <= t < u < |idx| :: idx[t] < idx[u])
    && (forall i: nat {:trigger DigitAt(ps, g, i)} | i < |ps| && DigitAt(ps, g, i) :: i in idx)
  }

  /** The positions in the tail, one further on. */
  lemma DigitPositionsShift(ps: seq<string>, g: string -> string, rest: seq<nat>, r: seq<string>)
    returns (up: seq<nat>)
    requires |ps| > 0 && DigitPositions(ps[1..], g, rest, r)
    ensures |up| == |r|
    ensures forall t | 0 <= t < |up| :: 0 < up[t] < |ps| && r[t] == g(ps[up[t]])
    ensures forall t, u | 0 <= t < u < |up| :: up[t] < up[u]
    ensures forall i: nat {:trigger DigitAt(ps, g, i)} | 1 <= i < |ps| && DigitAt(ps, g, i) :: i in up
  {
    var tail := ps[1..];
    up := seq(|rest|, t requires 0 <= t < |rest| => rest[t] + 1);
    forall t | 0 <= t < |up|
      ensures 0 < up[t] < |ps| && r[t] == g(ps[up[t]])
    {
      assert ps[up[t]] == tail[rest[t]];
    }
    forall i: nat | 1 <= i < |ps| && DigitAt(ps, g, i)
      ensures i in up
    {
      assert tail[i - 1] == ps[i] && DigitAt(tail, g, i - 1);
      var t :| 0 <= t < |rest| && rest[t] == i - 1;
      assert up[t] == i;
    }
  }

  /** A first piece that is kept comes before the kept pieces of the tail. */
  lemma DigitPositionsCons(ps: seq<string>, g: string -> string, up: seq<nat>, r: seq<string>)
    returns (idx: seq<nat>)
    requires |ps| > 0 && DigitAt(ps, g, 0) && |up| == |r|
    requires forall t | 0 <= t < |up| :: 0 < up[t] < |ps| && r[t] == g(ps[up[t]])
    requires forall t, u | 0 <= t < u < |up| :: up[t] < up[u]
    requires forall i: nat {:trigger DigitAt(ps, g, i)} | 1 <= i < |ps| && DigitAt(ps, g, i) :: i in up
    ensures DigitPositions(ps, g, idx, [g(ps[0])] + r)
  {
    idx := [0] + up;
    var all := [g(ps[0])] + r;
    forall t | 0 <= t < |idx|
      ensures idx[t] < |ps| && all[t] == g(ps[idx[t]])
    {
      if t > 0 {
        assert idx[t] == up[t - 1] && all[t] == r[t - 1];
      }
    }
    forall t, u | 0 <= t < u < |idx|
      ensures idx[t] < idx[u]
    {
      assert idx[u] == up[u - 1];
      if t > 0 {
        assert idx[t] == up[t - 1];
      }
    }
    forall i: nat | i < |ps| && DigitAt(ps, g, i)
      ensures i in idx
    {
      if i > 0 {
        assert i in up;
      }
    }
  }

  /** The pieces that are all digits once mapped by `g`, mapped, in order. */
  function KeepDigits(ps: seq<string>, g: string -> string): (r: seq<string>)
    ensures |r| <= |ps|
    ensures forall i | 0 <= i < |r| :: IsDigits(r[i])
    decreases |ps|
  {
    if |ps| == 0 then []
    else (if IsDigits(g(ps[0])) then [g(ps[0])] else []) + KeepDigits(ps[1..], g)
  }

  /** A first piece that is dropped adds no position. */
  lemma DigitPositionsSkip(ps: seq<string>, g: string -> string, up: seq<nat>, r: seq<string>)
    returns (idx: seq<nat>)
    requires |ps| > 0 && !DigitAt(ps, g, 0) && |up| == |r|
    requires forall t | 0 <= t < |up| :: 0 < up[t] < |ps| && r[t] == g(ps[up[t]])
    requires forall t, u | 0 <= t < u < |up| :: up[t] < up[u]
    requires forall i: nat {:trigger DigitAt(ps, g, i)} | 1 <= i < |ps| && DigitAt(ps, g, i) :: i in up
    ensures DigitPositions(ps, g, idx, r)
  {
    idx := up;
  }

  /** From the positions in the tail to the positions in the whole. */
  lemma KeepDigitsCons(ps: seq<string>, g: string -> string, rest: seq<nat>, r: seq<string>)
    returns (idx: seq<nat>)
    requires |ps| > 0 && r == KeepDigits(ps[1..], g)
    requires DigitPositions(ps[1..], g, rest, r)
    ensures DigitPositions(ps, g, idx, KeepDigits(ps, g))
  {
    var up := DigitPositionsShift(ps, g, rest, r);
    if DigitAt(ps, g, 0) {
      assert KeepDigits(ps, g) == [g(ps[0])] + r;
      idx := DigitPositionsCons(ps, g, up, r);
    } else {
      assert KeepDigits(ps, g) == r;
      idx := DigitPositionsSkip(ps, g, up, r);
    }
  }

  lemma {:induction false} KeepDigitsIndices(ps: seq<string>, g: string -> string) returns (idx: seq<nat>)
    ensures DigitPositions(ps, g, idx, KeepDigits(ps, g))
    decreases |ps|
  {
    if |ps| == 0 {
      idx := [];
    } else {
      var r := KeepDigits(ps[1..], g);
      var rest := KeepDigitsIndices(ps[1..], g);
      idx := KeepDigitsCons(ps, g, rest, r);
    }
  }

  /** The kept pieces are the stripped pieces at the positions of the pieces
      that are all digits once stripped, in order: `DigitPieces` is the
      order-preserving filter. */
  lemma DigitPiecesIndices(ps: seq<string>) returns (idx: seq<nat>)
    ensures DigitPositions(ps, Strip, idx, DigitPieces(ps))
  {
    idx := KeepDigitsIndices(ps, Strip);
  }

  /** `int(...)` of each digit string. */
  function Values(ds: seq<string>): (r: seq<nat>)
    requires forall i | 0 <= i < |ds| :: IsDigits(ds[i])
    ensures |r| == |ds|
  {
    if |ds| == 0 then []
    else
      assert IsDigits(ds[0]);
      [DigitsValue(ds[0])] + Values(ds[1..])
  }

  /** `parseDate`'s list of integers: split the stripped text on `(`, `)` and
      `,`, keep the pieces that are all digits once stripped, read them, and
      drop the last one. */
  function Components(m: string): seq<nat> {
    DropLast(Values(DigitPieces(Split(Strip(m), DateDelims))))
  }

  function NumberTexts(xs: seq<nat>): (r: seq<string>)
    ensures |r| == |xs|
    ensures forall i | 0 <= i < |r| :: r[i] == NatText(xs[i])
  {
    if |xs| == 0 then [] else [NatText(xs[0])] + NumberTexts(xs[1..])
  }

  /** The date tuple as the log writes it: `datime(x0,x1,...,last)`. */
  function DatimeText(xs: seq<nat>, last: nat): string {
    Opener + Join(NumberTexts(xs + [last]), ",") + ")"
  }

  lemma {:induction false} SplitNumbers(ts: seq<string>)
    requires |ts| > 0
    requires forall i | 0 <= i < |ts| :: IsDigits(ts[i])
    ensures Split(Join(ts, ",") + ")", DateDelims) == ts + [""]
    decreases |ts|
  {
    DigitsHaveNoDelimiter(ts[0]);
    if |ts| == 1 {
      SplitLastNumber(ts);
    } else {
      SplitNumbers(ts[1..]);
      SplitNextNumber(ts);
    }
  }

  lemma DigitsHaveNoDelimiter(t: string)
    requires IsDigits(t)
    ensures NoneIn(t, DateDelims)
  {
  }

  /** The last number and the closing parenthesis. */
  lemma SplitLastNumber(ts: seq<string>)
    requires |ts| == 1 && NoneIn(ts[0], DateDelims)
    ensures Split(Join(ts, ",") + ")", DateDelims) == ts + [""]
  {
    JoinOne(ts);
    SplitClose(ts[0]);
    assert ts == [ts[0]];
  }

  lemma JoinOne(ts: seq<string>)
    requires |ts| == 1
    ensures Join(ts, ",") + ")" == ts[0] + [')'] + ""
  {
  }

  lemma SplitClose(t: string)
    requires NoneIn(t, DateDelims)
    ensures Split(t + [')'] + "", DateDelims) == [t, ""]
  {
    SplitAtDelimiter(t, ')', "", DateDelims);
    SplitNoDelimiter("", DateDelims);
  }

  /** A number and its comma in front of the rest of the tuple. */
  lemma SplitNextNumber(ts: seq<string>)
    requires |ts| > 1 && NoneIn(ts[0], DateDelims)
    requires Split(Join(ts[1..], ",") + ")", DateDelims) == ts[1..] + [""]
    ensures Split(Join(ts, ",") + ")", DateDelims) == ts + [""]
  {
    var rest := Join(ts[1..], ",") + ")";
    JoinStep(ts);
    SplitCons(ts[0], rest, ts[1..] + [""]);
    ConsAppend(ts, [""]);
  }

  lemma ConsAppend<T>(xs: seq<T>, ys: seq<T>)
    requires |xs| > 0
    ensures xs + ys == [xs[0]] + (xs[1..] + ys)
  {
    assert xs == [xs[0]] + xs[1..];
  }

  lemma JoinStep(ts: seq<string>)
    requires |ts| > 1
    ensures Join(ts, ",") + ")" == ts[0] + [','] + (Join(ts[1..], ",") + ")")
  {
  }

  lemma SplitCons(a: string, rest: string, tail: seq<string>)
    requires NoneIn(a, DateDelims) && Split(rest, DateDelims) == tail
    ensures Split(a + [','] + rest, DateDelims) == [a] + tail
  {
    SplitAtDelimiter(a, ',', rest, DateDelims);
  }

  /** Digit strings followed by the empty piece after the closing
      parenthesis: the digit strings are kept as they are, the empty piece is
      dropped. */
  lemma {:induction false} DigitPiecesOfDigits(ts: seq<string>)
    requires forall i | 0 <= i < |ts| :: IsDigits(ts[i])
    ensures DigitPieces(ts + [""]) == ts
    decreases |ts|
  {
    var all := ts + [""];
    if |ts| == 0 {
      assert all == [""];
      assert !IsDigits(Strip(""));
    } else {
      StripTrimmed(ts[0]);
      assert all[0] == ts[0];
      assert all[1..] == ts[1..] + [""];
      DigitPiecesOfDigits(ts[1..]);
      assert ts == [ts[0]] + ts[1..];
    }
  }

  /** The word before the opening parenthesis of a date tuple. */
  const Name: string := "datime"

  lemma NameHasNoDelimiter()
    ensures NoneIn(Name, DateDelims)
    ensures !IsDigits(Name)
    ensures Strip(Name) == Name
  {
    assert !IsDigit(Name[0]);
    StripTrimmed(Name);
  }

  lemma SplitDatimeText(xs: seq<nat>, last: nat)
    ensures Split(Strip(DatimeText(xs, last)), DateDelims)
         == [Name] + (NumberTexts(xs + [last]) + [""])
  {
    var ts := NumberTexts(xs + [last]);
    var body := Join(ts, ",") + ")";
    var t := DatimeText(xs, last);
    assert t == Name + ['('] + body by {
      assert Opener == Name + ['('];
    }
    assert Strip(t) == t by {
      assert t[0] == 'd' && t[|t| - 1] == ')';
      StripTrimmed(t);
    }
    assert Split(t, DateDelims) == [Name] + Split(body, DateDelims) by {
      NameHasNoDelimiter();
      SplitAtDelimiter(Name, '(', body, DateDelims);
    }
    assert Split(body, DateDelims) == ts + [""] by {
      SplitNumbers(ts);
    }
  }

  /** A word that is not a number, then digit strings, then the empty piece. */
  lemma DigitPiecesAfterWord(w: string, ts: seq<string>)
    requires !IsDigits(Strip(w))
    requires forall i | 0 <= i < |ts| :: IsDigits(ts[i])
    ensures DigitPieces([w] + (ts + [""])) == ts
  {
    var rest := ts + [""];
    assert ([w] + rest)[1..] == rest;
    DigitPiecesOfDigits(ts);
  }

  lemma {:induction false} ValuesOfNumberTexts(ys: seq<nat>)
    ensures Values(NumberTexts(ys)) == ys
    decreases |ys|
  {
    if |ys| > 0 {
      ValuesOfNumberTexts(ys[1..]);
      assert NumberTexts(ys)[1..] == NumberTexts(ys[1..]);
      assert ys == [ys[0]] + ys[1..];
    }
  }

  /** Round trip: reading the integers of a written date tuple gives back all
      but its last integer. */
  lemma ComponentsOfDatimeText(xs: seq<nat>, last: nat)
    ensures Components(DatimeText(xs, last)) == xs
  {
    var ys := xs + [last];
    var ts := NumberTexts(ys);
    SplitDatimeText(xs, last);
    NameHasNoDelimiter();
    DigitPiecesAfterWord(Name, ts);
    ValuesOfNumberTexts(ys);
    assert DropLast(ys) == xs;
  }

  /** A piece that starts with a minus sign is not all digits, so a negative
      number in a date tuple is silently skipped rather than read. */
  lemma NegativePieceSkipped(ps: seq<string>, k: int)
    requires 0 <= k < |ps| && |Strip(ps[k])| > 0 && Strip(ps[k])[0] == '-'
    ensures Strip(ps[k]) !in DigitPieces(ps)
  {
    if k > 0 {
      NegativePieceSkipped(ps[1..], k - 1);
    }
  }

  // ---------------------------------------------------------------------------
  // datetime.datetime(*components)

  datatype DateTime = DateTime(year: int, month: int, day: int,
                               hour: int, minute: int, second: int, microsecond: int)

  /** Why `datetime.datetime(*c)` refuses `c`: the TypeError of argument
      parsing for fewer than three or more than eight arguments, the
      OverflowError of argument parsing for a field wider than a C `int`,
      the ValueError of a field out of range, or the TypeError for an integer
      given as the eighth (tzinfo) argument, which is raised only after the
      ranges were checked. */
  datatype DateError = WrongArity(count: nat) | Overflow | OutOfRange | BadTzinfo

  /** The largest value of a C `int`, the width of the seven `i` fields of
      the argument format `iii|iiiiO`. */
  const IntMax := 0x7fff_ffff

  /** Some given field among the first seven does not fit a C `int`. */
  predicate Overflows(c: seq<nat>) {
    exists i | 0 <= i < |c| && i < 7 :: c[i] > IntMax
  }

  const MinYear := 1
  const MaxYear := 9999

  predicate IsLeap(y: int) {
    y % 4 == 0 && (y % 100 != 0 || y % 400 == 0)
  }

  function DaysInMonth(y: int, m: int): int
    requires 1 <= m <= 12
  {
    if m == 2 then (if IsLeap(y) then 29 else 28)
    else if m == 4 || m == 6 || m == 9 || m == 11 then 30
    else 31
  }

  /** The ranges `datetime.datetime` accepts. */
  predicate Valid(d: DateTime) {
    && MinYear <= d.year <= MaxYear
    && 1 <= d.month <= 12
    && 1 <= d.day <= DaysInMonth(d.year, d.month)
    && 0 <= d.hour < 24
    && 0 <= d.minute < 60
    && 0 <= d.second < 60
    && 0 <= d.microsecond < 1000000
  }

  function FieldList(d: DateTime): seq<int> {
    [d.year, d.month, d.day, d.hour, d.minute, d.second, d.microsecond]
  }

  /** The `i`th positional argument, or the default 0 when it is not given. */
  function ArgOr0(c: seq<nat>, i: nat): nat {
    if i < |c| then c[i] else 0
  }

  /** `datetime.datetime(*c)`: year, month and day are required, hour through
      microsecond default to 0. Argument parsing refuses more than eight
      arguments first, then converts the given ones in order, and only then
      reports missing ones. An eighth integer is accepted by argument
      parsing as the tzinfo object, and refused only once the seven fields
      have passed their range checks. */
  function FromComponents(c: seq<nat>): (r: Result<DateTime, DateError>)
    ensures r.Success? ==> Valid(r.value) && 3 <= |c| <= 7
    ensures r.Success? ==> forall i | 0 <= i < 7 :: FieldList(r.value)[i] == ArgOr0(c, i)
    ensures r == Failure(WrongArity(|c|)) <==> |c| > 8 || (|c| < 3 && !Overflows(c))
    ensures r == Failure(Overflow) <==> |c| <= 8 && Overflows(c)
    ensures r == Failure(OutOfRange) ==> 3 <= |c| <= 8 && !Overflows(c)
    ensures r == Failure(BadTzinfo) ==> |c| == 8
  {
    if |c| > 8 then Failure(WrongArity(|c|))
    else if Overflows(c) then Failure(Overflow)
    else if |c| < 3 then Failure(WrongArity(|c|))
    else
      var d := DateTime(c[0], c[1], c[2], ArgOr0(c, 3), ArgOr0(c, 4), ArgOr0(c, 5), ArgOr0(c, 6));
      if !Valid(d) then Failure(OutOfRange)
      else if |c| == 8 then Failure(BadTzinfo)
      else Success(d)
  }

  /** Eight integers fail like their first seven when those overflow or are
      out of range, and with the tzinfo TypeError when those would make a
      datetime. */
  lemma TzinfoCheckedLast(c: seq<nat>)
    requires |c| == 8
    ensures FromComponents(c[..7]).Failure? ==>
              FromComponents(c) == FromComponents(c[..7])
              && (FromComponents(c).error == Overflow || FromComponents(c).error == OutOfRange)
    ensures FromComponents(c[..7]).Success? ==> FromComponents(c) == Failure(BadTzinfo)
  {
    var c7 := c[..7];
    assert forall i | 0 <= i < 7 :: ArgOr0(c7, i) == ArgOr0(c, i);
    assert forall i | 0 <= i < 7 :: c7[i] == c[i];
    assert Overflows(c7) <==> Overflows(c);
  }

  /** A field too wide for a C `int` is an OverflowError even where an
      argument is missing or the date would be out of range. */
  lemma WideFieldOverflows()
    ensures FromComponents([3000000000, 1]) == Failure(Overflow)
    ensures FromComponents([2024, 1, 3000000000]) == Failure(Overflow)
    ensures FromComponents([2024, 1, 1, 0, 0, 0, 0, 0, 3000000000]) == Failure(WrongArity(9))
  {
    assert [3000000000, 1][0] > IntMax;
    assert [2024, 1, 3000000000][2] > IntMax;
  }

  /** Every valid datetime is built back from any argument list of three to
      seven integers that spells out its fields, the omitted ones being zero. */
  lemma FromComponentsOfFields(d: DateTime, c: seq<nat>)
    requires Valid(d) && 3 <= |c| <= 7
    requires forall i | 0 <= i < 7 :: ArgOr0(c, i) == FieldList(d)[i]
    ensures FromComponents(c) == Success(d)
  {
    assert ArgOr0(c, 0) == d.year && ArgOr0(c, 1) == d.month && ArgOr0(c, 2) == d.day;
    assert ArgOr0(c, 3) == d.hour && ArgOr0(c, 4) == d.minute;
    assert ArgOr0(c, 5) == d.second && ArgOr0(c, 6) == d.microsecond;
  }

  /** `parseDate`: the integers of the tuple, less the last, as datetime arguments. */
  function ParseDate(m: string): (r: Result<DateTime, DateError>)
    ensures r.Success? ==> Valid(r.value) && 3 <= |Components(m)| <= 7
    ensures r.Success? ==> forall i | 0 <= i < 7 :: FieldList(r.value)[i] == ArgOr0(Components(m), i)
  {
    FromComponents(Components(m))
  }

  /** The seven fields of a valid datetime as the integers a log writes. */
  function Arguments(d: DateTime): seq<nat>
    requires Valid(d)
  {
    [d.year, d.month, d.day, d.hour, d.minute, d.second, d.microsecond]
  }

  /** A tuple that spells out all seven fields of a valid datetime, followed
      by any further number, parses back to that datetime. */
  lemma ParseDateRoundTrip(d: DateTime, last: nat)
    requires Valid(d)
    ensures ParseDate(DatimeText(Arguments(d), last)) == Success(d)
  {
    var c := Arguments(d);
    ComponentsOfDatimeText(c, last);
    FromComponentsOfFields(d, c);
  }

  // ---------------------------------------------------------------------------
  // calendar arithmetic and Unix seconds

  /** The fixed shift added to every date before conversion: three hours. */
  const ShiftSeconds := 3 * 3600

  /** Days before the first of January of year `y`, counting from 0001-01-01
      (the proleptic Gregorian calendar, as `date.toordinal` counts). */
  function DaysBeforeYear(y: int): int
    requires y >= 1
  {
    var p := y - 1;
    p * 365 + p / 4 - p / 100 + p / 400
  }

  function DaysBeforeMonth(y: int, m: int): int
    requires 1 <= m <= 12
  {
    var cumulative := [0, 31, 59, 90, 120, 151, 181, 212, 243, 273, 304, 334];
    cumulative[m - 1] + (if m > 2 && IsLeap(y) then 1 else 0)
  }

  /** `date.toordinal()`: 0001-01-01 is day 1. */
  function Ordinal(d: DateTime): int
    requires Valid(d)
  {
    DaysBeforeYear(d.year) + DaysBeforeMonth(d.year, d.month) + d.day
  }

  /** `date(1970, 1, 1).toordinal()`. */
  const EpochOrdinal := 719163

  /** Seconds since 1970-01-01 00:00 UTC of the wall-clock time `d`, ignoring
      microseconds as `timetuple()` does. */
  function UnixSeconds(d: DateTime): int
    requires Valid(d)
  {
    (Ordinal(d) - EpochOrdinal) * 86400 + d.hour * 3600 + d.minute * 60 + d.second
  }

  lemma EpochOrdinalIsEpoch()
    ensures Ordinal(DateTime(1970, 1, 1, 0, 0, 0, 0)) == EpochOrdinal
    ensures UnixSeconds(DateTime(1970, 1, 1, 0, 0, 0, 0)) == 0
  {
  }

  /** A year has 365 days plus one in a leap year. */
  lemma YearLength(y: int)
    requires y >= 1
    ensures DaysBeforeYear(y + 1) == DaysBeforeYear(y) + 365 + (if IsLeap(y) then 1 else 0)
  {
    QuotientStep4(y);
    QuotientStep100(y);
    QuotientStep400(y);
    LeapDivisors(y);
  }

  lemma QuotientStep4(y: int)
    ensures y / 4 == (y - 1) / 4 + (if y % 4 == 0 then 1 else 0)
  {
  }

  lemma QuotientStep100(y: int)
    ensures y / 100 == (y - 1) / 100 + (if y % 100 == 0 then 1 else 0)
  {
  }

  lemma QuotientStep400(y: int)
    ensures y / 400 == (y - 1) / 400 + (if y % 400 == 0 then 1 else 0)
  {
  }

  lemma LeapDivisors(y: int)
    ensures y % 400 == 0 ==> y % 100 == 0
    ensures y % 100 == 0 ==> y % 4 == 0
  {
    Divides400(y);
    Divides100(y);
  }

  lemma Divides400(y: int)
    ensures y % 400 == 0 ==> y % 100 == 0
  {
    var q := y / 400;
    assert y == 400 * q + y % 400;
    MultipleOf100(4 * q);
  }

  lemma Divides100(y: int)
    ensures y % 100 == 0 ==> y % 4 == 0
  {
    var q := y / 100;
    assert y == 100 * q + y % 100;
    MultipleOf4(25 * q);
  }

  lemma MultipleOf100(k: int)
    ensures (100 * k) % 100 == 0
  {
  }

  lemma MultipleOf4(k: int)
    ensures (4 * k) % 4 == 0
  {
  }

  /** The calendar day after `d`, or None past 9999-12-31 (where `datetime`
      raises OverflowError). */
  function NextDay(d: DateTime): (r: Option<DateTime>)
    requires Valid(d)
    ensures r.None? <==> d.year == MaxYear && d.month == 12 && d.day == 31
    ensures r.Some? ==> Valid(r.value) && Ordinal(r.value) == Ordinal(d) + 1
    ensures r.Some? ==> (r.value.hour == d.hour && r.value.minute == d.minute &&
                         r.value.second == d.second && r.value.microsecond == d.microsecond)
  {
    if d.day < DaysInMonth(d.year, d.month) then Some(d.(day := d.day + 1))
    else if d.month < 12 then Some(d.(month := d.month + 1, day := 1))
    else if d.year < MaxYear then
      YearLength(d.year);
      Some(d.(year := d.year + 1, month := 1, day := 1))
    else None
  }

  /** `d + datetime.timedelta(hours=3)`, or None when that passes the largest
      datetime. */
  function AddThreeHours(d: DateTime): (r: Option<DateTime>)
    requires Valid(d)
    ensures r.None? <==> d.year == MaxYear && d.month == 12 && d.day == 31 && d.hour >= 21
    ensures r.Some? ==> Valid(r.value) && UnixSeconds(r.value) == UnixSeconds(d) + ShiftSeconds
  {
    if d.hour + 3 < 24 then Some(d.(hour := d.hour + 3))
    else
      match NextDay(d)
      case None => None
      case Some(n) => Some(n.(hour := d.hour + 3 - 24))
  }

  // ---------------------------------------------------------------------------
  // time.mktime of Python 2

  /** Why a date tuple cannot become a timestamp: adding three hours passes
      the last datetime (OverflowError), or `time.mktime` refuses the year of
      the shifted date (ValueError). */
  datatype ShiftError = ShiftOverflow | YearRejected

  /** The year Python 2's `time.mktime` converts. From 1900 on it is the year
      itself. Below 1900 the `accept2dyear` rule (on by default) reads 69..99
      as 1969..1999 and 0..68 as 2000..2068, and refuses every other year. */
  function MktimeYear(y: int): (r: Option<int>)
    ensures r.None? <==> y < 0 || 100 <= y < 1900
    ensures r.Some? ==> r.value >= 1900
    ensures r.Some? ==> r.value % 100 == y % 100
    ensures r.Some? && y >= 100 ==> r.value == y
  {
    if y >= 1900 then Some(y)
    else if 69 <= y <= 99 then Some(y + 1900)
    else if 0 <= y <= 68 then Some(y + 2000)
    else None
  }

  /** Days in 2000 and in 1900 consecutive years starting in the first
      century: the distance by which a two-digit year is moved. */
  const TwoThousandYears := 730485
  const NineteenHundredYears := 693960

  /** A two-digit year and the year `mktime` reads it as agree on leap years
      and lie a fixed number of days apart. */
  lemma TwoDigitYear(y: int)
    requires 1 <= y <= 99
    ensures IsLeap(MktimeYear(y).value) == IsLeap(y)
    ensures DaysBeforeYear(MktimeYear(y).value)
         == DaysBeforeYear(y) + (if y <= 68 then TwoThousandYears else NineteenHundredYears)
  {
    var p := y - 1;
    assert p / 100 == 0 && p / 400 == 0;
    if y <= 68 {
      assert (p + 2000) / 4 == p / 4 + 500;
      assert (p + 2000) / 100 == 20 && (p + 2000) / 400 == 5;
    } else {
      assert (p + 1900) / 4 == p / 4 + 475;
      assert (p + 1900) / 100 == 19 && (p + 1900) / 400 == 4;
    }
  }

  /** A valid datetime with a two-digit year, moved to the year `mktime`
      reads: still valid, and a fixed number of days later. */
  lemma TwoDigitYearDate(e: DateTime)
    requires Valid(e) && e.year <= 99
    ensures Valid(e.(year := MktimeYear(e.year).value))
    ensures UnixSeconds(e.(year := MktimeYear(e.year).value))
         == UnixSeconds(e) + (if e.year <= 68 then TwoThousandYears else NineteenHundredYears) * 86400
  {
    TwoDigitYear(e.year);
  }

  /** `time.mktime((d + timedelta(hours=3)).timetuple())` in Python 2 with UTC
      as the local time zone. */
  function ShiftedTimestamp(d: DateTime): (r: Result<int, ShiftError>)
    requires Valid(d)
    ensures r == Failure(ShiftOverflow) <==> d.year == MaxYear && d.month == 12 && d.day == 31 && d.hour >= 21
    ensures r == Failure(YearRejected) <==>
              AddThreeHours(d).Some? && 100 <= AddThreeHours(d).value.year < 1900
    ensures r.Success? && AddThreeHours(d).value.year >= 1900 ==>
              r.value == UnixSeconds(d) + ShiftSeconds
    ensures r.Success? && AddThreeHours(d).value.year <= 68 ==>
              r.value == UnixSeconds(d) + ShiftSeconds + TwoThousandYears * 86400
    ensures r.Success? && 69 <= AddThreeHours(d).value.year <= 99 ==>
              r.value == UnixSeconds(d) + ShiftSeconds + NineteenHundredYears * 86400
  {
    match AddThreeHours(d)
    case None => Failure(ShiftOverflow)
    case Some(e) =>
      match MktimeYear(e.year)
      case None => Failure(YearRejected)
      case Some(y) =>
        if e.year >= 1900 then Success(UnixSeconds(e))
        else
          TwoDigitYearDate(e);
          Success(UnixSeconds(e.(year := y)))
  }

  /** Dates from 1900 on, three hours later, are converted as they are. */
  lemma ShiftedTimestampModern(d: DateTime)
    requires Valid(d) && d.year >= 1900 && d.year < MaxYear
    ensures ShiftedTimestamp(d) == Success(UnixSeconds(d) + ShiftSeconds)
  {
  }

  /** Earlier-or-equal on the fields `timetuple()` keeps. */
  predicate Before(a: DateTime, b: DateTime) {
    || a.year < b.year
    || (a.year == b.year && a.month < b.month)
    || (a.year == b.year && a.month == b.month && a.day < b.day)
    || (a.year == b.year && a.month == b.month && a.day == b.day
        && a.hour * 3600 + a.minute * 60 + a.second < b.hour * 3600 + b.minute * 60 + b.second)
  }

  lemma MonthsIncrease(y: int, m: int, m': int)
    requires 1 <= m < m' <= 12
    ensures DaysBeforeMonth(y, m) + DaysInMonth(y, m) <= DaysBeforeMonth(y, m')
  {
  }

  lemma {:induction false} YearsIncrease(y: int, y': int)
    requires 1 <= y < y'
    ensures DaysBeforeYear(y) + 365 + (if IsLeap(y) then 1 else 0) <= DaysBeforeYear(y')
    decreases y' - y
  {
    YearLength(y);
    if y + 1 < y' {
      YearsIncrease(y + 1, y');
    }
  }

  /** The conversion keeps the order of valid datetimes: a strictly earlier
      wall-clock second has a strictly smaller Unix timestamp. */
  lemma UnixSecondsMonotone(a: DateTime, b: DateTime)
    requires Valid(a) && Valid(b) && Before(a, b)
    ensures UnixSeconds(a) < UnixSeconds(b)
  {
    var sa := a.hour * 3600 + a.minute * 60 + a.second;
    var sb := b.hour * 3600 + b.minute * 60 + b.second;
    assert 0 <= sa < 86400 && 0 <= sb < 86400;
    if a.year < b.year {
      YearsIncrease(a.year, b.year);
      assert DaysBeforeMonth(a.year, a.month) + a.day <= 365 + (if IsLeap(a.year) then 1 else 0);
    } else if a.month < b.month {
      MonthsIncrease(a.year, a.month, b.month);
    }
    assert Ordinal(a) < Ordinal(b) || (Ordinal(a) == Ordinal(b) && sa < sb);
  }
}
