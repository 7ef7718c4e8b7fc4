/** `extractData`: one log line in, at most one comma-joined field line out.
    A line is skipped when it is blank or its very first character is `%`;
    otherwise its first two date tuples are read, the stripped line is cut on
    `( ) , [ ]` into tokens, tokens 1..3 and 5..6 are kept, and the two
    dates, shifted by three hours, are appended as Unix seconds. */
module Extract {
  import opened Wrappers
  import opened Text
  import opened Datime

  const TokenDelims: set<char> := {'(', ')', ',', '[', ']'}

  /** What a token can look like: non-empty, free of the delimiters, and
      without whitespace at either end. */
  predicate IsToken(t: string) {
    |t| > 0 && NoneIn(t, TokenDelims) && !IsSpace(t[0]) && !IsSpace(t[|t| - 1])
  }

  lemma StripKeepsNoneIn(p: string, d: set<char>)
    requires NoneIn(p, d)
    ensures NoneIn(Strip(p), d)
  {
    var a := LeadingSpaces(p);
    var r := Strip(p);
    forall i | 0 <= i < |r|
      ensures r[i] !in d
    {
      assert r[i] == p[a + i];
    }
  }

  /** The pieces that are not empty once stripped, stripped, in order. */
  function NonEmptyStripped(ps: seq<string>): (r: seq<string>)
    requires forall k | 0 <= k < |ps| :: NoneIn(ps[k], TokenDelims)
    ensures |r| <= |ps|
    ensures forall i | 0 <= i < |r| :: IsToken(r[i])
    decreases |ps|
  {
    if |ps| == 0 then []
    else
      StripKeepsNoneIn(ps[0], TokenDelims);
      (if |Strip(ps[0])| > 0 then [Strip(ps[0])] else []) + NonEmptyStripped(ps[1..])
  }

  /** `[t.strip() for t in re.split('[(),\[\]]', line.strip()) if t.strip()]`. */
  function Tokens(line: string): (r: seq<string>)
    ensures forall i | 0 <= i < |r| :: IsToken(r[i])
  {
    NonEmptyStripped(Split(Strip(line), TokenDelims))
  }

  lemma NonEmptyStrippedCons(p: string, ps: seq<string>)
    requires NoneIn(p, TokenDelims)
    requires forall k | 0 <= k < |ps| :: NoneIn(ps[k], TokenDelims)
    ensures NonEmptyStripped([p] + ps)
         == (if |Strip(p)| > 0 then [Strip(p)] else []) + NonEmptyStripped(ps)
  {
    assert ([p] + ps)[1..] == ps;
  }

  /** Where the stripped text of the piece `s[..i]` sits in `s`. */
  lemma StrippedHeadOccurs(s: string, i: int)
    requires 0 <= i <= |s|
    ensures OccursAt(Strip(s[..i]), s, LeadingSpaces(s[..i]))
    ensures LeadingSpaces(s[..i]) + |Strip(s[..i])| <= i
  {
    var head := s[..i];
    var a := LeadingSpaces(head);
    var t := Strip(head);
    assert StrippedAt(head, t, a);
    assert a + |t| <= i;
    assert head[a..a + |t|] == t;
    forall k | 0 <= k < |t|
      ensures s[a..a + |t|][k] == t[k]
    {
      assert t[k] == head[a + k];
    }
  }

  lemma LastPieceOffsets(s: string) returns (offs: seq<int>)
    requires FirstIn(s, TokenDelims) == |s|
    ensures AtOffsets(NonEmptyStripped(Split(s, TokenDelims)), s, offs)
    ensures offs == if |Strip(s)| > 0 then [LeadingSpaces(s)] else []
  {
    assert Split(s, TokenDelims) == [s];
    NonEmptyStrippedCons(s, []);
    offs := if |Strip(s)| > 0 then [LeadingSpaces(s)] else [];
  }

  /** The tokens of `s` when its first delimiter is at `i`: the stripped
      piece before it, if not empty, then the tokens after it. */
  lemma FrontPieceSplit(s: string, i: nat)
    requires i == FirstIn(s, TokenDelims) < |s|
    ensures NonEmptyStripped(Split(s, TokenDelims))
         == (if |Strip(s[..i])| > 0 then [Strip(s[..i])] else [])
            + NonEmptyStripped(Split(s[i + 1..], TokenDelims))
  {
    assert Split(s, TokenDelims) == [s[..i]] + Split(s[i + 1..], TokenDelims);
    NonEmptyStrippedCons(s[..i], Split(s[i + 1..], TokenDelims));
  }

  lemma FrontPieceOffsets(s: string, i: nat, tail: seq<string>, restOffs: seq<int>)
    returns (offs: seq<int>)
    requires i == FirstIn(s, TokenDelims) < |s|
    requires tail == NonEmptyStripped(Split(s[i + 1..], TokenDelims))
    requires AtOffsets(tail, s[i + 1..], restOffs)
    ensures AtOffsets(NonEmptyStripped(Split(s, TokenDelims)), s, offs)
    ensures offs == (if |Strip(s[..i])| > 0 then [LeadingSpaces(s[..i])] else []) + Shifted(restOffs, i + 1)
  {
    var head := s[..i];
    var shifted := Shifted(restOffs, i + 1);
    AtOffsetsInSuffix(tail, s, i + 1, restOffs);
    FrontPieceSplit(s, i);
    if |Strip(head)| > 0 {
      offs := HeadTokenOffsets(s, i, tail, shifted);
    } else {
      assert NonEmptyStripped(Split(s, TokenDelims)) == tail;
      offs := shifted;
      assert offs == [] + shifted;
    }
  }

  lemma HeadTokenOffsets(s: string, i: nat, tail: seq<string>, shifted: seq<int>)
    returns (offs: seq<int>)
    requires 0 <= i < |s| && |Strip(s[..i])| > 0
    requires AtOffsets(tail, s, shifted)
    requires forall k | 0 <= k < |shifted| :: shifted[k] >= i + 1
    ensures AtOffsets([Strip(s[..i])] + tail, s, offs)
    ensures offs == [LeadingSpaces(s[..i])] + shifted
  {
    StrippedHeadOccurs(s, i);
    AtOffsetsCons(Strip(s[..i]), tail, s, LeadingSpaces(s[..i]), shifted);
    offs := [LeadingSpaces(s[..i])] + shifted;
  }

  /** The tokens of `s` sit in `s` in order, cover every plain character,
      and are separated by delimiters. */
  lemma {:induction false} PieceTokenOffsets(s: string) returns (offs: seq<int>)
    ensures AtOffsets(NonEmptyStripped(Split(s, TokenDelims)), s, offs)
    ensures Covers(s, 0, NonEmptyStripped(Split(s, TokenDelims)), offs)
    ensures Separated(s, NonEmptyStripped(Split(s, TokenDelims)), offs)
    decreases |s|
  {
    var i := FirstIn(s, TokenDelims);
    if i == |s| {
      offs := LastPieceOffsets(s);
      LastPieceLayout(s);
    } else {
      var tail := NonEmptyStripped(Split(s[i + 1..], TokenDelims));
      var restOffs := PieceTokenOffsets(s[i + 1..]);
      offs := FrontPieceOffsets(s, i, tail, restOffs);
      FrontPieceSplit(s, i);
      FrontPieceLayout(s, i, tail, restOffs);
    }
  }

  lemma StripWindow(line: string)
    ensures LeadingSpaces(line) + |Strip(line)| <= |line|
    ensures line[LeadingSpaces(line)..LeadingSpaces(line) + |Strip(line)|] == Strip(line)
  {
  }

  /** The tokens are non-overlapping pieces of the line, in the order they
      appear in it. */
  lemma TokensInLineOrder(line: string)
    ensures InOrderIn(Tokens(line), line)
  {
    var offs := TokensLayout(line);
    InOrderInIntro(Tokens(line), line, offs);
  }

  /** The character at `j` is neither whitespace nor a delimiter, so it
      belongs in a token. */
  predicate Plain(s: string, j: nat)
    requires j < |s|
  {
    !IsSpace(s[j]) && s[j] !in TokenDelims
  }

  /** Every plain character of `s` from `m` on lies inside one of the texts
      placed at `offs`. */
  ghost predicate Covers(s: string, m: nat, ts: seq<string>, offs: seq<int>) {
    && |offs| == |ts|
    && forall j: nat | m <= j < |s| && Plain(s, j) ::
         exists k | 0 <= k < |ts| :: offs[k] <= j < offs[k] + |ts[k]|
  }

  /** Some position of `s` in `a..b` holds a delimiter. */
  ghost predicate DelimBetween(s: string, a: int, b: int) {
    exists d | a <= d < b :: 0 <= d < |s| && s[d] in TokenDelims
  }

  /** Between each text placed at `offs` and the next there is a delimiter. */
  ghost predicate Separated(s: string, ts: seq<string>, offs: seq<int>) {
    && |offs| == |ts|
    && forall k | 0 <= k < |ts| - 1 :: DelimBetween(s, offs[k] + |ts[k]|, offs[k + 1])
  }

  lemma CoversShift(s: string, m: nat, ts: seq<string>, offs: seq<int>)
    requires m <= |s| && Covers(s[m..], 0, ts, offs)
    ensures Covers(s, m, ts, Shifted(offs, m))
  {
    forall j: nat | m <= j < |s| && Plain(s, j)
      ensures exists k | 0 <= k < |ts| :: offs[k] + m <= j < offs[k] + m + |ts[k]|
    {
      assert s[m..][j - m] == s[j] && Plain(s[m..], j - m);
    }
  }

  lemma SeparatedShift(s: string, m: nat, ts: seq<string>, offs: seq<int>)
    requires m <= |s| && Separated(s[m..], ts, offs)
    ensures Separated(s, ts, Shifted(offs, m))
  {
    var sh := Shifted(offs, m);
    forall k | 0 <= k < |ts| - 1
      ensures DelimBetween(s, sh[k] + |ts[k]|, sh[k + 1])
    {
      assert DelimBetween(s[m..], offs[k] + |ts[k]|, offs[k + 1]);
      var d :| offs[k] + |ts[k]| <= d < offs[k + 1] && 0 <= d < |s[m..]| && s[m..][d] in TokenDelims;
      assert s[d + m] == s[m..][d];
      assert sh[k] + |ts[k]| <= d + m < sh[k + 1] && 0 <= d + m < |s| && s[d + m] in TokenDelims;
    }
  }

  /** The plain characters of the piece `s[..i]` lie in its stripped text,
      placed where it occurs; with an empty stripped text there are none. */
  lemma HeadPlainCovered(s: string, i: nat, j: nat)
    requires i <= |s| && j < i && Plain(s, j)
    ensures |Strip(s[..i])| > 0
    ensures LeadingSpaces(s[..i]) <= j < LeadingSpaces(s[..i]) + |Strip(s[..i])|
  {
    var head := s[..i];
    assert head[j] == s[j];
    StripEmptyIff(head);
    NonSpaceSurvivesStrip(head, j);
  }

  /** The tokens of the last piece: the piece itself, stripped. */
  lemma LastPieceLayout(s: string)
    requires FirstIn(s, TokenDelims) == |s|
    ensures var offs := if |Strip(s)| > 0 then [LeadingSpaces(s)] else [];
            var ts := NonEmptyStripped(Split(s, TokenDelims));
            Covers(s, 0, ts, offs) && Separated(s, ts, offs)
  {
    var offs := if |Strip(s)| > 0 then [LeadingSpaces(s)] else [];
    assert Split(s, TokenDelims) == [s];
    NonEmptyStrippedCons(s, []);
    var ts := if |Strip(s)| > 0 then [Strip(s)] else [];
    assert NonEmptyStripped(Split(s, TokenDelims)) == ts;
    assert s[..|s|] == s;
    forall j: nat | j < |s| && Plain(s, j)
      ensures exists k | 0 <= k < |ts| :: offs[k] <= j < offs[k] + |ts[k]|
    {
      HeadPlainCovered(s, |s|, j);
      assert offs[0] <= j < offs[0] + |ts[0]|;
    }
  }

  /** The tokens when the first delimiter is at `i`: the stripped piece
      before it, if any, then the tokens after it; the delimiter at `i`
      separates the two. */
  lemma FrontPieceLayout(s: string, i: nat, tail: seq<string>, restOffs: seq<int>)
    requires i == FirstIn(s, TokenDelims) < |s|
    requires AtOffsets(tail, s[i + 1..], restOffs)
    requires Covers(s[i + 1..], 0, tail, restOffs) && Separated(s[i + 1..], tail, restOffs)
    ensures var offs := (if |Strip(s[..i])| > 0 then [LeadingSpaces(s[..i])] else []) + Shifted(restOffs, i + 1);
            var ts := (if |Strip(s[..i])| > 0 then [Strip(s[..i])] else []) + tail;
            Covers(s, 0, ts, offs) && Separated(s, ts, offs)
  {
    var sh := Shifted(restOffs, i + 1);
    CoversShift(s, i + 1, tail, restOffs);
    SeparatedShift(s, i + 1, tail, restOffs);
    assert |tail| > 0 ==> i + 1 <= sh[0] by {
      if |tail| > 0 {
        assert OccursAt(tail[0], s[i + 1..], restOffs[0]);
      }
    }
    if |Strip(s[..i])| > 0 {
      StrippedHeadOccurs(s, i);
      HeadLayout(s, i, Strip(s[..i]), LeadingSpaces(s[..i]), tail, sh);
    } else {
      assert [] + tail == tail && [] + sh == sh;
      NoHeadLayout(s, i, tail, sh);
    }
  }

  lemma NoHeadLayout(s: string, i: nat, tail: seq<string>, sh: seq<int>)
    requires i < |s| && s[i] in TokenDelims && |Strip(s[..i])| == 0
    requires Covers(s, i + 1, tail, sh)
    ensures Covers(s, 0, tail, sh)
  {
    forall j: nat | j < |s| && Plain(s, j)
      ensures exists k | 0 <= k < |tail| :: sh[k] <= j < sh[k] + |tail[k]|
    {
      if j < i {
        HeadPlainCovered(s, i, j);
      }
    }
  }

  lemma HeadLayout(s: string, i: nat, t: string, p: int, tail: seq<string>, sh: seq<int>)
    requires i < |s| && s[i] in TokenDelims
    requires 0 <= p && p + |t| <= i && t == Strip(s[..i]) && p == LeadingSpaces(s[..i])
    requires Covers(s, i + 1, tail, sh) && Separated(s, tail, sh)
    requires |tail| > 0 ==> i + 1 <= sh[0]
    ensures Covers(s, 0, [t] + tail, [p] + sh) && Separated(s, [t] + tail, [p] + sh)
  {
    HeadCovers(s, i, t, p, tail, sh);
    HeadSeparated(s, i, t, p, tail, sh);
  }

  lemma HeadCovers(s: string, i: nat, t: string, p: int, tail: seq<string>, sh: seq<int>)
    requires i < |s| && s[i] in TokenDelims
    requires t == Strip(s[..i]) && p == LeadingSpaces(s[..i])
    requires Covers(s, i + 1, tail, sh)
    ensures Covers(s, 0, [t] + tail, [p] + sh)
  {
    var ts := [t] + tail;
    var offs := [p] + sh;
    forall j: nat | j < |s| && Plain(s, j)
      ensures exists k | 0 <= k < |ts| :: offs[k] <= j < offs[k] + |ts[k]|
    {
      if j < i {
        HeadPlainCovered(s, i, j);
        assert offs[0] <= j < offs[0] + |ts[0]|;
      } else {
        assert j != i;
        var k :| 0 <= k < |tail| && sh[k] <= j < sh[k] + |tail[k]|;
        assert offs[k + 1] == sh[k] && ts[k + 1] == tail[k];
      }
    }
  }

  lemma HeadSeparated(s: string, i: nat, t: string, p: int, tail: seq<string>, sh: seq<int>)
    requires i < |s| && s[i] in TokenDelims && p + |t| <= i
    requires |sh| == |tail| && Separated(s, tail, sh)
    requires |tail| > 0 ==> i + 1 <= sh[0]
    ensures Separated(s, [t] + tail, [p] + sh)
  {
    var ts := [t] + tail;
    var offs := [p] + sh;
    forall k | 0 <= k < |ts| - 1
      ensures DelimBetween(s, offs[k] + |ts[k]|, offs[k + 1])
    {
      if k == 0 {
        assert offs[0] + |ts[0]| <= i < offs[1];
      } else {
        assert offs[k] == sh[k - 1] && ts[k] == tail[k - 1] && offs[k + 1] == sh[k];
        assert DelimBetween(s, sh[k - 1] + |tail[k - 1]|, sh[k]);
      }
    }
  }

  /** The tokens of a line are its maximal runs free of delimiters, stripped,
      the empty ones dropped: they sit in the line in order at `offs`, every
      character that is neither whitespace nor a delimiter lies inside one of
      them, and a delimiter separates each token from the next. */
  lemma TokensLayout(line: string) returns (offs: seq<int>)
    ensures AtOffsets(Tokens(line), line, offs)
    ensures Covers(line, 0, Tokens(line), offs)
    ensures Separated(line, Tokens(line), offs)
  {
    var r := Strip(line);
    var a := LeadingSpaces(line);
    var inner := PieceTokenOffsets(r);
    StripWindow(line);
    StripKeepsPlain(line);
    WindowLayout(line, a, r, Tokens(line), inner);
    offs := Shifted(inner, a);
  }

  /** Every plain character of a line survives `strip`. */
  lemma StripKeepsPlain(line: string)
    ensures forall j: nat | j < |line| && Plain(line, j) ::
              LeadingSpaces(line) <= j < LeadingSpaces(line) + |Strip(line)|
  {
    forall j: nat | j < |line| && Plain(line, j)
      ensures LeadingSpaces(line) <= j < LeadingSpaces(line) + |Strip(line)|
    {
      NonSpaceSurvivesStrip(line, j);
    }
  }

  /** Texts laid out in the window `line[a..a + |r|]`, placed back in the
      line; the window holds every plain character of the line. */
  lemma WindowLayout(line: string, a: nat, r: string, ts: seq<string>, inner: seq<int>)
    requires a + |r| <= |line| && line[a..a + |r|] == r
    requires forall j: nat | j < |line| && Plain(line, j) :: a <= j < a + |r|
    requires AtOffsets(ts, r, inner) && Covers(r, 0, ts, inner) && Separated(r, ts, inner)
    ensures AtOffsets(ts, line, Shifted(inner, a))
    ensures Covers(line, 0, ts, Shifted(inner, a))
    ensures Separated(line, ts, Shifted(inner, a))
  {
    AtOffsetsInWindow(ts, line, a, a + |r|, inner);
    WindowCovers(line, a, r, ts, inner);
    WindowSeparated(line, a, r, ts, inner);
  }

  lemma WindowCovers(line: string, a: nat, r: string, ts: seq<string>, inner: seq<int>)
    requires a + |r| <= |line| && line[a..a + |r|] == r
    requires forall j: nat | j < |line| && Plain(line, j) :: a <= j < a + |r|
    requires Covers(r, 0, ts, inner)
    ensures Covers(line, 0, ts, Shifted(inner, a))
  {
    forall j: nat | j < |line| && Plain(line, j)
      ensures exists k | 0 <= k < |ts| :: inner[k] + a <= j < inner[k] + a + |ts[k]|
    {
      assert r[j - a] == line[j] && Plain(r, j - a);
    }
  }

  lemma WindowSeparated(line: string, a: nat, r: string, ts: seq<string>, inner: seq<int>)
    requires a + |r| <= |line| && line[a..a + |r|] == r
    requires Separated(r, ts, inner)
    ensures Separated(line, ts, Shifted(inner, a))
  {
    var sh := Shifted(inner, a);
    forall k | 0 <= k < |ts| - 1
      ensures DelimBetween(line, sh[k] + |ts[k]|, sh[k + 1])
    {
      assert DelimBetween(r, inner[k] + |ts[k]|, inner[k + 1]);
      var d :| inner[k] + |ts[k]| <= d < inner[k + 1] && 0 <= d < |r| && r[d] in TokenDelims;
      assert line[d + a] == r[d];
      assert sh[k] + |ts[k]| <= d + a < sh[k + 1] && 0 <= d + a < |line| && line[d + a] in TokenDelims;
    }
  }

  lemma {:induction false} PiecesHaveToken(s: string, j: int)
    requires 0 <= j < |s| && !IsSpace(s[j]) && s[j] !in TokenDelims
    ensures |NonEmptyStripped(Split(s, TokenDelims))| > 0
    decreases |s|
  {
    var i := FirstIn(s, TokenDelims);
    var ps := Split(s, TokenDelims);
    if i == |s| {
      assert ps == [s];
      StripEmptyIff(s);
    } else {
      var head := s[..i];
      var rest := s[i + 1..];
      assert ps[0] == head && ps[1..] == Split(rest, TokenDelims);
      if j < i {
        assert head[j] == s[j];
        StripEmptyIff(head);
      } else {
        assert j > i;
        assert rest[j - i - 1] == s[j];
        PiecesHaveToken(rest, j - i - 1);
      }
    }
  }

  /** A line holding a character that is neither whitespace nor a delimiter
      has at least one token. */
  lemma TokensNonEmpty(line: string, j: int)
    requires 0 <= j < |line| && !IsSpace(line[j]) && line[j] !in TokenDelims
    ensures |Tokens(line)| > 0
  {
    NonSpaceSurvivesStrip(line, j);
    var a := LeadingSpaces(line);
    PiecesHaveToken(Strip(line), j - a);
  }

  /** A line where a date tuple was found has at least one token: the word
      `datime` itself. */
  lemma DateMeansTokens(line: string)
    requires |FindAll(line)| > 0
    ensures |Tokens(line)| > 0
  {
    var p :| 0 <= p && MatchesAt(line, p);
    assert line[p] == line[p..p + |Opener|][0] == 'd';
    TokensNonEmpty(line, p);
  }

  // ---------------------------------------------------------------------------
  // one line

  /** Blank once stripped, or starting with `%` as read (not after stripping). */
  predicate IsSkipped(line: string) {
    |Strip(line)| == 0 || (|line| > 0 && line[0] == '%')
  }

  /** Why a line cannot be processed. `which` is 0 for the start date and 1
      for the end date: an IndexError for a missing tuple, the TypeError or
      ValueError of `datetime.datetime`, or the OverflowError of adding three
      hours or the ValueError of `time.mktime` while making the timestamp. */
  datatype ParseError =
    | MissingDate(which: nat)
    | BadDate(which: nat, cause: DateError)
    | BadTimestamp(which: nat, shiftCause: ShiftError)

  /** The fields of an extracted line: the kept tokens and the two timestamps. */
  datatype Row = Row(fields: seq<string>, start: int, end: int)

  /** `x` clamped to `0..m`. */
  function Clamp(x: int, m: nat): nat {
    if x < 0 then 0 else if x > m then m else x
  }

  /** The kept tokens: `tokens[1:4] + tokens[5:7]`. Slicing never fails, so a
      short token list gives fewer fields. */
  function Fields(tokens: seq<string>): (r: seq<string>)
    ensures |r| == Clamp(|tokens| - 1, 3) + Clamp(|tokens| - 5, 2)
    ensures |r| <= 5 && (|r| == 5 <==> |tokens| >= 7)
    ensures forall i | 0 <= i < |r| :: r[i] == tokens[if i < 3 then i + 1 else i + 2]
  {
    PySlice(tokens, 1, 4) + PySlice(tokens, 5, 7)
  }

  /** `row` is what the line describes: the kept tokens of the line, and the
      timestamps of its first two date tuples, three hours later. */
  ghost predicate Describes(line: string, row: Row) {
    var dates := FindAll(line);
    && |dates| >= 2
    && ParseDate(dates[0]).Success? && ParseDate(dates[1]).Success?
    && row.fields == Fields(Tokens(line))
    && ShiftedTimestamp(ParseDate(dates[0]).value) == Success(row.start)
    && ShiftedTimestamp(ParseDate(dates[1]).value) == Success(row.end)
  }

  /** One iteration of `extractData`: Success(None) for a line that yields
      nothing, Success(Some(row)) for one that yields a row, Failure for one
      that raises. */
  function ExtractLine(line: string): (r: Result<Option<Row>, ParseError>)
    ensures r == Success(None) <==> IsSkipped(line)
  {
    if IsSkipped(line) then Success(None)
    else
      var dates := FindAll(line);
      if |dates| < 1 then Failure(MissingDate(0))
      else
        match ParseDate(dates[0])
        case Failure(e) => Failure(BadDate(0, e))
        case Success(startDate) =>
          if |dates| < 2 then Failure(MissingDate(1))
          else
            match ParseDate(dates[1])
            case Failure(e) => Failure(BadDate(1, e))
            case Success(endDate) =>
              var tokens := Tokens(line);
              if |tokens| == 0 then
                DateMeansTokens(line);
                assert false;
                Success(None)
              else
                match (ShiftedTimestamp(startDate), ShiftedTimestamp(endDate))
                case (Failure(c), _) => Failure(BadTimestamp(0, c))
                case (Success(_), Failure(c)) => Failure(BadTimestamp(1, c))
                case (Success(s), Success(e)) => Success(Some(Row(Fields(tokens), s, e)))
  }

  /** A processed line yields the row it describes: tokens 1..3 and 5..6 of
      the line and the shifted Unix seconds of its first two date tuples, so
      any further tuples are ignored. */
  lemma ExtractLineRow(line: string)
    requires ExtractLine(line).Success? && ExtractLine(line).value.Some?
    ensures Describes(line, ExtractLine(line).value.value)
    ensures forall i | 0 <= i < |ExtractLine(line).value.value.fields| ::
              IsToken(ExtractLine(line).value.value.fields[i])
  {
    var dates := FindAll(line);
    assert !IsSkipped(line) && |dates| >= 2;
    assert ParseDate(dates[0]).Success? && ParseDate(dates[1]).Success?;
    var s := ShiftedTimestamp(ParseDate(dates[0]).value);
    var e := ShiftedTimestamp(ParseDate(dates[1]).value);
    assert s.Success? && e.Success?;
    assert ExtractLine(line).value.value == Row(Fields(Tokens(line)), s.value, e.value);
    FieldsAreTokens(Tokens(line));
  }

  /** The kept fields are some of the tokens, so tokens themselves. */
  lemma FieldsAreTokens(tokens: seq<string>)
    requires forall i | 0 <= i < |tokens| :: IsToken(tokens[i])
    ensures forall i | 0 <= i < |Fields(tokens)| :: IsToken(Fields(tokens)[i])
  {
  }

  /** A line that is not skipped needs two date tuples: with none the first
      lookup fails, with one the second does (unless the first tuple already
      failed to parse). */
  lemma ExtractLineNeedsTwoDates(line: string)
    requires !IsSkipped(line) && |FindAll(line)| < 2
    ensures ExtractLine(line).Failure?
    ensures ExtractLine(line).error == MissingDate(0) <==> |FindAll(line)| == 0
    ensures |FindAll(line)| == 1 ==>
              ExtractLine(line).error == MissingDate(1) || ExtractLine(line).error.BadDate?
  {
  }

  /** A processed line goes through: it has two date tuples, both parse, and
      a timestamp can be made from each. */
  predicate WellFormed(line: string) {
    var dates := FindAll(line);
    && |dates| >= 2
    && ParseDate(dates[0]).Success? && ParseDate(dates[1]).Success?
    && ShiftedTimestamp(ParseDate(dates[0]).value).Success?
    && ShiftedTimestamp(ParseDate(dates[1]).value).Success?
  }

  /** The converse of `ExtractLineRow`: a processed line yields the row it
      describes. */
  lemma ExtractLineYields(line: string, row: Row)
    requires !IsSkipped(line) && Describes(line, row)
    ensures ExtractLine(line) == Success(Some(row))
  {
    DateMeansTokens(line);
  }

  /** A processed line is extracted exactly when it is well formed, and then
      it yields a row. */
  lemma ExtractLineSucceeds(line: string)
    requires !IsSkipped(line)
    ensures ExtractLine(line).Success? <==> WellFormed(line)
    ensures ExtractLine(line).Success? ==> ExtractLine(line).value.Some?
  {
    if WellFormed(line) {
      DateMeansTokens(line);
    }
  }

  /** Why a processed line raises, in the order the statements run: the first
      lookup, the first `parseDate`, the second lookup, the second
      `parseDate`, then the start and the end timestamp. */
  lemma ExtractLineErrors(line: string)
    requires !IsSkipped(line)
    ensures |FindAll(line)| == 0 ==> ExtractLine(line) == Failure(MissingDate(0))
    ensures |FindAll(line)| >= 1 && ParseDate(FindAll(line)[0]).Failure? ==>
              ExtractLine(line) == Failure(BadDate(0, ParseDate(FindAll(line)[0]).error))
    ensures |FindAll(line)| == 1 && ParseDate(FindAll(line)[0]).Success? ==>
              ExtractLine(line) == Failure(MissingDate(1))
    ensures |FindAll(line)| >= 2 && ParseDate(FindAll(line)[0]).Success? && ParseDate(FindAll(line)[1]).Failure? ==>
              ExtractLine(line) == Failure(BadDate(1, ParseDate(FindAll(line)[1]).error))
    ensures |FindAll(line)| >= 2 && ParseDate(FindAll(line)[0]).Success? && ParseDate(FindAll(line)[1]).Success? ==>
              var s := ShiftedTimestamp(ParseDate(FindAll(line)[0]).value);
              var e := ShiftedTimestamp(ParseDate(FindAll(line)[1]).value);
              && (s.Failure? ==> ExtractLine(line) == Failure(BadTimestamp(0, s.error)))
              && (s.Success? && e.Failure? ==> ExtractLine(line) == Failure(BadTimestamp(1, e.error)))
  {
    if |FindAll(line)| >= 2 {
      DateMeansTokens(line);
    }
  }

  /** The whole file is extracted exactly when every processed line is well
      formed. */
  lemma ExtractDataSucceeds(lines: seq<string>)
    ensures ExtractData(lines).Success? <==>
              forall i: nat | i < |lines| && ProcessedAt(lines, i) :: WellFormed(lines[i])
  {
    ExtractDataFails(lines);
    forall i: nat | i < |lines|
      ensures ExtractLine(lines[i]).Success? <==> (ProcessedAt(lines, i) ==> WellFormed(lines[i]))
    {
      if ProcessedAt(lines, i) {
        ExtractLineSucceeds(lines[i]);
      }
    }
  }

  /** `','.join(extracted) + "\n"`: the fields, then the two timestamps as
      `str(float)` prints them. */
  function RowText(row: Row): string {
    Join(row.fields + [TimestampText(row.start), TimestampText(row.end)], ",") + "\n"
  }

  /** What one line gives: Success(None) when it yields nothing,
      Success(Some(text)) when it yields `text`, Failure when it raises. */
  type Outcome = Result<Option<string>, ParseError>

  /** The line `extractData` yields for `line`, if any. */
  function ExtractText(line: string): (r: Outcome)
    ensures r == Success(None) <==> IsSkipped(line)
    ensures r.Success? && r.value.Some? ==> EndsWithNewline(r.value.value)
    ensures r.Failure? ==> ExtractLine(line) == Failure(r.error)
    ensures ExtractLine(line).Failure? ==> r.Failure?
    ensures ExtractLine(line).Success? && ExtractLine(line).value.Some? ==>
              r == Success(Some(RowText(ExtractLine(line).value.value)))
  {
    match ExtractLine(line)
    case Failure(e) => Failure(e)
    case Success(None) => Success(None)
    case Success(Some(row)) => Success(Some(RowText(row)))
  }

  predicate EndsWithNewline(t: string) {
    |t| > 0 && t[|t| - 1] == '\n'
  }

  /** Number of lines that are not skipped. */
  function CountProcessed(lines: seq<string>): nat {
    if |lines| == 0 then 0 else (if IsSkipped(lines[0]) then 0 else 1) + CountProcessed(lines[1..])
  }

  /** Number of lines whose outcome is not "yields nothing". */
  function Yielding(lines: seq<string>, f: string -> Outcome): nat {
    if |lines| == 0 then 0 else (if f(lines[0]) == Success(None) then 0 else 1) + Yielding(lines[1..], f)
  }

  /** A generator drained by its consumer: the texts the lines yield, in
      order, unless some line raises, which aborts the whole run with the
      first such line's error. */
  function Drain(lines: seq<string>, f: string -> Outcome): (r: Result<seq<string>, ParseError>)
    ensures r.Success? <==> forall i | 0 <= i < |lines| :: f(lines[i]).Success?
    ensures r.Failure? ==> exists i | 0 <= i < |lines| ::
              f(lines[i]) == Failure(r.error) && forall j | 0 <= j < i :: f(lines[j]).Success?
    ensures r.Success? ==> |r.value| == Yielding(lines, f)
    ensures r.Success? ==> forall t | t in r.value ::
              exists i | 0 <= i < |lines| :: f(lines[i]) == Success(Some(t))
    decreases |lines|
  {
    if |lines| == 0 then Success([])
    else
      var tail := lines[1..];
      assert forall i | 1 <= i < |lines| :: lines[i] == tail[i - 1];
      match f(lines[0])
      case Failure(e) => Failure(e)
      case Success(out) =>
        match Drain(tail, f)
        case Failure(e) =>
          FirstFailureShifts(lines, f, e);
          Failure(e)
        case Success(rest) =>
          var head := if out.Some? then [out.value] else [];
          YieldedShifts(lines, f, head, rest);
          Success(head + rest)
  }

  /** A first failure after a successful first line is a first failure of
      the whole. */
  lemma FirstFailureShifts(lines: seq<string>, f: string -> Outcome, e: ParseError)
    requires |lines| > 0 && f(lines[0]).Success?
    requires exists i | 0 <= i < |lines| - 1 ::
               f(lines[1..][i]) == Failure(e) && forall j | 0 <= j < i :: f(lines[1..][j]).Success?
    ensures exists i | 0 <= i < |lines| ::
              f(lines[i]) == Failure(e) && forall j | 0 <= j < i :: f(lines[j]).Success?
  {
    var tail := lines[1..];
    var i :| 0 <= i < |tail| && f(tail[i]) == Failure(e) && forall j | 0 <= j < i :: f(tail[j]).Success?;
    assert lines[i + 1] == tail[i];
    forall j | 1 <= j < i + 1
      ensures f(lines[j]).Success?
    {
      assert lines[j] == tail[j - 1];
    }
  }

  /** What the first line yields, then what the rest yields: every text comes
      from some line. */
  lemma YieldedShifts(lines: seq<string>, f: string -> Outcome, head: seq<string>, rest: seq<string>)
    requires |lines| > 0
    requires forall t | t in head :: f(lines[0]) == Success(Some(t))
    requires forall t | t in rest :: exists i | 0 <= i < |lines| - 1 :: f(lines[1..][i]) == Success(Some(t))
    ensures forall t | t in head + rest :: exists i | 0 <= i < |lines| :: f(lines[i]) == Success(Some(t))
  {
    forall t | t in head + rest
      ensures exists i | 0 <= i < |lines| :: f(lines[i]) == Success(Some(t))
    {
      if t in head {
        assert f(lines[0]) == Success(Some(t));
      } else {
        var i :| 0 <= i < |lines| - 1 && f(lines[1..][i]) == Success(Some(t));
        assert lines[i + 1] == lines[1..][i];
      }
    }
  }

  /** One step of the drain: the first line's text, if any, then the rest. */
  lemma DrainCons(lines: seq<string>, f: string -> Outcome)
    requires |lines| > 0 && Drain(lines, f).Success?
    ensures f(lines[0]).Success? && Drain(lines[1..], f).Success?
    ensures Drain(lines, f).value
         == (if f(lines[0]).value.Some? then [f(lines[0]).value.value] else []) + Drain(lines[1..], f).value
  {
  }

  /** The line at `i` turns into a text. */
  ghost predicate Yields(lines: seq<string>, f: string -> Outcome, i: nat)
    requires i < |lines|
  {
    f(lines[i]).Success? && f(lines[i]).value.Some?
  }

  /** `idx` lists, in increasing order, exactly the positions of the lines
      that `f` turns into a text, and `texts[k]` is what the line at `idx[k]`
      yields. */
  ghost predicate Sourced(lines: seq<string>, f: string -> Outcome, idx: seq<nat>, texts: seq<string>)
  {
    && |idx| == |texts|
    && (forall k | 0 <= k < |idx| :: idx[k] < |lines| && f(lines[idx[k]]) == Success(Some(texts[k])))
    && (forall k, l | 0 <= k < l < |idx| :: idx[k] < idx[l])
    && (forall i: nat | i < |lines| && Yields(lines, f, i) :: i in idx)
  }

  /** The positions of the tail, shifted by one, index the same texts in the
      whole sequence and cover every yielding line after the first. */
  lemma SourcedShift(lines: seq<string>, f: string -> Outcome, rest: seq<nat>, texts: seq<string>)
    returns (up: seq<nat>)
    requires |lines| > 0
    requires Sourced(lines[1..], f, rest, texts)
    ensures |up| == |texts|
    ensures forall k | 0 <= k < |up| :: 0 < up[k] < |lines| && f(lines[up[k]]) == Success(Some(texts[k]))
    ensures forall k, l | 0 <= k < l < |up| :: up[k] < up[l]
    ensures forall i: nat | 1 <= i < |lines| && Yields(lines, f, i) :: i in up
  {
    var tail := lines[1..];
    up := seq(|rest|, k requires 0 <= k < |rest| => rest[k] + 1);
    forall i: nat | 1 <= i < |lines| && Yields(lines, f, i)
      ensures i in up
    {
      assert tail[i - 1] == lines[i];
      assert Yields(tail, f, i - 1);
      var k :| 0 <= k < |rest| && rest[k] == i - 1;
      assert up[k] == i;
    }
    forall k | 0 <= k < |up|
      ensures 0 < up[k] < |lines| && f(lines[up[k]]) == Success(Some(texts[k]))
    {
      assert lines[up[k]] == tail[rest[k]];
    }
  }

  /** Prepending a line that yields `t`: it comes first. */
  lemma SourcedYield(lines: seq<string>, f: string -> Outcome, rest: seq<nat>, texts: seq<string>, t: string)
    returns (idx: seq<nat>)
    requires |lines| > 0 && f(lines[0]) == Success(Some(t))
    requires Sourced(lines[1..], f, rest, texts)
    ensures Sourced(lines, f, idx, [t] + texts)
  {
    var up := SourcedShift(lines, f, rest, texts);
    idx := [0] + up;
    var all := [t] + texts;
    assert |idx| == |all|;
    forall k | 0 <= k < |idx|
      ensures idx[k] < |lines| && f(lines[idx[k]]) == Success(Some(all[k]))
    {
      if k > 0 {
        assert idx[k] == up[k - 1] && all[k] == texts[k - 1];
      }
    }
    forall k, l | 0 <= k < l < |idx|
      ensures idx[k] < idx[l]
    {
      assert idx[l] == up[l - 1];
      if k > 0 {
        assert idx[k] == up[k - 1];
      }
    }
    forall i: nat | i < |lines| && Yields(lines, f, i)
      ensures i in idx
    {
      if i > 0 {
        assert i in up;
      }
    }
  }

  /** Prepending a line that yields nothing changes only the positions. */
  lemma SourcedSkip(lines: seq<string>, f: string -> Outcome, rest: seq<nat>, texts: seq<string>)
    returns (idx: seq<nat>)
    requires |lines| > 0 && f(lines[0]) == Success(None)
    requires Sourced(lines[1..], f, rest, texts)
    ensures Sourced(lines, f, idx, texts)
  {
    idx := SourcedShift(lines, f, rest, texts);
  }

  /** Where each drained text comes from: the yielding lines, in file order. */
  lemma {:induction false} DrainOrder(lines: seq<string>, f: string -> Outcome) returns (idx: seq<nat>)
    requires Drain(lines, f).Success?
    ensures Sourced(lines, f, idx, Drain(lines, f).value)
    decreases |lines|
  {
    if |lines| == 0 {
      idx := [];
    } else {
      DrainCons(lines, f);
      var rest := DrainOrder(lines[1..], f);
      if f(lines[0]).value.Some? {
        idx := SourcedYield(lines, f, rest, Drain(lines[1..], f).value, f(lines[0]).value.value);
      } else {
        idx := SourcedSkip(lines, f, rest, Drain(lines[1..], f).value);
      }
    }
  }

  /** With "yields nothing" meaning "skipped", the yielding lines are the
      processed ones. */
  lemma {:induction false} YieldingCounts(lines: seq<string>, f: string -> Outcome)
    requires forall l :: f(l) == Success(None) <==> IsSkipped(l)
    ensures Yielding(lines, f) == CountProcessed(lines)
    decreases |lines|
  {
    if |lines| > 0 {
      YieldingCounts(lines[1..], f);
    }
  }

  /** `extractData` run to the end, as `genfromtxt` consumes it: one text per
      processed line, each ending in a newline; the first line that raises
      aborts the whole file. */
  function ExtractData(lines: seq<string>): (r: Result<seq<string>, ParseError>)
    ensures r.Success? ==> |r.value| == CountProcessed(lines)
    ensures r.Success? ==> forall t | t in r.value :: EndsWithNewline(t)
  {
    YieldingCounts(lines, ExtractText);
    Drain(lines, ExtractText)
  }

  /** The file is extracted exactly when every line is, and a failure is the
      failure of the first line that fails. */
  lemma ExtractDataFails(lines: seq<string>)
    ensures ExtractData(lines).Success? <==> forall i | 0 <= i < |lines| :: ExtractLine(lines[i]).Success?
    ensures ExtractData(lines).Failure? ==>
              exists i | 0 <= i < |lines| :: ExtractLine(lines[i]) == Failure(ExtractData(lines).error)
                && forall j | 0 <= j < i :: ExtractLine(lines[j]).Success?
  {
    assert forall i | 0 <= i < |lines| :: ExtractText(lines[i]).Success? <==> ExtractLine(lines[i]).Success?;
  }

  /** The line at `i` is processed rather than skipped. */
  predicate ProcessedAt(lines: seq<string>, i: nat)
    requires i < |lines|
  {
    !IsSkipped(lines[i])
  }

  /** Where each extracted text comes from: `idx` lists the processed lines in
      file order, and text `k` is the row extracted from the line at
      `idx[k]`. */
  lemma ExtractDataOrder(lines: seq<string>) returns (idx: seq<nat>)
    requires ExtractData(lines).Success?
    ensures |idx| == |ExtractData(lines).value|
    ensures forall k | 0 <= k < |idx| ::
              && idx[k] < |lines|
              && ExtractLine(lines[idx[k]]).Success? && ExtractLine(lines[idx[k]]).value.Some?
              && ExtractData(lines).value[k] == RowText(ExtractLine(lines[idx[k]]).value.value)
    ensures forall k, l | 0 <= k < l < |idx| :: idx[k] < idx[l]
    ensures forall i: nat | i < |lines| && ProcessedAt(lines, i) :: i in idx
  {
    idx := DrainOrder(lines, ExtractText);
    var texts := ExtractData(lines).value;
    forall k | 0 <= k < |idx|
      ensures && idx[k] < |lines|
              && ExtractLine(lines[idx[k]]).Success? && ExtractLine(lines[idx[k]]).value.Some?
              && texts[k] == RowText(ExtractLine(lines[idx[k]]).value.value)
    {
      assert ExtractText(lines[idx[k]]) == Success(Some(texts[k]));
    }
    forall i: nat | i < |lines| && ProcessedAt(lines, i)
      ensures i in idx
    {
      assert ExtractText(lines[i]).Success?;
      assert Yields(lines, ExtractText, i);
    }
  }

  /** A line that starts with whitespace before its `%` is not a comment: it is
      processed, and with no date tuple in it, it fails. */
  lemma IndentedPercentIsNotComment()
    ensures ExtractLine(" %x") == Failure(MissingDate(0))
  {
    var line := " %x";
    assert !IsSpace(line[1]);
    StripEmptyIff(line);
    assert !IsSkipped(line);
    assert FindAll(line) == [];
  }
}
