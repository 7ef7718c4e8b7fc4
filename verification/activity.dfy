/** The high-level activity aggregation of `plotEventStream` (the branch for
    the output file): keep the `hla` rows, group them by (type, user, value,
    start), keep the longest row of each group, file the kept rows under the
    key `type(user, value)`, sort each key's rows by start time, and take the
    earliest kept start as the origin of the time axis. */
module Activity {
  import opened Wrappers

  /** One row of the extracted data; timestamps are whole Unix seconds. */
  datatype Record = Record(inputType: string, user: string, value: string,
                           lastUpdate: string, confidence: string,
                           start: int, end: int)

  /** The columns the rows are made unique on. */
  datatype GroupKey = GroupKey(inputType: string, user: string, value: string, start: int)

  function KeyOf(r: Record): GroupKey {
    GroupKey(r.inputType, r.user, r.value, r.start)
  }

  function Duration(r: Record): int {
    r.end - r.start
  }

  const Hla: string := "hla"

  predicate AllHla(rs: seq<Record>) {
    forall i | 0 <= i < |rs| :: rs[i].inputType == Hla
  }

  /** `input_combos[input_combos['input_type'] == 'hla']`: the hla rows in order. */
  function HlaRows(rs: seq<Record>): (r: seq<Record>)
    ensures |r| <= |rs|
    ensures AllHla(r)
    ensures forall x | x in rs && x.inputType == Hla :: x in r
    ensures forall x | x in r :: x in rs
  {
    if |rs| == 0 then []
    else
      var h := HlaRows(rs[..|rs| - 1]);
      var x := rs[|rs| - 1];
      assert forall y | y in rs :: y in rs[..|rs| - 1] || y == x;
      if x.inputType == Hla then h + [x] else h
  }

  /** The row at `i` is of type hla. */
  predicate HlaAt(rs: seq<Record>, i: nat)
    requires i < |rs|
  {
    rs[i].inputType == Hla
  }

  /** `idx` lists, in increasing order, exactly the positions of the hla
      rows of `rs`. */
  ghost predicate HlaPositions(rs: seq<Record>, idx: seq<nat>) {
    && (forall t | 0 <= t < |idx| :: idx[t] < |rs| && rs[idx[t]].inputType == Hla)
    && (forall t, u | 0 <= t < u < |idx| :: idx[t] < idx[u])
    && (forall i: nat | i < |rs| && HlaAt(rs, i) :: i in idx)
  }

  /** Appending a row: the positions so far stay, and the new row's position
      is added when it is an hla row. */
  lemma HlaPositionsSnoc(rs: seq<Record>, h: seq<nat>) returns (idx: seq<nat>)
    requires |rs| > 0 && HlaPositions(rs[..|rs| - 1], h)
    ensures HlaPositions(rs, idx)
    ensures idx == if rs[|rs| - 1].inputType == Hla then h + [|rs| - 1] else h
  {
    var n := |rs| - 1;
    var front := rs[..n];
    forall i: nat | i < n && HlaAt(rs, i)
      ensures i in h
    {
      assert HlaAt(front, i);
    }
    idx := if rs[n].inputType == Hla then h + [n] else h;
    forall t | 0 <= t < |idx|
      ensures idx[t] < |rs| && rs[idx[t]].inputType == Hla
    {
      if t < |h| {
        assert idx[t] == h[t] && front[h[t]] == rs[h[t]];
      }
    }
    forall t, u | 0 <= t < u < |idx|
      ensures idx[t] < idx[u]
    {
      assert idx[t] == h[t];
    }
    forall i: nat | i < |rs| && HlaAt(rs, i)
      ensures i in idx
    {
      if i < n {
        assert i in h;
      } else {
        assert idx[|idx| - 1] == n;
      }
    }
  }

  /** Picking the positions with one more position appended. */
  lemma PickSnoc(rs: seq<Record>, h: seq<nat>, n: nat)
    requires n < |rs| && forall t | 0 <= t < |h| :: h[t] < n
    ensures Pick(rs, h + [n]) == Pick(rs[..n], h) + [rs[n]]
  {
  }

  lemma PickFront(rs: seq<Record>, h: seq<nat>, n: nat)
    requires n <= |rs| && forall t | 0 <= t < |h| :: h[t] < n
    ensures Pick(rs, h) == Pick(rs[..n], h)
  {
  }

  /** The hla rows are the rows at the positions of the hla rows, in
      increasing order: the filter keeps the file's order. */
  lemma {:induction false} HlaRowsIndices(rs: seq<Record>) returns (idx: seq<nat>)
    ensures HlaPositions(rs, idx)
    ensures HlaRows(rs) == Pick(rs, idx)
    decreases |rs|
  {
    if |rs| == 0 {
      idx := [];
    } else {
      var n := |rs| - 1;
      var h := HlaRowsIndices(rs[..n]);
      idx := HlaPositionsSnoc(rs, h);
      if rs[n].inputType == Hla {
        PickSnoc(rs, h, n);
      } else {
        PickFront(rs, h, n);
      }
    }
  }

  /** Filtering rows that are all hla keeps every one of them. */
  lemma {:induction false} HlaRowsOfAllHla(rs: seq<Record>)
    requires AllHla(rs)
    ensures HlaRows(rs) == rs
  {
    if |rs| > 0 {
      HlaRowsOfAllHla(rs[..|rs| - 1]);
      assert rs == rs[..|rs| - 1] + [rs[|rs| - 1]];
    }
  }

  // ---------------------------------------------------------------------------
  // distinct group keys (np.unique on the four key columns)

  predicate NoDups<T(==)>(xs: seq<T>) {
    forall i, j | 0 <= i < j < |xs| :: xs[i] != xs[j]
  }

  /** The distinct elements of `xs`, in order of first occurrence. */
  function Distinct<T(==,!new)>(xs: seq<T>): (r: seq<T>)
    ensures NoDups(r)
    ensures forall x :: x in r <==> x in xs
    ensures |r| <= |xs|
  {
    if |xs| == 0 then []
    else
      var d := Distinct(xs[..|xs| - 1]);
      var x := xs[|xs| - 1];
      assert forall y | y in xs :: y in xs[..|xs| - 1] || y == x;
      if x in d then d else d + [x]
  }

  function Keys(rs: seq<Record>): (ks: seq<GroupKey>)
    ensures |ks| == |rs|
    ensures forall i | 0 <= i < |rs| :: ks[i] == KeyOf(rs[i])
  {
    seq(|rs|, i requires 0 <= i < |rs| => KeyOf(rs[i]))
  }

  /** The positions of the rows whose key is `k`, in increasing order: the
      list `index_groups` holds for that key. */
  function Positions(rs: seq<Record>, k: GroupKey): (ps: seq<nat>)
    ensures forall t | 0 <= t < |ps| :: ps[t] < |rs| && KeyOf(rs[ps[t]]) == k
    ensures forall i | 0 <= i < |rs| && KeyOf(rs[i]) == k :: i in ps
    ensures forall t, u | 0 <= t < u < |ps| :: ps[t] < ps[u]
  {
    if |rs| == 0 then []
    else
      var n := |rs| - 1;
      var ps := Positions(rs[..n], k);
      if KeyOf(rs[n]) == k then ps + [n] else ps
  }

  /** `array[index_list]`: the rows at the given positions. */
  function Pick(rs: seq<Record>, ps: seq<nat>): (r: seq<Record>)
    requires forall t | 0 <= t < |ps| :: ps[t] < |rs|
    ensures |r| == |ps|
    ensures forall t | 0 <= t < |ps| :: r[t] == rs[ps[t]]
  {
    seq(|ps|, t requires 0 <= t < |ps| => rs[ps[t]])
  }

  // ---------------------------------------------------------------------------
  // stable sorting by an integer key (Python's sorted)

  ghost predicate SortedBy(xs: seq<Record>, key: Record -> int) {
    forall i, j | 0 <= i < j < |xs| :: key(xs[i]) <= key(xs[j])
  }

  function Insert(x: Record, ys: seq<Record>, key: Record -> int): (r: seq<Record>)
    ensures |r| == |ys| + 1
    ensures r[0] == x || (|ys| > 0 && r[0] == ys[0])
    ensures multiset(r) == multiset(ys) + multiset{x}
  {
    if |ys| == 0 || key(x) <= key(ys[0]) then [x] + ys
    else
      assert ys == [ys[0]] + ys[1..];
      [ys[0]] + Insert(x, ys[1..], key)
  }

  lemma SortedCons(y: Record, rest: seq<Record>, key: Record -> int)
    requires SortedBy(rest, key)
    requires |rest| == 0 || key(y) <= key(rest[0])
    ensures SortedBy([y] + rest, key)
  {
  }

  lemma {:induction false} InsertSorted(x: Record, ys: seq<Record>, key: Record -> int)
    requires SortedBy(ys, key)
    ensures SortedBy(Insert(x, ys, key), key)
  {
    if |ys| == 0 || key(x) <= key(ys[0]) {
      SortedCons(x, ys, key);
    } else {
      InsertSorted(x, ys[1..], key);
      SortedCons(ys[0], Insert(x, ys[1..], key), key);
    }
  }

  /** `sorted(xs, key=key)`: a stable insertion sort, an element going in front
      of the sorted rest when its key is not larger. */
  function SortBy(xs: seq<Record>, key: Record -> int): (r: seq<Record>)
    ensures SortedBy(r, key)
    ensures multiset(r) == multiset(xs)
    ensures |r| == |xs|
  {
    if |xs| == 0 then []
    else
      assert xs == [xs[0]] + xs[1..];
      InsertSorted(xs[0], SortBy(xs[1..], key), key);
      Insert(xs[0], SortBy(xs[1..], key), key)
  }

  /** Sorting an already sorted list changes nothing. */
  lemma {:induction false} SortSorted(xs: seq<Record>, key: Record -> int)
    requires SortedBy(xs, key)
    ensures SortBy(xs, key) == xs
  {
    if |xs| > 0 {
      SortSorted(xs[1..], key);
      assert xs == [xs[0]] + xs[1..];
    }
  }

  /** The key `sorted(..., key=duration, reverse=True)` sorts on: a stable sort
      in reverse keeps equal elements in their original order, which is a
      stable ascending sort on the negated duration. */
  function NegDuration(r: Record): int {
    -Duration(r)
  }

  function StartTime(r: Record): int {
    r.start
  }

  /** The first of the longest rows of `xs`. */
  function FirstLongest(xs: seq<Record>): (j: nat)
    requires |xs| > 0
    ensures j < |xs|
    ensures forall i | 0 <= i < |xs| :: Duration(xs[i]) <= Duration(xs[j])
    ensures forall i | 0 <= i < j :: Duration(xs[i]) < Duration(xs[j])
  {
    if |xs| == 1 then 0
    else
      var j := 1 + FirstLongest(xs[1..]);
      assert forall i | 1 <= i < |xs| :: xs[i] == xs[1..][i - 1];
      if Duration(xs[0]) >= Duration(xs[j]) then 0 else j
  }

  /** The head of the list sorted longest first is the first of the longest
      rows: ties go to the earliest one. */
  lemma {:induction false} HeadOfLongestFirst(xs: seq<Record>)
    requires |xs| > 0
    ensures SortBy(xs, NegDuration)[0] == xs[FirstLongest(xs)]
  {
    if |xs| > 1 {
      HeadOfLongestFirst(xs[1..]);
      assert xs[1 + FirstLongest(xs[1..])] == xs[1..][FirstLongest(xs[1..])];
    }
  }

  // ---------------------------------------------------------------------------
  // one representative per group

  /** `input_combos[index_groups[unique_idx]]` computed on the hla rows. */
  function GroupMembers(hla: seq<Record>, k: GroupKey): seq<Record> {
    Pick(hla, Positions(hla, k))
  }

  lemma PositionsNonEmpty(hla: seq<Record>, k: GroupKey)
    requires k in Keys(hla)
    ensures |Positions(hla, k)| > 0
  {
    var i :| 0 <= i < |hla| && Keys(hla)[i] == k;
    assert i in Positions(hla, k);
  }

  /** `sorted(type_instances, key=duration, reverse=True)[0]`. */
  function Representative(hla: seq<Record>, k: GroupKey): Record
    requires k in Keys(hla)
  {
    PositionsNonEmpty(hla, k);
    SortBy(GroupMembers(hla, k), NegDuration)[0]
  }

  /** Where a row of the group sits among the group's members. */
  lemma MemberIndex(hla: seq<Record>, k: GroupKey, i: int) returns (t: nat)
    requires 0 <= i < |hla| && KeyOf(hla[i]) == k
    ensures t < |Positions(hla, k)| && Positions(hla, k)[t] == i
    ensures GroupMembers(hla, k)[t] == hla[i]
  {
    var ps := Positions(hla, k);
    assert i in ps;
    t :| 0 <= t < |ps| && ps[t] == i;
  }

  lemma PositionsOrder(hla: seq<Record>, k: GroupKey, t: nat, u: nat)
    requires t < |Positions(hla, k)| && u < |Positions(hla, k)|
    ensures Positions(hla, k)[t] < Positions(hla, k)[u] ==> t < u
  {
  }

  /** The position of the first longest member of a group: no member lasts
      longer, and every member before it lasts strictly less. */
  lemma FirstLongestPosition(hla: seq<Record>, k: GroupKey) returns (p: nat)
    requires |Positions(hla, k)| > 0
    ensures p == Positions(hla, k)[FirstLongest(GroupMembers(hla, k))]
    ensures p < |hla| && KeyOf(hla[p]) == k
    ensures forall i | 0 <= i < |hla| && KeyOf(hla[i]) == k :: Duration(hla[i]) <= Duration(hla[p])
    ensures forall i | 0 <= i < p && KeyOf(hla[i]) == k :: Duration(hla[i]) < Duration(hla[p])
  {
    var ps := Positions(hla, k);
    var ms := GroupMembers(hla, k);
    var j := FirstLongest(ms);
    p := ps[j];
    assert ms[j] == hla[p];
    forall i | 0 <= i < |hla| && KeyOf(hla[i]) == k
      ensures Duration(hla[i]) <= Duration(hla[p])
    {
      var t := MemberIndex(hla, k, i);
    }
    forall i | 0 <= i < p && KeyOf(hla[i]) == k
      ensures Duration(hla[i]) < Duration(hla[p])
    {
      var t := MemberIndex(hla, k, i);
      PositionsOrder(hla, k, t, j);
    }
  }

  /** The representative of a group is one of its rows, no row of the group
      lasts longer, and every row of the group before it lasts strictly less. */
  lemma RepresentativeIsFirstLongest(hla: seq<Record>, k: GroupKey)
    requires k in Keys(hla)
    ensures KeyOf(Representative(hla, k)) == k
    ensures forall i | 0 <= i < |hla| && KeyOf(hla[i]) == k ::
              Duration(hla[i]) <= Duration(Representative(hla, k))
    ensures exists p | 0 <= p < |hla| :: hla[p] == Representative(hla, k) &&
              forall i | 0 <= i < p && KeyOf(hla[i]) == k :: Duration(hla[i]) < Duration(hla[p])
  {
    PositionsNonEmpty(hla, k);
    HeadOfLongestFirst(GroupMembers(hla, k));
    var p := FirstLongestPosition(hla, k);
    assert Representative(hla, k) == hla[p];
  }

  /** The same in the file's order: the representative of a group is a row of
      the file, no row of the group lasts longer, and every row of the group
      earlier in the file lasts strictly less, so a tie goes to the row that
      comes first in the file. */
  lemma RepresentativeInFile(records: seq<Record>, k: GroupKey) returns (p: nat)
    requires k in Keys(HlaRows(records))
    ensures p < |records| && records[p] == Representative(HlaRows(records), k)
    ensures KeyOf(records[p]) == k
    ensures forall i | 0 <= i < |records| && KeyOf(records[i]) == k :: Duration(records[i]) <= Duration(records[p])
    ensures forall i | 0 <= i < p && KeyOf(records[i]) == k :: Duration(records[i]) < Duration(records[p])
  {
    var hla := HlaRows(records);
    var idx := HlaRowsIndices(records);
    PositionsNonEmpty(hla, k);
    HeadOfLongestFirst(GroupMembers(hla, k));
    var q := FirstLongestPosition(hla, k);
    assert Representative(hla, k) == hla[q];
    p := idx[q];
    FirstLongestInFile(records, idx, k, q);
  }

  /** A first longest hla row of a group, moved from the hla rows back to
      the file. */
  lemma FirstLongestInFile(records: seq<Record>, idx: seq<nat>, k: GroupKey, q: nat)
    requires HlaPositions(records, idx)
    requires q < |idx| && KeyOf(records[idx[q]]) == k
    requires forall t | 0 <= t < |idx| && KeyOf(records[idx[t]]) == k ::
               Duration(records[idx[t]]) <= Duration(records[idx[q]])
    requires forall t | 0 <= t < q && KeyOf(records[idx[t]]) == k ::
               Duration(records[idx[t]]) < Duration(records[idx[q]])
    ensures forall i | 0 <= i < |records| && KeyOf(records[i]) == k :: Duration(records[i]) <= Duration(records[idx[q]])
    ensures forall i | 0 <= i < idx[q] && KeyOf(records[i]) == k :: Duration(records[i]) < Duration(records[idx[q]])
  {
    var p := idx[q];
    assert k.inputType == Hla;
    forall i | 0 <= i < |records| && KeyOf(records[i]) == k
      ensures Duration(records[i]) <= Duration(records[p])
      ensures i < p ==> Duration(records[i]) < Duration(records[p])
    {
      assert HlaAt(records, i);
      var t :| 0 <= t < |idx| && idx[t] == i;
      if i < p {
        assert t < q;
      }
    }
  }

  /** One representative per distinct group key, in the order of the keys. */
  function RepresentativesFor(hla: seq<Record>, ks: seq<GroupKey>): (reps: seq<Record>)
    requires forall t | 0 <= t < |ks| :: ks[t] in Keys(hla)
    ensures |reps| == |ks|
    ensures forall t | 0 <= t < |ks| :: reps[t] == Representative(hla, ks[t])
  {
    seq(|ks|, t requires 0 <= t < |ks| => Representative(hla, ks[t]))
  }

  /** The distinct group keys of the hla rows. */
  function Groups(hla: seq<Record>): (ks: seq<GroupKey>)
    ensures NoDups(ks)
    ensures forall k :: k in ks <==> k in Keys(hla)
  {
    Distinct(Keys(hla))
  }

  /** The rows kept by the aggregation: the representative of each group. */
  function Representatives(hla: seq<Record>): (reps: seq<Record>)
    ensures |reps| == |Groups(hla)|
  {
    RepresentativesFor(hla, Groups(hla))
  }

  /** Each group contributes its representative once: the representatives
      carry exactly the distinct group keys, so no row is kept twice. */
  lemma RepresentativesPerGroup(hla: seq<Record>)
    ensures forall t | 0 <= t < |Representatives(hla)| :: KeyOf(Representatives(hla)[t]) == Groups(hla)[t]
    ensures NoDups(Representatives(hla))
    ensures |Representatives(hla)| == 0 <==> |hla| == 0
  {
    var ks := Groups(hla);
    var reps := Representatives(hla);
    forall t | 0 <= t < |ks|
      ensures KeyOf(reps[t]) == ks[t]
    {
      RepresentativeIsFirstLongest(hla, ks[t]);
    }
    if |hla| > 0 {
      assert KeyOf(hla[0]) in Keys(hla);
    }
  }

  // ---------------------------------------------------------------------------
  // min_start_time

  /** One step of lines 75-78: `not min_start_time` holds for None and for a
      running minimum of 0, so either one is replaced outright. */
  function MinStartStep(acc: Option<int>, s: int): Option<int> {
    if acc.None? || acc.value == 0 then Some(s)
    else if s < acc.value then Some(s)
    else acc
  }

  /** The running minimum as the script computes it, over the representatives'
      start times in the order they are visited. */
  function MinStartAsWritten(starts: seq<int>): Option<int> {
    if |starts| == 0 then None
    else MinStartStep(MinStartAsWritten(starts[..|starts| - 1]), starts[|starts| - 1])
  }

  /** The intended running minimum: None until the first value. */
  function MinStart(starts: seq<int>): (r: Option<int>)
    ensures r.None? <==> |starts| == 0
    ensures r.Some? ==> r.value in starts
    ensures r.Some? ==> forall i | 0 <= i < |starts| :: r.value <= starts[i]
  {
    if |starts| == 0 then None
    else
      var prev := MinStart(starts[..|starts| - 1]);
      var s := starts[|starts| - 1];
      assert forall i | 0 <= i < |starts| - 1 :: starts[i] == starts[..|starts| - 1][i];
      if prev.None? || s < prev.value then Some(s) else prev
  }

  /** As long as no start time is 0, the script's running minimum is the
      true minimum. */
  lemma {:induction false} MinStartAsWrittenAgrees(starts: seq<int>)
    requires forall i | 0 <= i < |starts| :: starts[i] != 0
    ensures MinStartAsWritten(starts) == MinStart(starts)
  {
    if |starts| > 0 {
      var init := starts[..|starts| - 1];
      assert forall i | 0 <= i < |init| :: init[i] == starts[i];
      MinStartAsWrittenAgrees(init);
    }
  }

  /** A start time of 0 followed by a later one: the script forgets the 0. */
  lemma MinStartZeroIsLost()
    ensures MinStartAsWritten([0, 5]) == Some(5)
    ensures MinStart([0, 5]) == Some(0)
  {
    assert [0, 5][..1] == [0];
    assert [0][..0] == [];
  }

  function Starts(reps: seq<Record>): (ss: seq<int>)
    ensures |ss| == |reps|
    ensures forall i | 0 <= i < |reps| :: ss[i] == reps[i].start
  {
    seq(|reps|, i requires 0 <= i < |reps| => reps[i].start)
  }

  // ---------------------------------------------------------------------------
  // unique_type_instances

  /** `input_type + "(" + user + ", " + input_value + ")"`. */
  function KeyName(r: Record): string {
    r.inputType + "(" + r.user + ", " + r.value + ")"
  }

  /** The rows filed under `name`, in order: an independent definition of
      what the dictionary should hold for that key. */
  function WithName(reps: seq<Record>, name: string): (r: seq<Record>)
    ensures |r| <= |reps|
  {
    if |reps| == 0 then []
    else
      var w := WithName(reps[..|reps| - 1], name);
      if KeyName(reps[|reps| - 1]) == name then w + [reps[|reps| - 1]] else w
  }

  /** Lines 83-87 over all representatives: append each to its key's list,
      creating the list on first use. */
  function Collect(reps: seq<Record>): (m: map<string, seq<Record>>)
    ensures forall name :: name in m <==> |WithName(reps, name)| > 0
    ensures forall name | name in m :: m[name] == WithName(reps, name)
  {
    if |reps| == 0 then map[]
    else
      var m := Collect(reps[..|reps| - 1]);
      var r := reps[|reps| - 1];
      var name := KeyName(r);
      m[name := (if name in m then m[name] else []) + [r]]
  }

  /** Line 99 applied to every key: each list sorted by start time. */
  function Instances(reps: seq<Record>): (m: map<string, seq<Record>>)
    ensures forall name :: name in m <==> |WithName(reps, name)| > 0
    ensures forall name | name in m :: SortedBy(m[name], StartTime)
    ensures forall name | name in m :: multiset(m[name]) == multiset(WithName(reps, name))
    ensures forall name | name in m :: |m[name]| == |WithName(reps, name)|
  {
    var c := Collect(reps);
    map name | name in c :: SortBy(c[name], StartTime)
  }

  lemma {:induction false} WithNameCount(reps: seq<Record>, name: string, x: Record)
    ensures multiset(WithName(reps, name))[x] == if KeyName(x) == name then multiset(reps)[x] else 0
  {
    if |reps| > 0 {
      var init := reps[..|reps| - 1];
      WithNameCount(init, name, x);
      assert reps == init + [reps[|reps| - 1]];
    }
  }

  lemma NoDupsCountOne(xs: seq<Record>, i: int)
    requires NoDups(xs) && 0 <= i < |xs|
    ensures multiset(xs)[xs[i]] == 1
  {
    var x := xs[i];
    var prefix, suffix := xs[..i], xs[i + 1..];
    assert xs == prefix + [x] + suffix;
    assert forall j | 0 <= j < |prefix| :: prefix[j] != x;
    forall j | 0 <= j < |suffix|
      ensures suffix[j] != x
    {
      assert suffix[j] == xs[i + 1 + j];
    }
  }

  /** Every representative is filed exactly once, under its own key. */
  lemma EachRepresentativeOnce(reps: seq<Record>, t: int)
    requires NoDups(reps) && 0 <= t < |reps|
    ensures KeyName(reps[t]) in Instances(reps)
    ensures multiset(Instances(reps)[KeyName(reps[t])])[reps[t]] == 1
  {
    var x := reps[t];
    WithNameCount(reps, KeyName(x), x);
    NoDupsCountOne(reps, t);
    assert |WithName(reps, KeyName(x))| > 0 by {
      assert x in multiset(WithName(reps, KeyName(x)));
    }
  }

  function Names(reps: seq<Record>): (ns: seq<string>)
    ensures |ns| == |reps|
    ensures forall i | 0 <= i < |reps| :: ns[i] == KeyName(reps[i])
  {
    seq(|reps|, i requires 0 <= i < |reps| => KeyName(reps[i]))
  }

  /** Sum of the lengths of the lists filed under `ns`. */
  function TotalLength(ns: seq<string>, m: map<string, seq<Record>>): nat
    requires forall i | 0 <= i < |ns| :: ns[i] in m
  {
    if |ns| == 0 then 0 else |m[ns[0]]| + TotalLength(ns[1..], m)
  }

  /** Sum over `ns` of how many rows carry each name. */
  function CountWith(ns: seq<string>, reps: seq<Record>): nat {
    if |ns| == 0 then 0 else |WithName(reps, ns[0])| + CountWith(ns[1..], reps)
  }

  lemma {:induction false} CountWithAppend(ns: seq<string>, reps: seq<Record>, x: Record)
    requires NoDups(ns)
    ensures CountWith(ns, reps + [x]) == CountWith(ns, reps) + (if KeyName(x) in ns then 1 else 0)
  {
    if |ns| > 0 {
      assert (reps + [x])[..|reps + [x]| - 1] == reps;
      CountWithAppend(ns[1..], reps, x);
      if KeyName(x) == ns[0] {
        assert forall j | 0 <= j < |ns| - 1 :: ns[1..][j] == ns[j + 1] != ns[0];
      }
    }
  }

  /** The names partition the rows: summed over a duplicate-free list of
      names that covers every row, the per-name counts add up to all rows. */
  lemma {:induction false} CountWithPartition(ns: seq<string>, reps: seq<Record>)
    requires NoDups(ns)
    requires forall i | 0 <= i < |reps| :: KeyName(reps[i]) in ns
    ensures CountWith(ns, reps) == |reps|
  {
    if |reps| == 0 {
      CountWithEmpty(ns);
    } else {
      var init := reps[..|reps| - 1];
      CountWithPartition(ns, init);
      CountWithAppend(ns, init, reps[|reps| - 1]);
      assert reps == init + [reps[|reps| - 1]];
    }
  }

  lemma {:induction false} CountWithEmpty(ns: seq<string>)
    ensures CountWith(ns, []) == 0
  {
    if |ns| > 0 {
      CountWithEmpty(ns[1..]);
    }
  }

  lemma {:induction false} TotalLengthIsCount(ns: seq<string>, reps: seq<Record>)
    requires forall i | 0 <= i < |ns| :: ns[i] in Instances(reps)
    ensures TotalLength(ns, Instances(reps)) == CountWith(ns, reps)
  {
    if |ns| > 0 {
      var m := Instances(reps);
      TotalLengthIsCount(ns[1..], reps);
    }
  }

  /** Over all keys, the lists hold as many rows as there are representatives. */
  lemma InstancesTotal(reps: seq<Record>)
    ensures forall i | 0 <= i < |Distinct(Names(reps))| :: Distinct(Names(reps))[i] in Instances(reps)
    ensures TotalLength(Distinct(Names(reps)), Instances(reps)) == |reps|
  {
    var ns := Distinct(Names(reps));
    forall i | 0 <= i < |ns|
      ensures ns[i] in Instances(reps)
    {
      assert ns[i] in Names(reps);
      var j :| 0 <= j < |reps| && Names(reps)[j] == ns[i];
      WithNameCount(reps, ns[i], reps[j]);
      assert reps[j] in multiset(WithName(reps, ns[i]));
    }
    forall i | 0 <= i < |reps|
      ensures KeyName(reps[i]) in ns
    {
      assert Names(reps)[i] in Names(reps);
    }
    TotalLengthIsCount(ns, reps);
    CountWithPartition(ns, reps);
  }

  // ---------------------------------------------------------------------------
  // the whole aggregation

  /** What the plot is drawn from: the sorted rows under each key and the
      origin of the time axis. */
  datatype Activities = Activities(instances: map<string, seq<Record>>, minStart: int)

  /** No hla row: nothing to plot, and the axis computation fails. */
  datatype AggregateError = NoActivities

  /** There are representatives exactly when some row is an hla row. */
  lemma SomeRepresentativeIff(records: seq<Record>)
    ensures |Representatives(HlaRows(records))| > 0 <==>
            exists i | 0 <= i < |records| :: records[i].inputType == Hla
  {
    var hla := HlaRows(records);
    RepresentativesPerGroup(hla);
    if exists i | 0 <= i < |records| :: records[i].inputType == Hla {
      var i :| 0 <= i < |records| && records[i].inputType == Hla;
      assert records[i] in records;
    }
    if |hla| > 0 {
      assert hla[0] in hla;
    }
  }

  function Aggregate(records: seq<Record>): (r: Result<Activities, AggregateError>)
    ensures r.Failure? <==> forall i | 0 <= i < |records| :: records[i].inputType != Hla
    ensures r.Success? ==> r.value.instances == Instances(Representatives(HlaRows(records)))
  {
    var reps := Representatives(HlaRows(records));
    SomeRepresentativeIff(records);
    match MinStart(Starts(reps))
    case None => Failure(NoActivities)
    case Some(m) => Success(Activities(Instances(reps), m))
  }

  /** Distinct representatives each sit exactly once in the list of their
      key. */
  lemma RepresentativesInstanced(reps: seq<Record>)
    requires NoDups(reps)
    ensures forall t | 0 <= t < |reps| ::
              KeyName(reps[t]) in Instances(reps) && multiset(Instances(reps)[KeyName(reps[t])])[reps[t]] == 1
  {
    forall t | 0 <= t < |reps|
      ensures KeyName(reps[t]) in Instances(reps)
      ensures multiset(Instances(reps)[KeyName(reps[t])])[reps[t]] == 1
    {
      EachRepresentativeOnce(reps, t);
    }
  }

  /** Every group's representative sits, exactly once, in the list of its key;
      the lists are sorted by start time and hold only representatives of
      that key; all lists together hold one row per group. */
  lemma AggregateInstances(records: seq<Record>, a: Activities)
    requires Aggregate(records) == Success(a)
    ensures var reps := Representatives(HlaRows(records));
            && a.instances == Instances(reps)
            && (forall t | 0 <= t < |reps| ::
                  KeyName(reps[t]) in a.instances && multiset(a.instances[KeyName(reps[t])])[reps[t]] == 1)
            && (forall i | 0 <= i < |Distinct(Names(reps))| :: Distinct(Names(reps))[i] in a.instances)
            && TotalLength(Distinct(Names(reps)), a.instances) == |Groups(HlaRows(records))|
    ensures forall name | name in a.instances :: SortedBy(a.instances[name], StartTime)
  {
    var hla := HlaRows(records);
    var reps := Representatives(hla);
    RepresentativesPerGroup(hla);
    RepresentativesInstanced(reps);
    InstancesTotal(reps);
  }

  /** The minimum start of some rows is one of their starts and no row
      starts before it. */
  lemma MinStartOfRows(rows: seq<Record>) returns (t: nat)
    requires |rows| > 0
    ensures MinStart(Starts(rows)).Some?
    ensures forall u | 0 <= u < |rows| :: MinStart(Starts(rows)).value <= rows[u].start
    ensures t < |rows| && MinStart(Starts(rows)).value == rows[t].start
  {
    var ss := Starts(rows);
    var m := MinStart(ss).value;
    assert m in ss;
    t :| 0 <= t < |ss| && ss[t] == m;
    forall u | 0 <= u < |rows|
      ensures m <= rows[u].start
    {
      assert ss[u] == rows[u].start;
    }
  }

  /** No representative starts before the origin of the time axis. */
  lemma AggregateMinStartBound(records: seq<Record>, a: Activities)
    requires Aggregate(records) == Success(a)
    ensures forall u | 0 <= u < |Representatives(HlaRows(records))| ::
              a.minStart <= Representatives(HlaRows(records))[u].start
  {
    SomeRepresentativeIff(records);
    var _ := MinStartOfRows(Representatives(HlaRows(records)));
  }

  /** The origin of the time axis is the start of some representative. */
  lemma AggregateMinStartAttained(records: seq<Record>, a: Activities) returns (t: nat)
    requires Aggregate(records) == Success(a)
    ensures t < |Representatives(HlaRows(records))|
    ensures a.minStart == Representatives(HlaRows(records))[t].start
  {
    SomeRepresentativeIff(records);
    t := MinStartOfRows(Representatives(HlaRows(records)));
  }

  // ---------------------------------------------------------------------------
  // the script's indexing as written

  /** Lines 52 and 68 as written: the positions are found among the hla rows
      but used to index all rows. */
  function RepresentativeAsWritten(records: seq<Record>, k: GroupKey): Record
    requires k in Keys(HlaRows(records))
  {
    var hla := HlaRows(records);
    PositionsNonEmpty(hla, k);
    SortBy(Pick(records, Positions(hla, k)), NegDuration)[0]
  }

  /** When every row is an hla row, the two indexings agree. */
  lemma AsWrittenAgreesWhenAllHla(records: seq<Record>, k: GroupKey)
    requires AllHla(records)
    requires k in Keys(HlaRows(records))
    ensures RepresentativeAsWritten(records, k) == Representative(HlaRows(records), k)
  {
    HlaRowsOfAllHla(records);
  }

  lemma HlaRowsOfPair(a: Record, b: Record)
    requires a.inputType != Hla && b.inputType == Hla
    ensures HlaRows([a, b]) == [b]
  {
    assert [a, b][..1] == [a];
    assert [a][..0] == [];
  }

  lemma RepresentativeAsWrittenOfPair(a: Record, b: Record)
    requires a.inputType != Hla && b.inputType == Hla
    ensures KeyOf(b) in Keys(HlaRows([a, b]))
    ensures RepresentativeAsWritten([a, b], KeyOf(b)) == a
  {
    HlaRowsOfPair(a, b);
    assert Keys([b])[0] == KeyOf(b);
    PositionsOfSingle(b);
    assert Pick([a, b], [0]) == [a];
    SortSingle(a, NegDuration);
  }

  lemma PositionsOfSingle(b: Record)
    ensures Positions([b], KeyOf(b)) == [0]
  {
    assert [b][..0] == [];
  }

  lemma SortSingle(x: Record, key: Record -> int)
    ensures SortBy([x], key) == [x]
  {
    assert [x][1..] == [];
  }

  /** One low-level row before an hla row: the group of the hla row is
      represented by the low-level row, which is not even in the group. */
  lemma AsWrittenPicksForeignRow()
    ensures var lowLevel := Record("pos", "alice", "kitchen", "1", "0.9", 100, 200);
            var activity := Record(Hla, "alice", "cooking", "1", "0.8", 10, 20);
            var records := [lowLevel, activity];
            && KeyOf(activity) in Keys(HlaRows(records))
            && RepresentativeAsWritten(records, KeyOf(activity)) == lowLevel
            && KeyOf(lowLevel) != KeyOf(activity)
  {
    var lowLevel := Record("pos", "alice", "kitchen", "1", "0.9", 100, 200);
    var activity := Record(Hla, "alice", "cooking", "1", "0.8", 10, 20);
    assert lowLevel.inputType != Hla by {
      assert lowLevel.inputType[0] != Hla[0];
    }
    RepresentativeAsWrittenOfPair(lowLevel, activity);
  }
}
