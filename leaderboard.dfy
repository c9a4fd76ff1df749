/**
 * `groupRecordsByPerson`: one leader per distinct name, holding that
 * person's records in input order and their points, sorted by points
 * (highest first) and then by name.
 */
module Leaderboard {
  import opened Text
  import opened Records
  import opened Sorting

  /** `pointsForRecord`: 5 for a former record, 10 for a current one. */
  function PointsForRecord(r: Record): int {
    if r.status == Former then 5 else 10
  }

  /** A current record is worth ten points and a former one five. */
  lemma PointsForStatus(r: Record)
    ensures PointsForRecord(r) == 10 <==> r.status.Current?
    ensures PointsForRecord(r) == 5 <==> r.status.Former?
  {
  }

  datatype Leader = Leader(name: string, points: int, records: seq<Record>)

  /** The records of one person, in input order. */
  function RecordsOf(records: seq<Record>, name: string): seq<Record> {
    if records == [] then []
    else
      var last := records[|records| - 1];
      RecordsOf(records[..|records| - 1], name) + if last.name == name then [last] else []
  }

  function SumPoints(records: seq<Record>): int {
    if records == [] then 0
    else SumPoints(records[..|records| - 1]) + PointsForRecord(records[|records| - 1])
  }

  function CountStatus(records: seq<Record>, status: Status): nat {
    if records == [] then 0
    else CountStatus(records[..|records| - 1], status) + if records[|records| - 1].status == status then 1 else 0
  }

  /** The leader of `name` as the loop leaves it once every record has been seen. */
  function LeaderFor(records: seq<Record>, name: string): Leader {
    Leader(name, SumPoints(RecordsOf(records, name)), RecordsOf(records, name))
  }

  function NameSet(records: seq<Record>): set<string> {
    set r | r in records :: r.name
  }

  /** The leaderboard comparator: more points first, then by name. */
  function CompareLeaders(a: Leader, b: Leader): (r: int)
    ensures a.points != b.points ==> (r < 0 <==> a.points > b.points)
    ensures a.points == b.points ==> r == Compare(a.name, b.name) && (r == 0 <==> a.name == b.name)
  {
    CompareZero(a.name, b.name);
    if b.points != a.points then b.points - a.points else Compare(a.name, b.name)
  }

  /** What `groupRecordsByPerson` returns for `records`. */
  ghost predicate IsLeaderboard(records: seq<Record>, leaders: seq<Leader>) {
    // exactly one leader per distinct name
    && (forall i, j :: 0 <= i < j < |leaders| ==> leaders[i].name != leaders[j].name)
    && LeaderNames(leaders) == NameSet(records)
    // each holding that person's records in input order, and their points
    && (forall l :: l in leaders ==> l == LeaderFor(records, l.name))
    // ranked by points, then by name
    && (forall i, j :: 0 <= i < j < |leaders| ==> CompareLeaders(leaders[i], leaders[j]) < 0)
  }

  /** A person's points are ten per current record and five per former one. */
  lemma {:induction false} PointsFormula(records: seq<Record>)
    ensures SumPoints(records) == 10 * CountStatus(records, Current) + 5 * CountStatus(records, Former)
  {
    if records != [] {
      PointsFormula(records[..|records| - 1]);
    }
  }

  lemma {:induction false} RecordsOfAbsent(records: seq<Record>, name: string)
    requires name !in NameSet(records)
    ensures RecordsOf(records, name) == []
  {
    if records != [] {
      var init := records[..|records| - 1];
      assert NameSet(init) <= NameSet(records) by {
        forall n | n in NameSet(init) ensures n in NameSet(records) {
          var r :| r in init && r.name == n;
          assert r in records;
        }
      }
      RecordsOfAbsent(init, name);
      assert records[|records| - 1] in records;
    }
  }

  lemma {:induction false} RecordsOfPresent(records: seq<Record>, name: string)
    requires name in NameSet(records)
    ensures RecordsOf(records, name) != []
  {
    var init := records[..|records| - 1];
    var last := records[|records| - 1];
    if last.name != name {
      var r :| r in records && r.name == name;
      var k :| 0 <= k < |records| && records[k] == r;
      assert init[k] == r;
      RecordsOfPresent(init, name);
    }
  }

  lemma CompareLeadersIsTotalPreorder()
    ensures IsTotalPreorder(CompareLeaders)
  {
    forall a, b ensures CompareLeaders(a, b) <= 0 || CompareLeaders(b, a) <= 0 {
      CompareAntisymmetric(a.name, b.name);
    }
    forall a, b, c | CompareLeaders(a, b) <= 0 && CompareLeaders(b, c) <= 0
      ensures CompareLeaders(a, c) <= 0
    {
      if a.points == b.points == c.points {
        CompareTransitiveWeak(a.name, b.name, c.name);
      }
    }
  }

  /** Two different leaders of one record list never compare equal. */
  lemma CompareLeadersStrict(records: seq<Record>, a: Leader, b: Leader)
    requires a == LeaderFor(records, a.name) && b == LeaderFor(records, b.name) && a != b
    ensures CompareLeaders(a, b) != 0
  {
    CompareZero(a.name, b.name);
  }

  function LeaderNames(leaders: seq<Leader>): set<string> {
    set l | l in leaders :: l.name
  }

  /** Seeing one more record changes only its own person's leader. */
  lemma LeaderForSnoc(records: seq<Record>, r: Record, name: string)
    ensures LeaderFor(records + [r], name) ==
      if r.name == name then
        Leader(name, LeaderFor(records, name).points + PointsForRecord(r), LeaderFor(records, name).records + [r])
      else LeaderFor(records, name)
  {
    var all := records + [r];
    assert all[..|all| - 1] == records;
    var own := RecordsOf(records, name);
    if r.name == name {
      assert RecordsOf(all, name) == own + [r];
      assert (own + [r])[..|own + [r]| - 1] == own;
      assert SumPoints(own + [r]) == SumPoints(own) + PointsForRecord(r);
    } else {
      assert RecordsOf(all, name) == own + [];
      assert own + [] == own;
    }
  }

  /**
   * The state of the grouping loop after it has seen `seen`: the names in
   * first-seen order, and for each the leader built from the records so far.
   */
  ghost predicate Grouped(seen: seq<Record>, byName: map<string, Leader>, order: seq<string>) {
    && order == FirstSeen(seen)
    && Distinct(order)
    && Elements(order) == byName.Keys == NameSet(seen)
    && (forall n :: n in byName ==> byName[n] == LeaderFor(seen, n))
  }

  /** The distinct names of `records`, each where it first occurs. */
  function FirstSeen(records: seq<Record>): seq<string> {
    if records == [] then []
    else
      var init, last := records[..|records| - 1], records[|records| - 1];
      FirstSeen(init) + if last.name in NameSet(init) then [] else [last.name]
  }

  function Elements(s: seq<string>): set<string> {
    set x | x in s
  }

  /** The entry the loop updates for `r`: the existing one, or a fresh one. */
  function EntryFor(byName: map<string, Leader>, r: Record): Leader {
    if r.name in byName then byName[r.name] else Leader(r.name, 0, [])
  }

  /** One turn of the grouping loop keeps `Grouped`. */
  lemma GroupStep(seen: seq<Record>, r: Record, byName: map<string, Leader>, order: seq<string>,
                  next: map<string, Leader>, nextOrder: seq<string>)
    requires Grouped(seen, byName, order)
    requires nextOrder == if r.name in byName then order else order + [r.name]
    requires next == byName[r.name := Leader(r.name, EntryFor(byName, r).points + PointsForRecord(r),
                                             EntryFor(byName, r).records + [r])]
    ensures Grouped(seen + [r], next, nextOrder)
  {
    GroupStepNames(seen, r, byName, order, next, nextOrder);
    GroupStepEntries(seen, r, byName, order, next);
    FirstSeenSnoc(seen, r);
  }

  lemma FirstSeenSnoc(seen: seq<Record>, r: Record)
    ensures FirstSeen(seen + [r]) == FirstSeen(seen) + if r.name in NameSet(seen) then [] else [r.name]
  {
    assert (seen + [r])[..|seen|] == seen;
  }

  lemma GroupStepNames(seen: seq<Record>, r: Record, byName: map<string, Leader>, order: seq<string>,
                       next: map<string, Leader>, nextOrder: seq<string>)
    requires Distinct(order) && Elements(order) == byName.Keys == NameSet(seen)
    requires nextOrder == if r.name in byName then order else order + [r.name]
    requires next.Keys == byName.Keys + {r.name}
    ensures Distinct(nextOrder)
    ensures Elements(nextOrder) == next.Keys == NameSet(seen + [r])
  {
    if r.name !in byName {
      DistinctSnoc(order, r.name);
      assert Elements(order + [r.name]) == Elements(order) + {r.name};
    }
    NameSetSnoc(seen, r);
  }

  lemma GroupStepEntries(seen: seq<Record>, r: Record, byName: map<string, Leader>, order: seq<string>,
                         next: map<string, Leader>)
    requires Grouped(seen, byName, order)
    requires next == byName[r.name := Leader(r.name, EntryFor(byName, r).points + PointsForRecord(r),
                                             EntryFor(byName, r).records + [r])]
    ensures forall n :: n in next ==> next[n] == LeaderFor(seen + [r], n)
  {
    if r.name !in byName {
      RecordsOfAbsent(seen, r.name);
    }
    forall n | n in next ensures next[n] == LeaderFor(seen + [r], n) {
      NextEntry(seen, r, byName, n);
    }
  }

  lemma NextEntry(seen: seq<Record>, r: Record, byName: map<string, Leader>, n: string)
    requires forall m :: m in byName ==> byName[m] == LeaderFor(seen, m)
    requires r.name !in byName ==> RecordsOf(seen, r.name) == []
    requires n in byName || n == r.name
    ensures byName[r.name := Leader(r.name, EntryFor(byName, r).points + PointsForRecord(r),
                                    EntryFor(byName, r).records + [r])][n] == LeaderFor(seen + [r], n)
  {
    LeaderForSnoc(seen, r, n);
  }

  /**
   * `groupRecordsByPerson`: fills a map from name to leader in one pass over
   * the records (appending each record to its person's list and adding its
   * points), then sorts the map's values.
   */
  method GroupRecordsByPerson(records: seq<Record>) returns (leaders: seq<Leader>)
    ensures IsLeaderboard(records, leaders)
  {
    var byName, order := GroupByName(records);
    var unsorted := seq(|order|, k requires 0 <= k < |order| => byName[order[k]]);
    leaders := SortBy(unsorted, CompareLeaders);
    GroupedRanked(records, byName, order, unsorted, leaders);
  }

  /**
   * The grouping pass of `groupRecordsByPerson`: the map from name to leader
   * and the order in which names were first met.
   */
  method GroupByName(records: seq<Record>) returns (byName: map<string, Leader>, order: seq<string>)
    ensures Grouped(records, byName, order)
  {
    byName, order := map[], [];
    ghost var seen: seq<Record> := [];
    var i := 0;
    while i < |records|
      invariant 0 <= i <= |records| && seen == records[..i]
      invariant Grouped(seen, byName, order)
    {
      var record := records[i];
      var entry := EntryFor(byName, record);
      ghost var before, orderBefore := byName, order;
      if record.name !in byName {
        order := order + [record.name];
      }
      byName := byName[record.name := Leader(record.name, entry.points + PointsForRecord(record), entry.records + [record])];
      GroupStep(seen, record, before, orderBefore, byName, order);
      TakeSnoc(records, i);
      seen := seen + [record];
      i := i + 1;
    }
    assert records[..i] == records;
  }

  lemma TakeSnoc<T>(s: seq<T>, i: nat)
    requires i < |s|
    ensures s[..i + 1] == s[..i] + [s[i]]
  {
  }

  /** The map the loop leaves, listed and sorted, is the leaderboard. */
  lemma GroupedRanked(records: seq<Record>, byName: map<string, Leader>, order: seq<string>,
                      unsorted: seq<Leader>, leaders: seq<Leader>)
    requires Grouped(records, byName, order)
    requires unsorted == seq(|order|, k requires 0 <= k < |order| => byName[order[k]])
    requires leaders == SortBy(unsorted, CompareLeaders)
    ensures IsLeaderboard(records, leaders)
  {
    assert forall n :: n in order <==> n in NameSet(records) by {
      assert forall n :: n in order <==> n in Elements(order);
    }
    forall k | 0 <= k < |order| ensures unsorted[k] == LeaderFor(records, order[k]) {
      assert order[k] in Elements(order);
    }
    Ranked(records, order, unsorted, leaders);
  }

  lemma DistinctSnoc(s: seq<string>, x: string)
    requires Distinct(s) && x !in s
    ensures Distinct(s + [x])
  {
  }

  lemma NameSetSnoc(records: seq<Record>, r: Record)
    ensures NameSet(records + [r]) == NameSet(records) + {r.name}
  {
    assert forall x :: x in records + [r] <==> x in records || x == r;
  }

  /** The last step of `GroupRecordsByPerson`: the sorted map values form the leaderboard. */
  lemma Ranked(records: seq<Record>, order: seq<string>, unsorted: seq<Leader>, leaders: seq<Leader>)
    requires Distinct(order)
    requires forall n :: n in order <==> n in NameSet(records)
    requires |unsorted| == |order|
    requires forall k :: 0 <= k < |order| ==> unsorted[k] == LeaderFor(records, order[k])
    requires leaders == SortBy(unsorted, CompareLeaders)
    ensures IsLeaderboard(records, leaders)
  {
    assert Distinct(unsorted) by {
      forall i, j | 0 <= i < j < |unsorted| ensures unsorted[i] != unsorted[j] {
        assert unsorted[i].name == order[i];
      }
    }
    SortByDistinct(unsorted, CompareLeaders);
    CompareLeadersIsTotalPreorder();
    SortBySorted(unsorted, CompareLeaders);
    SameMembers(unsorted, leaders);
    RankedMembers(records, order, unsorted, leaders);
    StrictlyRanked(records, leaders);
  }

  /** Distinct leaders of one record list, sorted, are strictly ordered and have distinct names. */
  lemma StrictlyRanked(records: seq<Record>, leaders: seq<Leader>)
    requires Distinct(leaders) && SortedBy(leaders, CompareLeaders)
    requires forall l :: l in leaders ==> l == LeaderFor(records, l.name)
    ensures forall i, j :: 0 <= i < j < |leaders| ==> leaders[i].name != leaders[j].name
    ensures forall i, j :: 0 <= i < j < |leaders| ==> CompareLeaders(leaders[i], leaders[j]) < 0
  {
    forall i, j | 0 <= i < j < |leaders|
      ensures leaders[i].name != leaders[j].name && CompareLeaders(leaders[i], leaders[j]) < 0
    {
      assert leaders[i] in leaders && leaders[j] in leaders;
      CompareLeadersStrict(records, leaders[i], leaders[j]);
    }
  }

  lemma SameMembers<T>(a: seq<T>, b: seq<T>)
    requires multiset(a) == multiset(b)
    ensures forall x :: x in a <==> x in b
  {
    forall x ensures x in a <==> x in b {
      assert x in a <==> x in multiset(a);
      assert x in b <==> x in multiset(b);
    }
  }

  lemma RankedMembers(records: seq<Record>, order: seq<string>, unsorted: seq<Leader>, leaders: seq<Leader>)
    requires forall n :: n in order <==> n in NameSet(records)
    requires |unsorted| == |order|
    requires forall k :: 0 <= k < |order| ==> unsorted[k] == LeaderFor(records, order[k])
    requires forall x :: x in unsorted <==> x in leaders
    ensures forall l :: l in leaders ==> l == LeaderFor(records, l.name)
    ensures LeaderNames(leaders) == NameSet(records)
  {
    forall l | l in leaders ensures l == LeaderFor(records, l.name) {
      var k :| 0 <= k < |unsorted| && unsorted[k] == l;
    }
    forall n | n in NameSet(records) ensures n in LeaderNames(leaders) {
      var k :| 0 <= k < |order| && order[k] == n;
      assert unsorted[k] in leaders;
    }
    forall n | n in LeaderNames(leaders) ensures n in NameSet(records) {
      var l :| l in leaders && l.name == n;
      var k :| 0 <= k < |unsorted| && unsorted[k] == l;
      assert order[k] in order;
    }
  }

  /** Two different leaderboards cannot both fit the same records. */
  lemma LeaderboardUnique(records: seq<Record>, a: seq<Leader>, b: seq<Leader>)
    requires IsLeaderboard(records, a) && IsLeaderboard(records, b)
    ensures a == b
  {
    forall x ensures x in a <==> x in b {
      if x in a {
        OneLeaderPerName(records, b, x);
      }
      if x in b {
        OneLeaderPerName(records, a, x);
      }
    }
    assert Asymmetric(CompareLeaders) by {
      forall x, y ensures !(CompareLeaders(x, y) < 0 && CompareLeaders(y, x) < 0) {
        CompareAntisymmetric(x.name, y.name);
      }
    }
    StrictlySortedUnique(a, b, CompareLeaders);
  }

  /** A leader of `records` appears in every leaderboard of `records`. */
  lemma OneLeaderPerName(records: seq<Record>, leaders: seq<Leader>, x: Leader)
    requires IsLeaderboard(records, leaders)
    requires x == LeaderFor(records, x.name) && x.name in NameSet(records)
    ensures x in leaders
  {
    assert x.name in LeaderNames(leaders);
    var l :| l in leaders && l.name == x.name;
  }

  function TotalPoints(leaders: seq<Leader>): int {
    if leaders == [] then 0 else leaders[0].points + TotalPoints(leaders[1..])
  }

  /** The points of the records of each name in `names`, added up. */
  function PointsOf(records: seq<Record>, names: seq<string>): int {
    if names == [] then 0 else SumPoints(RecordsOf(records, names[0])) + PointsOf(records, names[1..])
  }

  function Names(leaders: seq<Leader>): (names: seq<string>)
    ensures |names| == |leaders|
  {
    seq(|leaders|, i requires 0 <= i < |leaders| => leaders[i].name)
  }

  /**
   * The leaderboard hands out every point exactly once: its total is the sum
   * of `pointsForRecord` over all the records.
   */
  lemma LeaderboardTotal(records: seq<Record>, leaders: seq<Leader>)
    requires IsLeaderboard(records, leaders)
    ensures TotalPoints(leaders) == SumPoints(records)
  {
    TotalPointsByName(records, leaders);
    assert Distinct(Names(leaders)) by {
      forall i, j | 0 <= i < j < |leaders| ensures Names(leaders)[i] != Names(leaders)[j] {
        assert leaders[i].name != leaders[j].name;
      }
    }
    forall n | n in NameSet(records) ensures n in Names(leaders) {
      assert n in LeaderNames(leaders);
      var l :| l in leaders && l.name == n;
      var k :| 0 <= k < |leaders| && leaders[k] == l;
      assert Names(leaders)[k] == n;
    }
    PointsOfCover(records, Names(leaders));
  }

  lemma {:induction false} TotalPointsByName(records: seq<Record>, leaders: seq<Leader>)
    requires forall l :: l in leaders ==> l == LeaderFor(records, l.name)
    ensures TotalPoints(leaders) == PointsOf(records, Names(leaders))
  {
    if leaders != [] {
      assert leaders[0] in leaders;
      assert forall l :: l in leaders[1..] ==> l in leaders;
      TotalPointsByName(records, leaders[1..]);
      assert Names(leaders)[1..] == Names(leaders[1..]);
    }
  }

  lemma {:induction false} PointsOfEmpty(names: seq<string>)
    ensures PointsOf([], names) == 0
  {
    if names != [] {
      PointsOfEmpty(names[1..]);
    }
  }

  /** One more record adds its points to its own name, if that name is listed. */
  lemma {:induction false} PointsOfSnoc(records: seq<Record>, r: Record, names: seq<string>)
    requires Distinct(names)
    ensures PointsOf(records + [r], names) == PointsOf(records, names) + if r.name in names then PointsForRecord(r) else 0
  {
    if names != [] {
      LeaderForSnoc(records, r, names[0]);
      DistinctTail(names);
      PointsOfSnoc(records, r, names[1..]);
      MemberHeadOrTail(names, r.name);
      DistinctHead(names);
    }
  }

  lemma DistinctTail(s: seq<string>)
    requires Distinct(s) && s != []
    ensures Distinct(s[1..])
  {
    forall i, j | 0 <= i < j < |s[1..]| ensures s[1..][i] != s[1..][j] {
      assert s[1..][i] == s[i + 1] && s[1..][j] == s[j + 1];
    }
  }

  lemma MemberHeadOrTail(s: seq<string>, x: string)
    requires s != []
    ensures x in s <==> x == s[0] || x in s[1..]
  {
    assert s == [s[0]] + s[1..];
  }

  lemma DistinctHead(s: seq<string>)
    requires Distinct(s) && s != []
    ensures s[0] !in s[1..]
  {
    forall k | 0 <= k < |s[1..]| ensures s[1..][k] != s[0] {
      assert s[1..][k] == s[k + 1];
    }
  }

  /** Summing over a list of distinct names that covers every record's name counts every record once. */
  lemma {:induction false} PointsOfCover(records: seq<Record>, names: seq<string>)
    requires Distinct(names)
    requires forall n :: n in NameSet(records) ==> n in names
    ensures PointsOf(records, names) == SumPoints(records)
  {
    if records == [] {
      PointsOfEmpty(names);
    } else {
      var init, last := records[..|records| - 1], records[|records| - 1];
      assert records == init + [last];
      NameSetSnoc(init, last);
      PointsOfCover(init, names);
      PointsOfSnoc(init, last, names);
    }
  }
}
