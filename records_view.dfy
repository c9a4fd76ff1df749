/**
 * The records page that `initRecords` drives: the two certificate grids, the
 * statistics counters, the leaderboard and the profile view, and the
 * leaderboard/profile view state kept in step with the `person` query
 * parameter of the URL.
 */
module RecordsView {
  import opened Wrappers
  import opened Text
  import opened Json
  import opened Records
  import opened Sorting
  import opened Ranking
  import opened Leaderboard
  import opened BrowserHistory

  datatype MessageKind = Empty | Error

  datatype LeaderRow = LeaderRow(rank: string, name: string)

  /**
   * What an output container shows: a single message (`setEmpty`,
   * `setError`, `setListMessage`), a grid of certificates, or the rows of the
   * leaderboard list.
   */
  datatype Region =
    | Message(kind: MessageKind, text: string)
    | Grid(records: seq<Record>)
    | Rows(rows: seq<LeaderRow>)

  /** The texts of the `statTotal`, `statCurrent` and `statFormer` counters. */
  datatype StatTexts = StatTexts(total: string, current: string, former: string)

  /** Where `initRecords` has got to: waiting for the records, showing them, or showing the failure. */
  datatype Phase = Loading | Ready | Failed

  /** `renderGrid`: the certificates of the records, or a note that there are none. */
  function RenderGrid(records: seq<Record>): (region: Region)
    ensures region.Grid? <==> records != []
    ensures region.Grid? ==> region.records == records
    ensures region.Message? ==> region == Message(Empty, "No records to display.")
  {
    if records == [] then Message(Empty, "No records to display.") else Grid(records)
  }

  /** `renderLeaderboard`: one row per leader, in order, labelled with its ordinal rank. */
  function RenderLeaderboard(leaders: seq<Leader>): (region: Region)
    ensures leaders == [] ==> region == Message(Empty, "No people yet.")
    ensures leaders != [] ==> region.Rows? && |region.rows| == |leaders|
    ensures leaders != [] ==> forall k :: 0 <= k < |leaders| ==>
      region.rows[k].name == leaders[k].name && region.rows[k].rank == NatToString(k + 1) + SuffixFromDigits(NatToString(k + 1))
  {
    if leaders == [] then Message(Empty, "No people yet.")
    else
      var rows := seq(|leaders|, k requires 0 <= k < |leaders| => LeaderRow(Ordinal(k + 1), leaders[k].name));
      assert forall k :: 0 <= k < |leaders| ==> rows[k].rank == NatToString(k + 1) + SuffixFromDigits(NatToString(k + 1)) by {
        forall k | 0 <= k < |leaders| ensures rows[k].rank == NatToString(k + 1) + SuffixFromDigits(NatToString(k + 1)) {
          OrdinalReadsDigits(k + 1);
        }
      }
      Rows(rows)
  }

  /** `records.filter((r) => r.status === st)`, in input order. */
  function WithStatus(records: seq<Record>, st: Status): (kept: seq<Record>)
    ensures |kept| == CountStatus(records, st)
    ensures forall r :: r in kept ==> r in records && r.status == st
  {
    if records == [] then []
    else
      var last := records[|records| - 1];
      WithStatus(records[..|records| - 1], st) + if last.status == st then [last] else []
  }

  /**
   * The filter keeps the input order: what survives of a concatenation is
   * what survives of the first part followed by what survives of the second.
   */
  lemma {:induction false} WithStatusAppend(a: seq<Record>, b: seq<Record>, st: Status)
    ensures WithStatus(a + b, st) == WithStatus(a, st) + WithStatus(b, st)
  {
    if b == [] {
      assert a + b == a;
    } else {
      var init, last := b[..|b| - 1], b[|b| - 1];
      assert (a + b)[..|a + b| - 1] == a + init && (a + b)[|a + b| - 1] == last;
      WithStatusAppend(a, init, st);
    }
  }

  /** A single record is kept exactly when it has the status. */
  lemma WithStatusSingle(r: Record, st: Status)
    ensures WithStatus([r], st) == if r.status == st then [r] else []
  {
    assert [r][..0] == [];
  }

  /** Every record is either current or former. */
  lemma {:induction false} StatusPartition(records: seq<Record>)
    ensures CountStatus(records, Current) + CountStatus(records, Former) == |records|
  {
    if records != [] {
      StatusPartition(records[..|records| - 1]);
    }
  }

  /** `updateStats`: the counter texts; the current count is the total less the former count. */
  function StatsFor(records: seq<Record>): (texts: StatTexts)
    ensures texts.total == NatToString(|records|)
    ensures texts.current == NatToString(CountStatus(records, Current))
    ensures texts.former == NatToString(CountStatus(records, Former))
  {
    var formerCount := |WithStatus(records, Former)|;
    StatusPartition(records);
    StatTexts(NatToString(|records|), NatToString(|records| - formerCount), NatToString(formerCount))
  }

  /** An element that goes no earlier than everything in a sorted list can go after it. */
  lemma SortedSnoc<T>(s: seq<T>, x: T, cmp: (T, T) -> int)
    requires SortedBy(s, cmp)
    requires forall y :: y in s ==> cmp(y, x) <= 0
    ensures SortedBy(s + [x], cmp)
  {
    var r := s + [x];
    forall i, j | 0 <= i < j < |r| ensures cmp(r[i], r[j]) <= 0 {
      assert r[i] == s[i];
      if j == |s| {
        assert s[i] in s;
      } else {
        assert r[j] == s[j];
      }
    }
  }

  lemma SortedPrefix<T>(init: seq<T>, x: T, cmp: (T, T) -> int)
    requires SortedBy(init + [x], cmp)
    ensures SortedBy(init, cmp)
    ensures forall y :: y in init ==> cmp(y, x) <= 0
  {
    var s := init + [x];
    forall i, j | 0 <= i < j < |init| ensures cmp(init[i], init[j]) <= 0 {
      assert init[i] == s[i] && init[j] == s[j];
    }
    forall y | y in init ensures cmp(y, x) <= 0 {
      var i :| 0 <= i < |init| && init[i] == y;
      assert s[i] == y && s[|init|] == x;
    }
  }

  /** Filtering a sorted list keeps it sorted: the former grid is newest first too. */
  lemma {:induction false} WithStatusSorted(records: seq<Record>, st: Status)
    requires SortedBy(records, CompareRecords)
    ensures SortedBy(WithStatus(records, st), CompareRecords)
  {
    if records != [] {
      var init, last := records[..|records| - 1], records[|records| - 1];
      assert records == init + [last];
      SortedPrefix(init, last, CompareRecords);
      WithStatusSorted(init, st);
      if last.status == st {
        SortedSnoc(WithStatus(init, st), last, CompareRecords);
      } else {
        assert WithStatus(init, st) + [] == WithStatus(init, st);
      }
    }
  }

  lemma {:induction false} RecordsOfWithin(records: seq<Record>, name: string)
    ensures forall r :: r in RecordsOf(records, name) ==> r in records && r.name == name
  {
    if records != [] {
      var init := records[..|records| - 1];
      RecordsOfWithin(init, name);
      assert forall r :: r in init ==> r in records;
    }
  }

  /** A person's records taken from a sorted list are sorted. */
  lemma {:induction false} RecordsOfSorted(records: seq<Record>, name: string)
    requires SortedBy(records, CompareRecords)
    ensures SortedBy(RecordsOf(records, name), CompareRecords)
  {
    if records != [] {
      var init, last := records[..|records| - 1], records[|records| - 1];
      assert records == init + [last];
      SortedPrefix(init, last, CompareRecords);
      RecordsOfSorted(init, name);
      RecordsOfWithin(init, name);
      if last.name == name {
        SortedSnoc(RecordsOf(init, name), last, CompareRecords);
      } else {
        assert RecordsOf(init, name) + [] == RecordsOf(init, name);
      }
    }
  }

  /**
   * `renderProfile` sorts a copy of the person's records; since the leaders
   * were grouped from the sorted list, that sort leaves them as they are.
   */
  lemma ProfileKeepsOrder(records: seq<Record>, name: string)
    requires SortedBy(records, CompareRecords)
    ensures SortRecords(RecordsOf(records, name)) == RecordsOf(records, name)
  {
    RecordsOfSorted(records, name);
    SortBySortedIsIdentity(RecordsOf(records, name), CompareRecords);
  }

  /** `leaders.find((l) => l.name === personName)`. */
  function FindLeader(leaders: seq<Leader>, name: string): (found: Option<Leader>)
    ensures found.None? <==> forall l :: l in leaders ==> l.name != name
    ensures found.Some? ==> found.value in leaders && found.value.name == name
  {
    if leaders == [] then None
    else if leaders[0].name == name then Some(leaders[0])
    else FindLeader(leaders[1..], name)
  }

  /** `getPersonParam`: the `person` parameter, trimmed, if it is not blank. */
  function GetPersonParam(loc: Location): (person: Option<string>)
    ensures person.Some? <==> loc.person.Some? && !AllSpace(loc.person.value)
    ensures person.Some? ==> person.value == Trim(loc.person.value) && Meaningful(person.value)
  {
    match loc.person
    case None => None
    case Some(v) => AsNonEmptyString(Some(JString(v)))
  }

  /** The URL `setPersonParam` builds: the parameter set to a non-empty name, deleted otherwise. */
  function WithPerson(loc: Location, personName: Option<string>): (next: Location)
    ensures next.hash == loc.hash
    ensures next.person == if personName.Some? && personName.value != "" then personName else None
  {
    if personName.Some? && personName.value != "" then loc.(person := personName)
    else loc.(person := None)
  }

  /** The parameter `setPersonParam` writes reads back as the name written, or as absent. */
  lemma PersonParamRoundTrip(loc: Location, personName: Option<string>)
    requires personName.Some? ==> Meaningful(personName.value)
    ensures GetPersonParam(WithPerson(loc, personName)) == personName
  {
    if personName.Some? {
      TrimIdempotent(personName.value);
    }
  }

  /** The history after `setPersonParam`: the new URL pushed, or written over the current entry. */
  function AfterSetPerson(entries: seq<Location>, index: nat, personName: Option<string>, replace: bool): (after: (seq<Location>, nat))
    requires index < |entries|
    ensures replace ==> |after.0| == |entries| && after.1 == index
    ensures !replace ==> |after.0| == index + 2 && after.1 == index + 1
    ensures after.0[after.1] == WithPerson(entries[index], personName)
    ensures after.0[..index] == entries[..index]
    ensures forall k :: 0 <= k < |after.0| && k != after.1 ==> after.0[k] == entries[k]
  {
    var next := WithPerson(entries[index], personName);
    if replace then (entries[index := next], index) else (entries[..index + 1] + [next], index + 1)
  }

  /** `setPersonParam`. */
  method SetPersonParam(history: History, personName: Option<string>, replace: bool)
    requires history.Valid()
    modifies history
    ensures history.Valid()
    ensures (history.entries, history.index) == AfterSetPerson(old(history.entries), old(history.index), personName, replace)
    ensures personName.None? || Meaningful(personName.value) ==> GetPersonParam(history.Current()) == personName
  {
    var next := WithPerson(history.Current(), personName);
    if personName.None? || Meaningful(personName.value) {
      PersonParamRoundTrip(history.Current(), personName);
    }
    if replace {
      history.ReplaceState(next);
    } else {
      history.PushState(next);
    }
  }

  /** Every leader has a name `asNonEmptyString` gives back unchanged. */
  lemma LeaderNamesMeaningful(records: seq<Record>, leaders: seq<Leader>)
    requires forall r :: r in records ==> WellFormed(r)
    requires IsLeaderboard(records, leaders)
    ensures forall l :: l in leaders ==> Meaningful(l.name)
  {
    forall l | l in leaders ensures Meaningful(l.name) {
      assert l.name in LeaderNames(leaders);
      var r :| r in records && r.name == l.name;
    }
  }

  /** The sorted records are the loaded ones, so they are well formed too. */
  lemma SortedWellFormed(loaded: seq<Record>)
    requires forall k :: 0 <= k < |loaded| ==> WellFormed(loaded[k])
    ensures forall r :: r in SortRecords(loaded) ==> WellFormed(r)
  {
    SortRecordsSorted(loaded);
    forall r | r in SortRecords(loaded) ensures WellFormed(r) {
      assert r in multiset(SortRecords(loaded));
      assert r in multiset(loaded);
      var k :| 0 <= k < |loaded| && loaded[k] == r;
    }
  }

  /** The page state `initRecords` keeps in its closures and in the DOM. */
  class RecordsPage {
    const history: History
    var phase: Phase
    var recordsGrid: Region
    var formerGrid: Region
    /** The leaderboard container; while it holds the leaderboard list, this is the list. */
    var peopleLeaderboard: Region
    var profileGrid: Region
    /** None when one of the three counters is missing from the page: `updateStats` then writes nothing. */
    var stats: Option<StatTexts>
    var leaderboardHidden: bool
    var profileHidden: bool
    var profileName: string
    var leaders: seq<Leader>

    ghost predicate Valid()
      reads this, history
    {
      && history.Valid()
      && (phase == Ready ==> forall l :: l in leaders ==> Meaningful(l.name))
      && (phase == Ready ==> forall i, j :: 0 <= i < j < |leaders| ==> leaders[i].name != leaders[j].name)
    }

    predicate ShowsLeaderboard()
      reads this
    {
      !leaderboardHidden && profileHidden && profileName == ""
    }

    predicate ShowsProfile(leader: Leader)
      reads this
    {
      leaderboardHidden && !profileHidden && profileName == leader.name &&
      profileGrid == RenderGrid(SortRecords(leader.records))
    }

    /** The view is the one the URL's `person` parameter names. */
    ghost predicate InSync()
      reads this, history
      requires Valid()
    {
      phase == Ready ==>
        match GetPersonParam(history.Current())
        case None => ShowsLeaderboard()
        case Some(name) => FindLeader(leaders, name).Some? && ShowsProfile(FindLeader(leaders, name).value)
    }

    /**
     * The start of `initRecords`: the containers are found and show their
     * loading messages; the visibility flags, the profile name and the
     * counters are as the page's markup has them.
     */
    constructor (history: History, stats: Option<StatTexts>,
                 leaderboardHidden: bool, profileHidden: bool, profileName: string)
      requires history.Valid()
      ensures Valid() && this.history == history && phase == Loading
      ensures recordsGrid == Message(Empty, "Loading records…") && formerGrid == Message(Empty, "Loading records…")
      ensures peopleLeaderboard == Message(Empty, "Loading people…") && profileGrid == Message(Empty, "Loading…")
      ensures this.stats == stats && leaders == []
      ensures this.leaderboardHidden == leaderboardHidden && this.profileHidden == profileHidden
      ensures this.profileName == profileName
    {
      this.history := history;
      phase := Loading;
      recordsGrid := Message(Empty, "Loading records…");
      formerGrid := Message(Empty, "Loading records…");
      peopleLeaderboard := Message(Empty, "Loading people…");
      profileGrid := Message(Empty, "Loading…");
      this.stats := stats;
      this.leaderboardHidden := leaderboardHidden;
      this.profileHidden := profileHidden;
      this.profileName := profileName;
      leaders := [];
    }

    /** `updateStats`. */
    method UpdateStats(records: seq<Record>)
      modifies this
      ensures stats == if old(stats).Some? then Some(StatsFor(records)) else None
      ensures phase == old(phase) && leaders == old(leaders) && recordsGrid == old(recordsGrid)
      ensures formerGrid == old(formerGrid) && peopleLeaderboard == old(peopleLeaderboard)
      ensures profileGrid == old(profileGrid) && profileName == old(profileName)
      ensures leaderboardHidden == old(leaderboardHidden) && profileHidden == old(profileHidden)
    {
      if stats.Some? {
        stats := Some(StatsFor(records));
      }
    }

    /**
     * `showLeaderboard`: shows the leaderboard, clears the profile name and,
     * when `updateUrl`, deletes the `person` parameter by a push, or by a
     * replace when `replaceUrl`.
     */
    method ShowLeaderboard(updateUrl: bool, replaceUrl: bool)
      requires Valid() && phase == Ready
      modifies this, history
      ensures Valid() && phase == Ready && ShowsLeaderboard()
      ensures leaders == old(leaders) && profileGrid == old(profileGrid) && stats == old(stats)
      ensures recordsGrid == old(recordsGrid) && formerGrid == old(formerGrid)
      ensures peopleLeaderboard == old(peopleLeaderboard)
      ensures updateUrl ==>
        (history.entries, history.index) == AfterSetPerson(old(history.entries), old(history.index), None, replaceUrl)
      ensures !updateUrl ==> history.entries == old(history.entries) && history.index == old(history.index)
      ensures updateUrl ==> InSync()
    {
      leaderboardHidden := false;
      profileHidden := true;
      profileName := "";
      if updateUrl {
        SetPersonParam(history, None, replaceUrl);
      }
    }

    /**
     * `showProfile`: for a name that is not on the leaderboard nothing
     * happens; otherwise the profile of that leader replaces the leaderboard
     * and, when `updateUrl`, the `person` parameter is set to the name by a
     * push, or by a replace when `replaceUrl`.
     */
    method ShowProfile(personName: string, updateUrl: bool, replaceUrl: bool)
      requires Valid() && phase == Ready
      modifies this, history
      ensures Valid() && phase == Ready
      ensures leaders == old(leaders) && stats == old(stats)
      ensures recordsGrid == old(recordsGrid) && formerGrid == old(formerGrid)
      ensures peopleLeaderboard == old(peopleLeaderboard)
      ensures FindLeader(leaders, personName).None? ==>
        && leaderboardHidden == old(leaderboardHidden) && profileHidden == old(profileHidden)
        && profileName == old(profileName) && profileGrid == old(profileGrid)
        && history.entries == old(history.entries) && history.index == old(history.index)
      ensures FindLeader(leaders, personName).Some? ==> ShowsProfile(FindLeader(leaders, personName).value)
      ensures FindLeader(leaders, personName).Some? && updateUrl ==>
        (history.entries, history.index) == AfterSetPerson(old(history.entries), old(history.index), Some(personName), replaceUrl)
      ensures !updateUrl ==> history.entries == old(history.entries) && history.index == old(history.index)
      ensures FindLeader(leaders, personName).Some? && updateUrl ==> InSync()
    {
      var found := FindLeader(leaders, personName);
      if found.None? {
        return;
      }
      OpenProfile(found.value, updateUrl, replaceUrl);
    }

    /** The part of `showProfile` after the leader has been found. */
    method OpenProfile(leader: Leader, updateUrl: bool, replaceUrl: bool)
      requires Valid() && phase == Ready && FindLeader(leaders, leader.name) == Some(leader)
      modifies this, history
      ensures Valid() && phase == Ready && ShowsProfile(leader)
      ensures leaders == old(leaders) && stats == old(stats)
      ensures recordsGrid == old(recordsGrid) && formerGrid == old(formerGrid)
      ensures peopleLeaderboard == old(peopleLeaderboard)
      ensures updateUrl ==>
        (history.entries, history.index) == AfterSetPerson(old(history.entries), old(history.index), Some(leader.name), replaceUrl)
      ensures !updateUrl ==> history.entries == old(history.entries) && history.index == old(history.index)
      ensures updateUrl ==> InSync()
    {
      ShowProfileView(leader);
      if updateUrl {
        SetPersonParam(history, Some(leader.name), replaceUrl);
      }
    }

    /** The profile of `leader` takes the place of the leaderboard. */
    method ShowProfileView(leader: Leader)
      modifies this
      ensures ShowsProfile(leader)
      ensures phase == old(phase) && leaders == old(leaders) && stats == old(stats)
      ensures recordsGrid == old(recordsGrid) && formerGrid == old(formerGrid)
      ensures peopleLeaderboard == old(peopleLeaderboard)
    {
      leaderboardHidden := true;
      profileHidden := false;
      profileName := leader.name;
      profileGrid := RenderGrid(SortRecords(leader.records));
    }

    /**
     * The `try`/`catch` of `initRecords` once `loadRecords` has settled. On
     * failure the same message goes into both grids, the leaderboard
     * container and the profile grid. On success the records are sorted,
     * counted, rendered, grouped into the leaderboard, and the view is set
     * from the URL without touching the history.
     */
    method Load(fetched: Fetched)
      requires Valid() && phase == Loading
      modifies this, history
      ensures Valid()
      ensures history.entries == old(history.entries) && history.index == old(history.index)
      ensures LoadRecords(fetched).Err? ==>
        var message := LoadRecords(fetched).message;
        && phase == Failed && stats == old(stats) && leaders == old(leaders)
        && recordsGrid == Message(Error, message) && formerGrid == Message(Error, message)
        && peopleLeaderboard == Message(Error, message) && profileGrid == Message(Error, message)
        && leaderboardHidden == old(leaderboardHidden) && profileHidden == old(profileHidden)
        && profileName == old(profileName)
      ensures LoadRecords(fetched).Ok? ==>
        var records := SortRecords(LoadRecords(fetched).value);
        && phase == Ready
        && stats == (if old(stats).Some? then Some(StatsFor(records)) else None)
        && recordsGrid == RenderGrid(records)
        && formerGrid == RenderGrid(WithStatus(records, Former))
        && IsLeaderboard(records, leaders)
        && peopleLeaderboard == RenderLeaderboard(leaders)
      ensures LoadRecords(fetched).Ok? ==>
        match GetPersonParam(history.Current())
        case None => !leaderboardHidden && profileHidden && profileName == old(profileName) && profileGrid == old(profileGrid)
        case Some(name) =>
          if FindLeader(leaders, name).Some? then ShowsProfile(FindLeader(leaders, name).value)
          else
            && leaderboardHidden == old(leaderboardHidden) && profileHidden == old(profileHidden)
            && profileName == old(profileName) && profileGrid == old(profileGrid)
    {
      var loaded := LoadRecords(fetched);
      if loaded.Err? {
        var message := loaded.message;
        recordsGrid := Message(Error, message);
        formerGrid := Message(Error, message);
        peopleLeaderboard := Message(Error, message);
        profileGrid := Message(Error, message);
        phase := Failed;
        return;
      }
      SortedWellFormed(loaded.value);
      Render(SortRecords(loaded.value));
      ShowInitialView();
    }

    /**
     * The success branch of `initRecords` up to the choice of view: counters,
     * both grids and the leaderboard, from the sorted records.
     */
    method Render(records: seq<Record>)
      requires Valid() && phase == Loading
      requires forall r :: r in records ==> WellFormed(r)
      modifies this
      ensures Valid() && phase == Ready
      ensures stats == (if old(stats).Some? then Some(StatsFor(records)) else None)
      ensures recordsGrid == RenderGrid(records)
      ensures formerGrid == RenderGrid(WithStatus(records, Former))
      ensures IsLeaderboard(records, leaders)
      ensures peopleLeaderboard == RenderLeaderboard(leaders)
      ensures profileName == old(profileName) && profileGrid == old(profileGrid)
      ensures leaderboardHidden == old(leaderboardHidden) && profileHidden == old(profileHidden)
    {
      UpdateStats(records);
      recordsGrid := RenderGrid(records);
      formerGrid := RenderGrid(WithStatus(records, Former));
      var grouped := GroupRecordsByPerson(records);
      LeaderNamesMeaningful(records, grouped);
      leaders := grouped;
      peopleLeaderboard := RenderLeaderboard(leaders);
      phase := Ready;
    }

    /**
     * The view `initRecords` starts from once the records are in: the profile
     * the URL names, or the leaderboard when it names nobody. The URL is not
     * written.
     */
    method ShowInitialView()
      requires Valid() && phase == Ready
      modifies this, history
      ensures Valid() && phase == Ready && leaders == old(leaders) && stats == old(stats)
      ensures recordsGrid == old(recordsGrid) && formerGrid == old(formerGrid)
      ensures peopleLeaderboard == old(peopleLeaderboard)
      ensures history.entries == old(history.entries) && history.index == old(history.index)
      ensures
        match GetPersonParam(history.Current())
        case None => !leaderboardHidden && profileHidden && profileName == old(profileName) && profileGrid == old(profileGrid)
        case Some(name) =>
          if FindLeader(leaders, name).Some? then ShowsProfile(FindLeader(leaders, name).value)
          else
            && leaderboardHidden == old(leaderboardHidden) && profileHidden == old(profileHidden)
            && profileName == old(profileName) && profileGrid == old(profileGrid)
    {
      var initialPerson := GetPersonParam(history.Current());
      if initialPerson.Some? {
        ShowProfile(initialPerson.value, false, false);
      } else {
        leaderboardHidden := false;
        profileHidden := true;
      }
    }

    /** A click on the arrow of the `k`-th leaderboard row opens that profile with a push. */
    method OnArrowClick(k: nat)
      requires Valid()
      modifies this, history
      ensures Valid() && phase == old(phase) && leaders == old(leaders)
      ensures recordsGrid == old(recordsGrid) && formerGrid == old(formerGrid)
      ensures peopleLeaderboard == old(peopleLeaderboard) && stats == old(stats)
      ensures old(phase) == Ready && k < |leaders| ==>
        && ShowsProfile(leaders[k])
        && (history.entries, history.index) == AfterSetPerson(old(history.entries), old(history.index), Some(leaders[k].name), false)
        && InSync()
      ensures !(old(phase) == Ready && k < |leaders|) ==>
        && history.entries == old(history.entries) && history.index == old(history.index)
        && leaderboardHidden == old(leaderboardHidden) && profileHidden == old(profileHidden)
        && profileName == old(profileName) && profileGrid == old(profileGrid)
    {
      if phase == Ready && k < |leaders| {
        FindNamed(leaders, k);
        ShowProfile(leaders[k].name, true, false);
      }
    }

    /** A click on the profile's back button returns to the leaderboard with a push. */
    method OnBackClick()
      requires Valid()
      modifies this, history
      ensures Valid() && phase == old(phase) && leaders == old(leaders)
      ensures recordsGrid == old(recordsGrid) && formerGrid == old(formerGrid)
      ensures peopleLeaderboard == old(peopleLeaderboard) && stats == old(stats)
      ensures old(phase) == Ready ==>
        && ShowsLeaderboard() && profileGrid == old(profileGrid)
        && (history.entries, history.index) == AfterSetPerson(old(history.entries), old(history.index), None, false)
        && InSync()
      ensures old(phase) != Ready ==>
        && history.entries == old(history.entries) && history.index == old(history.index)
        && leaderboardHidden == old(leaderboardHidden) && profileHidden == old(profileHidden)
        && profileName == old(profileName) && profileGrid == old(profileGrid)
    {
      if phase == Ready {
        ShowLeaderboard(true, false);
      }
    }

    /**
     * The `popstate` handler: the view is derived again from the URL the
     * browser has moved to, and the history is left alone. A name that is
     * not on the leaderboard leaves the view as it was.
     */
    method OnPopState()
      requires Valid()
      modifies this, history
      ensures Valid() && phase == old(phase) && leaders == old(leaders)
      ensures recordsGrid == old(recordsGrid) && formerGrid == old(formerGrid)
      ensures peopleLeaderboard == old(peopleLeaderboard) && stats == old(stats)
      ensures history.entries == old(history.entries) && history.index == old(history.index)
      ensures old(phase) == Ready ==>
        match GetPersonParam(history.Current())
        case None => ShowsLeaderboard() && profileGrid == old(profileGrid) && InSync()
        case Some(name) =>
          if FindLeader(leaders, name).Some? then ShowsProfile(FindLeader(leaders, name).value) && InSync()
          else
            && leaderboardHidden == old(leaderboardHidden) && profileHidden == old(profileHidden)
            && profileName == old(profileName) && profileGrid == old(profileGrid)
      ensures old(phase) != Ready ==>
        && leaderboardHidden == old(leaderboardHidden) && profileHidden == old(profileHidden)
        && profileName == old(profileName) && profileGrid == old(profileGrid)
    {
      if phase == Ready {
        var person := GetPersonParam(history.Current());
        if person.Some? {
          ShowProfile(person.value, false, false);
        } else {
          ShowLeaderboard(false, false);
        }
      }
    }

    /**
     * The user's back or forward navigation: the browser moves through the
     * history and, when it lands on another entry, fires `popstate`. The
     * view then matches the URL unless it names someone not on the
     * leaderboard. A move of 0 entries is `history.go(0)`, which reloads
     * the page instead; the model leaves the page as it is for it.
     */
    method OnHistoryMove(delta: int)
      requires Valid()
      modifies this, history
      ensures Valid() && phase == old(phase) && leaders == old(leaders)
      ensures recordsGrid == old(recordsGrid) && formerGrid == old(formerGrid)
      ensures peopleLeaderboard == old(peopleLeaderboard) && stats == old(stats)
      ensures history.entries == old(history.entries)
      ensures history.index ==
        if 0 <= old(history.index) + delta < |history.entries| then old(history.index) + delta else old(history.index)
      ensures delta == 0 ==>
        && leaderboardHidden == old(leaderboardHidden) && profileHidden == old(profileHidden)
        && profileName == old(profileName) && profileGrid == old(profileGrid)
      ensures
        && old(phase) == Ready && delta != 0 && 0 <= old(history.index) + delta < |history.entries|
        && GetPersonParam(history.Current()).None?
        ==> ShowsLeaderboard() && profileGrid == old(profileGrid)
      ensures old(phase) == Ready && delta != 0 && 0 <= old(history.index) + delta < |history.entries| &&
        (GetPersonParam(history.Current()).None? || FindLeader(leaders, GetPersonParam(history.Current()).value).Some?)
        ==> InSync()
    {
      if delta != 0 && 0 <= history.index + delta < |history.entries| {
        history.Go(delta);
        OnPopState();
      }
    }
  }

  /** Looking up the name of a leader among leaders with distinct names finds that leader. */
  lemma {:induction false} FindNamed(leaders: seq<Leader>, k: nat)
    requires k < |leaders|
    requires forall i, j :: 0 <= i < j < |leaders| ==> leaders[i].name != leaders[j].name
    ensures FindLeader(leaders, leaders[k].name) == Some(leaders[k])
  {
    if k > 0 {
      assert leaders[0].name != leaders[k].name;
      assert leaders[1..][k - 1] == leaders[k];
      FindNamed(leaders[1..], k - 1);
    }
  }
}
