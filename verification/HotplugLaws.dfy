/** What the hot-plug events of a run tell. The log of the model records with each event the
    key it was sent for; the laws by key are about that log. An event of the program shows
    only its kind and a serial number, and the laws by serial number are about what it shows. */
module HotplugLaws {
  import opened Decimal
  import opened Hotplug

  lemma ListsOneLess(cs: seq<Change>, added: bool, m: Known, S: set<Key>)
    requires Lists(cs, added, m, S)
    ensures cs == [] ==> S == {}
    ensures cs != [] ==>
      var last := cs[|cs| - 1];
      last.key in S && last == Change(added, last.key, m[last.key].serial)
      && Lists(cs[..|cs| - 1], added, m, S - {last.key})
  {
    if cs != [] {
      var rest, last := cs[..|cs| - 1], cs[|cs| - 1];
      forall k | k in S - {last.key} ensures exists i :: 0 <= i < |rest| && rest[i].key == k {
        var i :| 0 <= i < |cs| && cs[i].key == k;
        assert rest[i].key == k;
      }
    }
  }

  lemma AllButLast<T>(a: seq<T>, b: seq<T>)
    requires b != []
    ensures (a + b)[..|a + b| - 1] == a + b[..|b| - 1]
    ensures (a + b)[|a + b| - 1] == b[|b| - 1]
  {
  }

  // ---- the set of keys ----

  /** The keys that the changes of the log say are present. */
  function Replay(cs: seq<Change>): set<Key> {
    if cs == [] then {}
    else
      var last := cs[|cs| - 1];
      if last.added then Replay(cs[..|cs| - 1]) + {last.key} else Replay(cs[..|cs| - 1]) - {last.key}
  }

  lemma {:induction false} ReplayLists(before: seq<Change>, cs: seq<Change>, added: bool, m: Known, S: set<Key>)
    requires Lists(cs, added, m, S)
    ensures Replay(before + cs) == if added then Replay(before) + S else Replay(before) - S
    decreases |cs|
  {
    hide Lists;
    ListsOneLess(cs, added, m, S);
    if cs == [] {
      assert before + cs == before;
    } else {
      var last := cs[|cs| - 1];
      AllButLast(before, cs);
      ReplayLists(before, cs[..|cs| - 1], added, m, S - {last.key});
      assert S == (S - {last.key}) + {last.key};
    }
  }

  lemma ReplayRound(before: seq<Change>, known: Known, current: Known, cs: seq<Change>)
    requires IsRound(known, current, cs) && Replay(before) == known.Keys
    ensures Replay(before + cs) == current.Keys
  {
    hide Lists, Replay;
    var news: nat :| IsSplitRound(known, current, cs, news);
    ReplayLists(before, cs[..news], true, current, current.Keys - known.Keys);
    ReplayLists(before + cs[..news], cs[news..], false, known, known.Keys - current.Keys);
    assert before + cs[..news] + cs[news..] == before + cs;
  }

  /** After every completed round the events replay to exactly the devices then present,
      whatever order the maps were walked in. */
  lemma {:induction false} ReplayIsKnown(nodes: nat -> seq<Node>, rounds: nat, cs: seq<Change>)
    requires IsRun(nodes, rounds, cs)
    ensures Replay(cs) == KnownAfter(nodes, rounds).Keys
  {
    hide IsRound, KnownAfter, Replay;
    if rounds == 0 {
      RunOfNothing(nodes);
      assert Replay([]) == {} by { NothingReplays(); }
    } else {
      var at := SplitRun(nodes, rounds, cs);
      ReplayIsKnown(nodes, rounds - 1, cs[..at]);
      ReplayRound(cs[..at], KnownAfter(nodes, rounds - 1), KnownAfter(nodes, rounds), cs[at..]);
    }
  }

  lemma NothingReplays()
    ensures Replay([]) == {}
  {
  }

  lemma SplitRun(nodes: nat -> seq<Node>, rounds: nat, cs: seq<Change>) returns (at: nat)
    requires rounds > 0 && IsRun(nodes, rounds, cs)
    ensures at <= |cs| && cs[..at] + cs[at..] == cs
    ensures IsRun(nodes, rounds - 1, cs[..at])
    ensures IsRound(KnownAfter(nodes, rounds - 1), KnownAfter(nodes, rounds), cs[at..])
  {
    hide Lists, IsSplitRound, Snapshot;
    at :| 0 <= at <= |cs| && IsRun(nodes, rounds - 1, cs[..at])
          && IsRound(KnownAfter(nodes, rounds - 1), KnownAfter(nodes, rounds), cs[at..]);
  }

  // ---- one key ----

  /** The added flags of the changes of one key, in order. */
  function Story(cs: seq<Change>, k: Key): seq<bool> {
    if cs == [] then []
    else
      var last := cs[|cs| - 1];
      Story(cs[..|cs| - 1], k) + (if last.key == k then [last.added] else [])
  }

  lemma {:induction false} StoryConcat(a: seq<Change>, b: seq<Change>, k: Key)
    ensures Story(a + b, k) == Story(a, k) + Story(b, k)
    decreases |b|
  {
    if b == [] {
      assert a + b == a;
    } else {
      AllButLast(a, b);
      StoryConcat(a, b[..|b| - 1], k);
    }
  }

  lemma {:induction false} StoryOfLists(cs: seq<Change>, added: bool, m: Known, S: set<Key>, k: Key)
    requires Lists(cs, added, m, S)
    ensures Story(cs, k) == if k in S then [added] else []
    decreases |cs|
  {
    hide Lists;
    ListsOneLess(cs, added, m, S);
    if cs != [] {
      StoryOfLists(cs[..|cs| - 1], added, m, S - {cs[|cs| - 1].key}, k);
    }
  }

  /** Added, removed, added, ... */
  ghost predicate Alternates(story: seq<bool>) {
    forall i :: 0 <= i < |story| ==> (story[i] <==> i % 2 == 0)
  }

  lemma {:induction false} StoryOfRound(known: Known, current: Known, cs: seq<Change>, k: Key)
    requires IsRound(known, current, cs)
    ensures Story(cs, k) == if k in known <==> k in current then [] else [k in current]
  {
    hide Lists, Story;
    var news: nat :| IsSplitRound(known, current, cs, news);
    StoryOfLists(cs[..news], true, current, current.Keys - known.Keys, k);
    StoryOfLists(cs[news..], false, known, known.Keys - current.Keys, k);
    StoryConcat(cs[..news], cs[news..], k);
    assert cs[..news] + cs[news..] == cs;
  }

  lemma {:induction false} StoryOfCutRound(known: Known, current: Known, cs: seq<Change>, k: Key)
    requires IsCutRound(known, current, cs)
    ensures Story(cs, k) == [] || Story(cs, k) == [k !in known]
  {
    hide Lists, Story;
    if S :| IsCutEarly(known, current, cs, S) {
      StoryOfLists(cs, true, current, S, k);
    } else {
      var news: nat, S :| IsCutLate(known, current, cs, news, S);
      StoryOfLists(cs[..news], true, current, current.Keys - known.Keys, k);
      StoryOfLists(cs[news..], false, known, S, k);
      StoryConcat(cs[..news], cs[news..], k);
      assert cs[..news] + cs[news..] == cs;
    }
  }

  /** The events of each key alternate, the first is an addition, and the last tells whether
      the device is there. */
  lemma {:induction false} KeyAlternates(nodes: nat -> seq<Node>, rounds: nat, cs: seq<Change>, k: Key)
    requires IsRun(nodes, rounds, cs)
    ensures Alternates(Story(cs, k))
    ensures k in KnownAfter(nodes, rounds) <==> |Story(cs, k)| % 2 == 1
  {
    hide IsRound, KnownAfter;
    if rounds == 0 {
      RunOfNothing(nodes);
      assert Story([], k) == [] by { NothingTold(k); }
    } else {
      var at := SplitRun(nodes, rounds, cs);
      KeyAlternates(nodes, rounds - 1, cs[..at], k);
      StoryOfRound(KnownAfter(nodes, rounds - 1), KnownAfter(nodes, rounds), cs[at..], k);
      StoryConcat(cs[..at], cs[at..], k);
    }
  }

  lemma NothingTold(k: Key)
    ensures Story([], k) == []
  {
  }

  /** The same holds of a log whose last round a closed channel cut short. */
  lemma CutRunAlternates(nodes: nat -> seq<Node>, rounds: nat, cs: seq<Change>, cut: seq<Change>, k: Key)
    requires IsRun(nodes, rounds, cs)
    requires IsCutRound(KnownAfter(nodes, rounds), KnownAfter(nodes, rounds + 1), cut)
    ensures Alternates(Story(cs + cut, k))
  {
    hide IsRun, IsCutRound, KnownAfter;
    KeyAlternates(nodes, rounds, cs, k);
    StoryOfCutRound(KnownAfter(nodes, rounds), KnownAfter(nodes, rounds + 1), cut, k);
    StoryConcat(cs, cut, k);
  }

  // ---- one round ----

  lemma {:induction false} ListsSize(cs: seq<Change>, added: bool, m: Known, S: set<Key>)
    requires Lists(cs, added, m, S)
    ensures |cs| == |S|
    decreases |cs|
  {
    hide Lists;
    ListsOneLess(cs, added, m, S);
    if cs != [] {
      ListsSize(cs[..|cs| - 1], added, m, S - {cs[|cs| - 1].key});
    }
  }

  ghost predicate Tells(cs: seq<Change>, k: Key) {
    exists i :: 0 <= i < |cs| && cs[i].key == k
  }

  lemma TellsEither(a: seq<Change>, b: seq<Change>, k: Key)
    ensures Tells(a + b, k) <==> Tells(a, k) || Tells(b, k)
  {
    if i :| 0 <= i < |a| && a[i].key == k {
      assert (a + b)[i] == a[i];
    }
    if i :| 0 <= i < |b| && b[i].key == k {
      assert (a + b)[|a| + i] == b[i];
    }
  }

  lemma ListsTell(cs: seq<Change>, added: bool, m: Known, S: set<Key>, k: Key)
    requires Lists(cs, added, m, S)
    ensures Tells(cs, k) <==> k in S
  {
  }

  ghost predicate KeysDiffer(cs: seq<Change>) {
    forall i, j :: 0 <= i < j < |cs| ==> cs[i].key != cs[j].key
  }

  lemma BothDiffer(a: seq<Change>, b: seq<Change>, m: Known, n: Known, S: set<Key>, T: set<Key>)
    requires Lists(a, true, m, S) && Lists(b, false, n, T) && S !! T
    ensures KeysDiffer(a + b)
  {
    var all := a + b;
    forall i, j | 0 <= i < j < |all| ensures all[i].key != all[j].key {
      assert all[i] == if i < |a| then a[i] else b[i - |a|];
      assert all[j] == if j < |a| then a[j] else b[j - |a|];
    }
  }

  lemma AdditionsFirst(a: seq<Change>, b: seq<Change>, m: Known, n: Known, S: set<Key>, T: set<Key>)
    requires Lists(a, true, m, S) && Lists(b, false, n, T)
    ensures forall i :: 0 <= i < |a + b| ==> ((a + b)[i].added <==> i < |S|)
  {
    ListsSize(a, true, m, S);
    assert forall i :: |a| <= i < |a + b| ==> (a + b)[i] == b[i - |a|];
  }

  /** A round has one event for each key that appeared or disappeared and for no other, and
      the additions come first. */
  lemma {:induction false} RoundIsSymmetricDifference(known: Known, current: Known, cs: seq<Change>)
    requires IsRound(known, current, cs)
    ensures forall k :: Tells(cs, k) <==> k in (current.Keys - known.Keys) + (known.Keys - current.Keys)
    ensures KeysDiffer(cs)
    ensures |cs| == |current.Keys - known.Keys| + |known.Keys - current.Keys|
    ensures forall i :: 0 <= i < |cs| ==> (cs[i].added <==> i < |current.Keys - known.Keys|)
  {
    hide Lists, Tells, KeysDiffer;
    var news: nat :| IsSplitRound(known, current, cs, news);
    var adds, removes, came, went := cs[..news], cs[news..], current.Keys - known.Keys, known.Keys - current.Keys;
    assert adds + removes == cs;
    ListsSize(adds, true, current, came);
    ListsSize(removes, false, known, went);
    AdditionsFirst(adds, removes, current, known, came, went);
    BothDiffer(adds, removes, current, known, came, went);
    forall k ensures Tells(cs, k) <==> k in came + went {
      TellsEither(adds, removes, k);
      ListsTell(adds, true, current, came, k);
      ListsTell(removes, false, known, went, k);
    }
  }

  // ---- one serial number ----

  /** Additions less removals of one serial number. */
  function Balance(cs: seq<Change>, serial: string): int {
    if cs == [] then 0
    else
      var last := cs[|cs| - 1];
      Balance(cs[..|cs| - 1], serial) + (if last.serial != serial then 0 else if last.added then 1 else -1)
  }

  lemma {:induction false} BalanceConcat(a: seq<Change>, b: seq<Change>, serial: string)
    ensures Balance(a + b, serial) == Balance(a, serial) + Balance(b, serial)
    decreases |b|
  {
    if b == [] {
      assert a + b == a;
    } else {
      AllButLast(a, b);
      BalanceConcat(a, b[..|b| - 1], serial);
    }
  }

  /** The keys of S that m gives to devices with this serial number. */
  function Bearing(m: Known, S: set<Key>, serial: string): set<Key> {
    set k | k in S && k in m && m[k].serial == serial
  }

  function Count(m: Known, serial: string): nat {
    |Bearing(m, m.Keys, serial)|
  }

  lemma BearingOneMore(m: Known, S: set<Key>, k: Key, serial: string)
    requires k in S && k in m
    ensures |Bearing(m, S, serial)| == |Bearing(m, S - {k}, serial)| + if m[k].serial == serial then 1 else 0
  {
    assert Bearing(m, S, serial) == Bearing(m, S - {k}, serial) + if m[k].serial == serial then {k} else {};
  }

  lemma {:induction false} BalanceOfLists(cs: seq<Change>, added: bool, m: Known, S: set<Key>, serial: string)
    requires Lists(cs, added, m, S)
    ensures Balance(cs, serial) == if added then |Bearing(m, S, serial)| else -|Bearing(m, S, serial)|
    decreases |cs|
  {
    assert S <= m.Keys;
    assert S == {} ==> Bearing(m, S, serial) == {};
    hide Lists, Bearing;
    ListsOneLess(cs, added, m, S);
    if cs != [] {
      var k := cs[|cs| - 1].key;
      BalanceOfLists(cs[..|cs| - 1], added, m, S - {k}, serial);
      BearingOneMore(m, S, k, serial);
    }
  }

  lemma BearingSplits(m: Known, S: set<Key>, T: set<Key>, serial: string)
    requires S !! T
    ensures |Bearing(m, S + T, serial)| == |Bearing(m, S, serial)| + |Bearing(m, T, serial)|
  {
    assert Bearing(m, S + T, serial) == Bearing(m, S, serial) + Bearing(m, T, serial);
  }

  /** How far one round's events miss the change in the number of devices with this serial
      number: the difference it makes among the keys that stayed. */
  function Drift(known: Known, current: Known, serial: string): int {
    var stay := known.Keys * current.Keys;
    |Bearing(current, stay, serial)| - |Bearing(known, stay, serial)|
  }

  lemma RoundBalance(known: Known, current: Known, cs: seq<Change>, serial: string)
    requires IsRound(known, current, cs)
    ensures Balance(cs, serial) == Count(current, serial) - Count(known, serial) - Drift(known, current, serial)
  {
    hide Lists, Balance, Bearing;
    var news: nat :| IsSplitRound(known, current, cs, news);
    var came, lost, stay := current.Keys - known.Keys, known.Keys - current.Keys, known.Keys * current.Keys;
    BalanceOfLists(cs[..news], true, current, came, serial);
    BalanceOfLists(cs[news..], false, known, lost, serial);
    BalanceConcat(cs[..news], cs[news..], serial);
    assert cs[..news] + cs[news..] == cs;
    BearingSplits(current, came, stay, serial);
    BearingSplits(known, lost, stay, serial);
    assert came + stay == current.Keys && lost + stay == known.Keys;
  }

  function RoundDrift(nodes: nat -> seq<Node>, r: nat, serial: string): int {
    Drift(KnownAfter(nodes, r), KnownAfter(nodes, r + 1), serial)
  }

  function DriftSoFar(nodes: nat -> seq<Node>, rounds: nat, serial: string): int {
    if rounds == 0 then 0 else DriftSoFar(nodes, rounds - 1, serial) + RoundDrift(nodes, rounds - 1, serial)
  }

  /** Additions less removals of a serial number count the devices that have it, up to what
      devices that stayed have changed about it. */
  lemma {:induction false} SerialBalance(nodes: nat -> seq<Node>, rounds: nat, cs: seq<Change>, serial: string)
    requires IsRun(nodes, rounds, cs)
    ensures Balance(cs, serial) == Count(KnownAfter(nodes, rounds), serial) - DriftSoFar(nodes, rounds, serial)
  {
    hide IsRound, KnownAfter, Balance, Drift;
    if rounds == 0 {
      RunOfNothing(nodes);
      assert Balance([], serial) == 0 by { NothingWeighs(serial); }
    } else {
      var at := SplitRun(nodes, rounds, cs);
      SerialBalance(nodes, rounds - 1, cs[..at], serial);
      RoundBalance(KnownAfter(nodes, rounds - 1), KnownAfter(nodes, rounds), cs[at..], serial);
      BalanceConcat(cs[..at], cs[at..], serial);
    }
  }

  lemma NothingWeighs(serial: string)
    ensures Balance([], serial) == 0
  {
  }

  /** Every device that stays from one poll to the next keeps its serial number. */
  ghost predicate KeepsSerials(known: Known, current: Known) {
    forall k :: k in known && k in current ==> known[k].serial == current[k].serial
  }

  ghost predicate SerialsStay(nodes: nat -> seq<Node>, rounds: nat) {
    rounds > 0 ==>
      KeepsSerials(KnownAfter(nodes, rounds - 1), KnownAfter(nodes, rounds)) && SerialsStay(nodes, rounds - 1)
  }

  /** As long as no device that stays changes its serial number, additions less removals of
      each serial number count the devices that have it. */
  lemma {:induction false} BalanceCountsDevices(nodes: nat -> seq<Node>, rounds: nat, cs: seq<Change>, serial: string)
    requires IsRun(nodes, rounds, cs) && SerialsStay(nodes, rounds)
    ensures Balance(cs, serial) == Count(KnownAfter(nodes, rounds), serial)
  {
    hide IsRun, KnownAfter, Balance, Count;
    SerialBalance(nodes, rounds, cs, serial);
    NoDrift(nodes, rounds, serial);
  }

  lemma {:induction false} NoDrift(nodes: nat -> seq<Node>, rounds: nat, serial: string)
    requires SerialsStay(nodes, rounds)
    ensures DriftSoFar(nodes, rounds, serial) == 0
  {
    hide KnownAfter;
    if rounds > 0 {
      NoDrift(nodes, rounds - 1, serial);
      var known, current := KnownAfter(nodes, rounds - 1), KnownAfter(nodes, rounds);
      var stay := known.Keys * current.Keys;
      assert Bearing(known, stay, serial) == Bearing(current, stay, serial);
    }
  }

  lemma {:induction false} ListExists(added: bool, m: Known, S: set<Key>) returns (cs: seq<Change>)
    requires S <= m.Keys
    ensures Lists(cs, added, m, S)
  {
    if S == {} {
      cs := [];
    } else {
      var k :| k in S;
      cs := ListExists(added, m, S - {k});
      ListsOneMore(cs, added, m, S - {k}, k);
      assert S == (S - {k}) + {k};
      cs := cs + [Change(added, k, m[k].serial)];
    }
  }

  lemma {:induction false} RunExists(nodes: nat -> seq<Node>, rounds: nat) returns (cs: seq<Change>)
    ensures IsRun(nodes, rounds, cs)
  {
    hide Lists, KnownAfter;
    if rounds == 0 {
      cs := [];
    } else {
      var before := RunExists(nodes, rounds - 1);
      var known, current := KnownAfter(nodes, rounds - 1), KnownAfter(nodes, rounds);
      var adds := ListExists(true, current, current.Keys - known.Keys);
      var removes := ListExists(false, known, known.Keys - current.Keys);
      var round := adds + removes;
      assert round[..|adds|] == adds && round[|adds|..] == removes;
      assert IsSplitRound(known, current, round, |adds|);
      RunOneMore(nodes, rounds - 1, before, round);
      cs := before + round;
    }
  }

  ghost predicate BalancesAreExact(nodes: nat -> seq<Node>, r: nat) {
    forall cs, serial :: IsRun(nodes, r, cs) ==> Balance(cs, serial) == Count(KnownAfter(nodes, r), serial)
  }

  /** In this round the devices that stayed did not change how many of them bear any serial
      number. */
  ghost predicate NoDriftIn(nodes: nat -> seq<Node>, r: nat) {
    forall serial :: RoundDrift(nodes, r, serial) == 0
  }

  ghost predicate AllExact(nodes: nat -> seq<Node>, rounds: nat) {
    forall r: nat :: r <= rounds ==> BalancesAreExact(nodes, r)
  }

  ghost predicate NeverDrifts(nodes: nat -> seq<Node>, rounds: nat) {
    forall r: nat :: r < rounds ==> NoDriftIn(nodes, r)
  }

  lemma ExactHasNoDrift(nodes: nat -> seq<Node>, r: nat)
    requires BalancesAreExact(nodes, r) && BalancesAreExact(nodes, r + 1)
    ensures NoDriftIn(nodes, r)
  {
    hide Count, Drift, Snapshot, KnownAfter, Lists, IsSplitRound;
    var before := RunExists(nodes, r);
    var after := RunExists(nodes, r + 1);
    forall serial ensures RoundDrift(nodes, r, serial) == 0 {
      SerialBalance(nodes, r, before, serial);
      SerialBalance(nodes, r + 1, after, serial);
    }
  }

  lemma NoDriftIsExact(nodes: nat -> seq<Node>, rounds: nat)
    requires NeverDrifts(nodes, rounds)
    ensures BalancesAreExact(nodes, rounds)
  {
    hide Count, Drift, Snapshot, Lists, IsSplitRound;
    forall cs, serial | IsRun(nodes, rounds, cs)
      ensures Balance(cs, serial) == Count(KnownAfter(nodes, rounds), serial)
    {
      SerialBalance(nodes, rounds, cs, serial);
      SumOfNoDrifts(nodes, rounds, serial);
    }
  }

  /** The balances are exact after every round up to this one exactly when no round so far
      had a drift. */
  lemma {:induction false} BalanceIsExact(nodes: nat -> seq<Node>, rounds: nat)
    ensures AllExact(nodes, rounds) <==> NeverDrifts(nodes, rounds)
  {
    hide BalancesAreExact, NoDriftIn;
    if AllExact(nodes, rounds) {
      forall r: nat | r < rounds ensures NoDriftIn(nodes, r) {
        ExactHasNoDrift(nodes, r);
      }
    }
    if NeverDrifts(nodes, rounds) {
      forall r: nat | r <= rounds ensures BalancesAreExact(nodes, r) {
        NoDriftIsExact(nodes, r);
      }
    }
  }

  lemma {:induction false} SumOfNoDrifts(nodes: nat -> seq<Node>, rounds: nat, serial: string)
    requires NeverDrifts(nodes, rounds)
    ensures DriftSoFar(nodes, rounds, serial) == 0
  {
    hide KnownAfter, Drift;
    if rounds > 0 {
      SumOfNoDrifts(nodes, rounds - 1, serial);
      assert NoDriftIn(nodes, rounds - 1);
    }
  }

  /** One camera, at a fixed place, bearing first one serial number and then another. */
  function Swapped(n: nat): seq<Node> {
    [Node(1, 5, VENDOR_ID, PRODUCT_ID_MEET2, if n == 0 then "A" else "B")]
  }

  lemma SwappedKnown(n: nat)
    ensures var info := DeviceInfo(if n == 0 then "A" else "B", 1, 5);
      Snapshot(Swapped(n)) == map[DeviceKey(info) := info]
  {
    assert Swapped(n)[..0] == [];
  }

  lemma BearingOne(k: Key, info: DeviceInfo, s: string)
    ensures Bearing(map[k := info], {k}, s) == if info.serial == s then {k} else {}
  {
  }

  lemma SwappedBalance(cs: seq<Change>, s: string)
    requires IsRun(Swapped, 2, cs)
    ensures s == "A" ==> Balance(cs, s) == 1 && Count(KnownAfter(Swapped, 2), s) == 0
    ensures s == "B" ==> Balance(cs, s) == 0 && Count(KnownAfter(Swapped, 2), s) == 1
  {
    hide IsRun, Balance, DeviceKey, Snapshot, Swapped, Bearing;
    var a, b := DeviceInfo("A", 1, 5), DeviceInfo("B", 1, 5);
    var k := DeviceKey(a);
    assert k == DeviceKey(b) by { KeyIsInjective(a, b); }
    SwappedKnown(0);
    SwappedKnown(1);
    SerialBalance(Swapped, 2, cs, s);
    var one, two := KnownAfter(Swapped, 1), KnownAfter(Swapped, 2);
    assert one == map[k := a] && two == map[k := b];
    assert one.Keys == two.Keys == {k} && one.Keys * two.Keys == {k};
    NothingStays(one, s);
    BearingOne(k, a, s);
    BearingOne(k, b, s);
  }

  lemma NothingStays(current: Known, s: string)
    ensures Drift(map[], current, s) == 0
  {
    var none: Known := map[];
    assert none.Keys * current.Keys == {};
  }

  lemma SwappedRounds(cs: seq<Change>)
    requires IsRun(Swapped, 2, cs)
    ensures |cs| == 1 && cs[0].added
  {
    hide Snapshot, Lists, DeviceKey, Swapped, IsSplitRound;
    var a, b := DeviceInfo("A", 1, 5), DeviceInfo("B", 1, 5);
    KeyIsInjective(a, b);
    SwappedKnown(0);
    SwappedKnown(1);
    var none, one, two := KnownAfter(Swapped, 0), KnownAfter(Swapped, 1), KnownAfter(Swapped, 2);
    assert one.Keys == two.Keys == {DeviceKey(a)};
    var at := SplitRun(Swapped, 2, cs);
    var first := SplitRun(Swapped, 1, cs[..at]);
    RoundIsSymmetricDifference(none, one, cs[..at][first..]);
    RoundIsSymmetricDifference(one, two, cs[at..]);
    assert one.Keys - none.Keys == {DeviceKey(a)} && none.Keys - one.Keys == {};
    assert one.Keys - two.Keys == {} && two.Keys - one.Keys == {};
    assert cs[..at][first..] == cs;
  }

  /** A camera unplugged and another plugged in at the same bus and device number between
      two polls: the only event is the first camera's addition, and both balances are
      wrong. */
  lemma SwapIsSilent(cs: seq<Change>)
    requires IsRun(Swapped, 2, cs)
    ensures |cs| == 1 && cs[0].added && cs[0].serial == "A"
    ensures Balance(cs, "A") == 1 && Count(KnownAfter(Swapped, 2), "A") == 0
    ensures Balance(cs, "B") == 0 && Count(KnownAfter(Swapped, 2), "B") == 1
  {
    SwappedRounds(cs);
    SwappedBalance(cs, "A");
    SwappedBalance(cs, "B");
    assert cs[..0] == [];
  }

  // ---- what an event shows ----

  /** All that a receiver is shown of a change. */
  datatype Notice = Notice(added: bool, serial: string)

  function Notices(cs: seq<Change>): (ns: seq<Notice>)
    ensures |ns| == |cs|
  {
    if cs == [] then []
    else
      var last := cs[|cs| - 1];
      Notices(cs[..|cs| - 1]) + [Notice(last.added, last.serial)]
  }

  lemma {:induction false} NoticesConcat(a: seq<Change>, b: seq<Change>)
    ensures Notices(a + b) == Notices(a) + Notices(b)
    decreases |b|
  {
    if b == [] {
      assert a + b == a;
    } else {
      AllButLast(a, b);
      NoticesConcat(a, b[..|b| - 1]);
    }
  }

  /** Balances are visible: they depend on the notices only. */
  lemma {:induction false} BalanceIsVisible(a: seq<Change>, b: seq<Change>, serial: string)
    requires Notices(a) == Notices(b)
    ensures Balance(a, serial) == Balance(b, serial)
    decreases |a|
  {
    if a != [] {
      var n := |a| - 1;
      assert Notices(a)[n] == Notices(b)[n] && Notices(a)[..n] == Notices(b)[..n];
      BalanceIsVisible(a[..n], b[..n], serial);
    }
  }

  function Repeat(n: nat, notice: Notice): (ns: seq<Notice>)
    ensures |ns| == n
  {
    seq(n, _ => notice)
  }

  ghost predicate AllBear(m: Known, serial: string) {
    forall k :: k in m ==> m[k].serial == serial
  }

  lemma {:induction false} ListsNotices(cs: seq<Change>, added: bool, m: Known, S: set<Key>, serial: string)
    requires Lists(cs, added, m, S) && AllBear(m, serial)
    ensures Notices(cs) == Repeat(|S|, Notice(added, serial))
    decreases |cs|
  {
    assert S <= m.Keys;
    hide Lists;
    ListsOneLess(cs, added, m, S);
    if cs != [] {
      ListsNotices(cs[..|cs| - 1], added, m, S - {cs[|cs| - 1].key}, serial);
    }
  }

  lemma PairNotices(a: seq<Change>, b: seq<Change>, m: Known, n: Known, S: set<Key>, T: set<Key>, serial: string)
    requires Lists(a, true, m, S) && Lists(b, false, n, T) && AllBear(m, serial) && AllBear(n, serial)
    ensures Notices(a + b) == Repeat(|S|, Notice(true, serial)) + Repeat(|T|, Notice(false, serial))
  {
    hide *;
    ListsNotices(a, true, m, S, serial);
    ListsNotices(b, false, n, T, serial);
    NoticesConcat(a, b);
  }

  /** Where all devices bear one serial number, as cameras without one do, a round shows how
      many came and how many went, and nothing else. */
  lemma RoundNotices(known: Known, current: Known, cs: seq<Change>, serial: string)
    requires IsRound(known, current, cs) && AllBear(known, serial) && AllBear(current, serial)
    ensures Notices(cs) == Repeat(|current.Keys - known.Keys|, Notice(true, serial))
                           + Repeat(|known.Keys - current.Keys|, Notice(false, serial))
  {
    hide Lists, Notices, AllBear, Repeat;
    var news: nat :| IsSplitRound(known, current, cs, news);
    assert cs[..news] + cs[news..] == cs;
    PairNotices(cs[..news], cs[news..], current, known, current.Keys - known.Keys, known.Keys - current.Keys, serial);
  }

  /** As many devices came, and as many went, in this round of both runs. */
  ghost predicate SameTraffic(a: nat -> seq<Node>, b: nat -> seq<Node>, r: nat) {
    var a0, a1 := KnownAfter(a, r).Keys, KnownAfter(a, r + 1).Keys;
    var b0, b1 := KnownAfter(b, r).Keys, KnownAfter(b, r + 1).Keys;
    |a1 - a0| == |b1 - b0| && |a0 - a1| == |b0 - b1|
  }

  /** Up to this round, all devices of a run bear one serial number. */
  ghost predicate Anonymous(nodes: nat -> seq<Node>, rounds: nat, serial: string) {
    forall r: nat :: r <= rounds ==> AllBear(KnownAfter(nodes, r), serial)
  }

  lemma AnonymousBefore(nodes: nat -> seq<Node>, rounds: nat, serial: string)
    requires rounds > 0 && Anonymous(nodes, rounds, serial)
    ensures Anonymous(nodes, rounds - 1, serial)
  {
    hide AllBear, KnownAfter;
  }

  lemma AnonymousRound(a: nat -> seq<Node>, b: nat -> seq<Node>, r: nat,
                       cs: seq<Change>, ds: seq<Change>, serial: string)
    requires Anonymous(a, r + 1, serial) && Anonymous(b, r + 1, serial) && SameTraffic(a, b, r)
    requires IsRound(KnownAfter(a, r), KnownAfter(a, r + 1), cs)
    requires IsRound(KnownAfter(b, r), KnownAfter(b, r + 1), ds)
    ensures Notices(cs) == Notices(ds)
  {
    hide IsRound, KnownAfter, Notices, Repeat, AllBear;
    RoundNotices(KnownAfter(a, r), KnownAfter(a, r + 1), cs, serial);
    RoundNotices(KnownAfter(b, r), KnownAfter(b, r + 1), ds, serial);
  }

  /** Two runs of devices that all bear one serial number look the same to a receiver when
      as many come and go in every round. */
  lemma {:induction false} AnonymousRunsLookAlike(a: nat -> seq<Node>, b: nat -> seq<Node>, rounds: nat,
                                                  cs: seq<Change>, ds: seq<Change>, serial: string)
    requires IsRun(a, rounds, cs) && IsRun(b, rounds, ds)
    requires Anonymous(a, rounds, serial) && Anonymous(b, rounds, serial)
    requires forall r: nat :: r < rounds ==> SameTraffic(a, b, r)
    ensures Notices(cs) == Notices(ds)
  {
    hide IsRound, KnownAfter, Notices, Anonymous, SameTraffic;
    if rounds == 0 {
      RunOfNothing(a);
      assert cs == ds;
    } else {
      var i := SplitRun(a, rounds, cs);
      var j := SplitRun(b, rounds, ds);
      AnonymousBefore(a, rounds, serial);
      AnonymousBefore(b, rounds, serial);
      AnonymousRunsLookAlike(a, b, rounds - 1, cs[..i], ds[..j], serial);
      AnonymousRound(a, b, rounds - 1, cs[i..], ds[j..], serial);
      NoticesConcat(cs[..i], cs[i..]);
      NoticesConcat(ds[..j], ds[j..]);
    }
  }

  /** A camera without a serial number. */
  function Unmarked(devnum: u8): Node {
    Node(1, devnum, VENDOR_ID, PRODUCT_ID_MEET2, "")
  }

  function KeyOf(devnum: u8): Key {
    DeviceKey(InfoOf(Unmarked(devnum)))
  }

  /** Two of them at the first poll, and later one. */
  function OneStays(devnum: u8, n: nat): seq<Node> {
    if n == 0 then [Unmarked(5)] + [Unmarked(6)] else [Unmarked(devnum)]
  }

  function FirstStays(n: nat): seq<Node> {
    OneStays(5, n)
  }

  function SecondStays(n: nat): seq<Node> {
    OneStays(6, n)
  }

  lemma OneKnown(nodes: seq<Node>, devnum: u8)
    requires AllBear(Snapshot(nodes), "")
    ensures Snapshot(nodes + [Unmarked(devnum)]).Keys == Snapshot(nodes).Keys + {KeyOf(devnum)}
    ensures AllBear(Snapshot(nodes + [Unmarked(devnum)]), "")
  {
    hide DeviceKey;
    assert (nodes + [Unmarked(devnum)])[..|nodes|] == nodes;
  }

  lemma OneStaysKnown(devnum: u8, n: nat)
    ensures Snapshot(OneStays(devnum, n)).Keys == if n == 0 then {KeyOf(5), KeyOf(6)} else {KeyOf(devnum)}
    ensures AllBear(Snapshot(OneStays(devnum, n)), "")
  {
    hide DeviceKey, Unmarked;
    assert Snapshot([]) == map[] && AllBear(Snapshot([]), "");
    var first := if n == 0 then 5 else devnum;
    OneKnown([], first);
    assert [] + [Unmarked(first)] == [Unmarked(first)];
    if n == 0 {
      OneKnown([Unmarked(5)], 6);
    }
  }

  lemma KeysAreTwo()
    ensures KeyOf(5) != KeyOf(6)
  {
    KeyIsInjective(InfoOf(Unmarked(5)), InfoOf(Unmarked(6)));
  }

  lemma OneOfTwoLeft(k: Key, l: Key)
    requires k != l
    ensures |{k, l} - {k}| == 1 && |{k} - {k, l}| == 0
  {
    assert {k, l} - {k} == {l} && {k} - {k, l} == {};
  }

  lemma EachLosesOne(r: nat)
    requires r < 2
    ensures SameTraffic(FirstStays, SecondStays, r)
  {
    OneStaysKnown(5, 0);
    OneStaysKnown(6, 0);
    OneStaysKnown(5, 1);
    OneStaysKnown(6, 1);
    KeysAreTwo();
    hide Snapshot, OneStays, KeyOf;
    if r == 0 {
      assert KnownAfter(FirstStays, 1).Keys == KnownAfter(SecondStays, 1).Keys;
    } else {
      assert {KeyOf(5), KeyOf(6)} == {KeyOf(6), KeyOf(5)};
      OneOfTwoLeft(KeyOf(5), KeyOf(6));
      OneOfTwoLeft(KeyOf(6), KeyOf(5));
    }
  }

  lemma BothAreAnonymous()
    ensures Anonymous(FirstStays, 2, "") && Anonymous(SecondStays, 2, "")
  {
    hide Snapshot, OneStays;
    forall r: nat ensures AllBear(KnownAfter(FirstStays, r), "") && AllBear(KnownAfter(SecondStays, r), "") {
      if r > 0 {
        OneStaysKnown(5, r - 1);
        OneStaysKnown(6, r - 1);
      }
    }
  }

  /** The keys are invisible: whichever of two such cameras stays, the events look the
      same. */
  lemma {:induction false} KeysAreInvisible(cs: seq<Change>, ds: seq<Change>)
    requires IsRun(FirstStays, 2, cs) && IsRun(SecondStays, 2, ds)
    ensures Notices(cs) == Notices(ds)
    ensures Replay(cs) == KnownAfter(FirstStays, 2).Keys && Replay(ds) == KnownAfter(SecondStays, 2).Keys
    ensures Replay(cs) != Replay(ds)
  {
    hide IsRun, Snapshot, OneStays, KeyOf, Notices, Replay, Anonymous, SameTraffic;
    KeysAreTwo();
    OneStaysKnown(5, 1);
    OneStaysKnown(6, 1);
    BothAreAnonymous();
    EachLosesOne(0);
    EachLosesOne(1);
    AnonymousRunsLookAlike(FirstStays, SecondStays, 2, cs, ds, "");
    ReplayIsKnown(FirstStays, 2, cs);
    ReplayIsKnown(SecondStays, 2, ds);
  }
}
