/** The hot-plug watcher (crates/libobsbot-core/src/discovery.rs). */
module Hotplug {
  import opened Wrappers
  import opened Decimal

  // ---- devices and their keys ----

  datatype DeviceInfo = DeviceInfo(serial: string, busnum: u8, devnum: u8)

  type Key = string

  function DeviceKey(info: DeviceInfo): Key {
    Dec(info.busnum) + ":" + Dec(info.devnum)
  }

  lemma ColonSplits(a: string, b: string, c: string, d: string)
    requires AllDigits(a) && AllDigits(c) && a + ":" + b == c + ":" + d
    ensures a == c && b == d
  {
    var s, t := a + ":" + b, c + ":" + d;
    assert s[|a|] == ':' && t[|c|] == ':';
    assert forall i :: 0 <= i < |a| ==> s[i] == a[i];
    assert forall i :: 0 <= i < |c| ==> t[i] == c[i];
    assert |a| == |c|;
    assert a == s[..|a|] && b == s[|a| + 1..] && c == t[..|c|] && d == t[|c| + 1..];
  }

  /** Two devices have the same key exactly when they sit at the same bus and device number. */
  lemma KeyIsInjective(x: DeviceInfo, y: DeviceInfo)
    ensures DeviceKey(x) == DeviceKey(y) <==> x.busnum == y.busnum && x.devnum == y.devnum
  {
    if DeviceKey(x) == DeviceKey(y) {
      ColonSplits(Dec(x.busnum), Dec(x.devnum), Dec(y.busnum), Dec(y.devnum));
      DecIsInjective(x.busnum, y.busnum);
      DecIsInjective(x.devnum, y.devnum);
    }
  }

  // ---- enumeration ----

  const VENDOR_ID := 0x3564
  const PRODUCT_ID_MEET2 := 0xfefb

  /** A video node as the file system describes it; the four attributes may be unreadable. */
  datatype Node = Unreadable | Node(busnum: u8, devnum: u8, vendor: nat, product: nat, serial: string)

  predicate IsCamera(n: Node) {
    n.Node? && n.vendor == VENDOR_ID && n.product == PRODUCT_ID_MEET2
  }

  function InfoOf(n: Node): DeviceInfo
    requires n.Node?
  {
    DeviceInfo(n.serial, n.busnum, n.devnum)
  }

  type Known = map<Key, DeviceInfo>

  /** The cameras among the nodes, each described by its first node. */
  function Snapshot(nodes: seq<Node>): Known {
    if nodes == [] then map[]
    else
      var m, n := Snapshot(nodes[..|nodes| - 1]), nodes[|nodes| - 1];
      if IsCamera(n) && DeviceKey(InfoOf(n)) !in m then m[DeviceKey(InfoOf(n)) := InfoOf(n)] else m
  }

  /** Node i is the first camera node with key k. */
  ghost predicate IsFirst(nodes: seq<Node>, k: Key, i: nat) {
    && i < |nodes| && IsCamera(nodes[i]) && DeviceKey(InfoOf(nodes[i])) == k
    && forall j :: 0 <= j < i && IsCamera(nodes[j]) ==> DeviceKey(InfoOf(nodes[j])) != k
  }

  lemma NotFirstBefore(nodes: seq<Node>, k: Key, n: nat)
    requires IsFirst(nodes, k, n)
    ensures forall j: nat :: !IsFirst(nodes[..n], k, j)
  {
  }

  /** The snapshot has the keys of the camera nodes, each described by its first node. */
  lemma {:induction false} SnapshotIsFirst(nodes: seq<Node>, k: Key)
    ensures k in Snapshot(nodes) <==> exists i: nat :: IsFirst(nodes, k, i)
    ensures forall i: nat :: IsFirst(nodes, k, i) ==> Snapshot(nodes)[k] == InfoOf(nodes[i])
  {
    hide DeviceKey;
    if nodes != [] {
      var n := |nodes| - 1;
      SnapshotIsFirst(nodes[..n], k);
      if i: nat :| IsFirst(nodes[..n], k, i) {
        assert IsFirst(nodes, k, i);
      }
      if k in Snapshot(nodes) && k !in Snapshot(nodes[..n]) {
        forall j | 0 <= j < n && IsCamera(nodes[j]) ensures DeviceKey(InfoOf(nodes[j])) != k {
          if DeviceKey(InfoOf(nodes[j])) == k {
            var i := FirstExists(nodes[..n], k, j);
          }
        }
        assert IsFirst(nodes, k, n);
      }
      forall i: nat | IsFirst(nodes, k, i) ensures k in Snapshot(nodes) && Snapshot(nodes)[k] == InfoOf(nodes[i]) {
        if i < n {
          assert IsFirst(nodes[..n], k, i);
        } else {
          NotFirstBefore(nodes, k, n);
        }
      }
    }
  }

  lemma FirstExists(nodes: seq<Node>, k: Key, j: nat) returns (i: nat)
    requires j < |nodes| && IsCamera(nodes[j]) && DeviceKey(InfoOf(nodes[j])) == k
    ensures IsFirst(nodes, k, i)
  {
    hide DeviceKey;
    i := 0;
    while i < j && !(IsCamera(nodes[i]) && DeviceKey(InfoOf(nodes[i])) == k)
      invariant i <= j
      invariant forall j' :: 0 <= j' < i && IsCamera(nodes[j']) ==> DeviceKey(InfoOf(nodes[j'])) != k
    {
      i := i + 1;
    }
  }

  /** The node of a camera with this description. */
  function MeetNode(info: DeviceInfo): Node {
    Node(info.busnum, info.devnum, 0x3564, 0xfefb, info.serial)
  }

  /** Every device of the snapshot comes from a node with the camera's vendor and product
      numbers, and every such node has its key there. */
  lemma {:induction false} SnapshotHasCameras(nodes: seq<Node>)
    ensures forall k :: k in Snapshot(nodes) ==>
      DeviceKey(Snapshot(nodes)[k]) == k && MeetNode(Snapshot(nodes)[k]) in nodes
    ensures forall info :: MeetNode(info) in nodes ==> DeviceKey(info) in Snapshot(nodes)
  {
    hide DeviceKey;
    if nodes != [] {
      var rest, n := nodes[..|nodes| - 1], nodes[|nodes| - 1];
      SnapshotHasCameras(rest);
      forall info | MeetNode(info) in nodes ensures DeviceKey(info) in Snapshot(nodes) {
        if MeetNode(info) !in rest {
          assert n == MeetNode(info) && InfoOf(n) == info;
        }
      }
    }
  }

  /** A node that cannot be read, or of another vendor or product, makes no difference
      wherever it is. */
  lemma {:induction false} OtherNodeIsSkipped(front: seq<Node>, n: Node, back: seq<Node>)
    requires n.Unreadable? || n.vendor != 0x3564 || n.product != 0xfefb
    ensures Snapshot(front + [n] + back) == Snapshot(front + back)
  {
    hide DeviceKey;
    var with, without := front + [n] + back, front + back;
    if back == [] {
      assert with[..|with| - 1] == front == without;
    } else {
      var rest := back[..|back| - 1];
      OtherNodeIsSkipped(front, n, rest);
      assert with[..|with| - 1] == front + [n] + rest && without[..|without| - 1] == front + rest;
    }
  }

  /** No camera is in the list twice. */
  ghost predicate KeysDiffer(infos: seq<DeviceInfo>) {
    forall i, j :: 0 <= i < j < |infos| ==> DeviceKey(infos[i]) != DeviceKey(infos[j])
  }

  /** The map that `linux::enumerate` has built agrees with a snapshot. */
  ghost predicate SameDevices(byDev: map<(u8, u8), DeviceInfo>, m: Known) {
    && (forall d :: d in byDev ==> (byDev[d].busnum, byDev[d].devnum) == d)
    && (forall d :: d in byDev ==> DeviceKey(byDev[d]) in m && m[DeviceKey(byDev[d])] == byDev[d])
    && (forall k :: k in m ==> DeviceKey(m[k]) == k && (m[k].busnum, m[k].devnum) in byDev)
  }

  lemma SameDevicesOneMore(byDev: map<(u8, u8), DeviceInfo>, m: Known, info: DeviceInfo)
    requires SameDevices(byDev, m)
    ensures (info.busnum, info.devnum) in byDev <==> DeviceKey(info) in m
    ensures (info.busnum, info.devnum) !in byDev ==>
      SameDevices(byDev[(info.busnum, info.devnum) := info], m[DeviceKey(info) := info])
  {
    hide DeviceKey;
    forall d | d in byDev ensures DeviceKey(byDev[d]) == DeviceKey(info) <==> d == (info.busnum, info.devnum) {
      KeyIsInjective(byDev[d], info);
    }
    forall k | k in m ensures k == DeviceKey(info) <==> (m[k].busnum, m[k].devnum) == (info.busnum, info.devnum) {
      KeyIsInjective(m[k], info);
    }
  }

  /** `linux::enumerate`: nodes of one camera collapse by bus and device number, and the
      result comes in the arbitrary order of a hash map. */
  method Enumerate(nodes: seq<Node>) returns (infos: seq<DeviceInfo>)
    ensures forall i :: 0 <= i < |infos| ==>
      DeviceKey(infos[i]) in Snapshot(nodes) && Snapshot(nodes)[DeviceKey(infos[i])] == infos[i]
    ensures forall k :: k in Snapshot(nodes) ==> Snapshot(nodes)[k] in infos && DeviceKey(Snapshot(nodes)[k]) == k
    ensures KeysDiffer(infos)
    ensures forall i :: 0 <= i < |infos| ==> MeetNode(infos[i]) in nodes
    ensures forall info :: MeetNode(info) in nodes ==>
      exists i :: 0 <= i < |infos| && infos[i].busnum == info.busnum && infos[i].devnum == info.devnum
  {
    var byDev: map<(u8, u8), DeviceInfo> := map[];
    for i := 0 to |nodes|
      invariant SameDevices(byDev, Snapshot(nodes[..i]))
    {
      hide SameDevices, DeviceKey;
      assert nodes[..i + 1][..i] == nodes[..i];
      var n := nodes[i];
      if IsCamera(n) {
        var info := InfoOf(n);
        SameDevicesOneMore(byDev, Snapshot(nodes[..i]), info);
        if (n.busnum, n.devnum) !in byDev {
          byDev := byDev[(n.busnum, n.devnum) := info];
        }
      }
    }
    assert nodes[..|nodes|] == nodes;
    infos := Values(byDev, Snapshot(nodes));
    CamerasAreListed(nodes, infos);
  }

  lemma CamerasAreListed(nodes: seq<Node>, infos: seq<DeviceInfo>)
    requires forall i :: 0 <= i < |infos| ==>
      DeviceKey(infos[i]) in Snapshot(nodes) && Snapshot(nodes)[DeviceKey(infos[i])] == infos[i]
    requires forall k :: k in Snapshot(nodes) ==> Snapshot(nodes)[k] in infos && DeviceKey(Snapshot(nodes)[k]) == k
    ensures forall i :: 0 <= i < |infos| ==> MeetNode(infos[i]) in nodes
    ensures forall info :: MeetNode(info) in nodes ==>
      exists i :: 0 <= i < |infos| && infos[i].busnum == info.busnum && infos[i].devnum == info.devnum
  {
    SnapshotHasCameras(nodes);
    hide Snapshot, DeviceKey, MeetNode;
    forall info | MeetNode(info) in nodes
      ensures exists i :: 0 <= i < |infos| && infos[i].busnum == info.busnum && infos[i].devnum == info.devnum
    {
      var listed := Snapshot(nodes)[DeviceKey(info)];
      var i :| 0 <= i < |infos| && infos[i] == listed;
      KeyIsInjective(listed, info);
    }
  }

  /** `into_values().collect()`, in any order. */
  method Values(byDev: map<(u8, u8), DeviceInfo>, ghost m: Known) returns (infos: seq<DeviceInfo>)
    requires SameDevices(byDev, m)
    ensures forall i :: 0 <= i < |infos| ==> DeviceKey(infos[i]) in m && m[DeviceKey(infos[i])] == infos[i]
    ensures forall k :: k in m ==> m[k] in infos && DeviceKey(m[k]) == k
    ensures KeysDiffer(infos)
  {
    hide DeviceKey, Dec;
    infos := [];
    var todo := byDev.Keys;
    while todo != {}
      invariant todo <= byDev.Keys
      invariant forall i :: 0 <= i < |infos| ==> DeviceKey(infos[i]) in m && m[DeviceKey(infos[i])] == infos[i]
      invariant forall d :: d in byDev && d !in todo ==> byDev[d] in infos
      invariant forall i :: 0 <= i < |infos| ==> (infos[i].busnum, infos[i].devnum) !in todo
      invariant KeysDiffer(infos)
      decreases todo
    {
      var d :| d in todo;
      todo := todo - {d};
      forall i | 0 <= i < |infos| ensures DeviceKey(infos[i]) != DeviceKey(byDev[d]) {
        KeyIsInjective(infos[i], byDev[d]);
      }
      infos := infos + [byDev[d]];
    }
    forall k | k in m ensures m[k] in infos {
      var d := (m[k].busnum, m[k].devnum);
      assert d in byDev && byDev[d] in infos;
      KeyIsInjective(byDev[d], m[k]);
    }
  }

  /** `.map(|d| (device_key(&d), d)).collect()`. */
  method Collect(infos: seq<DeviceInfo>, ghost m: Known) returns (current: Known)
    requires forall i :: 0 <= i < |infos| ==> DeviceKey(infos[i]) in m && m[DeviceKey(infos[i])] == infos[i]
    requires forall k :: k in m ==> m[k] in infos && DeviceKey(m[k]) == k
    ensures current == m
  {
    current := map[];
    for i := 0 to |infos|
      invariant forall k :: k in current ==> k in m && current[k] == m[k]
      invariant forall j :: 0 <= j < i ==> DeviceKey(infos[j]) in current
    {
      current := current[DeviceKey(infos[i]) := infos[i]];
    }
    forall k | k in m ensures k in current {
      var i :| 0 <= i < |infos| && infos[i] == m[k];
    }
  }

  // ---- the event channel ----

  /** A hot-plug event, with the key it was sent for. The event itself carries only the
      serial number. */
  datatype Change = Change(added: bool, key: Key, serial: string)

  datatype Event = Hotplug(change: Change) | Status(serial: string)

  function Changes(log: seq<Event>): (cs: seq<Change>) {
    if log == [] then []
    else
      var last := log[|log| - 1];
      Changes(log[..|log| - 1]) + (if last.Hotplug? then [last.change] else [])
  }

  lemma {:induction false} ChangesConcat(a: seq<Event>, b: seq<Event>)
    ensures Changes(a + b) == Changes(a) + Changes(b)
  {
    if b == [] {
      assert a + b == a;
    } else {
      assert (a + b)[..|a + b| - 1] == a + b[..|b| - 1];
      ChangesConcat(a, b[..|b| - 1]);
    }
  }

  lemma {:induction false} StatusesAreNoChanges(noise: seq<Event>)
    requires forall i :: 0 <= i < |noise| ==> noise[i].Status?
    ensures Changes(noise) == []
  {
    if noise != [] { StatusesAreNoChanges(noise[..|noise| - 1]); }
  }

  /** The sending side of the channel that the watcher shares with the status pollers. In
      front of the watcher's n-th send the pollers may have sent any statuses, and any send
      may find the channel closed. */
  class Channel {
    const noise: nat -> seq<Event>
    const open: nat -> bool
    var log: seq<Event>
    var sends: nat

    ghost predicate Valid() {
      forall n, i :: 0 <= i < |noise(n)| ==> noise(n)[i].Status?
    }

    constructor (noise: nat -> seq<Event>, open: nat -> bool)
      ensures this.noise == noise && this.open == open && log == [] && sends == 0
    {
      this.noise := noise;
      this.open := open;
      log := [];
      sends := 0;
    }

    method Send(c: Change) returns (ok: bool)
      requires Valid()
      modifies this
      ensures ok == open(old(sends)) && sends == old(sends) + 1
      ensures Changes(log) == Changes(old(log)) + (if ok then [c] else [])
      ensures log == old(log) + noise(old(sends)) + (if ok then [Hotplug(c)] else [])
    {
      ok := open(sends);
      ChangesConcat(log, noise(sends));
      StatusesAreNoChanges(noise(sends));
      log := log + noise(sends);
      sends := sends + 1;
      if ok {
        ChangesConcat(log, [Hotplug(c)]);
        assert [Hotplug(c)][..0] == [];
        log := log + [Hotplug(c)];
      }
    }
  }

  // ---- one round ----

  /** The changes tell, in some order and once each, of the keys in S, described by m. */
  ghost predicate Lists(cs: seq<Change>, added: bool, m: Known, S: set<Key>) {
    && S <= m.Keys
    && (forall i :: 0 <= i < |cs| ==> cs[i].key in S && cs[i] == Change(added, cs[i].key, m[cs[i].key].serial))
    && (forall i, j :: 0 <= i < j < |cs| ==> cs[i].key != cs[j].key)
    && (forall k :: k in S ==> exists i :: 0 <= i < |cs| && cs[i].key == k)
  }

  /** The first `news` changes tell of every new key, the others of every lost one. */
  ghost predicate IsSplitRound(known: Known, current: Known, cs: seq<Change>, news: nat) {
    && news <= |cs|
    && Lists(cs[..news], true, current, current.Keys - known.Keys)
    && Lists(cs[news..], false, known, known.Keys - current.Keys)
  }

  /** A round tells first of every new key, then of every lost one. */
  ghost predicate IsRound(known: Known, current: Known, cs: seq<Change>) {
    exists news :: IsSplitRound(known, current, cs, news)
  }

  lemma ListsOneMore(cs: seq<Change>, added: bool, m: Known, S: set<Key>, k: Key)
    requires Lists(cs, added, m, S) && k in m && k !in S
    ensures Lists(cs + [Change(added, k, m[k].serial)], added, m, S + {k})
  {
    var more := cs + [Change(added, k, m[k].serial)];
    forall k' | k' in S + {k} ensures exists i :: 0 <= i < |more| && more[i].key == k' {
      if k' == k {
        assert more[|cs|].key == k;
      } else {
        var i :| 0 <= i < |cs| && cs[i].key == k';
        assert more[i].key == k';
      }
    }
  }

  /** One of the two loops of a round: send a change for every key of `here` that `there`
      does not have, in any order. When a send fails the loop ends. */
  method SendMissing(tx: Channel, added: bool, here: Known, there: Known)
    returns (ok: bool, ghost cs: seq<Change>)
    requires tx.Valid()
    modifies tx
    ensures Changes(tx.log) == Changes(old(tx.log)) + cs
    ensures ok ==> Lists(cs, added, here, here.Keys - there.Keys)
    ensures !ok ==> exists S :: S <= here.Keys - there.Keys && S != here.Keys - there.Keys && Lists(cs, added, here, S)
    ensures ok || exists n :: old(tx.sends) <= n < tx.sends && !tx.open(n)
    ensures old(tx.sends) <= tx.sends
  {
    cs := [];
    var todo := here.Keys;
    ghost var done: set<Key> := {};
    assert Lists(cs, added, here, done);
    while todo != {}
      invariant todo <= here.Keys && old(tx.sends) <= tx.sends
      invariant done == here.Keys - todo - there.Keys
      invariant Lists(cs, added, here, done)
      invariant Changes(tx.log) == Changes(old(tx.log)) + cs
      decreases todo
    {
      var k :| k in todo;
      todo := todo - {k};
      if k !in there {
        ok := tx.Send(Change(added, k, here[k].serial));
        if !ok {
          assert k in here.Keys - there.Keys && k !in done;
          return;
        }
        ListsOneMore(cs, added, here, done, k);
        cs, done := cs + [Change(added, k, here[k].serial)], done + {k};
      }
    }
    assert done == here.Keys - there.Keys;
    ok := true;
  }

  // ---- the loop ----

  const HOTPLUG_POLL_INTERVAL := 2000
  const HOTPLUG_CHUNK := 100

  /** What the watcher reads: the nodes at its n-th poll, and a stop flag that is seen set
      from its load numbered stopAt on. */
  class Host {
    const nodes: nat -> seq<Node>
    const stopAt: nat
    var polls: nat
    var loads: nat
    var sleeps: nat

    constructor (nodes: nat -> seq<Node>, stopAt: nat)
      ensures this.nodes == nodes && this.stopAt == stopAt && polls == loads == sleeps == 0
    {
      this.nodes := nodes;
      this.stopAt := stopAt;
      polls, loads, sleeps := 0, 0, 0;
    }

    method ReadNodes() returns (r: seq<Node>)
      modifies this`polls
      ensures r == nodes(old(polls)) && polls == old(polls) + 1
    {
      r := nodes(polls);
      polls := polls + 1;
    }

    method StopRequested() returns (stop: bool)
      modifies this`loads
      ensures stop == (old(loads) >= stopAt) && loads == old(loads) + 1
    {
      stop := loads >= stopAt;
      loads := loads + 1;
    }

    method Sleep()
      modifies this`sleeps
      ensures sleeps == old(sleeps) + 1
    {
      sleeps := sleeps + 1;
    }
  }

  /** The known set after some rounds. */
  function KnownAfter(nodes: nat -> seq<Node>, rounds: nat): Known {
    if rounds == 0 then map[] else Snapshot(nodes(rounds - 1))
  }

  /** The changes that so many completed rounds have sent. */
  ghost predicate IsRun(nodes: nat -> seq<Node>, rounds: nat, cs: seq<Change>) {
    if rounds == 0 then cs == []
    else exists at :: 0 <= at <= |cs| && IsRun(nodes, rounds - 1, cs[..at])
                      && IsRound(KnownAfter(nodes, rounds - 1), KnownAfter(nodes, rounds), cs[at..])
  }

  /** A closed channel ended the round before all additions were sent. */
  ghost predicate IsCutEarly(known: Known, current: Known, cs: seq<Change>, S: set<Key>) {
    S <= current.Keys - known.Keys && S != current.Keys - known.Keys && Lists(cs, true, current, S)
  }

  /** A closed channel ended the round after all additions, before all removals were sent. */
  ghost predicate IsCutLate(known: Known, current: Known, cs: seq<Change>, news: nat, S: set<Key>) {
    && news <= |cs| && S <= known.Keys - current.Keys && S != known.Keys - current.Keys
    && Lists(cs[..news], true, current, current.Keys - known.Keys)
    && Lists(cs[news..], false, known, S)
  }

  ghost predicate IsCutRound(known: Known, current: Known, cs: seq<Change>) {
    || (exists S :: IsCutEarly(known, current, cs, S))
    || (exists news, S :: IsCutLate(known, current, cs, news, S))
  }

  lemma RunOneMore(nodes: nat -> seq<Node>, rounds: nat, before: seq<Change>, cs: seq<Change>)
    requires IsRun(nodes, rounds, before)
    requires IsRound(KnownAfter(nodes, rounds), KnownAfter(nodes, rounds + 1), cs)
    ensures IsRun(nodes, rounds + 1, before + cs)
  {
    var all := before + cs;
    assert all[..|before|] == before && all[|before|..] == cs;
  }

  /** The two loops of one round. */
  method SendRound(tx: Channel, known: Known, current: Known) returns (ok: bool, ghost cs: seq<Change>)
    requires tx.Valid()
    modifies tx
    ensures Changes(tx.log) == Changes(old(tx.log)) + cs && old(tx.sends) <= tx.sends
    ensures ok ==> IsRound(known, current, cs)
    ensures !ok ==> IsCutRound(known, current, cs)
    ensures ok || exists n :: old(tx.sends) <= n < tx.sends && !tx.open(n)
  {
    ghost var removes;
    ok, cs := SendMissing(tx, true, current, known);
    ghost var news := |cs|;
    if !ok {
      ghost var S :| S <= current.Keys - known.Keys && S != current.Keys - known.Keys && Lists(cs, true, current, S);
      assert IsCutEarly(known, current, cs, S);
      return;
    }
    ok, removes := SendMissing(tx, false, known, current);
    assert (cs + removes)[..news] == cs && (cs + removes)[news..] == removes;
    cs := cs + removes;
    if ok {
      assert IsSplitRound(known, current, cs, news);
    } else {
      ghost var S :| S <= known.Keys - current.Keys && S != known.Keys - current.Keys
        && Lists(removes, false, known, S);
      assert IsCutLate(known, current, cs, news, S);
    }
  }

  /** The sleep between two rounds, in chunks; true when the stop flag was seen. */
  method SleepInterval(host: Host) returns (stop: bool)
    requires host.loads <= host.stopAt
    modifies host`loads, host`sleeps
    ensures stop ==> host.loads == host.stopAt + 1 && old(host.sleeps) <= host.sleeps < old(host.sleeps) + 20
    ensures stop ==> host.loads == old(host.loads) + (host.sleeps - old(host.sleeps)) + 1
    ensures !stop ==> host.loads <= host.stopAt && host.sleeps == old(host.sleeps) + 20
    ensures !stop ==> host.loads == old(host.loads) + 20
  {
    var slept := 0;
    while slept < HOTPLUG_POLL_INTERVAL
      invariant slept == HOTPLUG_CHUNK * (host.sleeps - old(host.sleeps)) <= HOTPLUG_POLL_INTERVAL
      invariant host.loads == old(host.loads) + (host.sleeps - old(host.sleeps)) <= host.stopAt
    {
      stop := host.StopRequested();
      if stop {
        return;
      }
      host.Sleep();
      slept := slept + HOTPLUG_CHUNK;
    }
    stop := false;
  }

  /** The devices that are there now, by key. */
  method Current(host: Host) returns (current: Known)
    modifies host`polls
    ensures current == Snapshot(host.nodes(old(host.polls))) && host.polls == old(host.polls) + 1
  {
    var nodes := host.ReadNodes();
    var infos := Enumerate(nodes);
    current := Collect(infos, Snapshot(nodes));
  }

  /** `hotplug_loop`. It ends at the first load that sees the stop flag set, or when a send
      finds the channel closed; `cut` is what the interrupted round had sent by then. The flag
      is loaded in front of every poll and of every chunk of sleep, of which there are twenty
      between two polls. */
  method HotplugLoop(tx: Channel, host: Host)
    returns (ghost rounds: nat, ghost cs: seq<Change>, ghost cut: Option<seq<Change>>)
    requires tx.Valid() && host.polls == 0 && host.loads == 0 && host.sleeps == 0
    modifies tx, host
    ensures Changes(tx.log) == Changes(old(tx.log)) + cs + (if cut.Some? then cut.value else [])
    ensures IsRun(host.nodes, rounds, cs)
    ensures cut.None? ==> host.polls == rounds && host.loads == host.stopAt + 1
    ensures cut.Some? ==> host.polls == rounds + 1 && host.loads <= host.stopAt
    ensures cut.Some? ==> IsCutRound(KnownAfter(host.nodes, rounds), KnownAfter(host.nodes, rounds + 1), cut.value)
    ensures cut.Some? ==> exists n :: old(tx.sends) <= n < tx.sends && !tx.open(n)
    ensures cut.None? ==> host.polls == (host.stopAt + 20) / 21 && host.sleeps == host.stopAt - host.polls
    ensures cut.Some? ==> host.sleeps == 20 * rounds && host.loads == host.polls + host.sleeps
  {
    hide *;
    var known: Known := map[];
    rounds, cs, cut := 0, [], None;
    RunOfNothing(host.nodes);
    var stop := host.StopRequested();
    while !stop
      invariant host.polls == rounds && old(tx.sends) <= tx.sends
      invariant known == KnownAfter(host.nodes, rounds) && IsRun(host.nodes, rounds, cs)
      invariant Changes(tx.log) == Changes(old(tx.log)) + cs
      invariant if stop then host.loads == host.stopAt + 1 else 1 <= host.loads <= host.stopAt
      invariant host.sleeps == 20 * rounds && host.loads == 21 * rounds + 1
      decreases host.stopAt + 1 - host.loads
    {
      var current := Current(host);
      KnownNext(host.nodes, rounds);
      var ok, sent := SendRound(tx, known, current);
      if !ok {
        cut := Some(sent);
        return;
      }
      RunOneMore(host.nodes, rounds, cs, sent);
      cs, rounds := cs + sent, rounds + 1;
      known := current;
      stop := SleepInterval(host);
      if stop {
        return;
      }
      stop := host.StopRequested();
    }
  }

  lemma RunOfNothing(nodes: nat -> seq<Node>)
    ensures IsRun(nodes, 0, []) && KnownAfter(nodes, 0) == map[]
  {
  }

  lemma KnownNext(nodes: nat -> seq<Node>, rounds: nat)
    ensures KnownAfter(nodes, rounds + 1) == Snapshot(nodes(rounds))
  {
  }
}
