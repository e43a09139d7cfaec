/**
 * The membership view a worker keeps from etcd watch events, and the sharding decisions it takes on it.
 */
module Membership {
  import opened Common
  import opened Text
  import opened Ring

  /** Path segments joined by SLASH. */
  function Join(s: string, t: string): string
  {
    s + ['/'] + t
  }

  const ROOT := "nacos_sync"
  const WORKER_IPS := "worker_ips"

  /** The registration key below "/nacos_sync/worker_ips". */
  function WorkerKey(ip: string): string
  {
    Join("", Join(ROOT, Join(WORKER_IPS, ip)))
  }

  /** `ks[3]`, or nothing when the index is out of bounds. */
  function Segment(key: string): Option<string>
  {
    var ks := Split(key, '/');
    if |ks| > 3 then Some(ks[3]) else None
  }

  lemma WorkerKeyIs(ip: string)
    ensures WorkerKey(ip) == "/nacos_sync/worker_ips/" + ip
  {
  }

  predicate ValidIp(ip: string)
  {
    ip != "" && '/' !in ip
  }

  lemma PiecesOfPath(a: string, b: string, ip: string)
    requires '/' !in a && '/' !in b
    ensures Pieces(Join("", Join(a, Join(b, ip))), '/') == [""] + ([a] + ([b] + Pieces(ip, '/')))
  {
    PiecesOfJoin(b, ip, '/');
    PiecesOfJoin(a, Join(b, ip), '/');
    PiecesOfJoin("", Join(a, Join(b, ip)), '/');
  }

  lemma PiecesOfWorkerKey(ip: string)
    ensures Pieces(WorkerKey(ip), '/') == [""] + ([ROOT] + ([WORKER_IPS] + Pieces(ip, '/')))
  {
    PiecesOfPath(ROOT, WORKER_IPS, ip);
  }

  /** The fourth path segment of a registered key is the registered value, for exactly the usable addresses. */
  lemma SegmentOfWorkerKey(ip: string)
    ensures Segment(WorkerKey(ip)) == Some(ip) <==> ValidIp(ip)
  {
    PiecesOfWorkerKey(ip);
    var r := Pieces(WorkerKey(ip), '/');
    assert WorkerKey(ip)[0] == '/';
    if ValidIp(ip) {
      PiecesOfJoin(ip, "", '/');
      DropTrailingKeepsPrefix(r, 3);
    } else if ip == "" {
      assert r[..3][..3] == r[..3] && DropTrailingEmpty(r) == DropTrailingEmpty(r[..3]);
      assert r[..3] == ["", ROOT, WORKER_IPS];
    } else {
      FirstPieceIsWhole(ip, '/');
      DropTrailingIsPrefix(r);
    }
  }

  // ----- The watch callback -----

  datatype WatchEvent = Put(key: string, value: string) | Delete(key: string)

  /** One event; no view when indexing the key's segments throws. */
  function OnEvent(view: set<string>, event: WatchEvent, localIp: string): Option<set<string>>
  {
    match event
    case Put(_, value) => Some(view + {value})
    case Delete(key) =>
      match Segment(key)
      case None => None
      case Some(ip) => Some(if EqualsIgnoreCase(localIp, ip) then view else view - {ip})
  }

  datatype Replayed = Replayed(view: set<string>, ok: bool)

  /** The view after the events, up to the first one that throws. */
  function Replay(view: set<string>, events: seq<WatchEvent>, localIp: string): Replayed
    decreases |events|
  {
    if events == [] then Replayed(view, true)
    else
      match OnEvent(view, events[0], localIp)
      case None => Replayed(view, false)
      case Some(next) => Replay(next, events[1..], localIp)
  }

  lemma {:induction false} ReplaySplits(view: set<string>, first: seq<WatchEvent>, second: seq<WatchEvent>,
                                        localIp: string)
    ensures var r := Replay(view, first, localIp);
            Replay(view, first + second, localIp) == if r.ok then Replay(r.view, second, localIp) else r
    decreases |first|
  {
    if first == [] {
      assert first + second == second;
    } else {
      assert (first + second)[1..] == first[1..] + second;
      match OnEvent(view, first[0], localIp)
      case None =>
      case Some(next) => ReplaySplits(next, first[1..], second, localIp);
    }
  }

  /** AbstractSyncShardingEtcdProxy's `nodeCaches` */
  class NodeCache {
    const localIp: string
    var nodeCaches: set<string>

    constructor (localIp: string)
      ensures this.localIp == localIp && nodeCaches == {}
    {
      this.localIp := localIp;
      nodeCaches := {};
    }

    method InitData(values: seq<string>)
      modifies this
      ensures nodeCaches == set v | v in values
    {
      nodeCaches := {};
      for i := 0 to |values|
        invariant nodeCaches == set v | v in values[..i]
      {
        nodeCaches := nodeCaches + {values[i]};
        assert values[..i + 1] == values[..i] + [values[i]];
      }
      assert values[..|values|] == values;
    }

    /** One watch response; false when the callback throws, leaving the rest of the response unapplied. */
    method OnResponse(events: seq<WatchEvent>) returns (ok: bool)
      modifies this
      ensures Replayed(nodeCaches, ok) == Replay(old(nodeCaches), events, localIp)
    {
      for i := 0 to |events|
        invariant Replay(old(nodeCaches), events, localIp) == Replay(nodeCaches, events[i..], localIp)
      {
        match events[i] {
          case Put(_, value) =>
            nodeCaches := nodeCaches + {value};
          case Delete(key) =>
            var ks := Split(key, '/');
            if |ks| <= 3 {
              return false;
            }
            if !EqualsIgnoreCase(localIp, ks[3]) {
              nodeCaches := nodeCaches - {ks[3]};
            }
        }
      }
      return true;
    }
  }

  /** Whatever the events are, a worker never drops its own address, nor one that equals it ignoring case. */
  lemma {:induction false} NeverDropsItself(view: set<string>, events: seq<WatchEvent>, localIp: string, x: string)
    requires x in view && EqualsIgnoreCase(localIp, x)
    ensures x in Replay(view, events, localIp).view
    decreases |events|
  {
    if events != [] {
      match OnEvent(view, events[0], localIp)
      case None =>
      case Some(next) => NeverDropsItself(next, events[1..], localIp, x);
    }
  }

  /** A deleted key of fewer than four segments throws: the view stays as it is, and later events are not applied. */
  lemma MalformedKeyStops(view: set<string>, key: string, rest: seq<WatchEvent>, localIp: string)
    requires |Split(key, '/')| < 4
    ensures Replay(view, [Delete(key)] + rest, localIp) == Replayed(view, false)
  {
    assert ([Delete(key)] + rest)[0] == Delete(key);
  }

  // ----- Agreement with the live set -----

  /** A worker's key appears under its lease, or disappears with it. */
  datatype Change = Join(ip: string) | Leave(ip: string)

  function EventOf(c: Change): WatchEvent
  {
    match c
    case Join(ip) => Put(WorkerKey(ip), ip)
    case Leave(ip) => Delete(WorkerKey(ip))
  }

  function EventsOf(changes: seq<Change>): seq<WatchEvent>
  {
    seq(|changes|, i requires 0 <= i < |changes| => EventOf(changes[i]))
  }

  function Live(live: set<string>, changes: seq<Change>): set<string>
    decreases |changes|
  {
    if changes == [] then live
    else
      var c := changes[0];
      Live(if c.Join? then live + {c.ip} else live - {c.ip}, changes[1..])
  }

  predicate ValidIps(changes: seq<Change>)
  {
    forall c :: c in changes ==> ValidIp(c.ip)
  }

  predicate Mentioned(x: string, live: set<string>, changes: seq<Change>)
  {
    x in live || exists c :: c in changes && c.ip == x
  }

  /**
   * Replaying any watch sequence: nobody alive is missing, and whoever is listed without being alive
   * has the worker's own address, because a worker never drops itself.
   */
  lemma {:induction false} ViewTracksLive(view: set<string>, live: set<string>, changes: seq<Change>, localIp: string)
    requires ValidIps(changes)
    requires live <= view && forall x :: x in view - live ==> EqualsIgnoreCase(localIp, x)
    ensures var r := Replay(view, EventsOf(changes), localIp);
            && r.ok
            && Live(live, changes) <= r.view
            && (forall x :: x in r.view - Live(live, changes) ==> EqualsIgnoreCase(localIp, x))
            && (forall x :: x in r.view ==> Mentioned(x, view, changes))
    decreases |changes|
  {
    if changes != [] {
      var c, rest := changes[0], changes[1..];
      SegmentOfWorkerKey(c.ip);
      assert EventsOf(changes)[0] == EventOf(c) && EventsOf(changes)[1..] == EventsOf(rest);
      var view' := OnEvent(view, EventOf(c), localIp).value;
      ViewTracksLive(view', if c.Join? then live + {c.ip} else live - {c.ip}, rest, localIp);
      var r := Replay(view', EventsOf(rest), localIp);
      forall x | x in r.view
        ensures Mentioned(x, view, changes)
      {
        if x !in view' {
          var d :| d in rest && d.ip == x;
          assert d in changes;
        } else if x !in view {
          assert c in changes && c.ip == x;
        }
      }
    }
  }

  /** No other address that ever shows up equals this worker's own ignoring case. */
  predicate OwnAddressUnique(localIp: string, live: set<string>, changes: seq<Change>)
  {
    && (forall x :: x in live && EqualsIgnoreCase(localIp, x) ==> x == localIp)
    && (forall c :: c in changes && EqualsIgnoreCase(localIp, c.ip) ==> c.ip == localIp)
  }

  /** While a worker is registered, its view is the live set. */
  lemma RegisteredViewIsLive(live: set<string>, changes: seq<Change>, localIp: string)
    requires ValidIps(changes) && OwnAddressUnique(localIp, live, changes)
    requires localIp in Live(live, changes)
    ensures Replay(live, EventsOf(changes), localIp) == Replayed(Live(live, changes), true)
  {
    ViewTracksLive(live, live, changes, localIp);
    var r := Replay(live, EventsOf(changes), localIp);
    forall x | x in r.view
      ensures x in Live(live, changes)
    {
      assert Mentioned(x, live, changes);
    }
  }

  // ----- Events lost between the snapshot and the start of the watch -----

  predicate Touched(x: string, changes: seq<Change>)
  {
    exists c :: c in changes && c.ip == x
  }

  lemma {:induction false} LiveAt(live: set<string>, other: set<string>, changes: seq<Change>, x: string)
    ensures Touched(x, changes) || (x in live <==> x in other) ==>
              (x in Live(live, changes) <==> x in Live(other, changes))
    ensures !Touched(x, changes) ==> (x in Live(live, changes) <==> x in live)
    decreases |changes|
  {
    if changes != [] {
      var c, rest := changes[0], changes[1..];
      LiveAt(if c.Join? then live + {c.ip} else live - {c.ip},
             if c.Join? then other + {c.ip} else other - {c.ip}, rest, x);
      if Touched(x, changes) && !Touched(x, rest) {
        assert c.ip == x;
      }
      if Touched(x, rest) {
        var d :| d in rest && d.ip == x;
        assert d in changes;
      }
      assert c in changes;
    }
  }

  lemma {:induction false} ReplayIsLive(view: set<string>, changes: seq<Change>, localIp: string)
    requires ValidIps(changes)
    requires forall c :: c in changes && c.Leave? ==> !EqualsIgnoreCase(localIp, c.ip)
    ensures Replay(view, EventsOf(changes), localIp) == Replayed(Live(view, changes), true)
    decreases |changes|
  {
    if changes != [] {
      var c, rest := changes[0], changes[1..];
      SegmentOfWorkerKey(c.ip);
      assert EventsOf(changes)[0] == EventOf(c) && EventsOf(changes)[1..] == EventsOf(rest);
      ReplayIsLive(OnEvent(view, EventOf(c), localIp).value, rest, localIp);
    }
  }

  lemma {:induction false} LiveSplits(live: set<string>, first: seq<Change>, second: seq<Change>)
    ensures Live(live, first + second) == Live(Live(live, first), second)
    decreases |first|
  {
    if first == [] {
      assert first + second == second;
    } else {
      assert (first + second)[1..] == first[1..] + second;
      LiveSplits(if first[0].Join? then live + {first[0].ip} else live - {first[0].ip}, first[1..], second);
    }
  }

  /**
   * The snapshot is read before the watch starts. The view is right afterwards exactly when every worker
   * whose membership the lost changes altered shows up again in the watch.
   */
  lemma LostChanges(live: set<string>, lost: seq<Change>, watched: seq<Change>, localIp: string)
    requires ValidIps(watched)
    requires forall c :: c in watched && c.Leave? ==> !EqualsIgnoreCase(localIp, c.ip)
    ensures Replay(live, EventsOf(watched), localIp).view == Live(live, lost + watched) <==>
            forall x :: (x in live) != (x in Live(live, lost)) ==> Touched(x, watched)
  {
    ReplayIsLive(live, watched, localIp);
    LiveSplits(live, lost, watched);
    forall x: string
      ensures Touched(x, watched) || ((x in live) == (x in Live(live, lost))) <==>
              ((x in Live(live, watched)) == (x in Live(live, lost + watched)))
    {
      LiveAt(live, Live(live, lost), watched, x);
      LiveAt(Live(live, lost), live, watched, x);
    }
  }

  /** A worker that leaves in between stays in the view of every other one, and keeps its place on the ring. */
  lemma LostLeaveStays(live: set<string>, gone: string, localIp: string)
    requires gone in live
    ensures gone in Replay(live, EventsOf([]), localIp).view && gone !in Live(live, [Leave(gone)] + [])
  {
    assert EventsOf([]) == [];
    assert [Leave(gone)] + [] == [Leave(gone)] && [Leave(gone)][1..] == [];
    assert Live(live, [Leave(gone)]) == Live(live - {gone}, []);
  }

  // ----- ConsistentHashSyncShardingEtcdProxy -----

  /** The ring of the current view, or of the configured addresses while the view is empty. */
  function Circle(at: Locate, view: set<string>, workerIps: seq<string>, replicas: nat): map<int32, string>
  {
    if view != {} then RingOf(at, view, replicas) else Build(at, workerIps, replicas)
  }

  function ShardingNode(at: Locate, view: set<string>, workerIps: seq<string>, replicas: nat, service: string):
    Option<string>
  {
    Owner(Circle(at, view, workerIps, replicas), at(service))
  }

  function HeadNode(at: Locate, view: set<string>, workerIps: seq<string>, replicas: nat): Option<string>
  {
    Head(Circle(at, view, workerIps, replicas))
  }

  predicate IsProcessNode(at: Locate, view: set<string>, workerIps: seq<string>, replicas: nat,
                          localIp: string, service: string)
  {
    var node := ShardingNode(at, view, workerIps, replicas, service);
    node.Some? && EqualsIgnoreCase(localIp, node.value)
  }

  /** AbstractSyncShardingEtcdProxy's leader: the head of the ring. */
  predicate IsLeaderNode(at: Locate, view: set<string>, workerIps: seq<string>, replicas: nat, localIp: string)
  {
    var node := HeadNode(at, view, workerIps, replicas);
    node.Some? && EqualsIgnoreCase(localIp, node.value)
  }

  /** With a view, the configured addresses play no part; the owner is known up to case. */
  lemma ViewDecides(at: Locate, view: set<string>, workerIps: seq<string>, replicas: nat, localIp: string, service: string)
    requires view != {}
    ensures ShardingNode(at, view, workerIps, replicas, service) == Owner(RingOf(at, view, replicas), at(service))
    ensures HeadNode(at, view, workerIps, replicas) == Head(RingOf(at, view, replicas))
    ensures IsProcessNode(at, view, workerIps, replicas, localIp, service) <==>
            exists owner :: Owner(RingOf(at, view, replicas), at(service)) == Some(owner) && EqualsIgnoreCase(localIp, owner)
  {
  }

  /**
   * Without a view, a service goes to the last of the configured addresses with a replica at the first position clockwise
   * among all replicas of all of them, and the head is the last one with a replica at the least position.
   */
  lemma ConfiguredDecide(at: Locate, workerIps: seq<string>, replicas: nat, service: string)
    returns (k: int, p: int32, h: int, q: int32)
    requires workerIps != [] && replicas > 0
    ensures LastWriter(at, workerIps, replicas, p, k) && LastWriter(at, workerIps, replicas, q, h)
    ensures ShardingNode(at, {}, workerIps, replicas, service) == Some(workerIps[k])
    ensures HeadNode(at, {}, workerIps, replicas) == Some(workerIps[h])
    ensures forall x, j: nat :: x in workerIps && j < replicas ==>
              NotBefore(at(service), p, at(Label(x, j))) && q <= at(Label(x, j))
  {
    hide Owner, Head, Build, LastWriter, IsLeast, FirstClockwise, WritesAt;
    var ring := Build(at, workerIps, replicas);
    BuildHas(at, workerIps, replicas, workerIps[0], 0);
    p := OwnedPosition(ring, at(service));
    q := HeadAt(ring);
    k := HolderOf(at, workerIps, replicas, p);
    h := HolderOf(at, workerIps, replicas, q);
    forall x, j: nat | x in workerIps && j < replicas
      ensures NotBefore(at(service), p, at(Label(x, j))) && q <= at(Label(x, j))
    {
      BuildHas(at, workerIps, replicas, x, j);
      AtLeast(ring.Keys, q, at(Label(x, j)));
      FirstIsNotBehind(ring.Keys, at(service), p, at(Label(x, j)));
    }
  }

  lemma OwnedPosition(circle: map<int32, string>, h: int32) returns (p: int32)
    requires circle != map[]
    ensures p in circle && FirstClockwise(circle.Keys, h, p) && Owner(circle, h) == Some(circle[p])
  {
    assert Owner(circle, h).Some?;
    p :| FirstClockwise(circle.Keys, h, p) && Owner(circle, h).value == circle[p];
  }

  lemma FirstIsNotBehind(positions: set<int32>, h: int32, p: int32, q: int32)
    requires FirstClockwise(positions, h, p) && q in positions
    ensures NotBefore(h, p, q)
  {
  }

  lemma HolderOf(at: Locate, nodes: seq<string>, replicas: nat, p: int32) returns (k: int)
    requires p in Build(at, nodes, replicas)
    ensures LastWriter(at, nodes, replicas, p, k) && Build(at, nodes, replicas)[p] == nodes[k]
  {
    hide LastWriter;
    BuildHolder(at, nodes, replicas, p);
    k :| LastWriter(at, nodes, replicas, p, k);
  }

  lemma BuildHas(at: Locate, nodes: seq<string>, replicas: nat, x: string, j: nat)
    requires x in nodes && j < replicas
    ensures at(Label(x, j)) in Build(at, nodes, replicas)
  {
    assert WritesAt(at, x, replicas, at(Label(x, j)));
    BuildWrites(at, nodes, replicas, x, at(Label(x, j)));
  }

  lemma {:induction false} BuildWrites(at: Locate, nodes: seq<string>, replicas: nat, x: string, p: int32)
    requires x in nodes && WritesAt(at, x, replicas, p)
    ensures p in Build(at, nodes, replicas)
  {
    var n := |nodes| - 1;
    assert nodes == nodes[..n] + [nodes[n]];
    BuildAt(at, nodes[..n], nodes[n], replicas, p);
    if !WritesAt(at, nodes[n], replicas, p) {
      BuildWrites(at, nodes[..n], replicas, x, p);
    }
  }

  predicate DistinctIgnoringCase(view: set<string>)
  {
    forall x, y :: x in view && y in view && EqualsIgnoreCase(x, y) ==> x == y
  }

  /** Two addresses are distinct ignoring case unless they are equal but for case. */
  lemma DistinctPair(a: string, b: string)
    ensures DistinctIgnoringCase({a, b}) <==> a == b || !EqualsIgnoreCase(a, b)
  {
    hide EqualsIgnoreCase;
    assert EqualsIgnoreCase(a, b) <==> EqualsIgnoreCase(b, a) by { EqualsIgnoreCaseIff(a, b); EqualsIgnoreCaseIff(b, a); }
    assert a in {a, b} && b in {a, b};
  }

  lemma HeadIsMember(at: Locate, view: set<string>, replicas: nat)
    ensures Head(RingOf(at, view, replicas)).Some? <==> view != {} && replicas > 0
    ensures Head(RingOf(at, view, replicas)).Some? ==> Head(RingOf(at, view, replicas)).value in view
  {
    OwnerIsMember(at, view, replicas, 0);
    var ring := RingOf(at, view, replicas);
    if ring != map[] {
      assert ring.Keys != {};
      RingOfAt(at, view, replicas, Least(ring.Keys));
    }
  }

  /** Of the workers sharing a view, exactly one takes itself for the process node of a service. */
  lemma ExactlyOneProcessNode(at: Locate, view: set<string>, workerIps: seq<string>, replicas: nat, service: string)
    returns (owner: string)
    requires view != {} && replicas > 0 && DistinctIgnoringCase(view)
    ensures owner in view && ShardingNode(at, view, workerIps, replicas, service) == Some(owner)
    ensures forall w :: w in view ==> (IsProcessNode(at, view, workerIps, replicas, w, service) <==> w == owner)
  {
    OwnerIsMember(at, view, replicas, at(service));
    owner := ShardingNode(at, view, workerIps, replicas, service).value;
  }

  /** Of the workers sharing a view, exactly one takes itself for the leader. */
  lemma ExactlyOneLeader(at: Locate, view: set<string>, workerIps: seq<string>, replicas: nat) returns (head: string)
    requires view != {} && replicas > 0 && DistinctIgnoringCase(view)
    ensures head in view && HeadNode(at, view, workerIps, replicas) == Some(head)
    ensures forall w :: w in view ==> (IsLeaderNode(at, view, workerIps, replicas, w) <==> w == head)
  {
    HeadIsMember(at, view, replicas);
    head := HeadNode(at, view, workerIps, replicas).value;
  }

  /**
   * Two registered workers that watched the same changes, on whatever snapshots, agree on the live set,
   * hence on the owner of every service and on the head node.
   */
  lemma WorkersAgree(at: Locate, replicas: nat, ips: seq<string>, ips': seq<string>,
                     w: string, snapshot: set<string>, changes: seq<Change>,
                     w': string, snapshot': set<string>, changes': seq<Change>, service: string)
    requires ValidIps(changes) && ValidIps(changes')
    requires OwnAddressUnique(w, snapshot, changes) && OwnAddressUnique(w', snapshot', changes')
    requires Live(snapshot, changes) == Live(snapshot', changes')
    requires w in Live(snapshot, changes) && w' in Live(snapshot, changes)
    ensures var view := Replay(snapshot, EventsOf(changes), w).view;
            var view' := Replay(snapshot', EventsOf(changes'), w').view;
            && view == view' == Live(snapshot, changes)
            && ShardingNode(at, view, ips, replicas, service) == ShardingNode(at, view', ips', replicas, service)
            && HeadNode(at, view, ips, replicas) == HeadNode(at, view', ips', replicas)
            && (replicas > 0 ==> ShardingNode(at, view, ips, replicas, service).Some?
                                 && ShardingNode(at, view, ips, replicas, service).value in view)
  {
    RegisteredViewIsLive(snapshot, changes, w);
    RegisteredViewIsLive(snapshot', changes', w');
    OwnerIsMember(at, Live(snapshot, changes), replicas, at(service));
  }
}
