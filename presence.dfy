/** The hub's presence map (username to number of open sockets) and typing set.
    Both are JavaScript collections that iterate in insertion order, so they are
    kept as sequences: `Map.set` on a present key updates it where it stands, on
    a new key appends it; `delete` takes the entry out. */
module Presence {
  import opened Messages

  type PresenceMap = seq<(string, nat)>

  predicate KeysDistinct(p: PresenceMap) {
    forall i, j :: 0 <= i < j < |p| ==> p[i].0 != p[j].0
  }

  /** The hub keeps one entry per user and never stores a count below 1. */
  predicate PresenceValid(p: PresenceMap) {
    KeysDistinct(p) && forall i :: 0 <= i < |p| ==> p[i].1 >= 1
  }

  /** Position of the entry for `u`, or -1. */
  function KeyIndex(p: PresenceMap, u: string): (r: int)
    ensures -1 <= r < |p|
    ensures r == -1 <==> forall i :: 0 <= i < |p| ==> p[i].0 != u
    ensures 0 <= r ==> p[r].0 == u
  {
    if p == [] then -1
    else if p[0].0 == u then 0
    else
      var i := KeyIndex(p[1..], u);
      if i == -1 then -1 else i + 1
  }

  /** `usernameToCount.get(u) || 0`. */
  function CountOf(p: PresenceMap, u: string): (c: nat)
    requires KeysDistinct(p)
    ensures (forall i :: 0 <= i < |p| ==> p[i].0 != u) ==> c == 0
    ensures forall i :: 0 <= i < |p| && p[i].0 == u ==> c == p[i].1
  {
    var i := KeyIndex(p, u);
    if i == -1 then 0 else p[i].1
  }

  /** `usernameToCount.set(u, c)`. */
  function SetCount(p: PresenceMap, u: string, c: nat): (r: PresenceMap)
    requires KeysDistinct(p)
    ensures KeysDistinct(r)
    ensures CountOf(r, u) == c
    ensures forall v :: v != u ==> CountOf(r, v) == CountOf(p, v)
  {
    var i := KeyIndex(p, u);
    var r := if i == -1 then p + [(u, c)] else p[i := (u, c)];
    assert |r| >= |p|;
    assert forall j :: 0 <= j < |p| && p[j].0 != u ==> r[j] == p[j];
    assert forall j :: |p| <= j < |r| ==> r[j].0 == u;
    assert KeysDistinct(r);
    assert r[if i == -1 then |p| else i] == (u, c);
    forall v | v != u ensures CountOf(r, v) == CountOf(p, v) {
      var k := KeyIndex(p, v);
      if k == -1 {
        assert forall j :: 0 <= j < |r| ==> r[j].0 != v;
      } else {
        assert r[k] == p[k];
      }
    }
    r
  }

  /** `usernameToCount.delete(u)`. */
  function RemoveKey(p: PresenceMap, u: string): (r: PresenceMap)
    requires KeysDistinct(p)
    ensures KeysDistinct(r)
    ensures CountOf(r, u) == 0
    ensures forall v :: v != u ==> CountOf(r, v) == CountOf(p, v)
    ensures forall j :: 0 <= j < |r| ==> exists i :: 0 <= i < |p| && r[j] == p[i]
  {
    var i := KeyIndex(p, u);
    if i == -1 then p
    else
      var r := p[..i] + p[i + 1..];
      assert forall j :: 0 <= j < |r| ==> r[j] == p[if j < i then j else j + 1];
      assert forall v :: CountOf(r, v) == (if v == u then 0 else CountOf(p, v)) by {
        forall v ensures CountOf(r, v) == (if v == u then 0 else CountOf(p, v)) {
          if KeyIndex(p, v) == -1 || v == u {
            assert forall j :: 0 <= j < |r| ==> r[j].0 != v;
          } else {
            var k := KeyIndex(p, v);
            assert r[if k < i then k else k - 1] == p[k];
          }
        }
      }
      r
  }

  /** The `connection` handler's presence update: one more socket for `u`. */
  function ConnectStep(p: PresenceMap, u: string): (r: PresenceMap)
    requires PresenceValid(p)
    ensures PresenceValid(r)
    ensures CountOf(r, u) == CountOf(p, u) + 1
    ensures forall v :: v != u ==> CountOf(r, v) == CountOf(p, v)
  {
    var r := SetCount(p, u, CountOf(p, u) + 1);
    assert forall i :: 0 <= i < |r| ==> r[i].1 >= 1 by {
      forall i | 0 <= i < |r| ensures r[i].1 >= 1 {
        assert CountOf(r, r[i].0) == r[i].1;
        if r[i].0 != u {
          assert CountOf(p, r[i].0) == r[i].1;
          assert KeyIndex(p, r[i].0) != -1;
        }
      }
    }
    r
  }

  /** The `disconnect` handler's presence update: the entry goes when the count
      is at most 1, otherwise the count drops by 1. */
  function DisconnectStep(p: PresenceMap, u: string): (r: PresenceMap)
    requires PresenceValid(p)
    ensures PresenceValid(r)
    ensures CountOf(r, u) == if CountOf(p, u) <= 1 then 0 else CountOf(p, u) - 1
    ensures forall v :: v != u ==> CountOf(r, v) == CountOf(p, v)
  {
    var c := CountOf(p, u);
    if c <= 1 then
      RemoveKey(p, u)
    else
      var r := SetCount(p, u, c - 1);
      assert forall i :: 0 <= i < |r| ==> r[i].1 >= 1 by {
        forall i | 0 <= i < |r| ensures r[i].1 >= 1 {
          assert CountOf(r, r[i].0) == r[i].1;
          if r[i].0 != u {
            assert CountOf(p, r[i].0) == r[i].1;
            assert KeyIndex(p, r[i].0) != -1;
          }
        }
      }
      r
  }

  /** `broadcastPresence`: the usernames whose count is positive, in map order. */
  function Online(p: PresenceMap): (r: seq<string>)
    ensures forall i :: 0 <= i < |p| && p[i].1 > 0 ==> p[i].0 in r
    ensures forall u :: u in r ==> exists i :: 0 <= i < |p| && p[i].0 == u && p[i].1 > 0
  {
    if p == [] then []
    else
      var rest := Online(p[1..]);
      assert forall i :: 1 <= i < |p| ==> p[1..][i - 1] == p[i];
      (if p[0].1 > 0 then [p[0].0] else []) + rest
  }

  /** With one entry per user, nobody is listed online twice. */
  lemma {:induction false} OnlineDistinct(p: PresenceMap)
    requires KeysDistinct(p)
    ensures Distinct(Online(p))
  {
    if p != [] {
      var tail := p[1..];
      assert forall i :: 0 <= i < |tail| ==> tail[i] == p[i + 1];
      OnlineDistinct(tail);
      var rest := Online(tail);
      var head := if p[0].1 > 0 then [p[0].0] else [];
      assert p[0].0 !in rest by {
        forall i | 0 <= i < |tail| ensures tail[i].0 != p[0].0 {
          assert tail[i] == p[i + 1];
        }
      }
      var r := head + rest;
      assert Online(p) == r;
      forall a, b | 0 <= a < b < |r| ensures r[a] != r[b] {
        if a < |head| {
          assert r[b] == rest[b - |head|];
        } else {
          assert r[a] == rest[a - |head|] && r[b] == rest[b - |head|];
        }
      }
    }
  }

  /** The online list names exactly the users with a positive count. */
  lemma OnlineIffCounted(p: PresenceMap, u: string)
    requires KeysDistinct(p)
    ensures u in Online(p) <==> CountOf(p, u) > 0
  {
    if CountOf(p, u) > 0 {
      var i := KeyIndex(p, u);
      assert p[i].0 == u;
    }
  }

  /** A connection lifecycle event of one socket. */
  datatype Lifecycle = Open(user: string) | Close(user: string)

  /** The presence map after a run of connects and disconnects from an empty hub. */
  function Replay(ops: seq<Lifecycle>): (p: PresenceMap)
    ensures PresenceValid(p)
  {
    if ops == [] then []
    else
      var prev := Replay(ops[..|ops| - 1]);
      match ops[|ops| - 1]
      case Open(u) => ConnectStep(prev, u)
      case Close(u) => DisconnectStep(prev, u)
  }

  /** Number of sockets of `u` that the run leaves open. */
  function OpenSockets(ops: seq<Lifecycle>, u: string): int {
    if ops == [] then 0
    else
      var prev := OpenSockets(ops[..|ops| - 1], u);
      var last := ops[|ops| - 1];
      if last.user != u then prev
      else if last.Open? then prev + 1
      else prev - 1
  }

  /** Every disconnect closes a socket that was opened before it. */
  predicate WellNested(ops: seq<Lifecycle>) {
    ops == [] ||
    (WellNested(ops[..|ops| - 1]) &&
     (ops[|ops| - 1].Close? ==> OpenSockets(ops[..|ops| - 1], ops[|ops| - 1].user) > 0))
  }

  /** After any well-nested run, each stored count is the user's number of open
      sockets. */
  lemma {:induction false} ReplayCountsOpenSockets(ops: seq<Lifecycle>, u: string)
    requires WellNested(ops)
    ensures CountOf(Replay(ops), u) == OpenSockets(ops, u)
  {
    if ops != [] {
      var init := ops[..|ops| - 1];
      var last := ops[|ops| - 1];
      var prev := Replay(init);
      ReplayCountsOpenSockets(init, u);
      if last.user == u {
        assert last.Close? ==> CountOf(prev, u) > 0;
      }
    }
  }

  /** After any well-nested run, the online list is exactly the users with an
      open socket. */
  lemma ReplayOnline(ops: seq<Lifecycle>, u: string)
    requires WellNested(ops)
    ensures u in Online(Replay(ops)) <==> OpenSockets(ops, u) > 0
  {
    ReplayCountsOpenSockets(ops, u);
    OnlineIffCounted(Replay(ops), u);
  }

  /** `typingUsers.add(u)`. */
  function AddUser(t: seq<string>, u: string): (r: seq<string>)
    requires Distinct(t)
    ensures Distinct(r)
    ensures forall v :: v in r <==> v in t || v == u
  {
    if u in t then t else t + [u]
  }

  /** `typingUsers.delete(u)`. */
  function RemoveUser(t: seq<string>, u: string): (r: seq<string>)
    requires Distinct(t)
    ensures Distinct(r)
    ensures forall v :: v in r <==> v in t && v != u
  {
    var i := IndexOf(t, u);
    if i == -1 then t
    else
      var r := t[..i] + t[i + 1..];
      RemoveAtDistinct(t, i);
      assert forall j :: 0 <= j < |r| ==> r[j] == t[if j < i then j else j + 1];
      assert forall k :: 0 <= k < |t| && k != i ==> t[k] == r[if k < i then k else k - 1];
      r
  }
}
