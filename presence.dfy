/** The `onlineUsers` object of the socket server: a JavaScript object keyed by user id,
    whose keys `Object.keys` lists in insertion order. */
module Presence {
  import opened Model

  /** The values the object can hold: `userConnected` stores `true`; a socket id is a string. */
  datatype JsValue = Flag(b: bool) | Text(s: string)

  datatype Entry = Entry(key: Id, value: JsValue)

  /** An object has each key once. */
  predicate KeysDistinct(es: seq<Entry>) {
    forall i, j :: 0 <= i < j < |es| ==> es[i].key != es[j].key
  }

  /** `Object.keys(onlineUsers)`. */
  function Keys(es: seq<Entry>): (r: seq<Id>)
    ensures |r| == |es| && forall j :: 0 <= j < |es| ==> r[j] == es[j].key
  {
    seq(|es|, j requires 0 <= j < |es| => es[j].key)
  }

  /** `onlineUsers[k]`, `None` standing for `undefined`. */
  function Lookup(es: seq<Entry>, k: Id): (r: Option<JsValue>)
    ensures r.None? <==> forall j :: 0 <= j < |es| ==> es[j].key != k
    ensures r.Some? ==> exists j :: 0 <= j < |es| && es[j] == Entry(k, r.value)
  {
    if |es| == 0 then None
    else if es[0].key == k then Some(es[0].value)
    else
      var r := Lookup(es[1..], k);
      assert r.Some? ==> exists j :: 0 <= j < |es| && es[j] == Entry(k, r.value) by {
        if r.Some? {
          var j :| 0 <= j < |es[1..]| && es[1..][j] == Entry(k, r.value);
          assert es[j + 1] == Entry(k, r.value);
        }
      }
      r
  }

  /** `onlineUsers[k] = v`: the value of an existing key is overwritten in place, a new key
      goes to the end. */
  function Assign(es: seq<Entry>, k: Id, v: JsValue): (r: seq<Entry>)
    ensures |r| == if Lookup(es, k).None? then |es| + 1 else |es|
    ensures forall j :: 0 <= j < |r| ==> r[j] == Entry(k, v) || r[j] in es
    ensures Lookup(es, k).None? ==> r == es + [Entry(k, v)]
  {
    if |es| == 0 then [Entry(k, v)]
    else if es[0].key == k then [Entry(k, v)] + es[1..]
    else
      var rest := Assign(es[1..], k, v);
      assert forall j :: 0 <= j < |rest| ==> rest[j] == Entry(k, v) || rest[j] in es;
      [es[0]] + rest
  }

  /** After the assignment `k` reads as `v` and every other key reads as before. */
  lemma {:induction false} AssignLookup(es: seq<Entry>, k: Id, v: JsValue, k': Id)
    ensures Lookup(Assign(es, k, v), k') == if k' == k then Some(v) else Lookup(es, k')
  {
    if |es| > 0 && es[0].key != k {
      AssignLookup(es[1..], k, v, k');
      assert Assign(es, k, v)[1..] == Assign(es[1..], k, v);
    }
  }

  /** Overwriting an existing key changes no key at any position. */
  lemma {:induction false} AssignKeepsPositions(es: seq<Entry>, k: Id, v: JsValue)
    requires Lookup(es, k).Some?
    ensures |Assign(es, k, v)| == |es| && forall j :: 0 <= j < |es| ==> Assign(es, k, v)[j].key == es[j].key
  {
    if es[0].key != k {
      var rest := Assign(es[1..], k, v);
      AssignKeepsPositions(es[1..], k, v);
      assert Assign(es, k, v) == [es[0]] + rest;
      forall j | 0 < j < |es| ensures Assign(es, k, v)[j].key == es[j].key {
        assert Assign(es, k, v)[j] == rest[j - 1] && es[j] == es[1..][j - 1];
      }
    }
  }

  /** An assignment keeps the keys distinct. */
  lemma AssignKeepsDistinct(es: seq<Entry>, k: Id, v: JsValue)
    requires KeysDistinct(es)
    ensures KeysDistinct(Assign(es, k, v))
  {
    var r := Assign(es, k, v);
    if Lookup(es, k).Some? {
      AssignKeepsPositions(es, k, v);
      forall a, b | 0 <= a < b < |r| ensures r[a].key != r[b].key {
        assert r[a].key == es[a].key && r[b].key == es[b].key;
      }
    } else {
      forall a, b | 0 <= a < b < |r| ensures r[a].key != r[b].key {
        assert r[a] == es[a];
        if b < |es| {
          assert r[b] == es[b];
        }
      }
    }
  }

  /** Overwriting an existing key keeps `Object.keys` as it was; the object stays an object. */
  lemma AssignKeys(es: seq<Entry>, k: Id, v: JsValue)
    ensures Lookup(es, k).Some? ==> Keys(Assign(es, k, v)) == Keys(es)
    ensures KeysDistinct(es) ==> KeysDistinct(Assign(es, k, v))
  {
    if Lookup(es, k).Some? {
      AssignKeepsPositions(es, k, v);
    }
    if KeysDistinct(es) {
      AssignKeepsDistinct(es, k, v);
    }
  }

  /** After the assignment the key is among `Object.keys`. */
  lemma AssignedKeyListed(es: seq<Entry>, k: Id, v: JsValue)
    ensures k in Keys(Assign(es, k, v))
  {
    AssignLookup(es, k, v, k);
    var r := Assign(es, k, v);
    var j :| 0 <= j < |r| && r[j] == Entry(k, v);
    assert Keys(r)[j] == k;
  }

  /** `delete onlineUsers[k]`: the key goes, the others keep their order. */
  function Delete(es: seq<Entry>, k: Id): (r: seq<Entry>)
    ensures Lookup(r, k).None?
    ensures forall k' :: k' != k ==> Lookup(r, k') == Lookup(es, k')
    ensures forall j :: 0 <= j < |r| ==> r[j] in es
    ensures Lookup(es, k).None? ==> r == es
    ensures KeysDistinct(es) ==> KeysDistinct(r)
  {
    if |es| == 0 then []
    else if es[0].key == k then Delete(es[1..], k)
    else
      var rest := Delete(es[1..], k);
      assert forall j :: 0 <= j < |rest| ==> rest[j] in es;
      [es[0]] + rest
  }

  /** `Object.keys(onlineUsers).find(key => onlineUsers[key] === v)`: the first key, in
      insertion order, whose value is strictly equal to `v`. */
  function FirstKeyWithValue(es: seq<Entry>, v: JsValue): (r: Option<Id>)
    ensures r.None? <==> forall j :: 0 <= j < |es| ==> es[j].value != v
    ensures r.Some? ==> exists j :: 0 <= j < |es| && es[j] == Entry(r.value, v) &&
                          forall i :: 0 <= i < j ==> es[i].value != v
  {
    if |es| == 0 then None
    else if es[0].value == v then Some(es[0].key)
    else
      var r := FirstKeyWithValue(es[1..], v);
      assert r.Some? ==> exists j :: 0 <= j < |es| && es[j] == Entry(r.value, v) &&
                          forall i :: 0 <= i < j ==> es[i].value != v by {
        if r.Some? {
          var j :| 0 <= j < |es[1..]| && es[1..][j] == Entry(r.value, v) &&
                   forall i :: 0 <= i < j ==> es[1..][i].value != v;
          assert es[j + 1] == Entry(r.value, v);
          forall i | 0 <= i < j + 1 ensures es[i].value != v {
            if i > 0 { assert es[i] == es[1..][i - 1]; }
          }
        }
      }
      r
  }

  /** The scan behind `find`, as a loop over the keys. */
  method FindKeyWithValue(es: seq<Entry>, v: JsValue) returns (r: Option<Id>)
    ensures r == FirstKeyWithValue(es, v)
  {
    var keys := Keys(es);
    var i := 0;
    while i < |keys|
      invariant 0 <= i <= |keys|
      invariant FirstKeyWithValue(es, v) == FirstKeyWithValue(es[i..], v)
    {
      assert es[i..][1..] == es[i + 1..];
      if es[i].value == v {
        return Some(keys[i]);
      }
      i := i + 1;
    }
    return None;
  }

  /** The map of connected users, kept by the server between events. */
  class OnlineUsers {
    var entries: seq<Entry>

    ghost predicate Valid()
      reads this
    {
      KeysDistinct(entries)
    }

    constructor()
      ensures Valid() && entries == []
    {
      entries := [];
    }
  }

  /* ---------- Presence over a whole session ---------- */

  /** The two events that change the map as the server is written. */
  datatype PresenceEvent = Connected(user: Id) | LoggedOut(user: Id)

  /** The map after a sequence of events, with `userConnected` storing `true`. */
  function Replay(es: seq<Entry>, events: seq<PresenceEvent>): (r: seq<Entry>)
    ensures |events| > 0 && events[|events| - 1].Connected? ==>
              Lookup(r, events[|events| - 1].user) == Some(Flag(true))
    ensures |events| > 0 && events[|events| - 1].LoggedOut? ==>
              Lookup(r, events[|events| - 1].user).None?
  {
    if |events| == 0 then es
    else
      var last := events[|events| - 1];
      var before := Replay(es, events[..|events| - 1]);
      match last
      case Connected(u) => AssignLookup(before, u, Flag(true), u); Assign(before, u, Flag(true))
      case LoggedOut(u) => Delete(before, u)
  }

  /** What a user's key holds after the events, read off the events alone: the user's last
      event decides (online after a connection, absent after a logout), and a user without
      events keeps what the map held before. */
  function StatusAfter(es: seq<Entry>, events: seq<PresenceEvent>, u: Id): Option<JsValue> {
    if |events| == 0 then Lookup(es, u)
    else if events[|events| - 1].user == u then
      if events[|events| - 1].Connected? then Some(Flag(true)) else None
    else StatusAfter(es, events[..|events| - 1], u)
  }

  /** Replaying the events on the map agrees, key by key, with reading each user's last
      event. */
  lemma {:induction false} ReplayLookup(es: seq<Entry>, events: seq<PresenceEvent>, u: Id)
    ensures Lookup(Replay(es, events), u) == StatusAfter(es, events, u)
  {
    if |events| > 0 {
      var before := Replay(es, events[..|events| - 1]);
      ReplayLookup(es, events[..|events| - 1], u);
      match events[|events| - 1]
      case Connected(v) => AssignLookup(before, v, Flag(true), u);
      case LoggedOut(v) =>
    }
  }

  /** Every value in the map is the flag `true`. */
  predicate OnlyFlags(es: seq<Entry>) {
    forall j :: 0 <= j < |es| ==> es[j].value == Flag(true)
  }

  /** Whatever users connected and logged out, starting from the empty map, no value ever
      equals a socket id, so the search in `disconnect` finds nothing and the map is left
      as it was: a user whose connection drops stays listed as online. */
  lemma {:induction false} DisconnectNeverFindsUser(events: seq<PresenceEvent>, socketId: string)
    ensures OnlyFlags(Replay([], events))
    ensures FirstKeyWithValue(Replay([], events), Text(socketId)).None?
  {
    if |events| > 0 {
      DisconnectNeverFindsUser(events[..|events| - 1], socketId);
      var before := Replay([], events[..|events| - 1]);
      var after := Replay([], events);
      forall j | 0 <= j < |after| ensures after[j].value == Flag(true) {
        assert after[j] == Entry(events[|events| - 1].user, Flag(true)) || after[j] in before;
      }
    }
  }

  /** With `userConnected` storing the socket id instead, and no other user recorded under
      that socket, `disconnect` finds the user who connected and deleting the key takes that
      user offline, leaving everyone else as they were. */
  lemma SocketKeyFoundOnDisconnect(es: seq<Entry>, u: Id, socketId: string)
    requires forall j :: 0 <= j < |es| ==> es[j].value != Text(socketId)
    ensures FirstKeyWithValue(Assign(es, u, Text(socketId)), Text(socketId)) == Some(u)
    ensures Lookup(Delete(Assign(es, u, Text(socketId)), u), u).None?
    ensures forall k :: k != u ==> Lookup(Delete(Assign(es, u, Text(socketId)), u), k) == Lookup(es, k)
  {
    var r := Assign(es, u, Text(socketId));
    var found := FirstKeyWithValue(r, Text(socketId));
    assert found.Some? by {
      AssignLookup(es, u, Text(socketId), u);
      var j :| 0 <= j < |r| && r[j] == Entry(u, Text(socketId));
    }
    var j :| 0 <= j < |r| && r[j] == Entry(found.value, Text(socketId));
    assert r[j] !in es;
    forall k | k != u ensures Lookup(r, k) == Lookup(es, k) {
      AssignLookup(es, u, Text(socketId), k);
    }
  }
}
