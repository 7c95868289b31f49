/** The reaction list embedded in a message, and the three ways the handlers change it:
    upsert (addReaction and POST /:id/reactions), update-only-if-present (updateReaction)
    and remove-by-filter (removeReaction). */
module Reactions {
  import opened Model

  /** The position that `reactions.find(r => r.user === u)` selects: the first entry of `u`. */
  function IndexOf(rs: seq<Reaction>, u: Id): (r: Option<nat>)
    ensures r.Some? ==> r.value < |rs| && rs[r.value].user == u
    ensures r.Some? ==> forall j :: 0 <= j < r.value ==> rs[j].user != u
    ensures r.None? ==> forall j :: 0 <= j < |rs| ==> rs[j].user != u
  {
    if |rs| == 0 then None
    else if rs[0].user == u then Some(0)
    else match IndexOf(rs[1..], u)
      case None => None
      case Some(k) => Some(k + 1)
  }

  predicate HasReaction(rs: seq<Reaction>, u: Id) {
    exists j :: 0 <= j < |rs| && rs[j].user == u
  }

  /** The invariant the handlers aim at: no user reacts twice to one message. */
  predicate AtMostOnePerUser(rs: seq<Reaction>) {
    forall i, j :: 0 <= i < j < |rs| ==> rs[i].user != rs[j].user
  }

  /** The linear scan behind `reactions.find`, as a loop. */
  method FindReaction(rs: seq<Reaction>, u: Id) returns (idx: Option<nat>)
    ensures idx == IndexOf(rs, u)
  {
    var i := 0;
    while i < |rs|
      invariant 0 <= i <= |rs|
      invariant forall j :: 0 <= j < i ==> rs[j].user != u
    {
      if rs[i].user == u {
        return Some(i);
      }
      i := i + 1;
    }
    return None;
  }

  /** Upsert: set the type of the user's existing entry, or push a new entry. */
  function Upsert(rs: seq<Reaction>, u: Id, t: string): (r: seq<Reaction>)
    ensures |r| == if HasReaction(rs, u) then |rs| else |rs| + 1
    ensures forall j :: 0 <= j < |rs| && rs[j].user != u ==> r[j] == rs[j]
    ensures !HasReaction(rs, u) ==> r == rs + [Reaction(u, t)]
    ensures exists j :: 0 <= j < |r| && r[j] == Reaction(u, t)
  {
    match IndexOf(rs, u)
    case Some(i) =>
      var r := rs[i := rs[i].(reactionType := t)];
      assert rs[i].user == u && r[i] == Reaction(u, t);
      r
    case None =>
      var r := rs + [Reaction(u, t)];
      assert r[|rs|] == Reaction(u, t);
      r
  }

  /** The upsert as the handlers write it: find the user's entry, then assign its type in
      place or push a new entry. */
  method ApplyUpsert(rs: seq<Reaction>, u: Id, t: string) returns (r: seq<Reaction>)
    ensures r == Upsert(rs, u, t)
  {
    var existing := FindReaction(rs, u);
    if existing.Some? {
      r := rs[existing.value := rs[existing.value].(reactionType := t)];
    } else {
      r := rs + [Reaction(u, t)];
    }
  }

  /** updateReaction: like the upsert, but only when the user already has an entry. */
  function UpdateExisting(rs: seq<Reaction>, u: Id, t: string): (r: Option<seq<Reaction>>)
    ensures r.None? <==> !HasReaction(rs, u)
    ensures r.Some? ==> r.value == Upsert(rs, u, t) && |r.value| == |rs|
  {
    match IndexOf(rs, u)
    case Some(i) => Some(rs[i := rs[i].(reactionType := t)])
    case None => None
  }

  /** removeReaction: `reactions.filter(r => r.user !== u)`. */
  function Remove(rs: seq<Reaction>, u: Id): (r: seq<Reaction>)
    ensures |r| <= |rs|
  {
    if |rs| == 0 then []
    else if rs[0].user == u then Remove(rs[1..], u)
    else [rs[0]] + Remove(rs[1..], u)
  }

  /** The filter keeps exactly the entries of other users, and leaves a list without an
      entry of the user as it was. */
  lemma {:induction false} RemoveKeepsOthers(rs: seq<Reaction>, u: Id)
    ensures forall j :: 0 <= j < |Remove(rs, u)| ==> Remove(rs, u)[j].user != u && Remove(rs, u)[j] in rs
    ensures forall j :: 0 <= j < |rs| && rs[j].user != u ==> rs[j] in Remove(rs, u)
    ensures !HasReaction(rs, u) ==> Remove(rs, u) == rs
  {
    if |rs| > 0 {
      var tail := rs[1..];
      RemoveKeepsOthers(tail, u);
      assert forall j :: 0 <= j < |tail| ==> tail[j] == rs[j + 1];
      assert forall j :: 0 < j < |rs| ==> rs[j] == tail[j - 1];
      if !HasReaction(rs, u) {
        assert !HasReaction(tail, u) by {
          forall j | 0 <= j < |tail| ensures tail[j].user != u {
            assert rs[j + 1].user != u;
          }
        }
      }
    }
  }

  /** Whatever the user's entry held, the upsert leaves exactly one entry for the user,
      carrying the new type, and keeps the list free of double reactions. */
  lemma UpsertLeavesExactlyOne(rs: seq<Reaction>, u: Id, t: string)
    requires AtMostOnePerUser(rs)
    ensures AtMostOnePerUser(Upsert(rs, u, t))
    ensures forall j :: 0 <= j < |Upsert(rs, u, t)| && Upsert(rs, u, t)[j].user == u ==>
              Upsert(rs, u, t)[j] == Reaction(u, t)
  {
    var r := Upsert(rs, u, t);
    match IndexOf(rs, u)
    case Some(i) =>
      assert r == rs[i := Reaction(u, t)];
    case None =>
      assert r == rs + [Reaction(u, t)];
  }

  /** Two upserts by the same user: the second one wins, as if the first never happened. */
  lemma UpsertLastWriteWins(rs: seq<Reaction>, u: Id, t1: string, t2: string)
    ensures Upsert(Upsert(rs, u, t1), u, t2) == Upsert(rs, u, t2)
  {
    var r1 := Upsert(rs, u, t1);
    match IndexOf(rs, u)
    case Some(i) =>
      assert r1 == rs[i := Reaction(u, t1)];
      assert r1[i].user == u;
      assert forall j :: 0 <= j < i ==> r1[j] == rs[j];
    case None =>
      assert r1 == rs + [Reaction(u, t1)];
      assert r1[|rs|].user == u;
      assert forall j :: 0 <= j < |rs| ==> r1[j] == rs[j];
  }

  lemma TailAtMostOne(rs: seq<Reaction>)
    requires |rs| > 0 && AtMostOnePerUser(rs)
    ensures AtMostOnePerUser(rs[1..])
  {
    var tail := rs[1..];
    forall a, b | 0 <= a < b < |tail| ensures tail[a].user != tail[b].user {
      assert tail[a] == rs[a + 1] && tail[b] == rs[b + 1];
    }
  }

  /** The first entry of `u` past the head is found one place earlier in the tail. */
  lemma TailIndexOf(rs: seq<Reaction>, u: Id, i: nat)
    requires 0 < i && IndexOf(rs, u) == Some(i)
    ensures IndexOf(rs[1..], u) == Some(i - 1)
  {
    assert rs[0].user != u;
  }

  /** When the head is the user's only entry, the filter drops just the head. */
  lemma RemoveOwnHead(rs: seq<Reaction>, u: Id)
    requires |rs| > 0 && rs[0].user == u && AtMostOnePerUser(rs)
    ensures Remove(rs, u) == rs[1..]
  {
    var tail := rs[1..];
    forall j | 0 <= j < |tail| ensures tail[j].user != u {
      assert rs[0].user != rs[j + 1].user;
    }
    RemoveKeepsOthers(tail, u);
  }

  /** With at most one entry per user, the filter removes exactly the user's entry and keeps
      the others in their order. */
  lemma {:induction false} RemoveDropsExactlyThatEntry(rs: seq<Reaction>, u: Id, i: nat)
    requires AtMostOnePerUser(rs)
    requires IndexOf(rs, u) == Some(i)
    ensures Remove(rs, u) == rs[..i] + rs[i + 1..]
  {
    if i == 0 {
      RemoveOwnHead(rs, u);
      assert rs[..0] + rs[1..] == rs[1..];
    } else {
      var tail, k := rs[1..], i - 1;
      TailAtMostOne(rs);
      TailIndexOf(rs, u, i);
      RemoveDropsExactlyThatEntry(tail, u, k);
      assert Remove(rs, u) == [rs[0]] + (tail[..k] + tail[k + 1..]);
      assert rs[..i] == [rs[0]] + tail[..k];
      assert rs[i + 1..] == tail[k + 1..];
    }
  }

  /** Filtering keeps the list free of double reactions. */
  lemma {:induction false} RemoveKeepsAtMostOne(rs: seq<Reaction>, u: Id)
    requires AtMostOnePerUser(rs)
    ensures AtMostOnePerUser(Remove(rs, u))
  {
    if |rs| > 0 && rs[0].user != u {
      var tail := rs[1..];
      var rest := Remove(tail, u);
      RemoveKeepsOthers(tail, u);
      assert AtMostOnePerUser(rest) by {
        TailAtMostOne(rs);
        RemoveKeepsAtMostOne(tail, u);
      }
      var r := [rs[0]] + rest;
      assert AtMostOnePerUser(r) by {
        forall b | 0 < b < |r| ensures r[0].user != r[b].user {
          assert r[b] == rest[b - 1] && rest[b - 1] in tail;
          var k :| 0 <= k < |tail| && tail[k] == r[b];
          assert rs[0].user != rs[k + 1].user;
        }
        forall a, b | 0 < a < b < |r| ensures r[a].user != r[b].user {
          assert r[a] == rest[a - 1] && r[b] == rest[b - 1];
        }
      }
      assert Remove(rs, u) == r;
    } else if |rs| > 0 {
      TailAtMostOne(rs);
      RemoveKeepsAtMostOne(rs[1..], u);
    }
  }
}
