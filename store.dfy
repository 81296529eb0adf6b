/** The global `matches` Map of bot.js as a value: the stored matches in
    the Map's insertion order, with `get`, `set` and `delete`, and the chat
    filter of `/liste`. */
module Store {
  import opened Seqs
  import opened Roster

  datatype Option<T> = None | Some(value: T)

  // The Map's contents as a value: the stored matches in insertion order.

  function Ids(rs: seq<RosterState>): (ids: seq<Id>)
    ensures |ids| == |rs|
    ensures forall i :: 0 <= i < |rs| ==> ids[i] == rs[i].id
  {
    seq(|rs|, i requires 0 <= i < |rs| => rs[i].id)
  }

  /** `matches.get(id)`. */
  function Find(rs: seq<RosterState>, id: Id): (found: Option<RosterState>)
    ensures found.None? <==> id !in Ids(rs)
    ensures found.Some? ==> found.value in rs && found.value.id == id
  {
    var k := IndexOf(Ids(rs), id);
    if k >= 0 then Some(rs[k]) else None
  }

  /** `matches.set(r.id, r)`: an entry already stored under that id is
      replaced where it stands; otherwise the new entry goes last. */
  function Put(rs: seq<RosterState>, r: RosterState): seq<RosterState>
  {
    var k := IndexOf(Ids(rs), r.id);
    if k >= 0 then rs[k := r] else rs + [r]
  }

  /** `matches.delete(id)`. */
  function Delete(rs: seq<RosterState>, id: Id): seq<RosterState>
  {
    var k := IndexOf(Ids(rs), id);
    if k >= 0 then RemoveAt(rs, k) else rs
  }

  /** The `filter` of `/liste`: the matches of one chat, in the order given. */
  function ChatMatches(rs: seq<RosterState>, chatId: ChatId): (shown: seq<RosterState>)
    ensures |shown| <= |rs|
    decreases |rs|
  {
    if rs == [] then []
    else
      var init, last := rs[..|rs| - 1], rs[|rs| - 1];
      assert rs == init + [last];
      ChatMatches(init, chatId) + (if last.chatId == chatId then [last] else [])
  }

  /** The filter keeps exactly the matches of the chat. */
  lemma {:induction false} ChatMatchesMembers(rs: seq<RosterState>, chatId: ChatId)
    ensures forall r :: r in ChatMatches(rs, chatId) <==> r in rs && r.chatId == chatId
    decreases |rs|
  {
    if rs != [] {
      var init := rs[..|rs| - 1];
      ChatMatchesMembers(init, chatId);
      assert rs == init + [rs[|rs| - 1]];
    }
  }

  /** The filter over one more entry. */
  lemma ChatMatchesSnoc(rs: seq<RosterState>, i: nat, chatId: ChatId)
    requires i < |rs|
    ensures ChatMatches(rs[..i + 1], chatId)
      == ChatMatches(rs[..i], chatId) + (if rs[i].chatId == chatId then [rs[i]] else [])
  {
    assert rs[..i + 1][..i] == rs[..i];
  }

  /** After `set`, a lookup of the new id finds the new match, lookups of
      every other id find what they found before, and the id keeps its place
      in the Map's order (or is added last when it is new). */
  lemma PutThenFind(rs: seq<RosterState>, r: RosterState)
    requires NoDuplicates(Ids(rs))
    ensures NoDuplicates(Ids(Put(rs, r)))
    ensures Find(Put(rs, r), r.id) == Some(r)
    ensures forall id :: id != r.id ==> Find(Put(rs, r), id) == Find(rs, id)
    ensures r.id in Ids(rs) ==> Ids(Put(rs, r)) == Ids(rs)
    ensures r.id !in Ids(rs) ==> Ids(Put(rs, r)) == Ids(rs) + [r.id]
  {
    var ids := Ids(rs);
    var k := IndexOf(ids, r.id);
    var ids' := Ids(Put(rs, r));
    if k >= 0 {
      assert ids' == ids;
      IndexOfUnique(ids', k);
    } else {
      assert ids' == ids + [r.id];
      assert NoDuplicates(ids') by {
        forall i, j | 0 <= i < j < |ids'|
          ensures ids'[i] != ids'[j]
        {
          if j == |ids| {
            assert ids'[i] == ids[i];
          }
        }
      }
      IndexOfUnique(ids', |ids|);
    }
    forall id | id != r.id
      ensures Find(Put(rs, r), id) == Find(rs, id)
    {
      var i := IndexOf(ids, id);
      if i >= 0 {
        IndexOfUnique(ids', i);
      } else {
        assert id !in ids';
      }
    }
  }

  /** The entry stored at position `k` is the one found under its id. */
  lemma FindAt(rs: seq<RosterState>, k: nat)
    requires NoDuplicates(Ids(rs)) && k < |rs|
    ensures Find(rs, rs[k].id) == Some(rs[k])
  {
    IndexOfUnique(Ids(rs), k);
  }

  /** The entry stored at position `k` is the one found under its id, and
      `set` under that id replaces exactly that entry. */
  lemma PutAt(rs: seq<RosterState>, k: nat, r: RosterState)
    requires NoDuplicates(Ids(rs)) && k < |rs| && rs[k].id == r.id
    ensures Find(rs, r.id) == Some(rs[k])
    ensures Put(rs, r) == rs[k := r]
  {
    IndexOfUnique(Ids(rs), k);
  }

  /** `delete` drops the id from the Map's order and keeps the rest of it. */
  lemma DeleteIds(rs: seq<RosterState>, id: Id)
    requires NoDuplicates(Ids(rs))
    ensures Ids(Delete(rs, id)) == Without(Ids(rs), id)
    ensures NoDuplicates(Ids(Delete(rs, id))) && id !in Ids(Delete(rs, id))
  {
    var ids := Ids(rs);
    var k := IndexOf(ids, id);
    if k >= 0 {
      assert Ids(Delete(rs, id)) == RemoveAt(ids, k);
      RemoveAtMembers(ids, k);
      RemoveAtIndexOf(ids, id);
    } else {
      WithoutAbsent(ids, id);
    }
  }

  /** `delete` of one id leaves the lookup of every other id as it was. */
  lemma DeleteKeepsOthers(rs: seq<RosterState>, id: Id, other: Id)
    requires NoDuplicates(Ids(rs)) && other != id
    ensures Find(Delete(rs, id), other) == Find(rs, other)
  {
    var ids, d := Ids(rs), Delete(rs, id);
    var k := IndexOf(ids, id);
    var i := IndexOf(ids, other);
    if k >= 0 {
      assert Ids(d) == RemoveAt(ids, k);
      RemoveAtMembers(ids, k);
      if i >= 0 {
        var i' := if i < k then i else i - 1;
        assert d[i'] == rs[i];
        FindAt(d, i');
      }
    }
  }

  /** After `delete`, the id is gone, every other id is found as before, and
      the remaining entries keep their order. */
  lemma DeleteThenFind(rs: seq<RosterState>, id: Id)
    requires NoDuplicates(Ids(rs))
    ensures NoDuplicates(Ids(Delete(rs, id)))
    ensures Find(Delete(rs, id), id) == None
    ensures forall other :: other != id ==> Find(Delete(rs, id), other) == Find(rs, other)
    ensures Ids(Delete(rs, id)) == Without(Ids(rs), id)
  {
    DeleteIds(rs, id);
    forall other | other != id
      ensures Find(Delete(rs, id), other) == Find(rs, other)
    {
      DeleteKeepsOthers(rs, id, other);
    }
  }

  /** Filtering by chat keeps the order of the Map: the matches of an earlier
      part come before those of a later part. */
  lemma {:induction false} ChatMatchesConcat(a: seq<RosterState>, b: seq<RosterState>, chatId: ChatId)
    ensures ChatMatches(a + b, chatId) == ChatMatches(a, chatId) + ChatMatches(b, chatId)
    decreases |b|
  {
    if b != [] {
      var init, last := b[..|b| - 1], b[|b| - 1];
      assert (a + b)[..|a + b| - 1] == a + init;
      ChatMatchesConcat(a, init, chatId);
    } else {
      assert a + b == a;
    }
  }

  /** A cancelled match is never listed again. */
  lemma CancelledNotListed(rs: seq<RosterState>, id: Id, chatId: ChatId)
    requires NoDuplicates(Ids(rs))
    ensures forall r :: r in ChatMatches(Delete(rs, id), chatId) ==> r.id != id
  {
    DeleteThenFind(rs, id);
    ChatMatchesMembers(Delete(rs, id), chatId);
    forall r | r in ChatMatches(Delete(rs, id), chatId)
      ensures r.id != id
    {
      var d := Delete(rs, id);
      var i :| 0 <= i < |d| && d[i] == r;
      assert Ids(d)[i] == r.id;
    }
  }
}
