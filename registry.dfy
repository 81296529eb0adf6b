/** The registry of bot.js: the `matches` Map of match objects and the
    bodies of the command handlers that act on it (/padel, /liste, /rj,
    /quitter, /annuler). A handler takes the sender, the chat and the
    already-split arguments, and returns the reply it would send as a `Reply`
    value. */
module Registry {
  import opened Seqs
  import opened Roster
  import opened Presenter
  import opened Matches
  import opened Store

  // ---------------------------------------------------------------------
  // Replies and the handlers

  datatype Command = CreateCommand | JoinCommand | LeaveCommand | CancelCommand

  datatype Reply =
    | Usage(command: Command)                          // the command's expected format
    | NotFound                                         // no match under that id
    | Created(lines: seq<Line>)                        // the new roster
    | NoMatches                                        // no match in this chat
    | Listing(lines: seq<Line>)
    | JoinAccepted(joined: JoinOutcome, lines: seq<Line>)
    | JoinRefused(joined: JoinOutcome)
    | LeaveAccepted(left: LeaveOutcome, lines: seq<Line>)
    | LeaveRefused(left: LeaveOutcome)
    | NotCreator                                       // only the creator may cancel
    | Cancelled(id: Id, requester: User)

  /** `command.split(' ')[1]` with its truthiness test: missing or empty
      means no match id was given. */
  function MatchArg(args: seq<string>): Option<Id>
  {
    if |args| == 0 || args[0] == "" then None else Some(args[0])
  }

  /** Every stored match keeps the roster invariant. */
  predicate AllConsistent(rs: seq<RosterState>)
  {
    forall i :: 0 <= i < |rs| ==> Consistent(rs[i])
  }

  // The handlers as functions from the stored matches (and the command's
  // sender, chat and arguments) to the new stored matches and the reply.

  /** `/padel <date> <time>`; `id` stands for the clock-derived id. */
  function HandleCreate(rs: seq<RosterState>, sender: User, chatId: ChatId, args: seq<string>, id: Id)
    : (seq<RosterState>, Reply)
  {
    if |args| < 2 then (rs, Usage(CreateCommand))
    else
      var r := Initial(id, sender, args[0], args[1], chatId);
      (Put(rs, r), Created(Render(r)))
  }

  /** `/liste`. */
  function HandleList(rs: seq<RosterState>, chatId: ChatId): Reply
  {
    var shown := ChatMatches(rs, chatId);
    if shown == [] then NoMatches else Listing(RenderListing(shown))
  }

  /** `/rj <id>`. */
  function HandleJoin(rs: seq<RosterState>, sender: User, args: seq<string>): (seq<RosterState>, Reply)
  {
    match MatchArg(args)
    case None => (rs, Usage(JoinCommand))
    case Some(id) =>
      match Find(rs, id)
      case None => (rs, NotFound)
      case Some(r) =>
        var (r', outcome) := Roster.Join(r, sender);
        (Put(rs, r'), if outcome.Success() then JoinAccepted(outcome, Render(r')) else JoinRefused(outcome))
  }

  /** `/quitter <id>`. */
  function HandleLeave(rs: seq<RosterState>, sender: User, args: seq<string>): (seq<RosterState>, Reply)
  {
    match MatchArg(args)
    case None => (rs, Usage(LeaveCommand))
    case Some(id) =>
      match Find(rs, id)
      case None => (rs, NotFound)
      case Some(r) =>
        var (r', outcome) := Roster.Leave(r, sender);
        (Put(rs, r'), if outcome.Success() then LeaveAccepted(outcome, Render(r')) else LeaveRefused(outcome))
  }

  /** `/annuler <id>`: only the sender recorded as creator may delete the
      match, whether or not they still play in it. */
  function HandleCancel(rs: seq<RosterState>, sender: User, args: seq<string>): (seq<RosterState>, Reply)
  {
    match MatchArg(args)
    case None => (rs, Usage(CancelCommand))
    case Some(id) =>
      match Find(rs, id)
      case None => (rs, NotFound)
      case Some(r) =>
        if r.creator != sender then (rs, NotCreator)
        else (Delete(rs, id), Cancelled(id, sender))
  }

  // ---------------------------------------------------------------------
  // What the handlers promise

  /** `/padel` with fewer than two arguments changes nothing; otherwise the
      new match (the sender alone playing, no one waiting, open, in the
      sender's chat) is what the id now finds, replacing any match stored
      under that id in its place in the order; other ids find what they
      found before. */
  lemma CreateStores(rs: seq<RosterState>, sender: User, chatId: ChatId, args: seq<string>, id: Id)
    requires NoDuplicates(Ids(rs)) && AllConsistent(rs)
    ensures var (rs', reply) := HandleCreate(rs, sender, chatId, args, id);
      && AllConsistent(rs')
      && (|args| < 2 ==> rs' == rs && reply == Usage(CreateCommand))
      && (|args| >= 2 ==>
            var r := Initial(id, sender, args[0], args[1], chatId);
            && Find(rs', id) == Some(r)
            && r.participants == [sender] && r.waitingList == [] && r.status == Open
            && r.chatId == chatId && r.creator == sender
            && reply == Created(Render(r))
            && NoDuplicates(Ids(rs'))
            && (forall other :: other != id ==> Find(rs', other) == Find(rs, other))
            && (id in Ids(rs) ==> Ids(rs') == Ids(rs))
            && (id !in Ids(rs) ==> Ids(rs') == Ids(rs) + [id]))
  {
    if |args| >= 2 {
      var r := Initial(id, sender, args[0], args[1], chatId);
      PutThenFind(rs, r);
      var rs' := Put(rs, r);
      forall i | 0 <= i < |rs'|
        ensures Consistent(rs'[i])
      {
        if i < |rs| && rs'[i] != r {
          assert rs'[i] == rs[i];
        }
      }
    }
  }

  /** `/liste` answers "no matches" exactly when no stored match belongs to
      the chat; otherwise it shows, after its two heading lines, one
      three-line summary per match of the chat, in the Map's order. */
  lemma ListShows(rs: seq<RosterState>, chatId: ChatId)
    ensures HandleList(rs, chatId).NoMatches? <==> forall r :: r in rs ==> r.chatId != chatId
    ensures HandleList(rs, chatId).Listing? ==>
      var shown := ChatMatches(rs, chatId);
      var lines := HandleList(rs, chatId).lines;
      && lines[..2] == [ListingHeader, Blank]
      && |lines| == 2 + 3 * |shown|
      && forall i :: 0 <= i < |shown| ==> lines[2 + 3 * i .. 5 + 3 * i] == SummaryLines(shown[i])
  {
    var shown := ChatMatches(rs, chatId);
    ChatMatchesMembers(rs, chatId);
    if shown != [] {
      assert shown[0] in shown;
      var lines := RenderListing(shown);
      ListingBodyLength(shown);
      forall i | 0 <= i < |shown|
        ensures lines[2 + 3 * i .. 5 + 3 * i] == SummaryLines(shown[i])
      {
        ListingBodyAt(shown, i);
        assert lines[2 + 3 * i .. 5 + 3 * i] == ListingBody(shown)[3 * i .. 3 * i + 3];
      }
    }
  }

  /** `/rj` and `/quitter` change at most the match their argument names: it
      becomes what Roster.Join (or Roster.Leave) makes of it, every other
      match and the Map's order stay, and the roster invariant of every
      stored match is kept. Without an argument, or with an unknown id,
      nothing changes. */
  lemma JoinChangesOne(rs: seq<RosterState>, sender: User, args: seq<string>)
    requires NoDuplicates(Ids(rs)) && AllConsistent(rs)
    ensures var (rs', reply) := HandleJoin(rs, sender, args);
      && |rs'| == |rs| && Ids(rs') == Ids(rs)
      && AllConsistent(rs')
      && ((|args| == 0 || args[0] == "") ==> rs' == rs && reply == Usage(JoinCommand))
      && (|args| > 0 && args[0] != "" && args[0] !in Ids(rs) ==> rs' == rs && reply == NotFound)
      && (|args| > 0 && args[0] != "" && args[0] in Ids(rs) ==>
            var (r', outcome) := Roster.Join(Find(rs, args[0]).value, sender);
            && Find(rs', args[0]) == Some(r')
            && (outcome.Success() ==> reply == JoinAccepted(outcome, Render(r')))
            && (!outcome.Success() ==> reply == JoinRefused(outcome)))
      && (forall i :: 0 <= i < |rs| ==>
            if |args| > 0 && args[0] != "" && args[0] == rs[i].id then rs'[i] == Roster.Join(rs[i], sender).0
            else rs'[i] == rs[i])
  {
    var arg := MatchArg(args);
    if arg.Some? && arg.value in Ids(rs) {
      var k := IndexOf(Ids(rs), arg.value);
      var r' := Roster.Join(rs[k], sender).0;
      PutAt(rs, k, r');
      PutThenFind(rs, r');
      JoinPreservesConsistent(rs[k], sender);
      IndexOfUnique(Ids(rs), k);
    }
  }

  lemma LeaveChangesOne(rs: seq<RosterState>, sender: User, args: seq<string>)
    requires NoDuplicates(Ids(rs)) && AllConsistent(rs)
    ensures var (rs', reply) := HandleLeave(rs, sender, args);
      && |rs'| == |rs| && Ids(rs') == Ids(rs)
      && AllConsistent(rs')
      && ((|args| == 0 || args[0] == "") ==> rs' == rs && reply == Usage(LeaveCommand))
      && (|args| > 0 && args[0] != "" && args[0] !in Ids(rs) ==> rs' == rs && reply == NotFound)
      && (|args| > 0 && args[0] != "" && args[0] in Ids(rs) ==>
            var (r', outcome) := Roster.Leave(Find(rs, args[0]).value, sender);
            && Find(rs', args[0]) == Some(r')
            && (outcome.Success() ==> reply == LeaveAccepted(outcome, Render(r')))
            && (!outcome.Success() ==> reply == LeaveRefused(outcome)))
      && (forall i :: 0 <= i < |rs| ==>
            if |args| > 0 && args[0] != "" && args[0] == rs[i].id then rs'[i] == Roster.Leave(rs[i], sender).0
            else rs'[i] == rs[i])
  {
    var arg := MatchArg(args);
    if arg.Some? && arg.value in Ids(rs) {
      var k := IndexOf(Ids(rs), arg.value);
      var r' := Roster.Leave(rs[k], sender).0;
      PutAt(rs, k, r');
      PutThenFind(rs, r');
      LeavePreservesConsistent(rs[k], sender);
      IndexOfUnique(Ids(rs), k);
    }
  }

  /** `/annuler` deletes exactly when the id names a stored match whose
      recorded creator is the sender; then the id finds nothing any more,
      is never listed again, and every other id finds what it found before.
      In every other case nothing changes. */
  lemma CancelOnlyByCreator(rs: seq<RosterState>, sender: User, args: seq<string>, chatId: ChatId)
    requires NoDuplicates(Ids(rs)) && AllConsistent(rs)
    ensures var (rs', reply) := HandleCancel(rs, sender, args);
      && (reply.Cancelled? <==>
            |args| > 0 && args[0] != "" && Find(rs, args[0]).Some?
            && Find(rs, args[0]).value.creator == sender)
      && (!reply.Cancelled? ==> rs' == rs)
      && ((|args| == 0 || args[0] == "") ==> reply == Usage(CancelCommand))
      && (|args| > 0 && args[0] != "" && args[0] !in Ids(rs) ==> reply == NotFound)
      && ((|args| > 0 && args[0] != "" && Find(rs, args[0]).Some?
           && Find(rs, args[0]).value.creator != sender) ==> reply == NotCreator)
      && NoDuplicates(Ids(rs'))
      && AllConsistent(rs')
      && (reply.Cancelled? ==>
            var id := args[0];
            && reply == Cancelled(id, sender)
            && Find(rs', id) == None
            && (forall r :: r in ChatMatches(rs', chatId) ==> r.id != id)
            && (forall other :: other != id ==> Find(rs', other) == Find(rs, other)))
  {
    var arg := MatchArg(args);
    if arg.Some? && arg.value in Ids(rs) {
      var id := arg.value;
      var k := IndexOf(Ids(rs), id);
      DeleteThenFind(rs, id);
      CancelledNotListed(rs, id, chatId);
      var d := Delete(rs, id);
      forall i | 0 <= i < |d|
        ensures Consistent(d[i])
      {
        if i < k {
          assert d[i] == rs[i];
        } else {
          assert d[i] == rs[i + 1];
        }
      }
    }
  }

  /** The creator who has left their own match can still cancel it: `/annuler`
      checks the recorded creator, not the players. */
  lemma CreatorCancelsAfterLeaving(rs: seq<RosterState>, id: Id, creator: User)
    requires NoDuplicates(Ids(rs)) && AllConsistent(rs) && id != ""
    requires Find(rs, id).Some? && Find(rs, id).value.creator == creator
    ensures var (left, _) := HandleLeave(rs, creator, [id]);
      && Find(left, id).Some? && Find(left, id).value.creator == creator
      && creator !in Find(left, id).value.participants
      && HandleCancel(left, creator, [id]).1 == Cancelled(id, creator)
  {
    var r := Find(rs, id).value;
    var k := IndexOf(Ids(rs), id);
    PutAt(rs, k, Roster.Leave(r, creator).0);
    LeavePreservesConsistent(r, creator);
    PutThenFind(rs, Roster.Leave(r, creator).0);
    if creator in r.participants {
      if r.waitingList == [] {
        LeaveReopens(r, creator);
        RemoveAtIndexOf(r.participants, creator);
        RemoveAtMembers(r.participants, IndexOf(r.participants, creator));
      } else {
        LeavePromotes(r, creator);
      }
    }
  }

  // ---------------------------------------------------------------------
  // Any sequence of commands from the empty registry on

  /** A command that can change the stored matches, with its sender and
      arguments (and, for `/padel`, the chat and the clock-derived id).
      `/liste` changes nothing and so has no request here. */
  datatype Request =
    | CreateRequest(sender: User, chatId: ChatId, args: seq<string>, id: Id)
    | JoinRequest(sender: User, args: seq<string>)
    | LeaveRequest(sender: User, args: seq<string>)
    | CancelRequest(sender: User, args: seq<string>)

  /** The stored matches after one command. */
  function Apply(rs: seq<RosterState>, request: Request): seq<RosterState>
  {
    match request
    case CreateRequest(sender, chatId, args, id) => HandleCreate(rs, sender, chatId, args, id).0
    case JoinRequest(sender, args) => HandleJoin(rs, sender, args).0
    case LeaveRequest(sender, args) => HandleLeave(rs, sender, args).0
    case CancelRequest(sender, args) => HandleCancel(rs, sender, args).0
  }

  /** The stored matches after the given commands, handled one after another. */
  function Serve(rs: seq<RosterState>, requests: seq<Request>): seq<RosterState>
    decreases |requests|
  {
    if requests == [] then rs else Serve(Apply(rs, requests[0]), requests[1..])
  }

  /** Every command keeps the ids of the Map distinct and every stored roster
      consistent. */
  lemma ApplyPreservesStore(rs: seq<RosterState>, request: Request)
    requires NoDuplicates(Ids(rs)) && AllConsistent(rs)
    ensures NoDuplicates(Ids(Apply(rs, request))) && AllConsistent(Apply(rs, request))
  {
    match request
    case CreateRequest(sender, chatId, args, id) => CreateStores(rs, sender, chatId, args, id);
    case JoinRequest(sender, args) => JoinChangesOne(rs, sender, args);
    case LeaveRequest(sender, args) => LeaveChangesOne(rs, sender, args);
    case CancelRequest(sender, args) => CancelOnlyByCreator(rs, sender, args, "");
  }

  /** So does any sequence of commands. */
  lemma {:induction false} ServePreservesStore(rs: seq<RosterState>, requests: seq<Request>)
    requires NoDuplicates(Ids(rs)) && AllConsistent(rs)
    ensures NoDuplicates(Ids(Serve(rs, requests))) && AllConsistent(Serve(rs, requests))
    decreases |requests|
  {
    if requests != [] {
      ApplyPreservesStore(rs, requests[0]);
      ServePreservesStore(Apply(rs, requests[0]), requests[1..]);
    }
  }

  /** Every registry reachable from the empty Map holds each id once and only
      consistent rosters. */
  lemma RegistryReachable(requests: seq<Request>)
    ensures NoDuplicates(Ids(Serve([], requests))) && AllConsistent(Serve([], requests))
  {
    ServePreservesStore([], requests);
  }

  // ---------------------------------------------------------------------
  // How the registry's Map of objects holds a sequence of values.

  /** The map `ms`, whose insertion order is `ord`, holds one distinct match
      object per id, under the match's own id. */
  ghost predicate Keyed(ms: map<Id, Match>, ord: seq<Id>)
  {
    && NoDuplicates(ord)
    && (forall id :: id in ms <==> id in ord)
    && (forall id :: id in ms ==> ms[id].id == id)
    && (forall i, j :: 0 <= i < j < |ord| ==> ms[ord[i]] != ms[ord[j]])
  }

  /** The Map `ms` with insertion order `ord` is keyed as above, and in that
      order the values of its objects are `rs`. */
  ghost predicate Stores(ms: map<Id, Match>, ord: seq<Id>, rs: seq<RosterState>)
    reads ms.Values
  {
    && Keyed(ms, ord)
    && |rs| == |ord|
    && (forall i :: 0 <= i < |ord| ==> ms[ord[i]].View() == rs[i])
  }

  lemma StoresIds(ms: map<Id, Match>, ord: seq<Id>, rs: seq<RosterState>)
    requires Stores(ms, ord, rs)
    ensures Ids(rs) == ord
  {
    forall i | 0 <= i < |ord|
      ensures rs[i].id == ord[i]
    {
      assert ord[i] in ms;
    }
  }

  /** The entry at position `k` is the one `delete` removes under its id. */
  lemma DeleteAt(rs: seq<RosterState>, k: nat)
    requires NoDuplicates(Ids(rs)) && k < |rs|
    ensures Delete(rs, rs[k].id) == RemoveAt(rs, k)
  {
    IndexOfUnique(Ids(rs), k);
  }

  lemma KeyedDelete(ms: map<Id, Match>, ord: seq<Id>, k: nat)
    requires Keyed(ms, ord) && k < |ord|
    ensures Keyed(ms - {ord[k]}, RemoveAt(ord, k))
  {
    var ms', ord' := ms - {ord[k]}, RemoveAt(ord, k);
    RemoveAtMembers(ord, k);
    forall i, j | 0 <= i < j < |ord'|
      ensures ms'[ord'[i]] != ms'[ord'[j]]
    {
      var i0 := if i < k then i else i + 1;
      var j0 := if j < k then j else j + 1;
      assert ord'[i] == ord[i0] && ord'[j] == ord[j0];
    }
  }

  /** `matches.delete(ord[k])`. */
  lemma StoresDelete(ms: map<Id, Match>, ord: seq<Id>, rs: seq<RosterState>, k: nat)
    requires Stores(ms, ord, rs) && k < |ord|
    ensures Stores(ms - {ord[k]}, RemoveAt(ord, k), RemoveAt(rs, k))
    ensures RemoveAt(rs, k) == Delete(rs, ord[k])
  {
    var ms', ord' := ms - {ord[k]}, RemoveAt(ord, k);
    KeyedDelete(ms, ord, k);
    StoresIds(ms, ord, rs);
    DeleteAt(rs, k);
    forall i | 0 <= i < |ord'|
      ensures ms'[ord'[i]].View() == RemoveAt(rs, k)[i]
    {
      var i0 := if i < k then i else i + 1;
      assert ord'[i] == ord[i0];
    }
  }

  /** `matches.set(m.id, m)` with a new object `m` under an id already in
      use: the old object is dropped and `m` takes its place in the order. */
  lemma StoresReplace(ms: map<Id, Match>, ord: seq<Id>, rs: seq<RosterState>, m: Match)
    requires Stores(ms, ord, rs) && m !in ms.Values && m.id in ms
    ensures Stores(ms[m.id := m], ord, Put(rs, m.View()))
  {
    var ms' := ms[m.id := m];
    StoresIds(ms, ord, rs);
    var k := IndexOf(ord, m.id);
    assert Keyed(ms', ord) by {
      forall i, j | 0 <= i < j < |ord|
        ensures ms'[ord[i]] != ms'[ord[j]]
      {
        if i != k && j != k {
          assert ord[i] != m.id && ord[j] != m.id;
        } else if i != k {
          assert ms[ord[i]] in ms.Values;
        } else {
          assert ms[ord[j]] in ms.Values;
        }
      }
    }
    forall i | 0 <= i < |ord|
      ensures ms'[ord[i]].View() == Put(rs, m.View())[i]
    {
      if i != k {
        assert ord[i] != m.id;
      }
    }
  }

  /** `matches.set(m.id, m)` with a new object `m` under a new id: it goes
      last in the order. */
  lemma StoresAppend(ms: map<Id, Match>, ord: seq<Id>, rs: seq<RosterState>, m: Match)
    requires Stores(ms, ord, rs) && m !in ms.Values && m.id !in ms
    ensures Stores(ms[m.id := m], ord + [m.id], Put(rs, m.View()))
  {
    var ms', ord' := ms[m.id := m], ord + [m.id];
    StoresIds(ms, ord, rs);
    assert Put(rs, m.View()) == rs + [m.View()];
    forall i | 0 <= i < |ord|
      ensures ms'[ord'[i]] == ms[ord[i]]
    {
      assert ord'[i] == ord[i] && ord[i] != m.id;
    }
    assert Keyed(ms', ord') by {
      forall i, j | 0 <= i < j < |ord'|
        ensures ord'[i] != ord'[j] && ms'[ord'[i]] != ms'[ord'[j]]
      {
        if j == |ord| {
          assert ord'[i] == ord[i];
          assert ms[ord[i]] in ms.Values;
        }
      }
    }
  }

  /** The values of a sequence of match objects. */
  function Views(ms: seq<Match>): (rs: seq<RosterState>)
    reads ms
    ensures |rs| == |ms|
    ensures forall i :: 0 <= i < |ms| ==> rs[i] == ms[i].View()
  {
    seq(|ms|, i requires 0 <= i < |ms| reads ms => ms[i].View())
  }

  lemma ViewsSnoc(ms: seq<Match>, m: Match)
    ensures Views(ms + [m]) == Views(ms) + [m.View()]
  {
  }

  /** The text `/liste` builds from the matches it shows. */
  method FormatListing(chatMatches: seq<Match>) returns (response: seq<Line>)
    ensures response == RenderListing(Views(chatMatches))
  {
    ghost var shown := Views(chatMatches);
    response := [ListingHeader, Blank];
    var j := 0;
    while j < |chatMatches|
      invariant 0 <= j <= |chatMatches|
      invariant Views(chatMatches) == shown
      invariant response == [ListingHeader, Blank] + ListingBody(shown[..j])
    {
      var m := chatMatches[j];
      ListingBodySnoc(shown, j);
      assert SummaryLines(shown[j]) == [Summary(m.date, m.time, |m.participants|, MaxPlayers), ListedId(m.id), Blank];
      response := response + [Summary(m.date, m.time, |m.participants|, MaxPlayers), ListedId(m.id), Blank];
      j := j + 1;
    }
    assert shown[..j] == shown;
  }

  class MatchRegistry {
    var matches: map<Id, Match>
    /** The Map's insertion order. */
    var order: seq<Id>
    /** The stored matches as values, in insertion order. */
    ghost var Contents: seq<RosterState>

    ghost predicate Valid()
      reads this, matches.Values
    {
      Stores(matches, order, Contents)
    }

    constructor ()
      ensures Valid() && Contents == []
    {
      matches := map[];
      order := [];
      Contents := [];
    }

    /** `matches.set(m.id, m)` for a new object `m`. */
    method Set(m: Match)
      requires Valid() && m !in matches.Values
      modifies this
      ensures Valid()
      ensures matches == old(matches)[m.id := m]
      ensures order == if m.id in old(matches) then old(order) else old(order) + [m.id]
      ensures Contents == Put(old(Contents), m.View())
    {
      ghost var ms, ord, rs := matches, order, Contents;
      if m.id in matches {
        StoresReplace(ms, ord, rs, m);
        matches, Contents := matches[m.id := m], Put(Contents, m.View());
      } else {
        StoresAppend(ms, ord, rs, m);
        matches, order, Contents := matches[m.id := m], order + [m.id], Put(Contents, m.View());
      }
    }

    method Create(sender: User, chatId: ChatId, args: seq<string>, id: Id) returns (reply: Reply)
      requires Valid()
      modifies this
      ensures Valid()
      ensures (Contents, reply) == HandleCreate(old(Contents), sender, chatId, args, id)
      ensures |args| < 2 ==> matches == old(matches) && order == old(order)
      ensures |args| >= 2 ==> id in matches && fresh(matches[id])
    {
      if |args| < 2 {
        return Usage(CreateCommand);
      }
      var date := args[0];
      var time := args[1];
      var m := new Match(id, sender, date, time, chatId);
      var lines := m.FormatMessage();
      Set(m);
      reply := Created(lines);
    }

    /** The `filter` of `/liste`, over the stored objects. */
    method FilterChat(chatId: ChatId) returns (chatMatches: seq<Match>)
      requires Valid()
      ensures Views(chatMatches) == ChatMatches(Contents, chatId)
    {
      chatMatches := [];
      var i := 0;
      while i < |order|
        invariant 0 <= i <= |order|
        invariant Views(chatMatches) == ChatMatches(Contents[..i], chatId)
      {
        var m := matches[order[i]];
        ChatMatchesSnoc(Contents, i, chatId);
        if m.chatId == chatId {
          ViewsSnoc(chatMatches, m);
          chatMatches := chatMatches + [m];
        }
        i := i + 1;
      }
      assert Contents[..i] == Contents;
    }

    method List(chatId: ChatId) returns (reply: Reply)
      requires Valid()
      ensures reply == HandleList(Contents, chatId)
    {
      var chatMatches := FilterChat(chatId);
      if |chatMatches| == 0 {
        return NoMatches;
      }
      var response := FormatListing(chatMatches);
      reply := Listing(response);
    }

    /** `match.addParticipant(user)` on the match stored at position `k`. */
    method JoinAt(k: nat, user: User) returns (outcome: JoinOutcome)
      requires Valid() && k < |order|
      modifies this, matches[order[k]]
      ensures Valid()
      ensures matches == old(matches) && order == old(order)
      ensures (Contents[k], outcome) == Roster.Join(old(Contents)[k], user)
      ensures Contents == old(Contents)[k := Contents[k]]
    {
      var m := matches[order[k]];
      outcome := m.AddParticipant(user);
      Contents := Contents[k := m.View()];
      forall i | 0 <= i < |order|
        ensures matches[order[i]].View() == Contents[i]
      {
        if i != k {
          assert matches[order[i]] != m;
        }
      }
    }

    method Join(sender: User, args: seq<string>) returns (reply: Reply)
      requires Valid()
      modifies this, matches.Values
      ensures Valid()
      ensures (Contents, reply) == HandleJoin(old(Contents), sender, args)
      ensures matches == old(matches) && order == old(order)
    {
      var arg := MatchArg(args);
      if arg.None? {
        return Usage(JoinCommand);
      }
      var matchId := arg.value;
      StoresIds(matches, order, Contents);
      if matchId !in matches {
        return NotFound;
      }
      var k := IndexOf(order, matchId);
      ghost var before := Contents;
      PutAt(before, k, before[k]);
      var outcome := JoinAt(k, sender);
      PutAt(before, k, Contents[k]);
      if outcome.Success() {
        var lines := matches[matchId].FormatMessage();
        reply := JoinAccepted(outcome, lines);
      } else {
        reply := JoinRefused(outcome);
      }
    }

    /** `match.removeParticipant(user)` on the match stored at position `k`. */
    method LeaveAt(k: nat, user: User) returns (outcome: LeaveOutcome)
      requires Valid() && k < |order|
      modifies this, matches[order[k]]
      ensures Valid()
      ensures matches == old(matches) && order == old(order)
      ensures (Contents[k], outcome) == Roster.Leave(old(Contents)[k], user)
      ensures Contents == old(Contents)[k := Contents[k]]
    {
      var m := matches[order[k]];
      outcome := m.RemoveParticipant(user);
      Contents := Contents[k := m.View()];
      forall i | 0 <= i < |order|
        ensures matches[order[i]].View() == Contents[i]
      {
        if i != k {
          assert matches[order[i]] != m;
        }
      }
    }

    method Leave(sender: User, args: seq<string>) returns (reply: Reply)
      requires Valid()
      modifies this, matches.Values
      ensures Valid()
      ensures (Contents, reply) == HandleLeave(old(Contents), sender, args)
      ensures matches == old(matches) && order == old(order)
    {
      var arg := MatchArg(args);
      if arg.None? {
        return Usage(LeaveCommand);
      }
      var matchId := arg.value;
      StoresIds(matches, order, Contents);
      if matchId !in matches {
        return NotFound;
      }
      var k := IndexOf(order, matchId);
      ghost var before := Contents;
      PutAt(before, k, before[k]);
      var outcome := LeaveAt(k, sender);
      PutAt(before, k, Contents[k]);
      if outcome.Success() {
        var lines := matches[matchId].FormatMessage();
        reply := LeaveAccepted(outcome, lines);
      } else {
        reply := LeaveRefused(outcome);
      }
    }

    method Cancel(sender: User, args: seq<string>) returns (reply: Reply)
      requires Valid()
      modifies this
      ensures Valid()
      ensures (Contents, reply) == HandleCancel(old(Contents), sender, args)
      ensures !reply.Cancelled? ==> matches == old(matches) && order == old(order)
    {
      var arg := MatchArg(args);
      if arg.None? {
        return Usage(CancelCommand);
      }
      var matchId := arg.value;
      StoresIds(matches, order, Contents);
      if matchId !in matches {
        return NotFound;
      }
      var m := matches[matchId];
      var k := IndexOf(order, matchId);
      PutAt(Contents, k, m.View());
      if m.creator != sender {
        return NotCreator;
      }
      StoresDelete(matches, order, Contents, k);
      matches, order, Contents := matches - {matchId}, RemoveAt(order, k), RemoveAt(Contents, k);
      reply := Cancelled(matchId, sender);
    }
  }
}
