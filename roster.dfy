/** The value of one padel match and the rules for joining and leaving it
    (class `Match` in bot.js). The class in module Matches updates its fields
    in place and is proved to follow these functions step for step. */
module Roster {
  import opened Seqs

  type User = string
  type Id = string
  type ChatId = string

  /** `this.maxPlayers = 4`: never written after construction. */
  const MaxPlayers: nat := 4

  /** The two values `status` ever takes; 'cancelled' is never assigned. */
  datatype Status = Open | Full

  datatype RosterState = RosterState(
    id: Id,
    creator: User,
    date: string,
    time: string,
    chatId: ChatId,
    participants: seq<User>,
    waitingList: seq<User>,
    status: Status)

  /** What `addParticipant` reports; each message of the source is one case. */
  datatype JoinOutcome = AlreadyJoined | Admitted | Waitlisted | AlreadyWaitlisted
  {
    predicate Success() { Admitted? || Waitlisted? }
  }

  /** What `removeParticipant` reports. */
  datatype LeaveOutcome =
    | LeftAndPromoted(leaver: User, promoted: User)
    | Left(leaver: User)
    | RemovedFromWaitlist
    | NotRegistered
  {
    predicate Success() { !NotRegistered? }
  }

  /** The invariant every roster keeps: no one twice, no one in both lists,
      at most MaxPlayers players, a waiting list only behind a full roster,
      and `status` telling exactly whether the roster is full. */
  predicate Consistent(r: RosterState)
  {
    && NoDuplicates(r.participants)
    && NoDuplicates(r.waitingList)
    && Disjoint(r.participants, r.waitingList)
    && |r.participants| <= MaxPlayers
    && (|r.waitingList| > 0 ==> |r.participants| == MaxPlayers)
    && (r.status == Full <==> |r.participants| == MaxPlayers)
  }

  /** Join and leave never touch the identifying fields of a match. */
  predicate SameMatch(r: RosterState, r': RosterState)
  {
    r'.id == r.id && r'.creator == r.creator && r'.date == r.date
    && r'.time == r.time && r'.chatId == r.chatId
  }

  /** The `Match` constructor: the creator is the only player. */
  function Initial(id: Id, creator: User, date: string, time: string, chatId: ChatId): (r: RosterState)
    ensures Consistent(r)
    ensures r.participants == [creator] && r.waitingList == [] && r.status == Open
    ensures r.id == id && r.creator == creator && r.chatId == chatId
  {
    RosterState(id, creator, date, time, chatId, [creator], [], Open)
  }

  /** `addParticipant(user)`. */
  function Join(r: RosterState, user: User): (RosterState, JoinOutcome)
  {
    if user in r.participants then (r, AlreadyJoined)
    else if |r.participants| < MaxPlayers then
      var ps := r.participants + [user];
      (r.(participants := ps, status := if |ps| == MaxPlayers then Full else r.status), Admitted)
    else if user !in r.waitingList then
      (r.(waitingList := r.waitingList + [user]), Waitlisted)
    else
      (r, AlreadyWaitlisted)
  }

  /** `removeParticipant(user)`. */
  function Leave(r: RosterState, user: User): (RosterState, LeaveOutcome)
  {
    var index := IndexOf(r.participants, user);
    if index > -1 then
      var rest := RemoveAt(r.participants, index);
      if |r.waitingList| > 0 then
        var promoted := r.waitingList[0];
        (r.(participants := rest + [promoted], waitingList := r.waitingList[1..]),
         LeftAndPromoted(user, promoted))
      else
        (r.(participants := rest, status := Open), Left(user))
    else
      var waitIndex := IndexOf(r.waitingList, user);
      if waitIndex > -1 then
        (r.(waitingList := RemoveAt(r.waitingList, waitIndex)), RemovedFromWaitlist)
      else
        (r, NotRegistered)
  }

  // ---------------------------------------------------------------------
  // Joining

  /** A player, or someone already waiting, who joins again is refused and
      nothing changes. */
  lemma JoinRefusesMembers(r: RosterState, user: User)
    requires Consistent(r)
    ensures user in r.participants ==> Join(r, user) == (r, AlreadyJoined)
    ensures user in r.waitingList ==> Join(r, user) == (r, AlreadyWaitlisted)
    ensures !Join(r, user).1.Success() <==> user in r.participants || user in r.waitingList
  {
  }

  /** Below capacity a newcomer is appended to the players, and the roster
      turns full exactly when the fourth player arrives. */
  lemma JoinAdmits(r: RosterState, user: User)
    requires Consistent(r)
    requires user !in r.participants && |r.participants| < MaxPlayers
    ensures var (r', outcome) := Join(r, user);
      && outcome == Admitted
      && r'.participants == r.participants + [user]
      && r'.waitingList == r.waitingList
      && (r'.status == Full <==> |r.participants| + 1 == MaxPlayers)
      && SameMatch(r, r')
  {
  }

  /** At capacity a newcomer is appended to the waiting list; the players and
      the status stay as they were. */
  lemma JoinWaitlists(r: RosterState, user: User)
    requires Consistent(r)
    requires user !in r.participants && user !in r.waitingList
    requires |r.participants| == MaxPlayers
    ensures var (r', outcome) := Join(r, user);
      && outcome == Waitlisted
      && r'.participants == r.participants
      && r'.status == r.status
      && r'.waitingList == r.waitingList + [user]
      && SameMatch(r, r')
  {
  }

  /** Joining twice without leaving in between: the second call is refused and
      changes nothing. */
  lemma JoinTwice(r: RosterState, user: User)
    requires Consistent(r)
    ensures var (r1, o1) := Join(r, user);
      var (r2, o2) := Join(r1, user);
      r2 == r1 && !o2.Success()
  {
  }

  lemma {:induction false} JoinPreservesConsistent(r: RosterState, user: User)
    requires Consistent(r)
    ensures Consistent(Join(r, user).0)
    ensures SameMatch(r, Join(r, user).0)
  {
    var r' := Join(r, user).0;
    if user !in r.participants && |r.participants| < MaxPlayers {
      assert r.waitingList == [];
      assert NoDuplicates(r'.participants) by {
        forall i, j | 0 <= i < j < |r'.participants|
          ensures r'.participants[i] != r'.participants[j]
        {
          if j == |r.participants| {
            assert r'.participants[i] == r.participants[i];
          }
        }
      }
    } else if user !in r.participants && user !in r.waitingList {
      assert NoDuplicates(r'.waitingList) by {
        forall i, j | 0 <= i < j < |r'.waitingList|
          ensures r'.waitingList[i] != r'.waitingList[j]
        {
          if j == |r.waitingList| {
            assert r'.waitingList[i] == r.waitingList[i];
          }
        }
      }
    }
  }

  // ---------------------------------------------------------------------
  // Leaving

  /** A player leaving while someone waits: the leaver is gone, the others
      keep their order, the head of the waiting list takes the last seat and
      leaves the waiting list; the size of the roster and its status do not
      change. */
  lemma LeavePromotes(r: RosterState, user: User)
    requires Consistent(r)
    requires user in r.participants && r.waitingList != []
    ensures var (r', outcome) := Leave(r, user);
      && outcome == LeftAndPromoted(user, r.waitingList[0])
      && r'.participants == Without(r.participants, user) + [r.waitingList[0]]
      && r'.waitingList == r.waitingList[1..]
      && |r'.participants| == |r.participants|
      && r'.status == r.status
      && user !in r'.participants
      && r.waitingList[0] in r'.participants && r.waitingList[0] !in r'.waitingList
      && SameMatch(r, r')
  {
    var index := IndexOf(r.participants, user);
    RemoveAtIndexOf(r.participants, user);
    RemoveAtMembers(r.participants, index);
    var w := r.waitingList;
    assert w[0] !in w[1..] by {
      forall k | 0 <= k < |w[1..]|
        ensures w[1..][k] != w[0]
      {
        assert w[1..][k] == w[k + 1];
      }
    }
  }

  /** A player leaving while no one waits: the leaver is gone, the others keep
      their order, and the roster reopens. */
  lemma LeaveReopens(r: RosterState, user: User)
    requires Consistent(r)
    requires user in r.participants && r.waitingList == []
    ensures var (r', outcome) := Leave(r, user);
      && outcome == Left(user)
      && r'.participants == Without(r.participants, user)
      && |r'.participants| == |r.participants| - 1
      && r'.waitingList == []
      && r'.status == Open
      && SameMatch(r, r')
  {
    RemoveAtIndexOf(r.participants, user);
  }

  /** Someone on the waiting list leaving: only that entry goes, the rest of
      the waiting list keeps its order, the players and status stay. */
  lemma LeaveUnqueues(r: RosterState, user: User)
    requires Consistent(r)
    requires user in r.waitingList
    ensures var (r', outcome) := Leave(r, user);
      && outcome == RemovedFromWaitlist
      && r'.waitingList == Without(r.waitingList, user)
      && |r'.waitingList| == |r.waitingList| - 1
      && r'.participants == r.participants
      && r'.status == r.status
      && SameMatch(r, r')
  {
    assert user !in r.participants;
    RemoveAtIndexOf(r.waitingList, user);
  }

  /** Someone who is neither playing nor waiting is refused and nothing
      changes. */
  lemma LeaveRefusesStrangers(r: RosterState, user: User)
    ensures Leave(r, user) == (r, NotRegistered) <==> user !in r.participants && user !in r.waitingList
  {
  }

  lemma {:induction false} LeavePreservesConsistent(r: RosterState, user: User)
    requires Consistent(r)
    ensures Consistent(Leave(r, user).0)
    ensures SameMatch(r, Leave(r, user).0)
  {
    var r' := Leave(r, user).0;
    var p, w := r.participants, r.waitingList;
    var index := IndexOf(p, user);
    if index > -1 {
      var rest := RemoveAt(p, index);
      RemoveAtMembers(p, index);
      if |w| > 0 {
        var h := w[0];
        assert h !in rest;
        assert NoDuplicates(r'.participants) by {
          forall i, j | 0 <= i < j < |r'.participants|
            ensures r'.participants[i] != r'.participants[j]
          {
            if j == |rest| {
              assert r'.participants[i] == rest[i];
              assert rest[i] in rest;
            } else {
              assert r'.participants[i] == rest[i] && r'.participants[j] == rest[j];
            }
          }
        }
        assert NoDuplicates(w[1..]) by {
          forall i, j | 0 <= i < j < |w[1..]|
            ensures w[1..][i] != w[1..][j]
          {
            assert w[1..][i] == w[i + 1] && w[1..][j] == w[j + 1];
          }
        }
        assert Disjoint(r'.participants, r'.waitingList) by {
          forall x | x in r'.participants
            ensures x !in r'.waitingList
          {
            if x == h {
              forall k | 0 <= k < |w[1..]|
                ensures w[1..][k] != h
              {
                assert w[1..][k] == w[k + 1];
              }
            } else {
              assert x in rest;
              assert x in p;
              assert x !in w;
            }
          }
        }
      }
    } else {
      var waitIndex := IndexOf(w, user);
      if waitIndex > -1 {
        RemoveAtMembers(w, waitIndex);
      }
    }
  }

  // ---------------------------------------------------------------------
  // Any sequence of commands from creation on

  datatype Step = JoinStep(user: User) | LeaveStep(user: User)

  /** The roster after the given joins and leaves, applied in order. */
  function Run(r: RosterState, steps: seq<Step>): RosterState
    decreases |steps|
  {
    if steps == [] then r
    else
      var next := match steps[0]
        case JoinStep(u) => Join(r, u).0
        case LeaveStep(u) => Leave(r, u).0;
      Run(next, steps[1..])
  }

  lemma {:induction false} RunPreservesConsistent(r: RosterState, steps: seq<Step>)
    requires Consistent(r)
    ensures Consistent(Run(r, steps)) && SameMatch(r, Run(r, steps))
    decreases |steps|
  {
    if steps != [] {
      match steps[0]
      case JoinStep(u) =>
        JoinPreservesConsistent(r, u);
        RunPreservesConsistent(Join(r, u).0, steps[1..]);
      case LeaveStep(u) =>
        LeavePreservesConsistent(r, u);
        RunPreservesConsistent(Leave(r, u).0, steps[1..]);
    }
  }

  /** Every roster reachable from a freshly created match by joins and leaves
      keeps the invariant and its identifying fields. */
  lemma Reachable(id: Id, creator: User, date: string, time: string, chatId: ChatId, steps: seq<Step>)
    ensures var r := Run(Initial(id, creator, date, time, chatId), steps);
      && Consistent(r)
      && r.id == id && r.creator == creator && r.chatId == chatId
  {
    RunPreservesConsistent(Initial(id, creator, date, time, chatId), steps);
  }

  /** Reference definition: the users of `users` who are not in `present`,
      each once, in the order of their first appearance. */
  function FirstArrivals(present: seq<User>, users: seq<User>): seq<User>
    decreases |users|
  {
    if users == [] then []
    else if users[0] in present then FirstArrivals(present, users[1..])
    else [users[0]] + FirstArrivals(present + [users[0]], users[1..])
  }

  /** The first arrivals are exactly the users not already present, and
      none of them twice. */
  lemma {:induction false} FirstArrivalsMembers(present: seq<User>, users: seq<User>)
    requires NoDuplicates(present)
    ensures NoDuplicates(present + FirstArrivals(present, users))
    ensures forall x :: x in FirstArrivals(present, users) <==> x in users && x !in present
    decreases |users|
  {
    if users == [] {
      assert present + [] == present;
    } else {
      var u := users[0];
      if u in present {
        FirstArrivalsMembers(present, users[1..]);
      } else {
        var p := present + [u];
        assert NoDuplicates(p) by {
          forall i, j | 0 <= i < j < |p|
            ensures p[i] != p[j]
          {
            if j == |present| {
              assert p[i] == present[i];
            }
          }
        }
        FirstArrivalsMembers(p, users[1..]);
        assert present + FirstArrivals(present, users) == p + FirstArrivals(p, users[1..]);
        assert users == [u] + users[1..];
      }
    }
  }

  /** Users joining a match, as long as the newcomers among them fit, end up
      as the players in the order of their first join; a repeated join and a
      join by someone already playing change nothing. */
  lemma {:induction false} JoinsInOrder(r: RosterState, users: seq<User>)
    requires Consistent(r)
    requires |r.participants| + |FirstArrivals(r.participants, users)| <= MaxPlayers
    ensures Run(r, JoinSteps(users)).participants == r.participants + FirstArrivals(r.participants, users)
    ensures Run(r, JoinSteps(users)).waitingList == r.waitingList
    decreases |users|
  {
    if users != [] {
      var u := users[0];
      assert JoinSteps(users)[1..] == JoinSteps(users[1..]);
      if u in r.participants {
        JoinRefusesMembers(r, u);
        JoinsInOrder(r, users[1..]);
      } else {
        JoinAdmits(r, u);
        JoinPreservesConsistent(r, u);
        var r' := Join(r, u).0;
        assert r'.participants == r.participants + [u];
        JoinsInOrder(r', users[1..]);
        assert r'.participants + FirstArrivals(r'.participants, users[1..])
          == r.participants + FirstArrivals(r.participants, users);
      }
    }
  }

  function JoinSteps(users: seq<User>): (steps: seq<Step>)
    ensures |steps| == |users|
  {
    if users == [] then [] else [JoinStep(users[0])] + JoinSteps(users[1..])
  }
}
