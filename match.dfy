/** Class `Match` of bot.js: one match whose lists and status are updated in
    place. Each method is proved to leave the object in the state, and return
    the outcome, that a function of module Roster (or Presenter) gives for the
    old state; the properties of those functions, among them that they keep
    Roster.Consistent, are proved there. */
module Matches {
  import opened Seqs
  import opened Roster
  import opened Presenter

  class Match {
    const id: Id
    const creator: User
    const date: string
    const time: string
    const chatId: ChatId
    var participants: seq<User>
    var waitingList: seq<User>
    var status: Status

    /** The current value of this match. */
    function View(): RosterState
      reads this
    {
      RosterState(id, creator, date, time, chatId, participants, waitingList, status)
    }

    constructor (id: Id, creator: User, date: string, time: string, chatId: ChatId)
      ensures View() == Initial(id, creator, date, time, chatId)
    {
      this.id := id;
      this.creator := creator;
      this.date := date;
      this.time := time;
      this.chatId := chatId;
      this.participants := [creator];
      this.waitingList := [];
      this.status := Open;
    }

    method AddParticipant(user: User) returns (outcome: JoinOutcome)
      modifies this
      ensures (View(), outcome) == Join(old(View()), user)
    {
      if user in participants {
        return AlreadyJoined;
      }
      if |participants| < MaxPlayers {
        participants := participants + [user];
        if |participants| == MaxPlayers {
          status := Full;
        }
        outcome := Admitted;
      } else {
        if user !in waitingList {
          waitingList := waitingList + [user];
          outcome := Waitlisted;
        } else {
          outcome := AlreadyWaitlisted;
        }
      }
    }

    method RemoveParticipant(user: User) returns (outcome: LeaveOutcome)
      modifies this
      ensures (View(), outcome) == Leave(old(View()), user)
    {
      ghost var before := View();
      ghost var after := Leave(before, user);
      var index := IndexOf(participants, user);
      if index > -1 {
        participants := RemoveAt(participants, index);
        if |waitingList| > 0 {
          var promoted := waitingList[0];
          waitingList := waitingList[1..];
          participants := participants + [promoted];
          outcome := LeftAndPromoted(user, promoted);
          assert participants == after.0.participants && waitingList == after.0.waitingList && status == after.0.status;
        } else {
          status := Open;
          outcome := Left(user);
          assert participants == after.0.participants && waitingList == after.0.waitingList && status == after.0.status;
        }
      } else {
        var waitIndex := IndexOf(waitingList, user);
        if waitIndex > -1 {
          waitingList := RemoveAt(waitingList, waitIndex);
          outcome := RemovedFromWaitlist;
          assert participants == after.0.participants && waitingList == after.0.waitingList && status == after.0.status;
        } else {
          outcome := NotRegistered;
        }
      }
    }

    /** `formatMessage()`: the message is built by appending line after line
        to `msg`, as the source does; its loops are the two methods below. */
    method FormatMessage() returns (msg: seq<Line>)
      ensures msg == Render(View())
    {
      msg := [Title, When(date, time), IdLine(id), Blank, PlayersHeader(|participants|, MaxPlayers)];
      msg := AppendSlots(msg);
      if |waitingList| > 0 {
        msg := msg + [Blank, WaitingHeader];
        msg := AppendWaiting(msg);
      }
      if status == Full {
        msg := msg + [Blank, Complete];
      } else {
        msg := msg + [Blank, JoinHint(id)];
      }
    }

    /** The loops over the player slots: one numbered line per player, then
        one per free place up to the capacity. */
    method AppendSlots(prefix: seq<Line>) returns (msg: seq<Line>)
      ensures msg == prefix + PlayerLines(participants) + FreeLines(|participants|, MaxPlayers)
    {
      msg := prefix;
      var i := 0;
      while i < |participants|
        invariant 0 <= i <= |participants|
        invariant msg == prefix + PlayerLines(participants[..i])
      {
        PlayerLinesSnoc(participants, i);
        msg := msg + [Slot(i + 1, Taken(participants[i]))];
        i := i + 1;
      }
      assert participants[..i] == participants;
      ghost var players := msg;
      var j := |participants|;
      while j < MaxPlayers
        invariant |participants| <= j
        invariant j <= MaxPlayers || j == |participants|
        invariant msg == players + FreeLines(|participants|, j)
      {
        FreeLinesSnoc(|participants|, j);
        msg := msg + [Slot(j + 1, Free)];
        j := j + 1;
      }
    }

    /** The loop over the waiting list: one numbered line per waiting player. */
    method AppendWaiting(prefix: seq<Line>) returns (msg: seq<Line>)
      ensures msg == prefix + WaitingEntries(waitingList)
    {
      msg := prefix;
      var k := 0;
      while k < |waitingList|
        invariant 0 <= k <= |waitingList|
        invariant msg == prefix + WaitingEntries(waitingList[..k])
      {
        WaitingEntriesSnoc(waitingList, k);
        msg := msg + [WaitingEntry(k + 1, waitingList[k])];
        k := k + 1;
      }
      assert waitingList[..k] == waitingList;
    }
  }
}
