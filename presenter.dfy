/** The texts the bot replies with, as sequences of line tokens: each token
    stands for one line of the WhatsApp message, with the emoji and the French
    wording abstracted away and every value that the line embeds kept. */
module Presenter {
  import opened Roster

  datatype Occupant = Taken(user: User) | Free

  datatype Line =
    | Title                                        // title
    | When(date: string, time: string)             // date and time
    | IdLine(id: Id)                               // the match id
    | Blank                                        // empty line
    | PlayersHeader(count: nat, capacity: nat)     // players heading with count and capacity
    | Slot(number: nat, occupant: Occupant)        // numbered slot: a player or a free place
    | WaitingHeader                                // waiting-list heading
    | WaitingEntry(number: nat, user: User)        // numbered waiting user
    | Complete                                     // full
    | JoinHint(id: Id)                             // join hint naming the id
    | ListingHeader                                // listing heading
    | Summary(date: string, time: string, count: nat, capacity: nat)  // date, time, count and capacity
    | ListedId(id: Id)                             // the listed match id

  function Header(r: RosterState): seq<Line>
  {
    [Title, When(r.date, r.time), IdLine(r.id), Blank, PlayersHeader(|r.participants|, MaxPlayers)]
  }

  /** One numbered slot per player, in roster order. */
  function PlayerLines(ps: seq<User>): seq<Line>
  {
    seq(|ps|, i requires 0 <= i < |ps| => Slot(i + 1, Taken(ps[i])))
  }

  /** The numbered free slots `from + 1` up to `to`. */
  function FreeLines(from: nat, to: nat): seq<Line>
  {
    if to <= from then [] else seq(to - from, k requires 0 <= k < to - from => Slot(from + k + 1, Free))
  }

  /** The numbered entries of the waiting-list section. */
  function WaitingEntries(ws: seq<User>): seq<Line>
  {
    seq(|ws|, i requires 0 <= i < |ws| => WaitingEntry(i + 1, ws[i]))
  }

  /** The waiting-list section, present only when someone waits. */
  function WaitingSection(ws: seq<User>): seq<Line>
  {
    if ws == [] then [] else [Blank, WaitingHeader] + WaitingEntries(ws)
  }

  // Appending one line to each part, as the loops of `formatMessage` do.

  lemma PlayerLinesSnoc(ps: seq<User>, i: nat)
    requires i < |ps|
    ensures PlayerLines(ps[..i + 1]) == PlayerLines(ps[..i]) + [Slot(i + 1, Taken(ps[i]))]
  {
  }

  lemma FreeLinesSnoc(from: nat, to: nat)
    requires from <= to
    ensures FreeLines(from, to + 1) == FreeLines(from, to) + [Slot(to + 1, Free)]
  {
  }

  lemma WaitingEntriesSnoc(ws: seq<User>, i: nat)
    requires i < |ws|
    ensures WaitingEntries(ws[..i + 1]) == WaitingEntries(ws[..i]) + [WaitingEntry(i + 1, ws[i])]
  {
  }

  function Footer(r: RosterState): seq<Line>
  {
    [Blank, if r.status == Full then Complete else JoinHint(r.id)]
  }

  /** `formatMessage()`. */
  function Render(r: RosterState): seq<Line>
  {
    Header(r) + PlayerLines(r.participants) + FreeLines(|r.participants|, MaxPlayers)
    + WaitingSection(r.waitingList) + Footer(r)
  }

  /** The layout of a rendered roster within capacity: the header, then
      exactly MaxPlayers numbered slots (the players in order, then free
      places), then the waiting-list section, then the closing line, which is
      the COMPLET marker exactly when the roster is full and otherwise the
      hint naming the match id. */
  lemma RenderLayout(r: RosterState)
    requires |r.participants| <= MaxPlayers
    ensures var lines := Render(r);
      var n := |r.participants|;
      var w := |r.waitingList|;
      && |lines| == 5 + MaxPlayers + (if w == 0 then 0 else 2 + w) + 2
      && lines[..5] == Header(r)
      && (forall k :: 0 <= k < n ==> lines[5 + k] == Slot(k + 1, Taken(r.participants[k])))
      && (forall k :: 5 + n <= k < 5 + MaxPlayers ==> lines[k] == Slot(k - 4, Free))
      && (w > 0 ==> lines[5 + MaxPlayers] == Blank && lines[6 + MaxPlayers] == WaitingHeader)
      && (forall k :: 0 <= k < w ==> lines[7 + MaxPlayers + k] == WaitingEntry(k + 1, r.waitingList[k]))
      && lines[|lines| - 2] == Blank
      && (lines[|lines| - 1] == Complete <==> r.status == Full)
      && (r.status != Full ==> lines[|lines| - 1] == JoinHint(r.id))
  {
    var n := |r.participants|;
    var a := Header(r) + PlayerLines(r.participants);
    var b := a + FreeLines(n, MaxPlayers);
    var c := b + WaitingSection(r.waitingList);
    assert Render(r) == c + Footer(r);
    assert |b| == 5 + MaxPlayers;
    forall k | 5 + n <= k < 5 + MaxPlayers
      ensures Render(r)[k] == Slot(k - 4, Free)
    {
      assert b[k] == FreeLines(n, MaxPlayers)[k - 5 - n];
    }
  }

  /** The waiting-list heading appears in the rendered roster exactly when
      the waiting list is non-empty. */
  lemma RenderShowsWaiting(r: RosterState)
    ensures WaitingHeader in Render(r) <==> r.waitingList != []
  {
    var lines := Render(r);
    var a := Header(r) + PlayerLines(r.participants) + FreeLines(|r.participants|, MaxPlayers);
    assert lines == a + WaitingSection(r.waitingList) + Footer(r);
    assert WaitingHeader !in a by {
      forall k | 0 <= k < |a|
        ensures a[k] != WaitingHeader
      {
        if k >= 5 + |r.participants| {
          var f := FreeLines(|r.participants|, MaxPlayers);
          assert a[k] == f[k - 5 - |r.participants|];
        } else if k >= 5 {
          assert a[k] == PlayerLines(r.participants)[k - 5];
        }
      }
    }
    if r.waitingList != [] {
      assert lines[|a| + 1] == WaitingHeader;
    } else {
      assert lines == a + Footer(r);
    }
  }

  // ---------------------------------------------------------------------
  // The listing (`/liste`)

  function SummaryLines(r: RosterState): seq<Line>
  {
    [Summary(r.date, r.time, |r.participants|, MaxPlayers), ListedId(r.id), Blank]
  }

  /** Three lines per match, in the order given. */
  function ListingBody(rs: seq<RosterState>): seq<Line>
    decreases |rs|
  {
    if rs == [] then [] else ListingBody(rs[..|rs| - 1]) + SummaryLines(rs[|rs| - 1])
  }

  function RenderListing(rs: seq<RosterState>): seq<Line>
  {
    [ListingHeader, Blank] + ListingBody(rs)
  }

  /** Appending one match's summary, as the loop of `/liste` does. */
  lemma ListingBodySnoc(rs: seq<RosterState>, j: nat)
    requires j < |rs|
    ensures ListingBody(rs[..j + 1]) == ListingBody(rs[..j]) + SummaryLines(rs[j])
  {
    assert rs[..j + 1][..j] == rs[..j];
  }

  /** The listing shows match `i` in lines `3i` to `3i + 2` of its body: one
      summary per match, in the order of the matches given. */
  lemma {:induction false} ListingBodyAt(rs: seq<RosterState>, i: nat)
    requires i < |rs|
    ensures |ListingBody(rs)| == 3 * |rs|
    ensures ListingBody(rs)[3 * i .. 3 * i + 3] == SummaryLines(rs[i])
    decreases |rs|
  {
    var init := rs[..|rs| - 1];
    ListingBodyLength(init);
    if i < |rs| - 1 {
      ListingBodyAt(init, i);
      assert init[i] == rs[i];
    }
  }

  lemma {:induction false} ListingBodyLength(rs: seq<RosterState>)
    ensures |ListingBody(rs)| == 3 * |rs|
    decreases |rs|
  {
    if rs != [] {
      ListingBodyLength(rs[..|rs| - 1]);
    }
  }
}
