# Padel match bot: match rosters and the match registry

A Dafny model of the core of a WhatsApp bot that organises padel matches
(`bot.js`). Each match has an ordered list of players (at most four; the
creator is the first player when the match is created) and a
first-in-first-out waiting list. The bot keeps all
matches in one global `Map` from match id to match. Chat commands create a
match (`/padel <date> <time>`), list the matches of the chat (`/liste`), join
one (`/rj <id>`), leave one (`/quitter <id>`) and cancel one (`/annuler <id>`).

The model follows the code's own shape.

- **`Matches.Match`** (`match.dfy`) is the class `Match`: its lists and
  status are fields that the methods update in place.
  - Each method is proved to leave exactly the state, and return exactly the
    outcome, that a pure function of module `Roster` (`roster.dfy`) gives for
    the old state.
  - `FormatMessage` accumulates the message line by line in its loops. It is
    proved to produce `Presenter.Render` of the match (`presenter.dfy`).
- **`Roster`** holds the value of a match (`RosterState`) and the join and
  leave rules as functions.
  - Its lemmas state the rules case by case, as the branches of the source
    have them.
  - They also prove the roster invariant (`Consistent`): no one twice, no one
    both playing and waiting, at most four players, a waiting list only
    behind a full roster, and `status` is full exactly at four players. Every
    join and leave keeps it, so every roster reachable from creation has it.
- **`Store`** (`store.dfy`) is the JavaScript `Map` as a value: the stored
  matches in insertion order, with `get` (`Find`), `set` (`Put`, which
  replaces an existing key in place) and `delete`, and the chat filter of
  `/liste`.
- **`Registry`** (`registry.dfy`) has the command handlers.
  - Each handler is a pure function from the stored matches to the new
    stored matches and the reply (`HandleCreate` … `HandleCancel`), with
    lemmas stating what each promises.
  - The class `MatchRegistry` holds the real `map<Id, Match>` of match
    objects and its insertion order. Its methods run the handler bodies on
    those objects.
  - Each method is proved to agree with its handler function on the values
    held (ghost `Contents`).

Replies are values of a `Reply` datatype instead of sent messages. The
message texts are sequences of `Line` tokens, one per text line. The emoji
and French wording are abstracted away; every value a line embeds is kept.
The sender, the chat id, the already-split arguments and the new match id
are parameters of the handlers.

Behaviour of the code worth noting:
- `/padel` stores under the id with no uniqueness check. A colliding id
  replaces the stored match in place, keeping its position in the Map's
  order (`Registry.CreateStores`).
- `/annuler` checks the recorded creator, not the current players. A
  creator who has left can still cancel (`Registry.CreatorCancelsAfterLeaving`).
  The match stays listed, and joinable, after its creator has left it.
- When a player leaves and someone is promoted, `status` is not assigned.
  It stays as it was, which is full (`Roster.LeavePromotes`).
- `status` is never set to `'cancelled'`. Cancelling deletes the entry, so
  the model's `Status` has only `Open` and `Full`.

## Model

| member | source | states |
|---|---|---|
| Seqs.IndexOf | bot.js:60 | `indexOf`: -1 exactly when absent, otherwise the position of the first occurrence |
| Seqs.RemoveAtIndexOf | bot.js:60-62 | `splice(indexOf(x), 1)` on a duplicate-free list is "every element but x, in order" |
| Seqs.RemoveAtMembers | bot.js:62 | `splice(i, 1)` keeps a list duplicate-free and drops exactly the element at `i` |
| Roster.Initial | bot.js:27-37 | a new match has the creator as its only player, no one waiting, status open, and is consistent |
| Roster.JoinRefusesMembers | bot.js:40-55 | a player or a waiting user who joins is refused with nothing changed, and a join is refused only then |
| Roster.JoinAdmits | bot.js:44-49 | below capacity the newcomer is appended to the players; status becomes full exactly when the fourth arrives |
| Roster.JoinWaitlists | bot.js:50-53 | at capacity a newcomer is appended to the waiting list; players and status unchanged |
| Roster.JoinTwice | bot.js:39-56 | a second join by the same user is refused and changes nothing |
| Roster.JoinPreservesConsistent | bot.js:39-56 | every join keeps the roster invariant and the match's identifying fields |
| Roster.LeavePromotes | bot.js:60-68 | a player leaving while someone waits is removed, the others keep their order, the head of the waiting list is appended to the players; size and status unchanged |
| Roster.LeaveReopens | bot.js:60-72 | a player leaving when no one waits is removed, the others keep their order, and the status becomes open |
| Roster.LeaveUnqueues | bot.js:74-78 | a waiting user leaving is removed from the waiting list only; order, players and status kept |
| Roster.LeaveRefusesStrangers | bot.js:59-81 | leave is refused with nothing changed exactly when the user neither plays nor waits |
| Roster.LeavePreservesConsistent | bot.js:59-82 | every leave keeps the roster invariant and the match's identifying fields |
| Roster.RunPreservesConsistent | bot.js:39-82 | any sequence of joins and leaves keeps the invariant |
| Roster.Reachable | bot.js:27-82 | every roster reachable from a newly created match by joins and leaves is consistent |
| Roster.JoinsInOrder | bot.js:40-46 | any users joining, as long as the newcomers fit, leave as players the old players followed by the first arrivals (each newcomer once, in the order of their first join; repeated joins and joins by players change nothing); the waiting list is unchanged |
| Roster.FirstArrivalsMembers | bot.js:40-41 | the reference list of first arrivals holds exactly the joiners not already playing, none twice |
| Presenter.RenderLayout | bot.js:84-112 | the message is the header, then exactly four numbered slots (players in order, then free places), then the waiting section, then a closing line that is COMPLET exactly when full and otherwise the join hint with the id |
| Presenter.RenderShowsWaiting | bot.js:98-103 | the waiting-list section appears exactly when someone waits |
| Presenter.ListingBodyAt | bot.js:158-161 | the listing has three lines per match, match `i` in lines `3i` to `3i+2`, in the order given |
| Matches.Match.constructor | bot.js:27-37 | the new object holds `Roster.Initial` of its arguments |
| Matches.Match.AddParticipant | bot.js:39-57 | updates the lists and status in place to exactly `Roster.Join` of the old state and returns its outcome |
| Matches.Match.RemoveParticipant | bot.js:59-82 | updates the lists and status in place to exactly `Roster.Leave` of the old state and returns its outcome |
| Matches.Match.FormatMessage | bot.js:84-112 | the accumulated message is `Presenter.Render` of the match |
| Matches.Match.AppendSlots | bot.js:90-96 | the two slot loops append one line per player, then one per free place up to four |
| Matches.Match.AppendWaiting | bot.js:100-102 | the waiting-list loop appends one numbered line per waiting user |
| Store.Find | bot.js:175-176 | `matches.get` finds nothing exactly when the id is not stored, otherwise a stored match with that id |
| Store.PutThenFind | bot.js:141 | after `set`, the id finds the new match, other ids find what they did, and the id keeps its place in the order or is added last |
| Store.DeleteThenFind | bot.js:232 | after `delete`, the id finds nothing, other ids find what they did, and the remaining order is kept |
| Store.ChatMatchesMembers | bot.js:149-150 | the `/liste` filter keeps exactly the matches of the chat |
| Store.ChatMatchesConcat | bot.js:149-150 | the filter keeps the Map's order |
| Store.CancelledNotListed | bot.js:232 | a deleted match is never listed |
| Registry.CreateStores | bot.js:128-145 | `/padel` keeps every stored roster consistent; with fewer than two arguments it changes nothing and replies with the usage; otherwise the id finds the new match (sender alone, no one waiting, open, in the sender's chat), replacing any entry with that id in place, and other ids are unaffected |
| Registry.ListShows | bot.js:148-164 | "no matches" exactly when no stored match is in the chat; otherwise the heading and one summary per match of the chat, in Map order |
| Registry.JoinChangesOne | bot.js:167-187 | `/rj` changes only the named match, to `Roster.Join` of it; order, other matches and every roster's invariant kept; a missing or empty id gives the usage reply and an unknown id "not found", both changing nothing; a found match replies with the join outcome and the rendered updated roster when it succeeds, and with the refusal outcome otherwise |
| Registry.LeaveChangesOne | bot.js:190-210 | `/quitter` changes only the named match, to `Roster.Leave` of it; order, other matches and every roster's invariant kept; a missing or empty id gives the usage reply and an unknown id "not found", both changing nothing; a found match replies with the leave outcome (naming any promoted user) and the rendered updated roster when it succeeds, and with the refusal outcome otherwise |
| Registry.CancelOnlyByCreator | bot.js:213-234 | `/annuler` deletes exactly when the sender is the stored creator; the id then finds nothing and is not listed, other ids are unaffected, ids stay distinct and rosters consistent; otherwise nothing changes, and the reply is the usage for a missing id, "not found" for an unknown one and "only the creator" for another sender |
| Registry.CreatorCancelsAfterLeaving | bot.js:227-232 | a creator who has left their match can still cancel it |
| Registry.ApplyPreservesStore | bot.js:128-234 | each state-changing command keeps the Map's ids distinct and every stored roster consistent |
| Registry.ServePreservesStore | bot.js:128-234 | so does any sequence of commands |
| Registry.RegistryReachable | bot.js:4 | every registry reachable from the empty Map by commands holds each id once and only consistent rosters |
| Registry.FormatListing | bot.js:157-161 | the accumulated listing text is the heading plus one summary per shown match |
| Registry.MatchRegistry.constructor | bot.js:4 | the registry starts empty |
| Registry.MatchRegistry.Set | bot.js:141 | `matches.set` on the objects: the Map, its order and the values held change as `Store.Put` says |
| Registry.MatchRegistry.Create | bot.js:128-145 | agrees with `HandleCreate`; the stored object is new |
| Registry.MatchRegistry.FilterChat | bot.js:149-150 | the objects kept by the filter have as values exactly `Store.ChatMatches` of the values held |
| Registry.MatchRegistry.List | bot.js:148-164 | agrees with `HandleList` |
| Registry.MatchRegistry.JoinAt | bot.js:181 | `addParticipant` on the stored object changes only its value, as `Roster.Join` says |
| Registry.MatchRegistry.Join | bot.js:167-187 | agrees with `HandleJoin`; the Map and its order are unchanged |
| Registry.MatchRegistry.LeaveAt | bot.js:204 | `removeParticipant` on the stored object changes only its value, as `Roster.Leave` says |
| Registry.MatchRegistry.Leave | bot.js:190-210 | agrees with `HandleLeave`; the Map and its order are unchanged |
| Registry.MatchRegistry.Cancel | bot.js:213-234 | agrees with `HandleCancel`; the Map is unchanged unless the match is cancelled |

## Left out

- The WhatsApp client, the browser set-up, the QR code, the connection event handlers and the help text (`bot.js:1-23`, `bot.js:236-293`). These are transport and constant text.
- `getChat`, `getContact`, `reply` and logging. The sender and the chat id are parameters, and replies are returned as `Reply` values.
- Command recognition and argument splitting (lower-casing, `startsWith`, `split(' ')`). The handlers receive the already-split arguments.
- Id generation from the clock (`Date.now()`, last four digits). The id is a parameter of `Create`.
- Text details: the emoji, the French wording, and which lines end with a newline. Each line is a `Line` token that keeps the values it embeds.
- `maxPlayers` is the constant `MaxPlayers` = 4, since no code writes it after construction.
- The `status !== 'cancelled'` term of the `/liste` filter. No code sets that status, so the term always holds.
- Asynchrony and concurrency. The message handler is `async` and awaits `getChat` and `getContact` before it touches the Map, so several handlers can be in progress at once. Each handler, however, reads and updates the Map and the match with no `await` in between (`bot.js:141-143`, `bot.js:175-183`, `bot.js:198-206`, `bot.js:221-232`), so each command's effect is atomic and the model applies the commands one after another.
- Matches.Match.AddParticipant: does not itself promise that the roster invariant is kept. That follows from its contract together with `Roster.JoinPreservesConsistent`.
- Matches.Match.RemoveParticipant: does not itself promise that the roster invariant is kept. That follows from its contract together with `Roster.LeavePreservesConsistent`.
- Registry.MatchRegistry.Join: its invariant covers the Map and the values held, but not each roster's consistency. That follows from its contract and `Registry.JoinChangesOne`.
- Registry.MatchRegistry.Leave: its invariant covers the Map and the values held, but not each roster's consistency. That follows from its contract and `Registry.LeaveChangesOne`.
