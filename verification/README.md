# Poll: a verified model of the voting state machine

`main.js` turns every `poll` element of a page into a small voting widget. A user
signs in under a name, activates items to vote, and opens a panel that lists
who voted for what. This project models the state behind that widget and proves
properties of it in Dafny:

- the list of polls (`Polls`) and the signed-in name (`CurrentUserName`);
- for each poll, its items, each with its `checkedBy` list of user names, its
  stored percentage, its check mark, its tooltip and its tab index;
- for each poll, its `participatedUsers` records (`{name, selectedItemIndex}`);
- for each poll, the state of its votes panel: the open flag, the tab indices of
  the two panel buttons, and the rows shown.

The modules are:

- `Text`:
  - `String.prototype.trim`, using ECMAScript's whitespace and line-terminator set;
  - `split("|")`, with the `join` it inverts;
  - the decimal rendering of a count.
- `Display`:
  - `Math.round(count / participants * 100)`, over the three kinds of value it can
    produce: `NaN`, an infinity or an integer;
  - the clamping `percentage` setter;
  - the item tooltip.
- `Polls`:
  - the records as datatypes;
  - the pure transitions of one poll: un-vote, vote, activation, sign-in refresh,
    panel toggle and setup;
  - the invariant the application keeps.
- `PollProperties`: lemmas about those transitions.
- `Voting`:
  - class `App` holds `polls: array<Poll>` and `currentUser`;
  - its methods update that state step by step, the way the handlers do, with the
    same `forEach` loops, `filter`s and `push`es;
  - every method is proved to reach the state its pure counterpart describes;
  - the handlers (the constructor, `Click`, `Keydown`, `SignIn`,
    `SignInAsParticipant` and `TogglePanel`) are also proved to keep `Valid()`, the
    invariant of every poll. The step methods they are built from (`SetPercentage`,
    `UpdatePercentage`, `ClearVotes`, `UnvoteStep`, `VoteStep`) only reach their
    pure counterparts. Called on their own, they can break the invariant: for
    example, a vote by the empty name, or an arbitrary value passed to the setter.

Percentages are integers:

- With at least one participant, the percentage is `(200·count + n) / (2·n)`. This
  is the count's share rounded half up.
- `0/0` is `NaN`, and the setter turns it into 0.
- A positive count over no participants would be `+Infinity`, which the setter would
  clamp to 100. The invariant rules this case out.

The back-reference from an item to its poll (`Polls[pollIndex]`) is modelled as
the index `p` of the poll in the array.

Every invariant in `Polls.PollState` holds in every state the handlers reach:

- names are unique among the records;
- names are non-empty and trimmed;
- each record's `selectedItemIndex` is in range and names the one item whose
  `checkedBy` lists that user;
- no item lists a user twice;
- every percentage and tooltip is current;
- the check marks show the signed-in user's votes;
- the tab indices follow the panel flag;
- every panel row names a user one can sign in as.

One consequence is single choice: no user selects two items of one poll.

Things the model makes visible:

- The panel rows are built only when the panel opens. A vote cast while the panel
  is open leaves the old rows in place. The source does this too, and the model
  keeps it: `Activate` leaves `rows` untouched.
- The avatar click at main.js:329-337 first assigns `CurrentUserName` and then
  clicks the sign-in button. The sign-in handler overwrites that name with the
  trimmed input value, which is the same name. So `SignInAsParticipant` is the
  sign-in with that name.

## Model

| member | source | states |
|---|---|---|
| Text.TrimStart | main.js:249 | the result is a suffix of the input, it does not start with whitespace, and everything dropped is whitespace |
| Text.TrimEnd | main.js:249 | the result is a prefix of the input, it does not end with whitespace, and everything dropped is whitespace |
| Text.SkipStart | main.js:249 | the index of the first non-whitespace character at or after `i`: everything skipped is whitespace |
| Text.SkipEnd | main.js:249 | the index just past the last non-whitespace character before `j`: everything skipped is whitespace |
| Text.Trim | main.js:249 | `trim()` drops leading whitespace, then trailing whitespace; its properties are stated in TrimShape and TrimFixesTrimmed |
| Text.TrimShape | main.js:249 | the trimmed name is the slice between a whitespace-only head and a whitespace-only tail, and it neither starts nor ends with whitespace |
| Text.TrimFixesTrimmed | main.js:249 | trimming leaves a string unchanged exactly when it is already trimmed; its result is trimmed; trimming is idempotent |
| Text.Split | main.js:48 | the split of the `items` attribute has at least one piece, and no piece contains the separator (a vertical bar) |
| Text.JoinSplit | main.js:48 | joining the pieces with the separator gives back the attribute |
| Text.SplitJoin | main.js:48 | splitting a join of separator-free labels gives back those labels |
| Text.Join | main.js:48 | the `join` that `split` inverts; the round trips are stated in JoinSplit and SplitJoin |
| Text.NatToString | main.js:165 | the rendering of a count is a non-empty run of decimal digits with no leading zero, except for 0 itself |
| Text.ParseNatToString | main.js:165 | reading the digits of a count back gives the count |
| Display.Clamp | main.js:148-151 | the stored percentage lies in [0,100]; an integer already in [0,100] is kept; `NaN` becomes 0 and `+Infinity` becomes 100 |
| Display.ClampIsNearest | main.js:149 | on integers the setter gives the value of [0,100] nearest to its input, and it changes exactly the values outside [0,100] |
| Display.RoundedRatio | main.js:163-164 | 0/0 is `NaN` and only 0/0 is; with participants the value is the integer nearest to 100·count/participants, halves rounded up |
| Display.PercentageOfShare | main.js:148-164 | for a count that is part of the participants, the stored percentage is the rounded share, lies in [0,100], is 0 for no participants and 100 when everyone voted |
| Display.Percentage | main.js:163-164 | the value `UpdatePercentage` stores always lies in [0,100]; that it is the rounded share is stated in PercentageOfShare and PercentageFormula |
| Display.PercentageMonotone | main.js:163-164 | with the same participants, more votes never show a smaller percentage |
| Display.TooltipShowsCount | main.js:165 | the tooltip is "Selected by no user." exactly for count 0; otherwise it starts with "Selected by " followed by digits that read back as the count |
| Display.Tooltip | main.js:165 | the item's title text; its properties are stated in TooltipShowsCount and TooltipPlural |
| Display.TooltipPlural | main.js:165 | the tooltip of a positive count ends in "users." exactly when more than one user selected the item, and in " user." for exactly one |
| Polls.Remove | main.js:215 | `filter(user => user != u)` keeps exactly the other names, and is shorter when `u` was present |
| Polls.RemoveKeepsNoDup | main.js:215 | filtering never creates a repeated name |
| Polls.RemoveUser | main.js:212 | `filter(user => user.name != u)` keeps exactly the records of the other names |
| Polls.IndexOfUser | main.js:222-224 | it finds the first record named `u`, and finds none exactly when no record has that name |
| Polls.SelectRecord | main.js:221-227 | reuse the first record named `u` or append one, giving it item `j`; its properties are stated in SelectRecordEffect |
| Polls.Refresh | main.js:160-166 | what `UpdatePercentage` leaves in an item; App.UpdatePercentage is proved to reach it, and PercentageFormula states the percentage it keeps |
| Polls.ClearedAll | main.js:214-217 | `u` leaves every item and every item is refreshed unchecked; App.ClearVotes is proved to reach it, and UnvoteEffect and VoteEffect state its effect |
| Polls.Unvote | main.js:211-218 | the un-vote transition; its properties are stated in UnvoteEffect, UnvoteKeepsInvariant and ActivateTwice |
| Polls.Vote | main.js:221-234 | the select-or-switch transition; its properties are stated in VoteEffect, VoteKeepsInvariant and ActivateTwiceRestores |
| Polls.Activate | main.js:208-235 | the item activation; its properties are stated in ActivateKeepsState, ActivatePercentages, ActivateTwice and ActivateTwiceRestores |
| Polls.SignedIn | main.js:251-253 | the sign-in refresh of one poll; its properties are stated in SignInEffect |
| Polls.PanelRows | main.js:310-338 | the rows of an opened panel; their properties are stated in PanelRowsShowSelections |
| Polls.Toggled | main.js:287-339 | the panel toggle; its properties are stated in ToggleKeepsState and ToggleTwice |
| Polls.NewItem | main.js:51-63 | a fresh item: no users, 0 percent, unchecked, the no-user tooltip, reachable; its properties are stated in NewPollState |
| Polls.NewPoll | main.js:38-80 | a freshly set-up poll; its properties are stated in NewPollState and LabelsRoundTrip |
| PollProperties.NamesRemoveUser | main.js:212 | removing `u`'s records removes exactly `u` from the list of names and keeps the others in order |
| PollProperties.SelectRecordEffect | main.js:221-227 | after reuse-or-append, `u`'s record selects `j` and every other user's selection is unchanged; a new record is appended only when `u` had none, so first-vote order is kept; the other records are untouched |
| PollProperties.RecordInBounds | main.js:325 | every record has a valid name, and its `selectedItemIndex` is in range and names an item that lists the user |
| PollProperties.EmptyNameNeverVotes | main.js:209 | the empty name, which means nobody is signed in, is never listed by an item |
| PollProperties.InvariantSingleChoice | main.js:229-234 | under the invariant no user is listed by two items of one poll |
| PollProperties.CountBound | main.js:163-164 | no item lists more users than the poll has participants |
| PollProperties.PercentageFormula | main.js:163-164 | every stored percentage equals round(100·count/participants), is 0 without participants, and lies in [0,100] |
| PollProperties.UnvoteEffect | main.js:211-218 | re-activating the selected item removes `u`'s record and removes `u` from every item; every item is unchecked; no other user's vote or record changes; labels and panel are untouched |
| PollProperties.UnvoteKeepsInvariant | main.js:211-218 | un-voting keeps the poll invariant |
| PollProperties.VoteEffect | main.js:221-234 | after select-or-switch, item `j` lists `u` exactly once and no other item lists `u`; only `j` is checked; `u`'s record selects `j`; other users' votes and records, labels and panel are unchanged |
| PollProperties.VoteKeepsInvariant | main.js:221-234 | selecting or switching keeps the poll invariant, for a non-empty trimmed name |
| PollProperties.ActivateKeepsState | main.js:208-235 | an activation by the signed-in user, or by nobody, keeps every invariant of the poll, and with it single choice |
| PollProperties.ActivatePercentages | main.js:208-235 | after any activation every item shows the rounded share of its new count over the new number of participants, within [0,100] |
| PollProperties.ActivateTwice | main.js:208-235 | activating an item the user does not hold, then activating it again, leaves the user with no record and no vote |
| PollProperties.ActivateTwiceRestores | main.js:208-235 | for a user who had not voted in the poll, two activations of one item give back exactly the original poll |
| PollProperties.NoRecordNoVote | main.js:221-234 | a user without a record is listed by no item |
| PollProperties.SignInEffect | main.js:247-254 | sign-in changes only the check marks, which then show the new user's membership; votes, records, percentages and panel are untouched, and every invariant holds for the new user |
| PollProperties.RecordSelectsOnly | main.js:227-234 | a participant is listed by an item exactly when that item is the one its record selects |
| PollProperties.PanelRowsShowSelections | main.js:310-325 | an opened panel shows only the empty-state row when there are no participants; otherwise one row per record, in order, with the name, its initial, and the label of the selected item, which lists that participant |
| PollProperties.ToggleKeepsState | main.js:286-340 | a toggle flips the panel flag, keeps every invariant, and changes no vote, record or percentage |
| PollProperties.ToggleTwice | main.js:289-300 | two toggles restore the flag and every tab index; starting from a closed panel they restore the whole poll |
| PollProperties.NewPollState | main.js:33-82 | a poll that was just set up satisfies every invariant with nobody signed in; its labels are the pieces of the `items` attribute and join back to it |
| PollProperties.LabelsRoundTrip | main.js:48 | any list of labels without the separator can be declared through the `items` attribute |
| Voting.SetUpPoll | main.js:48-68 | the loop over the split attribute builds the set-up poll: one fresh item per piece, no participants, panel closed, close button at tab index -1 |
| Voting.App.constructor | main.js:33-82 | every poll element becomes its set-up poll, nobody is signed in, and every invariant holds |
| Voting.App.SetPercentage | main.js:148-155 | the setter stores the clamped value in one item of one poll, and nothing else changes |
| Voting.App.UpdatePercentage | main.js:160-166 | the item gets its check mark, the setter's value for the rounded share, and its tooltip; nothing else changes |
| Voting.App.ClearVotes | main.js:229-232 | the `forEach` removes `u` from every item in turn and refreshes each unchecked, giving the poll's `ClearedAll` state |
| Voting.App.UnvoteStep | main.js:211-218 | the un-vote branch reaches the `Unvote` state of the poll; other polls are unchanged |
| Voting.App.VoteStep | main.js:221-234 | the select-or-switch branch reaches the `Vote` state of the poll; other polls are unchanged |
| Voting.App.Click | main.js:208-235 | an item activation reaches `Activate` of the poll; nothing changes while nobody is signed in; only that poll changes; every invariant is kept |
| Voting.App.Keydown | main.js:194-196 | Enter and Space activate the item; any other key changes nothing |
| Voting.App.SignIn | main.js:247-254 | the current user becomes the trimmed input; every item of every poll is refreshed to the new user's membership; every invariant is kept |
| Voting.App.SignInAsParticipant | main.js:329-337 | clicking a participant's avatar signs in under exactly that participant's name, and every invariant is kept |
| Voting.App.TogglePanel | main.js:286-340 | the button reaches the `Toggled` state of the poll; only that poll changes; every invariant is kept |
| Voting.SetTabIndices | main.js:300 | every item gets the panel's tab index and keeps everything else |
| Voting.ParticipantRows | main.js:310-325 | the rows added on opening are exactly the panel rows of the poll |

## Left out

- DOM construction and event wiring (`CreateElement`, `querySelector`, `innerHTML`, listener registration, the `percentage` text and CSS custom properties): host UI plumbing. The model keeps only the state these elements display.
- Check-mark image URLs and the `--check-image` property (main.js:161): presentation only. They are modelled as the boolean `checked`.
- The input `change` handler that sets the `"invalid"` class (main.js:243-245): it is cosmetic and never blocks a sign-in.
- `Display.RoundedRatio`: it uses exact integer rounding, half up. Floating-point error in `userCount / n * 100` near an exact .5 is not modelled.
- The commented-out colour animation (main.js:342-345): dead code driven by a timer.
- A poll element without an `items` attribute (main.js:48): the source crashes there without a guard. A definition always carries an attribute string.
- Object identity: records and items are values inside the poll. The aliasing that the source uses to update `user.selectedItemIndex` through the filtered array is modelled as an update at the record's position.
- `Polls.PanelRows`: the avatar shows `user.name[0]`, which JavaScript takes as a UTF-16 code unit. The model takes the first Unicode scalar value, so names that start with an astral character differ.
- The hover title of an avatar button (main.js:327): it is display text only.
- The order of the two `classList.toggle` calls and the `disabled` class on the poll element (main.js:289-292): they are modelled as one open flag.
- Voting.App.SignInAsParticipant: the direct assignment `CurrentUserName = user.name` at main.js:330 is not a separate step. The sign-in handler runs right after it and overwrites it with the same name.
