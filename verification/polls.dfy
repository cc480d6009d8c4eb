/** The state of one poll and the pure transitions on it: the records of main.js
    (`Poll` at 120-127, `PollItem` at 136-168, `User` at 262-267), what a vote, an
    un-vote, a sign-in and a votes-panel toggle leave behind, and the invariant the
    voting state machine keeps. The in-place updates themselves are in module Voting. */
module Polls {
  import opened Text
  import opened Display

  datatype Option<T> = None | Some(value: T)

  /** A participation record: a user who currently holds a selection in the poll. */
  datatype User = User(name: string, selectedItemIndex: nat)

  /** A poll item: its label, the users selecting it (in selection order), the stored
      percentage, and what its list element shows (check mark, tooltip, tab index). */
  datatype Item = Item(value: string, checkedBy: seq<string>, percentage: int,
                       checked: bool, tooltip: string, tabIndex: int)

  /** A row of the votes panel: the empty-state message, or one participant with the
      initial on its avatar button, its name and the label of its selected item. */
  datatype Row = EmptyRow(message: string) | ParticipantRow(initial: char, name: string, itemValue: string)

  /** A poll: its title, items and participants, and the votes panel's state (whether
      it is open, the tab indices of its two toggle buttons, the rows it shows). */
  datatype Poll = Poll(title: string, items: seq<Item>, participants: seq<User>,
                       panelOpen: bool, viewButtonTab: int, closeButtonTab: int, rows: seq<Row>)

  /** A `poll` element's two attributes: `pollTitle` and the `|`-separated `items`. */
  datatype PollDef = PollDef(title: string, items: string)

  const EmptyPanelMessage: string := "The are no participants in this poll yet."

  // ---------------------------------------------------------------------------
  // Sequences without repetitions, and `filter(x => x != u)`

  ghost predicate NoDup<T>(s: seq<T>) {
    forall a, b :: 0 <= a < b < |s| ==> s[a] != s[b]
  }

  /** `s.filter(y => y != x)`. */
  function Remove(s: seq<string>, x: string): (r: seq<string>)
    ensures forall y :: y in r <==> y in s && y != x
    ensures |r| <= |s|
    ensures x in s ==> |r| < |s|
    ensures x !in s ==> r == s
  {
    if s == [] then []
    else if s[0] == x then Remove(s[1..], x)
    else [s[0]] + Remove(s[1..], x)
  }

  lemma NoDupTail<T>(s: seq<T>)
    requires NoDup(s) && s != []
    ensures NoDup(s[1..]) && s[0] !in s[1..]
  {
    forall k | 0 <= k < |s| - 1 ensures s[1..][k] != s[0] {
      assert s[1..][k] == s[k + 1];
    }
  }

  lemma NoDupCons<T>(x: T, t: seq<T>)
    requires x !in t && NoDup(t)
    ensures NoDup([x] + t)
  {
  }

  lemma NoDupAppend<T>(t: seq<T>, x: T)
    requires x !in t && NoDup(t)
    ensures NoDup(t + [x])
  {
  }

  /** Filtering keeps a sequence free of repetitions. */
  lemma {:induction false} RemoveKeepsNoDup(s: seq<string>, x: string)
    requires NoDup(s)
    ensures NoDup(Remove(s, x))
  {
    if s != [] {
      NoDupTail(s);
      RemoveKeepsNoDup(s[1..], x);
      if s[0] != x {
        NoDupCons(s[0], Remove(s[1..], x));
      }
    }
  }

  /** A repetition-free sequence is no longer than any sequence holding its elements. */
  lemma {:induction false} NoDupLength(s: seq<string>, t: seq<string>)
    requires NoDup(s)
    requires forall y :: y in s ==> y in t
    ensures |s| <= |t|
  {
    if s != [] {
      NoDupTail(s);
      var rest := Remove(t, s[0]);
      forall y | y in s[1..] ensures y in rest {
        assert y in s;
      }
      NoDupLength(s[1..], rest);
    }
  }

  // ---------------------------------------------------------------------------
  // Participation records

  function Names(ps: seq<User>): seq<string> {
    seq(|ps|, a requires 0 <= a < |ps| => ps[a].name)
  }

  lemma NamesCons(ps: seq<User>)
    requires ps != []
    ensures Names(ps) == [ps[0].name] + Names(ps[1..])
  {
  }

  /** `participatedUsers.filter(user => user.name != u)`. */
  function RemoveUser(ps: seq<User>, u: string): (r: seq<User>)
    ensures forall x :: x in r <==> x in ps && x.name != u
  {
    if ps == [] then []
    else if ps[0].name == u then RemoveUser(ps[1..], u)
    else [ps[0]] + RemoveUser(ps[1..], u)
  }

  /** The item index recorded for `v`, taken from the first record named `v`; `None`
      when `v` has no record. */
  function SelectionOf(ps: seq<User>, v: string): (r: Option<nat>)
    ensures r.None? <==> v !in Names(ps)
  {
    if ps == [] then None
    else
      NamesCons(ps);
      if ps[0].name == v then Some(ps[0].selectedItemIndex)
      else SelectionOf(ps[1..], v)
  }

  /** `participatedUsers.filter(user => user.name == u)[0]`, as a position. */
  function IndexOfUser(ps: seq<User>, u: string): (r: Option<nat>)
    ensures r.None? <==> u !in Names(ps)
    ensures r.Some? ==> (r.value < |ps| && ps[r.value].name == u &&
      forall a :: 0 <= a < r.value ==> ps[a].name != u)
  {
    if ps == [] then None
    else
      NamesCons(ps);
      if ps[0].name == u then Some(0)
      else match IndexOfUser(ps[1..], u)
        case None => None
        case Some(k) => Some(k + 1)
  }

  /** main.js:221-227: reuse the first record named `u`, giving it item `j`, or append
      a new record for `u` at the end. */
  function SelectRecord(ps: seq<User>, u: string, j: nat): seq<User> {
    match IndexOfUser(ps, u)
    case Some(k) => ps[k := ps[k].(selectedItemIndex := j)]
    case None => ps + [User(u, j)]
  }

  // ---------------------------------------------------------------------------
  // Items and the transitions of one poll

  /** What `UpdatePercentage(isChecked)` leaves in an item (main.js:160-166): the check
      mark, the percentage from the setter, and the tooltip. */
  function Refresh(item: Item, isChecked: bool, participants: nat): Item {
    item.(checked := isChecked,
          percentage := Percentage(|item.checkedBy|, participants),
          tooltip := Tooltip(|item.checkedBy|))
  }

  /** `item.checkedBy = item.checkedBy.filter(user => user != u)`. */
  function Cleared(item: Item, u: string): Item {
    item.(checkedBy := Remove(item.checkedBy, u))
  }

  function WithItem(poll: Poll, i: nat, item: Item): Poll
    requires i < |poll.items|
  {
    poll.(items := poll.items[i := item])
  }

  /** The `forEach` of main.js:214-217 and 229-232: `u` leaves every item, and every
      item is refreshed unchecked against the poll's current participants. */
  function ClearedAll(poll: Poll, u: string): Poll {
    poll.(items := seq(|poll.items|, i requires 0 <= i < |poll.items| =>
                         Refresh(Cleared(poll.items[i], u), false, |poll.participants|)))
  }

  /** Un-vote (main.js:211-218): `u` loses its record, then leaves every item. */
  function Unvote(poll: Poll, u: string): Poll {
    ClearedAll(poll.(participants := RemoveUser(poll.participants, u)), u)
  }

  /** Select or switch (main.js:221-234): `u`'s record is reused or appended, `u`
      leaves every item, and then joins item `j`, which is refreshed checked. */
  function Vote(poll: Poll, j: nat, u: string): Poll
    requires j < |poll.items|
  {
    var cleared := ClearedAll(poll.(participants := SelectRecord(poll.participants, u, j)), u);
    var item := cleared.items[j];
    WithItem(cleared, j, Refresh(item.(checkedBy := item.checkedBy + [u]), true, |cleared.participants|))
  }

  /** Activating item `j` while `u` is the current user (main.js:208-235). */
  function Activate(poll: Poll, j: nat, u: string): Poll
    requires j < |poll.items|
  {
    if u == "" then poll
    else if u in poll.items[j].checkedBy then Unvote(poll, u)
    else Vote(poll, j, u)
  }

  /** The sign-in loop (main.js:251-253) on one poll: every item is refreshed with
      its check mark set to `u`'s membership. */
  function SignedIn(poll: Poll, u: string): Poll {
    poll.(items := seq(|poll.items|, i requires 0 <= i < |poll.items| =>
                         Refresh(poll.items[i], u in poll.items[i].checkedBy, |poll.participants|)))
  }

  /** Every record has a non-empty name and points at an existing item, so the panel
      can show an initial and an item label for it. */
  ghost predicate RecordsInBounds(poll: Poll) {
    forall a :: 0 <= a < |poll.participants| ==>
      poll.participants[a].name != [] && poll.participants[a].selectedItemIndex < |poll.items|
  }

  /** The rows of an opened votes panel (main.js:310-338). */
  function PanelRows(poll: Poll): seq<Row>
    requires RecordsInBounds(poll)
  {
    var ps := poll.participants;
    if |ps| == 0 then [EmptyRow(EmptyPanelMessage)]
    else seq(|ps|, a requires 0 <= a < |ps| =>
               ParticipantRow(ps[a].name[0], ps[a].name, poll.items[ps[a].selectedItemIndex].value))
  }

  /** The votes-panel toggle (main.js:287-339): flip the open flag, make the items and
      the view button unreachable by Tab while open and the close button reachable, and
      show fresh rows when opening, none when closing. */
  function Toggled(poll: Poll): Poll
    requires RecordsInBounds(poll)
  {
    var open := !poll.panelOpen;
    var tab := if open then -1 else 0;
    poll.(panelOpen := open,
          viewButtonTab := tab,
          closeButtonTab := if open then 0 else -1,
          items := seq(|poll.items|, i requires 0 <= i < |poll.items| => poll.items[i].(tabIndex := tab)),
          rows := if open then PanelRows(poll) else [])
  }

  /** A fresh item for label `v` (main.js:51-63): no users, 0 percent, reachable. */
  function NewItem(v: string): Item {
    Item(v, [], Clamp(Int(0)), false, NoUserTooltip, 0)
  }

  /** A poll as set up from its element (main.js:38-80); the close button starts at
      tab index -1 and the view button keeps a button's default 0. */
  function NewPoll(def: PollDef): Poll {
    var values := Split(def.items);
    Poll(def.title, seq(|values|, i requires 0 <= i < |values| => NewItem(values[i])), [], false, 0, -1, [])
  }

  function ItemValues(poll: Poll): seq<string> {
    seq(|poll.items|, i requires 0 <= i < |poll.items| => poll.items[i].value)
  }

  // ---------------------------------------------------------------------------
  // Invariants

  /** A name that can be signed in under and vote: not empty, and trimmed. */
  ghost predicate ValidName(s: string) {
    s != [] && IsTrimmed(s)
  }

  /** The percentage and tooltip an item shows agree with its `checkedBy`. */
  ghost predicate Current(item: Item, participants: nat) {
    item.percentage == Percentage(|item.checkedBy|, participants) &&
    item.tooltip == Tooltip(|item.checkedBy|)
  }

  /** Every record's selection is an item that lists the record's user. */
  ghost predicate RecordsHoldVotes(poll: Poll) {
    forall v :: SelectionOf(poll.participants, v).Some? ==>
      SelectionOf(poll.participants, v).value < |poll.items| &&
      v in poll.items[SelectionOf(poll.participants, v).value].checkedBy
  }

  /** Every user an item lists has a record whose selection is that item. */
  ghost predicate VotesHaveRecords(poll: Poll) {
    forall i, v :: 0 <= i < |poll.items| && v in poll.items[i].checkedBy ==>
      SelectionOf(poll.participants, v) == Some(i)
  }

  /** The invariant of one poll: one record per name, valid names, records and
      `checkedBy` lists agreeing with each other, no user listed twice by one item,
      and every item showing its current percentage and tooltip. */
  ghost predicate PollInvariant(poll: Poll) {
    && NoDup(Names(poll.participants))
    && (forall v :: v in Names(poll.participants) ==> ValidName(v))
    && RecordsHoldVotes(poll)
    && VotesHaveRecords(poll)
    && (forall i :: 0 <= i < |poll.items| ==> NoDup(poll.items[i].checkedBy))
    && (forall i :: 0 <= i < |poll.items| ==> Current(poll.items[i], |poll.participants|))
  }

  /** A user selects at most one item of the poll. */
  ghost predicate SingleChoice(poll: Poll) {
    forall v, i, k ::
      (0 <= i < |poll.items| && 0 <= k < |poll.items| &&
       v in poll.items[i].checkedBy && v in poll.items[k].checkedBy) ==> i == k
  }

  /** Every item's check mark shows whether `u` selects it. */
  ghost predicate MarksFor(poll: Poll, u: string) {
    forall i :: 0 <= i < |poll.items| ==> poll.items[i].checked == (u in poll.items[i].checkedBy)
  }

  /** The tab indices follow the panel's open flag, and a closed panel shows no rows. */
  ghost predicate PanelConsistent(poll: Poll) {
    && poll.viewButtonTab == (if poll.panelOpen then -1 else 0)
    && poll.closeButtonTab == (if poll.panelOpen then 0 else -1)
    && (forall i :: 0 <= i < |poll.items| ==> poll.items[i].tabIndex == (if poll.panelOpen then -1 else 0))
    && (!poll.panelOpen ==> poll.rows == [])
  }

  /** Every participant row names a user one can sign in as. */
  ghost predicate RowsSignable(poll: Poll) {
    forall r :: 0 <= r < |poll.rows| && poll.rows[r].ParticipantRow? ==> ValidName(poll.rows[r].name)
  }

  /** Everything the application keeps true of a poll while `u` is signed in. */
  ghost predicate PollState(poll: Poll, u: string) {
    PollInvariant(poll) && MarksFor(poll, u) && PanelConsistent(poll) && RowsSignable(poll)
  }
}
