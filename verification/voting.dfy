/** The application state of main.js (the `Polls` array at line 17 and
    `CurrentUserName` at line 20) and its event handlers, updated in place step by step
    as the source does. Every method is proved to leave the state its pure counterpart
    in module Polls describes; the handlers (construction, click, keydown, the two
    sign-ins and the panel toggle) are also proved to keep `Valid()`. */
module Voting {
  import opened Text
  import opened Display
  import opened Polls
  import opened PollProperties

  /** A poll as `SetUpPolls` builds it (main.js:38-80): the items are pushed one per
      piece of the `items` attribute, each a fresh item. */
  method SetUpPoll(def: PollDef) returns (poll: Poll)
    ensures poll == NewPoll(def)
  {
    var itemValues := Split(def.items);
    var items: seq<Item> := [];
    for k := 0 to |itemValues|
      invariant |items| == k
      invariant forall m :: 0 <= m < k ==> items[m] == NewItem(itemValues[m])
    {
      items := items + [NewItem(itemValues[k])];
    }
    poll := Poll(def.title, items, [], false, 0, -1, []);
  }

  class App {
    /** `Polls`: one entry per poll element, in document order. */
    const polls: array<Poll>
    /** `CurrentUserName`: the empty string while nobody is signed in. */
    var currentUser: string

    /** The signed-in name is trimmed (so it is empty or a valid name), and every poll
        keeps its invariant with check marks showing that user's votes. */
    ghost predicate Valid()
      reads this, polls
    {
      && IsTrimmed(currentUser)
      && forall p :: 0 <= p < polls.Length ==> PollState(polls[p], currentUser)
    }

    /** `SetUp`: every poll element becomes a fresh poll, and nobody is signed in. */
    constructor (defs: seq<PollDef>)
      ensures Valid()
      ensures fresh(polls) && polls.Length == |defs| && currentUser == ""
      ensures forall k :: 0 <= k < |defs| ==> polls[k] == NewPoll(defs[k])
    {
      var a := new Poll[|defs|];
      for k := 0 to |defs|
        invariant forall m :: 0 <= m < k ==> a[m] == NewPoll(defs[m])
      {
        a[k] := SetUpPoll(defs[k]);
      }
      polls := a;
      currentUser := "";
      new;
      forall k | 0 <= k < |defs| ensures PollState(polls[k], currentUser) {
        NewPollState(defs[k]);
      }
    }

    /** The `percentage` setter of item `i` of poll `p` (main.js:148-155): stores the
        clamped value and changes nothing else. */
    method SetPercentage(p: nat, i: nat, value: Rounded)
      requires p < polls.Length && i < |polls[p].items|
      modifies polls
      ensures polls[p] == WithItem(old(polls[p]), i, old(polls[p]).items[i].(percentage := Clamp(value)))
      ensures forall q :: 0 <= q < polls.Length && q != p ==> polls[q] == old(polls[q])
    {
      var poll := polls[p];
      polls[p] := WithItem(poll, i, poll.items[i].(percentage := Clamp(value)));
    }

    /** `UpdatePercentage(checked)` on item `i` of poll `p` (main.js:160-166): sets the
        check mark, stores the rounded share of the poll's participants through the
        setter, and sets the tooltip. */
    method UpdatePercentage(p: nat, i: nat, isChecked: bool)
      requires p < polls.Length && i < |polls[p].items|
      modifies polls
      ensures polls[p] == WithItem(old(polls[p]), i,
                                   Refresh(old(polls[p]).items[i], isChecked, |old(polls[p]).participants|))
      ensures forall q :: 0 <= q < polls.Length && q != p ==> polls[q] == old(polls[q])
    {
      var poll := polls[p];
      polls[p] := WithItem(poll, i, poll.items[i].(checked := isChecked));
      var userCount := |poll.items[i].checkedBy|;
      SetPercentage(p, i, RoundedRatio(userCount, |poll.participants|));
      var updated := polls[p];
      polls[p] := WithItem(updated, i, updated.items[i].(tooltip := Tooltip(userCount)));
    }

    /** The `forEach` of main.js:214-217 and 229-232 on poll `p`: `u` leaves each item in
        turn, which is then refreshed unchecked. */
    method ClearVotes(p: nat, u: string)
      requires p < polls.Length
      modifies polls
      ensures polls[p] == ClearedAll(old(polls[p]), u)
      ensures forall q :: 0 <= q < polls.Length && q != p ==> polls[q] == old(polls[q])
    {
      ghost var start := polls[p];
      var n := |polls[p].items|;
      for i := 0 to n
        invariant polls[p] == start.(items := polls[p].items) && |polls[p].items| == n
        invariant forall k :: 0 <= k < i ==>
          polls[p].items[k] == Refresh(Cleared(start.items[k], u), false, |start.participants|)
        invariant forall k :: i <= k < n ==> polls[p].items[k] == start.items[k]
        invariant forall q :: 0 <= q < polls.Length && q != p ==> polls[q] == old(polls[q])
      {
        var poll := polls[p];
        polls[p] := WithItem(poll, i, Cleared(poll.items[i], u));
        UpdatePercentage(p, i, false);
      }
      assert polls[p].items == ClearedAll(start, u).items;
    }

    /** The un-vote branch of `PollItemClick` (main.js:211-218): `u`'s record is
        filtered out, then `u` leaves every item. */
    method UnvoteStep(p: nat, u: string)
      requires p < polls.Length
      modifies polls
      ensures polls[p] == Unvote(old(polls[p]), u)
      ensures forall q :: 0 <= q < polls.Length && q != p ==> polls[q] == old(polls[q])
    {
      var poll := polls[p];
      polls[p] := poll.(participants := RemoveUser(poll.participants, u));
      ClearVotes(p, u);
    }

    /** The select-or-switch branch of `PollItemClick` (main.js:221-234): the first
        record named `u` is reused, or a new one pushed, and given index `j`; `u` leaves
        every item, joins item `j`, and item `j` is refreshed checked. */
    method VoteStep(p: nat, j: nat, u: string)
      requires p < polls.Length && j < |polls[p].items|
      modifies polls
      ensures polls[p] == Vote(old(polls[p]), j, u)
      ensures forall q :: 0 <= q < polls.Length && q != p ==> polls[q] == old(polls[q])
    {
      var poll := polls[p];
      var ps := poll.participants;
      var found := IndexOfUser(ps, u);
      var k: nat;
      if found.Some? {
        k := found.value;
      } else {
        ps := ps + [User(u, j)];
        k := |ps| - 1;
      }
      ps := ps[k := ps[k].(selectedItemIndex := j)];
      assert ps == SelectRecord(poll.participants, u, j);
      polls[p] := poll.(participants := ps);
      ClearVotes(p, u);
      var cleared := polls[p];
      polls[p] := WithItem(cleared, j, cleared.items[j].(checkedBy := cleared.items[j].checkedBy + [u]));
      UpdatePercentage(p, j, true);
    }

    /** `PollItemClick` on item `j` of poll `p` (main.js:208-235): nothing while nobody
        is signed in; un-vote when the user already selects `j`; otherwise select or
        switch. Only poll `p` changes, and every invariant survives. */
    method Click(p: nat, j: nat)
      requires Valid() && p < polls.Length && j < |polls[p].items|
      modifies polls
      ensures Valid()
      ensures polls[p] == Activate(old(polls[p]), j, currentUser)
      ensures currentUser == "" ==> polls[p] == old(polls[p])
      ensures forall q :: 0 <= q < polls.Length && q != p ==> polls[q] == old(polls[q])
    {
      var u := currentUser;
      if u == "" {
        return;
      }
      ghost var start := polls[p];
      ActivateKeepsState(start, j, u);
      if u in polls[p].items[j].checkedBy {
        UnvoteStep(p, u);
      } else {
        VoteStep(p, j, u);
      }
      assert polls[p] == Activate(start, j, u);
    }

    /** The keydown handler of an item (main.js:194-196): Enter and Space activate it,
        every other key does nothing. */
    method Keydown(p: nat, j: nat, key: string)
      requires Valid() && p < polls.Length && j < |polls[p].items|
      modifies polls
      ensures Valid()
      ensures polls[p] == if key == "Enter" || key == " " then Activate(old(polls[p]), j, currentUser) else old(polls[p])
      ensures forall q :: 0 <= q < polls.Length && q != p ==> polls[q] == old(polls[q])
    {
      if key == "Enter" || key == " " {
        Click(p, j);
      }
    }

    /** The sign-in button (main.js:247-254): the trimmed input becomes the current
        user, and every item of every poll is refreshed with its check mark showing
        that user's membership. Votes, records and percentages stay as they were. */
    method SignIn(input: string)
      requires Valid()
      modifies this, polls
      ensures Valid()
      ensures currentUser == Trim(input)
      ensures forall p :: 0 <= p < polls.Length ==> polls[p] == SignedIn(old(polls[p]), currentUser)
    {
      ghost var previous := currentUser;
      ghost var before := polls[..];
      currentUser := Trim(input);
      TrimFixesTrimmed(input);
      for p := 0 to polls.Length
        invariant currentUser == Trim(input)
        invariant forall q :: 0 <= q < p ==> polls[q] == SignedIn(before[q], currentUser)
        invariant forall q :: p <= q < polls.Length ==> polls[q] == before[q]
      {
        ghost var start := polls[p];
        var n := |polls[p].items|;
        for i := 0 to n
          invariant currentUser == Trim(input)
          invariant polls[p] == start.(items := polls[p].items) && |polls[p].items| == n
          invariant forall k :: 0 <= k < i ==>
            polls[p].items[k] == Refresh(start.items[k], currentUser in start.items[k].checkedBy, |start.participants|)
          invariant forall k :: i <= k < n ==> polls[p].items[k] == start.items[k]
          invariant forall q :: 0 <= q < polls.Length && q != p ==>
            polls[q] == (if q < p then SignedIn(before[q], currentUser) else before[q])
        {
          UpdatePercentage(p, i, currentUser in polls[p].items[i].checkedBy);
        }
        assert polls[p].items == SignedIn(start, currentUser).items;
      }
      forall p | 0 <= p < polls.Length ensures PollState(polls[p], currentUser) {
        SignInEffect(before[p], currentUser, previous);
      }
    }

    /** A participant's avatar in an open votes panel (main.js:329-337): signs in
        under that participant's name, which the trimming leaves as it is. */
    method SignInAsParticipant(p: nat, r: nat)
      requires Valid() && p < polls.Length && r < |polls[p].rows| && polls[p].rows[r].ParticipantRow?
      modifies this, polls
      ensures Valid()
      ensures currentUser == old(polls[p].rows[r].name)
      ensures forall q :: 0 <= q < polls.Length ==> polls[q] == SignedIn(old(polls[q]), currentUser)
    {
      var name := polls[p].rows[r].name;
      TrimFixesTrimmed(name);
      SignIn(name);
    }

    /** The view-votes button and the panel's close button (main.js:287-339): flip the
        panel, set the tab indices of the two buttons and of every item, drop the old
        rows and, when opening, add the empty-state row or one row per participant. */
    method TogglePanel(p: nat)
      requires Valid() && p < polls.Length
      modifies polls
      ensures Valid()
      ensures RecordsInBounds(old(polls[p])) && polls[p] == Toggled(old(polls[p]))
      ensures forall q :: 0 <= q < polls.Length && q != p ==> polls[q] == old(polls[q])
    {
      var poll := polls[p];
      InvariantBounds(poll);
      var disabled := !poll.panelOpen;
      var viewTab := if disabled then -1 else 0;
      var closeTab := if disabled then 0 else -1;
      var items := SetTabIndices(poll.items, viewTab);
      var rows: seq<Row> := [];
      if disabled {
        rows := ParticipantRows(poll);
      }
      assert items == Toggled(poll).items;
      polls[p] := poll.(panelOpen := disabled, viewButtonTab := viewTab, closeButtonTab := closeTab,
                        items := items, rows := rows);
      assert polls[p] == Toggled(poll);
      ToggleKeepsState(poll, currentUser);
    }
  }

  /** `poll.items.forEach(item => item.element.tabIndex = tab)` (main.js:300): every item
      gets the tab index and keeps everything else. */
  method SetTabIndices(items: seq<Item>, tab: int) returns (r: seq<Item>)
    ensures |r| == |items|
    ensures forall k :: 0 <= k < |r| ==> r[k] == items[k].(tabIndex := tab)
  {
    r := items;
    for i := 0 to |items|
      invariant |r| == |items|
      invariant forall k :: 0 <= k < i ==> r[k] == items[k].(tabIndex := tab)
      invariant forall k :: i <= k < |r| ==> r[k] == items[k]
    {
      r := r[i := r[i].(tabIndex := tab)];
    }
  }

  /** The rows an opening panel adds (main.js:310-326): the empty-state message when
      the poll has no participants, otherwise one row per record in order, with the
      name's first character, the name and the label of the selected item. */
  method ParticipantRows(poll: Poll) returns (rows: seq<Row>)
    requires RecordsInBounds(poll)
    ensures rows == PanelRows(poll)
  {
    var ps := poll.participants;
    if |ps| == 0 {
      return [EmptyRow(EmptyPanelMessage)];
    }
    rows := [];
    for a := 0 to |ps|
      invariant |rows| == a
      invariant forall b :: 0 <= b < a ==>
        rows[b] == ParticipantRow(ps[b].name[0], ps[b].name, poll.items[ps[b].selectedItemIndex].value)
    {
      var user := ps[a];
      rows := rows + [ParticipantRow(user.name[0], user.name, poll.items[user.selectedItemIndex].value)];
    }
  }
}
