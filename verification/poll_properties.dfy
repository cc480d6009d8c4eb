/** What the transitions of module Polls promise: activation keeps one record per
    user and one selection per user, it touches only the activating user's votes,
    every percentage stays equal to its integer formula, sign-in changes only check
    marks, and the votes panel shows each participant's current selection. */
module PollProperties {
  import opened Text
  import opened Display
  import opened Polls

  // ---------------------------------------------------------------------------
  // Records

  /** With one record per name, a record's own name finds that record's selection. */
  lemma {:induction false} SelectionOfRecord(ps: seq<User>, a: nat)
    requires NoDup(Names(ps)) && a < |ps|
    ensures SelectionOf(ps, ps[a].name) == Some(ps[a].selectedItemIndex)
  {
    if a > 0 {
      NamesCons(ps);
      assert Names(ps)[0] != Names(ps)[a];
      NoDupTail(Names(ps));
      SelectionOfRecord(ps[1..], a - 1);
    }
  }

  lemma {:induction false} NamesRemoveUser(ps: seq<User>, u: string)
    ensures Names(RemoveUser(ps, u)) == Remove(Names(ps), u)
  {
    if ps != [] {
      NamesCons(ps);
      NamesRemoveUser(ps[1..], u);
      if ps[0].name != u {
        NamesCons([ps[0]] + RemoveUser(ps[1..], u));
        assert ([ps[0]] + RemoveUser(ps[1..], u))[1..] == RemoveUser(ps[1..], u);
      }
    }
  }

  /** Dropping `u`'s records forgets `u` and no one else. */
  lemma {:induction false} SelectionAfterRemove(ps: seq<User>, u: string, v: string)
    ensures SelectionOf(RemoveUser(ps, u), v) == if v == u then None else SelectionOf(ps, v)
  {
    if v == u {
      NamesRemoveUser(ps, u);
    } else if ps != [] {
      SelectionAfterRemove(ps[1..], u, v);
      if ps[0].name != u {
        assert ([ps[0]] + RemoveUser(ps[1..], u))[1..] == RemoveUser(ps[1..], u);
      }
    }
  }

  /** Appending a record for a new name `x.name` adds that name's selection only. */
  lemma {:induction false} SelectionAfterAppend(ps: seq<User>, x: User, v: string)
    requires x.name !in Names(ps)
    ensures SelectionOf(ps + [x], v) == if v == x.name then Some(x.selectedItemIndex) else SelectionOf(ps, v)
  {
    if ps != [] {
      NamesCons(ps);
      assert (ps + [x])[1..] == ps[1..] + [x];
      SelectionAfterAppend(ps[1..], x, v);
    } else {
      assert [] + [x] == [x];
    }
  }

  /** Re-pointing the first record named `u` changes `u`'s selection only. */
  lemma {:induction false} SelectionAfterReplace(ps: seq<User>, k: nat, j: nat, v: string)
    requires k < |ps|
    requires forall a :: 0 <= a < k ==> ps[a].name != ps[k].name
    ensures SelectionOf(ps[k := ps[k].(selectedItemIndex := j)], v) ==
            if v == ps[k].name then Some(j) else SelectionOf(ps, v)
  {
    var ps' := ps[k := ps[k].(selectedItemIndex := j)];
    if k == 0 {
      assert ps'[1..] == ps[1..];
    } else {
      assert ps'[0] == ps[0];
      assert ps'[1..] == ps[1..][k - 1 := ps[k].(selectedItemIndex := j)];
      SelectionAfterReplace(ps[1..], k - 1, j, v);
    }
  }

  /** main.js:221-227: afterwards `u`'s selection is `j` and every other user's is as
      before; the names keep their order, and a new name is added only at the end;
      records of other users stay where they were. */
  lemma SelectRecordEffect(ps: seq<User>, u: string, j: nat)
    ensures forall v :: SelectionOf(SelectRecord(ps, u, j), v) == if v == u then Some(j) else SelectionOf(ps, v)
    ensures Names(SelectRecord(ps, u, j)) == if u in Names(ps) then Names(ps) else Names(ps) + [u]
    ensures forall a :: 0 <= a < |ps| && ps[a].name != u ==> SelectRecord(ps, u, j)[a] == ps[a]
  {
    var r := SelectRecord(ps, u, j);
    match IndexOfUser(ps, u)
    case Some(k) =>
      assert r == ps[k := ps[k].(selectedItemIndex := j)];
      forall v ensures SelectionOf(r, v) == if v == u then Some(j) else SelectionOf(ps, v) {
        SelectionAfterReplace(ps, k, j, v);
      }
      assert Names(ps)[k] == u;
      assert |Names(r)| == |Names(ps)|;
      forall a | 0 <= a < |ps| ensures Names(r)[a] == Names(ps)[a] {
        if a == k {
          assert r[a].name == u;
        } else {
          assert r[a] == ps[a];
        }
      }
      assert Names(r) == Names(ps);
    case None =>
      var x := User(u, j);
      assert r == ps + [x];
      forall v ensures SelectionOf(r, v) == if v == u then Some(j) else SelectionOf(ps, v) {
        SelectionAfterAppend(ps, x, v);
      }
      assert |Names(r)| == |Names(ps) + [u]|;
      forall a | 0 <= a < |r| ensures Names(r)[a] == (Names(ps) + [u])[a] {
        if a < |ps| {
          assert r[a] == ps[a];
        }
      }
      assert Names(r) == Names(ps) + [u];
  }

  lemma {:induction false} RemoveUserAbsent(ps: seq<User>, u: string)
    requires u !in Names(ps)
    ensures RemoveUser(ps, u) == ps
  {
    if ps != [] {
      NamesCons(ps);
      RemoveUserAbsent(ps[1..], u);
      assert ps == [ps[0]] + ps[1..];
    }
  }

  lemma {:induction false} RemoveUserAppend(ps: seq<User>, x: User)
    ensures RemoveUser(ps + [x], x.name) == RemoveUser(ps, x.name)
  {
    if ps != [] {
      assert (ps + [x])[1..] == ps[1..] + [x];
      RemoveUserAppend(ps[1..], x);
    } else {
      assert [] + [x] == [x];
    }
  }

  lemma {:induction false} RemoveAppendSame(s: seq<string>, x: string)
    ensures Remove(s + [x], x) == Remove(s, x)
  {
    if s != [] {
      assert (s + [x])[1..] == s[1..] + [x];
      RemoveAppendSame(s[1..], x);
    } else {
      assert [] + [x] == [x];
    }
  }

  // ---------------------------------------------------------------------------
  // Consequences of the invariant

  /** Every record has a valid name and points at an item that lists it. */
  lemma RecordInBounds(poll: Poll, a: nat)
    requires PollInvariant(poll) && a < |poll.participants|
    ensures ValidName(poll.participants[a].name)
    ensures poll.participants[a].selectedItemIndex < |poll.items|
    ensures poll.participants[a].name in poll.items[poll.participants[a].selectedItemIndex].checkedBy
  {
    var ps := poll.participants;
    SelectionOfRecord(ps, a);
    assert Names(ps)[a] == ps[a].name;
  }

  lemma InvariantBounds(poll: Poll)
    requires PollInvariant(poll)
    ensures RecordsInBounds(poll)
  {
    forall a | 0 <= a < |poll.participants|
      ensures poll.participants[a].name != [] && poll.participants[a].selectedItemIndex < |poll.items|
    {
      RecordInBounds(poll, a);
    }
  }

  /** The empty name, which means nobody is signed in, never holds a vote. */
  lemma EmptyNameNeverVotes(poll: Poll, i: nat)
    requires PollInvariant(poll) && i < |poll.items|
    ensures "" !in poll.items[i].checkedBy
  {
    if "" in poll.items[i].checkedBy {
      assert SelectionOf(poll.participants, "") == Some(i);
    }
  }

  /** A user selects at most one item of a poll. */
  lemma InvariantSingleChoice(poll: Poll)
    requires PollInvariant(poll)
    ensures SingleChoice(poll)
  {
    assert VotesHaveRecords(poll);
    forall v, i, k | 0 <= i < |poll.items| && 0 <= k < |poll.items| &&
      v in poll.items[i].checkedBy && v in poll.items[k].checkedBy
      ensures i == k
    {
      assert SelectionOf(poll.participants, v) == Some(i);
      assert SelectionOf(poll.participants, v) == Some(k);
    }
  }

  /** No item lists more users than the poll has participants. */
  lemma CountBound(poll: Poll, i: nat)
    requires PollInvariant(poll) && i < |poll.items|
    ensures |poll.items[i].checkedBy| <= |poll.participants|
  {
    var c := poll.items[i].checkedBy;
    forall v | v in c ensures v in Names(poll.participants) {
      assert SelectionOf(poll.participants, v) == Some(i);
    }
    NoDupLength(c, Names(poll.participants));
  }

  /** Every stored percentage is `round(100 * |checkedBy| / |participants|)`, 0 for a
      poll without participants, and lies in [0,100]. */
  lemma PercentageFormula(poll: Poll, i: nat)
    requires PollInvariant(poll) && i < |poll.items|
    ensures poll.items[i].percentage == Share(|poll.items[i].checkedBy|, |poll.participants|)
    ensures 0 <= poll.items[i].percentage <= 100
    ensures |poll.participants| == 0 ==> poll.items[i].percentage == 0
  {
    CountBound(poll, i);
    PercentageOfShare(|poll.items[i].checkedBy|, |poll.participants|);
  }

  // ---------------------------------------------------------------------------
  // Un-vote

  /** Re-activating the selected item: `u` loses its record and leaves every item,
      every item is unchecked, and no other user's vote or record changes; labels and
      the votes panel are untouched. */
  lemma UnvoteEffect(poll: Poll, u: string)
    ensures var q := Unvote(poll, u);
      && |q.items| == |poll.items|
      && u !in Names(q.participants)
      && Names(q.participants) == Remove(Names(poll.participants), u)
      && (forall v :: v != u ==> SelectionOf(q.participants, v) == SelectionOf(poll.participants, v))
      && (forall i :: 0 <= i < |q.items| ==> u !in q.items[i].checkedBy && !q.items[i].checked)
      && (forall i, v :: 0 <= i < |q.items| && v != u ==>
            (v in q.items[i].checkedBy <==> v in poll.items[i].checkedBy))
      && (forall i :: 0 <= i < |q.items| ==>
            q.items[i].value == poll.items[i].value && q.items[i].tabIndex == poll.items[i].tabIndex)
      && q.title == poll.title && q.panelOpen == poll.panelOpen && q.rows == poll.rows
      && q.viewButtonTab == poll.viewButtonTab && q.closeButtonTab == poll.closeButtonTab
  {
    var q := Unvote(poll, u);
    NamesRemoveUser(poll.participants, u);
    forall v | v != u ensures SelectionOf(q.participants, v) == SelectionOf(poll.participants, v) {
      SelectionAfterRemove(poll.participants, u, v);
    }
  }

  /** Un-voting keeps the poll invariant. */
  lemma UnvoteKeepsInvariant(poll: Poll, u: string)
    requires PollInvariant(poll)
    ensures PollInvariant(Unvote(poll, u))
  {
    var q := Unvote(poll, u);
    var ps := poll.participants;
    var ps' := q.participants;
    NamesRemoveUser(ps, u);
    RemoveKeepsNoDup(Names(ps), u);
    forall v ensures SelectionOf(ps', v) == if v == u then None else SelectionOf(ps, v) {
      SelectionAfterRemove(ps, u, v);
    }
    forall i | 0 <= i < |q.items| ensures NoDup(q.items[i].checkedBy) {
      RemoveKeepsNoDup(poll.items[i].checkedBy, u);
    }
    assert RecordsHoldVotes(q);
    assert VotesHaveRecords(q);
  }

  // ---------------------------------------------------------------------------
  // Select or switch

  /** Activating an item `u` does not hold: `u` ends up listed by item `j` exactly once
      and by no other item, only item `j` is checked, `u`'s record now selects `j`,
      and no other user's vote or record changes; labels and the panel are untouched. */
  lemma VoteEffect(poll: Poll, j: nat, u: string)
    requires j < |poll.items|
    ensures var q := Vote(poll, j, u);
      && |q.items| == |poll.items|
      && u in q.items[j].checkedBy && multiset(q.items[j].checkedBy)[u] == 1
      && (forall i :: 0 <= i < |q.items| && i != j ==> u !in q.items[i].checkedBy)
      && (forall i :: 0 <= i < |q.items| ==> q.items[i].checked == (i == j))
      && (forall i, v :: 0 <= i < |q.items| && v != u ==>
            (v in q.items[i].checkedBy <==> v in poll.items[i].checkedBy))
      && SelectionOf(q.participants, u) == Some(j)
      && (forall v :: v != u ==> SelectionOf(q.participants, v) == SelectionOf(poll.participants, v))
      && (forall i :: 0 <= i < |q.items| ==>
            q.items[i].value == poll.items[i].value && q.items[i].tabIndex == poll.items[i].tabIndex)
      && q.title == poll.title && q.panelOpen == poll.panelOpen && q.rows == poll.rows
      && q.viewButtonTab == poll.viewButtonTab && q.closeButtonTab == poll.closeButtonTab
  {
    var q := Vote(poll, j, u);
    SelectRecordEffect(poll.participants, u, j);
    var rest := Remove(poll.items[j].checkedBy, u);
    assert q.items[j].checkedBy == rest + [u];
    assert multiset(rest)[u] == 0;
    assert multiset(rest + [u]) == multiset(rest) + multiset{u};
  }

  /** Selecting or switching keeps the poll invariant, for a valid user name. */
  lemma VoteKeepsInvariant(poll: Poll, j: nat, u: string)
    requires PollInvariant(poll) && ValidName(u) && j < |poll.items|
    ensures PollInvariant(Vote(poll, j, u))
  {
    var q := Vote(poll, j, u);
    var ps := poll.participants;
    var ps' := q.participants;
    SelectRecordEffect(ps, u, j);
    if u !in Names(ps) {
      NoDupAppend(Names(ps), u);
    }
    forall i | 0 <= i < |q.items|
      ensures q.items[i].checkedBy == Remove(poll.items[i].checkedBy, u) + (if i == j then [u] else [])
      ensures NoDup(q.items[i].checkedBy)
    {
      RemoveKeepsNoDup(poll.items[i].checkedBy, u);
      if i == j {
        NoDupAppend(Remove(poll.items[i].checkedBy, u), u);
      } else {
        assert Remove(poll.items[i].checkedBy, u) + [] == Remove(poll.items[i].checkedBy, u);
      }
    }
    forall v | SelectionOf(ps', v).Some?
      ensures SelectionOf(ps', v).value < |q.items| && v in q.items[SelectionOf(ps', v).value].checkedBy
    {
      if v != u {
        var i := SelectionOf(ps, v).value;
        assert v in poll.items[i].checkedBy;
        assert v in Remove(poll.items[i].checkedBy, u);
      }
    }
    forall i, v | 0 <= i < |q.items| && v in q.items[i].checkedBy
      ensures SelectionOf(ps', v) == Some(i)
    {
      if v != u {
        assert v in poll.items[i].checkedBy;
      } else if i != j {
        assert false;
      }
    }
    assert RecordsHoldVotes(q);
    assert VotesHaveRecords(q);
  }

  // ---------------------------------------------------------------------------
  // Activation

  /** Activation by the signed-in user (or by nobody) keeps everything the application
      promises of the poll: the invariant, single choice, the check marks of that
      user, the panel's tab indices, and signable rows. */
  lemma ActivateKeepsState(poll: Poll, j: nat, u: string)
    requires PollState(poll, u) && (u == "" || ValidName(u)) && j < |poll.items|
    ensures PollState(Activate(poll, j, u), u)
    ensures SingleChoice(Activate(poll, j, u))
  {
    if u != "" {
      if u in poll.items[j].checkedBy {
        UnvoteKeepsInvariant(poll, u);
        UnvoteEffect(poll, u);
      } else {
        VoteKeepsInvariant(poll, j, u);
        VoteEffect(poll, j, u);
      }
    }
    InvariantSingleChoice(Activate(poll, j, u));
  }

  /** The percentages after an activation: every item of the poll shows the integer
      formula for its new count over the new number of participants. */
  lemma ActivatePercentages(poll: Poll, j: nat, u: string, i: nat)
    requires PollInvariant(poll) && (u == "" || ValidName(u)) && j < |poll.items| && i < |poll.items|
    ensures var q := Activate(poll, j, u);
      i < |q.items| &&
      q.items[i].percentage == Share(|q.items[i].checkedBy|, |q.participants|) &&
      0 <= q.items[i].percentage <= 100
  {
    var q := Activate(poll, j, u);
    if u != "" {
      if u in poll.items[j].checkedBy {
        UnvoteKeepsInvariant(poll, u);
      } else {
        VoteKeepsInvariant(poll, j, u);
      }
    }
    PercentageFormula(q, i);
  }

  /** Activating the same item twice, starting from any state in which `u` does not
      hold it, leaves `u` with no record and no vote. */
  lemma ActivateTwice(poll: Poll, j: nat, u: string)
    requires ValidName(u) && j < |poll.items|
    requires u !in poll.items[j].checkedBy
    ensures var twice := Activate(Activate(poll, j, u), j, u);
      u !in Names(twice.participants) &&
      forall i :: 0 <= i < |twice.items| ==> u !in twice.items[i].checkedBy
  {
  }

  /** If `u` had not voted at all, activating an item twice gives back exactly the
      poll it started from. */
  lemma ActivateTwiceRestores(poll: Poll, j: nat, u: string)
    requires PollInvariant(poll) && ValidName(u) && j < |poll.items|
    requires u !in Names(poll.participants) && MarksFor(poll, u)
    ensures Activate(Activate(poll, j, u), j, u) == poll
  {
    assert IndexOfUser(poll.participants, u) == None;
    NoRecordNoVote(poll, u);
    VoteUnvoteRestores(poll, j, u);
  }

  /** The core of `ActivateTwiceRestores`, from what the invariant says about `u`. */
  lemma VoteUnvoteRestores(poll: Poll, j: nat, u: string)
    requires u != "" && j < |poll.items|
    requires IndexOfUser(poll.participants, u) == None
    requires forall i :: 0 <= i < |poll.items| ==>
      u !in poll.items[i].checkedBy && !poll.items[i].checked && Current(poll.items[i], |poll.participants|)
    ensures Activate(Activate(poll, j, u), j, u) == poll
  {
    var ps := poll.participants;
    var once := Vote(poll, j, u);
    assert Activate(poll, j, u) == once;
    assert once.items[j].checkedBy == Remove(poll.items[j].checkedBy, u) + [u];
    var twice := Unvote(once, u);
    assert Activate(once, j, u) == twice;
    assert once.participants == ps + [User(u, j)];
    RemoveUserAppend(ps, User(u, j));
    RemoveUserAbsent(ps, u);
    assert twice.participants == ps;
    forall i | 0 <= i < |poll.items| ensures twice.items[i] == poll.items[i] {
      ItemRestored(poll, j, u, i);
    }
    assert twice.items == poll.items;
  }

  /** One item of `ActivateTwiceRestores`: an unchecked, current item that does not
      list `u` comes back unchanged. */
  lemma ItemRestored(poll: Poll, j: nat, u: string, i: nat)
    requires j < |poll.items| && i < |poll.items|
    requires IndexOfUser(poll.participants, u) == None
    requires u !in poll.items[i].checkedBy && !poll.items[i].checked
    requires Current(poll.items[i], |poll.participants|)
    ensures Unvote(Vote(poll, j, u), u).items[i] == poll.items[i]
  {
    var ps := poll.participants;
    var once := Vote(poll, j, u);
    var twice := Unvote(once, u);
    var c := poll.items[i].checkedBy;
    assert once.participants == ps + [User(u, j)];
    RemoveUserAppend(ps, User(u, j));
    RemoveUserAbsent(ps, u);
    assert twice.participants == ps;
    if i == j {
      assert once.items[i].checkedBy == Remove(c, u) + [u];
      RemoveAppendSame(Remove(c, u), u);
    } else {
      assert once.items[i].checkedBy == Remove(c, u);
    }
    assert twice.items[i].checkedBy == c;
  }

  /** A user without a record is listed by no item. */
  lemma NoRecordNoVote(poll: Poll, u: string)
    requires PollInvariant(poll) && u !in Names(poll.participants)
    ensures forall i :: 0 <= i < |poll.items| ==> u !in poll.items[i].checkedBy
  {
    forall i | 0 <= i < |poll.items| ensures u !in poll.items[i].checkedBy {
      if u in poll.items[i].checkedBy {
        assert SelectionOf(poll.participants, u) == Some(i);
      }
    }
  }

  // ---------------------------------------------------------------------------
  // Sign-in

  /** Signing in as `u` changes nothing but the check marks, which then show `u`'s
      votes; so every invariant of the poll survives. */
  lemma SignInEffect(poll: Poll, u: string, previous: string)
    requires PollState(poll, previous)
    ensures var q := SignedIn(poll, u);
      && |q.items| == |poll.items|
      && (forall i :: 0 <= i < |q.items| ==>
            q.items[i] == poll.items[i].(checked := u in poll.items[i].checkedBy))
      && q.participants == poll.participants && q.title == poll.title
      && q.panelOpen == poll.panelOpen && q.rows == poll.rows
      && q.viewButtonTab == poll.viewButtonTab && q.closeButtonTab == poll.closeButtonTab
    ensures PollState(SignedIn(poll, u), u)
  {
  }

  // ---------------------------------------------------------------------------
  // The votes panel

  /** A participant's record selects exactly the one item whose `checkedBy` holds
      the participant. */
  lemma RecordSelectsOnly(poll: Poll)
    requires PollInvariant(poll)
    ensures forall a, i :: 0 <= a < |poll.participants| && 0 <= i < |poll.items| ==>
      (poll.participants[a].name in poll.items[i].checkedBy <==> i == poll.participants[a].selectedItemIndex)
  {
    var ps := poll.participants;
    forall a, i | 0 <= a < |ps| && 0 <= i < |poll.items|
      ensures ps[a].name in poll.items[i].checkedBy <==> i == ps[a].selectedItemIndex
    {
      RecordInBounds(poll, a);
      SelectionOfRecord(ps, a);
    }
  }

  /** The opened panel shows the empty-state row alone when nobody has voted, and
      otherwise one row per participant in record order, naming the participant with
      its initial and the label of the item it selects, which lists the participant. */
  lemma PanelRowsShowSelections(poll: Poll)
    requires PollInvariant(poll)
    ensures RecordsInBounds(poll)
    ensures |poll.participants| == 0 ==> PanelRows(poll) == [EmptyRow(EmptyPanelMessage)]
    ensures |poll.participants| > 0 ==> |PanelRows(poll)| == |poll.participants|
    ensures forall a :: 0 <= a < |poll.participants| ==>
      var row := PanelRows(poll)[a];
      var i := poll.participants[a].selectedItemIndex;
      && row.ParticipantRow? && row.name == poll.participants[a].name && row.initial == row.name[0]
      && i < |poll.items| && row.itemValue == poll.items[i].value
      && row.name in poll.items[i].checkedBy
  {
    InvariantBounds(poll);
    var ps := poll.participants;
    forall a | 0 <= a < |ps|
      ensures var row := PanelRows(poll)[a];
        var i := ps[a].selectedItemIndex;
        && row.ParticipantRow? && row.name == ps[a].name && row.initial == row.name[0]
        && i < |poll.items| && row.itemValue == poll.items[i].value
        && row.name in poll.items[i].checkedBy
    {
      RecordInBounds(poll, a);
    }
  }

  /** Toggling keeps the poll's state (its votes are untouched) and flips the panel;
      afterwards the tab indices and the rows match the new flag. */
  lemma ToggleKeepsState(poll: Poll, u: string)
    requires PollState(poll, u)
    ensures RecordsInBounds(poll)
    ensures PollState(Toggled(poll), u)
    ensures Toggled(poll).panelOpen == !poll.panelOpen
    ensures Toggled(poll).participants == poll.participants
    ensures forall i :: 0 <= i < |poll.items| ==>
      i < |Toggled(poll).items| && Toggled(poll).items[i].checkedBy == poll.items[i].checkedBy &&
      Toggled(poll).items[i].percentage == poll.items[i].percentage
  {
    InvariantBounds(poll);
    var q := Toggled(poll);
    forall r | 0 <= r < |q.rows| && q.rows[r].ParticipantRow? ensures ValidName(q.rows[r].name) {
      RecordInBounds(poll, r);
    }
    assert RecordsHoldVotes(q);
    assert VotesHaveRecords(q);
  }

  /** Two toggles restore the open flag and every tab index; from a closed panel they
      restore the whole poll (an opened panel instead shows freshly built rows). */
  lemma ToggleTwice(poll: Poll)
    requires RecordsInBounds(poll) && PanelConsistent(poll)
    ensures RecordsInBounds(Toggled(poll))
    ensures Toggled(Toggled(poll)).(rows := poll.rows) == poll
    ensures !poll.panelOpen ==> Toggled(Toggled(poll)) == poll
  {
  }

  // ---------------------------------------------------------------------------
  // Setup

  /** A freshly set-up poll satisfies every invariant while nobody is signed in, and
      its item labels are the pieces of the `items` attribute, which they join back to. */
  lemma NewPollState(def: PollDef)
    ensures PollState(NewPoll(def), "")
    ensures ItemValues(NewPoll(def)) == Split(def.items)
    ensures Join(ItemValues(NewPoll(def))) == def.items
  {
    var poll := NewPoll(def);
    assert ItemValues(poll) == Split(def.items);
    JoinSplit(def.items);
  }

  /** Any list of labels free of `|` can be declared through the `items` attribute. */
  lemma LabelsRoundTrip(title: string, labels: seq<string>)
    requires |labels| >= 1 && forall k :: 0 <= k < |labels| ==> Separator !in labels[k]
    ensures ItemValues(NewPoll(PollDef(title, Join(labels)))) == labels
  {
    SplitJoin(labels);
    NewPollState(PollDef(title, Join(labels)));
  }
}
