/** What a poll item displays besides its label: the clamped percentage
    (main.js:148-155, 163-164) and the tooltip naming how many users selected it
    (main.js:53, 165). */
module Display {
  import opened Text

  /** The value `Math.round(count / participants * 100)` can take for a count and a
      participant total that are natural numbers: `NaN` for 0/0, an infinity for a
      positive count over no participants, otherwise an integer. */
  datatype Rounded = NaN | Infinity(positive: bool) | Int(value: int)

  /** The `percentage` setter: negative values and `NaN` become 0, values above 100
      become 100, and everything else is kept. */
  function Clamp(x: Rounded): (r: int)
    ensures 0 <= r <= 100
    ensures x.Int? && 0 <= x.value <= 100 ==> r == x.value
    ensures x.NaN? ==> r == 0
    ensures x == Infinity(true) ==> r == 100
  {
    match x
    case NaN => 0
    case Infinity(positive) => if positive then 100 else 0
    case Int(v) => if v < 0 then 0 else if v > 100 then 100 else v
  }

  function Dist(a: int, b: int): nat {
    if a <= b then b - a else a - b
  }

  /** On numbers the setter is the projection onto [0,100]: no value of the range is
      closer to the input, so a value is changed only when it lies outside the range. */
  lemma ClampIsNearest(v: int, y: int)
    requires 0 <= y <= 100
    ensures Dist(Clamp(Int(v)), v) <= Dist(y, v)
    ensures Clamp(Int(v)) == v <==> 0 <= v <= 100
  {
  }

  /** `Math.round(count / participants * 100)`; for a positive total this is
      `(200 * count + participants) / (2 * participants)`. */
  function RoundedRatio(count: nat, participants: nat): (r: Rounded)
    ensures participants == 0 ==> (r.NaN? <==> count == 0)
    ensures participants > 0 ==> (r.Int? &&
      2 * participants * r.value <= 200 * count + participants < 2 * participants * r.value + 2 * participants)
  {
    if participants == 0 then
      if count == 0 then NaN else Infinity(true)
    else
      var d := 2 * participants;
      var q := (200 * count + participants) / d;
      assert d * q <= 200 * count + participants < d * q + d by {
        DivBounds(200 * count + participants, d);
      }
      Int(q)
  }

  lemma DivBounds(a: nat, d: nat)
    requires d > 0
    ensures d * (a / d) <= a < d * (a / d) + d
  {
  }

  /** What `UpdatePercentage` stores: the rounded share after clamping. */
  function Percentage(count: nat, participants: nat): (r: int)
    ensures 0 <= r <= 100
  {
    Clamp(RoundedRatio(count, participants))
  }

  /** The integer share the widget is meant to show: `count / participants` as a
      percentage rounded half up, and 0 for a poll without participants. */
  function Share(count: nat, participants: nat): int {
    if participants == 0 then 0 else (200 * count + participants) / (2 * participants)
  }

  /** When the count is a part of the total, the rounded share already lies in [0,100],
      so the setter keeps it: the stored percentage is the integer formula, or 0 when
      there are no participants (0/0 is `NaN`), and all participants make 100. */
  lemma PercentageOfShare(count: nat, participants: nat)
    requires count <= participants
    ensures Percentage(count, participants) == Share(count, participants)
    ensures 0 <= Share(count, participants) <= 100
    ensures participants > 0 && count == participants ==> Share(count, participants) == 100
  {
    if participants > 0 {
      var d := 2 * participants;
      var q := (200 * count + participants) / d;
      DivBounds(200 * count + participants, d);
      assert d * q <= 200 * participants + participants;
      assert d * q < d * 101 by {
        assert 200 * participants + participants < d * 101;
      }
      MulLess(q, 101, d);
      if count == participants {
        assert 200 * count + participants == d * 100 + participants;
        assert d * q + d > d * 100;
        MulLess(100, q + 1, d);
      }
    }
  }

  lemma MulLess(a: int, b: int, d: nat)
    requires d > 0 && d * a < d * b
    ensures a < b
  {
  }

  /** More votes never show a smaller percentage among the same participants. */
  lemma PercentageMonotone(c1: nat, c2: nat, participants: nat)
    requires c1 <= c2 <= participants
    ensures Percentage(c1, participants) <= Percentage(c2, participants)
  {
    if participants > 0 {
      var d := 2 * participants;
      var x1 := 200 * c1 + participants;
      var x2 := 200 * c2 + participants;
      PercentageOfShare(c1, participants);
      PercentageOfShare(c2, participants);
      var q1 := x1 / d;
      var q2 := x2 / d;
      assert Percentage(c1, participants) == q1 && Percentage(c2, participants) == q2;
      DivBounds(x1, d);
      DivBounds(x2, d);
      assert x1 <= x2;
      assert d * (q2 + 1) == d * q2 + d;
      assert d * q1 < d * (q2 + 1);
      MulLess(q1, q2 + 1, d);
    }
  }

  // ---------------------------------------------------------------------------
  // Tooltip

  const NoUserTooltip: string := "Selected by no user."
  const TooltipPrefix: string := "Selected by "

  /** The item tooltip for `count` selecting users. */
  function Tooltip(count: nat): string {
    if count == 0 then NoUserTooltip
    else TooltipPrefix + NatToString(count) + TooltipEnding(count)
  }

  /** " user." or " users.", singular only for one user. */
  function TooltipEnding(count: nat): string {
    " user" + (if count > 1 then "s" else "") + "."
  }

  /** The tooltip splits into the fixed prefix, the digits of the count and the ending. */
  lemma TooltipParts(count: nat)
    requires count > 0
    ensures Tooltip(count) == TooltipPrefix + (NatToString(count) + TooltipEnding(count))
  {
  }

  /** The tooltip tells the count back: the no-user text exactly for 0; otherwise the
      digits after the prefix read back as the count. */
  lemma TooltipShowsCount(count: nat)
    ensures count == 0 <==> Tooltip(count) == NoUserTooltip
    ensures count > 0 ==>
      |TooltipPrefix| <= |Tooltip(count)| && Tooltip(count)[..|TooltipPrefix|] == TooltipPrefix &&
      ParseNat(LeadingDigits(Tooltip(count)[|TooltipPrefix|..])) == count
  {
    if count > 0 {
      var digits := NatToString(count);
      var t := Tooltip(count);
      TooltipParts(count);
      assert t[..|TooltipPrefix|] == TooltipPrefix;
      assert t[|TooltipPrefix|..] == digits + TooltipEnding(count);
      LeadingDigitsOf(digits, TooltipEnding(count));
      ParseNatToString(count);
      assert t[|TooltipPrefix|] == digits[0];
      assert NoUserTooltip[|TooltipPrefix|] == 'n';
    }
  }

  /** The tooltip of a positive count ends in " user." for one user and in "users."
      exactly when more than one user selected the item. */
  lemma TooltipPlural(count: nat)
    requires count > 0
    ensures |Tooltip(count)| >= 6
    ensures count > 1 <==> Tooltip(count)[|Tooltip(count)| - 6..] == "users."
    ensures count == 1 ==> Tooltip(count)[|Tooltip(count)| - 6..] == " user."
  {
    var t := Tooltip(count);
    var ending := TooltipEnding(count);
    TooltipParts(count);
    assert t[|t| - |ending|..] == ending;
    assert t[|t| - 6..] == ending[|ending| - 6..];
    if count > 1 {
      assert ending == " users.";
    } else {
      assert ending == " user.";
    }
  }
}
