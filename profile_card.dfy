/** The "Health Passport" card (components/ProfileCard.tsx): the profile's
    intolerances grouped by level, an inline add form and remove buttons. */
module ProfileCard {
  import opened Wrappers
  import opened Seqs
  import opened Text
  import opened Types
  import App

  /** The header line under the title. */
  function HeaderLabel(condition: string): (shown: string)
    ensures condition == "none" ==> shown == "General Profile"
    ensures condition != "none" ==> shown == condition
  {
    if condition == "none" then "General Profile" else condition
  }

  /** The test `i => i.level === level` of the three lists. */
  function AtLevel(level: IntoleranceLevel): IntoleranceItem -> bool {
    (item: IntoleranceItem) => item.level == level
  }

  /** The badges listed under one level, in profile order. */
  function ItemsAt(items: seq<IntoleranceItem>, level: IntoleranceLevel): (r: seq<IntoleranceItem>)
    ensures forall x :: x in r <==> x in items && x.level == level
    ensures |r| <= |items|
  {
    Filter(AtLevel(level), items)
  }

  /** The lists keep profile order: the list of two parts is the two lists
      one after the other. */
  lemma ItemsAtAppend(a: seq<IntoleranceItem>, b: seq<IntoleranceItem>, level: IntoleranceLevel)
    ensures ItemsAt(a + b, level) == ItemsAt(a, level) + ItemsAt(b, level)
  {
    FilterAppend(AtLevel(level), a, b);
  }

  /** Every item is listed under its own level and under no other, so the
      three counts on the card add up to the number of intolerances. */
  lemma {:induction false} LevelsPartition(items: seq<IntoleranceItem>)
    ensures |ItemsAt(items, Elevated)| + |ItemsAt(items, Borderline)| + |ItemsAt(items, Normal)| == |items|
    ensures forall x, l :: x in items ==> (x in ItemsAt(items, l) <==> l == x.level)
  {
    if items != [] {
      LevelsPartition(items[1..]);
      assert items == [items[0]] + items[1..];
      ItemsAtAppend([items[0]], items[1..], Elevated);
      ItemsAtAppend([items[0]], items[1..], Borderline);
      ItemsAtAppend([items[0]], items[1..], Normal);
      assert [items[0]][1..] == [];
    }
  }

  /** One item in the middle of the profile appears in its own level's list
      between the items before and after it. */
  lemma ItemsAtMiddle(before: seq<IntoleranceItem>, item: IntoleranceItem, rest: seq<IntoleranceItem>, level: IntoleranceLevel)
    ensures ItemsAt(before + [item] + rest, level)
            == ItemsAt(before, level) + (if item.level == level then [item] else []) + ItemsAt(rest, level)
  {
    ItemsAtAppend(before + [item], rest, level);
    ItemsAtAppend(before, [item], level);
    assert [item][1..] == [];
  }

  /** The remove button of the k-th badge passes that item's id; with
      unique ids this takes the badge off its own list, one shorter, and
      leaves the other two lists as they were. */
  lemma BadgeRemove(p: UserProfile, k: nat, level: IntoleranceLevel)
    requires k < |p.intolerances| && App.UniqueIds(p.intolerances)
    ensures var after := App.RemoveIntolerance(p, p.intolerances[k].id).intolerances;
            (level != p.intolerances[k].level ==> ItemsAt(after, level) == ItemsAt(p.intolerances, level)) &&
            (level == p.intolerances[k].level ==> |ItemsAt(after, level)| + 1 == |ItemsAt(p.intolerances, level)|)
  {
    var items := p.intolerances;
    App.RemoveExactlyOne(p, k);
    assert items == items[..k] + [items[k]] + items[k + 1..];
    CutOne(items[..k], items[k], items[k + 1..], level);
  }

  /** Cutting one item out of the profile shortens its own level's list by
      one and leaves the other lists as they were. */
  lemma CutOne(before: seq<IntoleranceItem>, item: IntoleranceItem, rest: seq<IntoleranceItem>, level: IntoleranceLevel)
    ensures item.level != level ==> ItemsAt(before + rest, level) == ItemsAt(before + [item] + rest, level)
    ensures item.level == level ==> |ItemsAt(before + rest, level)| + 1 == |ItemsAt(before + [item] + rest, level)|
  {
    ItemsAtAppend(before, rest, level);
    ItemsAtMiddle(before, item, rest, level);
    if item.level != level {
      assert ItemsAt(before, level) + [] == ItemsAt(before, level);
    }
  }

  class Card {
    var newFood: string
    var newLevel: IntoleranceLevel
    var isAdding: bool
    var isExpanded: bool

    constructor ()
      ensures newFood == "" && newLevel == Elevated && !isAdding && !isExpanded
    {
      newFood := "";
      newLevel := Elevated;
      isAdding := false;
      isExpanded := false;
    }

    /** "Add Intolerance" opens the form. */
    method OpenForm()
      modifies this
      ensures isAdding
      ensures newFood == old(newFood) && newLevel == old(newLevel) && isExpanded == old(isExpanded)
    {
      isAdding := true;
    }

    /** The cross closes the form; the typed text stays. */
    method CancelForm()
      modifies this
      ensures !isAdding
      ensures newFood == old(newFood) && newLevel == old(newLevel) && isExpanded == old(isExpanded)
    {
      isAdding := false;
    }

    /** Typing in the food input. */
    method SetNewFood(text: string)
      modifies this
      ensures newFood == text
      ensures newLevel == old(newLevel) && isAdding == old(isAdding) && isExpanded == old(isExpanded)
    {
      newFood := text;
    }

    /** The level select. */
    method SetNewLevel(level: IntoleranceLevel)
      modifies this
      ensures newLevel == level
      ensures newFood == old(newFood) && isAdding == old(isAdding) && isExpanded == old(isExpanded)
    {
      newLevel := level;
    }

    /** Clicking the card header. */
    method ToggleExpanded()
      modifies this
      ensures isExpanded == !old(isExpanded)
      ensures newFood == old(newFood) && newLevel == old(newLevel) && isAdding == old(isAdding)
    {
      isExpanded := !isExpanded;
    }

    /** "Add Food" (button or Enter): a blank name changes nothing and adds
        nothing; otherwise the trimmed name is added at the chosen level,
        the input is cleared and the form closes. The level is kept. */
    method HandleAdd() returns (added: Option<(string, IntoleranceLevel)>)
      modifies this
      ensures Trim(old(newFood)) == "" ==>
                added.None? && newFood == old(newFood) && isAdding == old(isAdding)
      ensures Trim(old(newFood)) != "" ==>
                added == Some((Trim(old(newFood)), old(newLevel))) && newFood == "" && !isAdding
      ensures added.Some? ==> added.value.0 != "" && Trim(added.value.0) == added.value.0
      ensures newLevel == old(newLevel) && isExpanded == old(isExpanded)
    {
      var food := Trim(newFood);
      if food == "" {
        return None;
      }
      TrimIdempotent(newFood);
      added := Some((food, newLevel));
      newFood := "";
      isAdding := false;
    }
  }
}
