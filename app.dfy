/** The profile transitions of the application shell (App.tsx). The single
    `profile` state cell is replaced wholesale by each handler, so every
    handler is a function from the old profile to the new one. */
module App {
  import opened Wrappers
  import opened Seqs
  import opened Text
  import opened Types

  /** How many history entries are kept. */
  const HistoryLimit := 20

  /** The profile used when nothing is stored (services/storage.ts). */
  const StorageDefault := UserProfile([], HealthProfile("none", "balanced"), false, Some([]))

  /** The two top-level screens. */
  datatype Screen = OnboardingScreen | Dashboard

  /** The history a reader sees: a missing list counts as empty. */
  function HistoryOf(p: UserProfile): (h: seq<HistoryItem>)
    ensures p.history.None? ==> h == []
    ensures p.history.Some? ==> h == p.history.value
  {
    p.history.GetOr([])
  }

  /** Onboarding is shown exactly while the profile is not onboarded. */
  function ScreenOf(p: UserProfile): (s: Screen)
    ensures s == OnboardingScreen <==> !p.isOnboarded
  {
    if !p.isOnboarded then OnboardingScreen else Dashboard
  }

  /** The wizard's result replaces health and intolerances and marks the
      profile onboarded; the history survives. */
  function CompleteOnboarding(p: UserProfile, health: HealthProfile, items: seq<IntoleranceItem>): (r: UserProfile)
    ensures r.health == health && r.intolerances == items && r.isOnboarded
    ensures r.history == p.history
    ensures ScreenOf(r) == Dashboard
  {
    p.(health := health, intolerances := items, isOnboarded := true)
  }

  /** The new item's id is the timestamp's decimal string. */
  function NewItem(food: string, level: IntoleranceLevel, now: nat): IntoleranceItem {
    IntoleranceItem(DecimalString(now), food, level)
  }

  /** Appends exactly one item; the earlier items and the rest of the
      profile are untouched. */
  function AddIntolerance(p: UserProfile, food: string, level: IntoleranceLevel, now: nat): (r: UserProfile)
    ensures |r.intolerances| == |p.intolerances| + 1
    ensures r.intolerances[..|p.intolerances|] == p.intolerances
    ensures r.intolerances[|p.intolerances|] == IntoleranceItem(DecimalString(now), food, level)
    ensures r.(intolerances := p.intolerances) == p
  {
    p.(intolerances := p.intolerances + [NewItem(food, level, now)])
  }

  /** The test `i => i.id !== id` of the remove handler. */
  function OtherId(id: string): IntoleranceItem -> bool {
    (item: IntoleranceItem) => item.id != id
  }

  /** No item with an id from this set remains; every other item stays. */
  function RemoveIntolerance(p: UserProfile, id: string): (r: UserProfile)
    ensures forall i :: 0 <= i < |r.intolerances| ==> r.intolerances[i].id != id
    ensures forall x :: x in r.intolerances <==> x in p.intolerances && x.id != id
    ensures |r.intolerances| <= |p.intolerances|
    ensures r.(intolerances := p.intolerances) == p
  {
    var kept := Filter(OtherId(id), p.intolerances);
    assert forall i :: 0 <= i < |kept| ==> kept[i] in kept;
    p.(intolerances := kept)
  }

  predicate IdAbsent(items: seq<IntoleranceItem>, id: string) {
    forall i :: 0 <= i < |items| ==> items[i].id != id
  }

  /** The filter keeps a list in which nobody carries the id as it is. */
  lemma KeepsAllOthers(items: seq<IntoleranceItem>, id: string)
    requires IdAbsent(items, id)
    ensures Filter(OtherId(id), items) == items
  {
    forall x | x in items ensures OtherId(id)(x) {
      var i :| 0 <= i < |items| && items[i] == x;
    }
    FilterKeepsAll(OtherId(id), items);
  }

  /** Removing an id nobody carries changes nothing. */
  lemma RemoveAbsentId(p: UserProfile, id: string)
    requires IdAbsent(p.intolerances, id)
    ensures RemoveIntolerance(p, id) == p
  {
    KeepsAllOthers(p.intolerances, id);
  }

  /** Ids are unique within the list. The code does not enforce this (two
      adds within one millisecond share an id); it is what remove relies on
      to take out a single item. */
  predicate UniqueIds(items: seq<IntoleranceItem>) {
    forall i, j :: 0 <= i < j < |items| ==> items[i].id != items[j].id
  }

  /** Removing the id of an item nobody else carries cuts out that item. */
  lemma RemoveMiddle(before: seq<IntoleranceItem>, item: IntoleranceItem, after: seq<IntoleranceItem>)
    requires IdAbsent(before, item.id) && IdAbsent(after, item.id)
    ensures Filter(OtherId(item.id), before + [item] + after) == before + after
  {
    var f := OtherId(item.id);
    assert Filter(f, before + [item]) == before by {
      FilterAppend(f, before, [item]);
      KeepsAllOthers(before, item.id);
      assert Filter(f, [item]) == [] by {
        assert [item][1..] == [];
      }
    }
    assert Filter(f, after) == after by {
      KeepsAllOthers(after, item.id);
    }
    FilterAppend(f, before + [item], after);
  }

  /** With unique ids, removing the id of item k removes exactly that item,
      and the others keep their order. */
  lemma RemoveExactlyOne(p: UserProfile, k: nat)
    requires k < |p.intolerances| && UniqueIds(p.intolerances)
    ensures RemoveIntolerance(p, p.intolerances[k].id).intolerances
            == p.intolerances[..k] + p.intolerances[k + 1..]
  {
    var items := p.intolerances;
    var before, after := items[..k], items[k + 1..];
    assert items == before + [items[k]] + after;
    assert IdAbsent(after, items[k].id) by {
      forall i | 0 <= i < |after| ensures after[i].id != items[k].id {
        assert after[i] == items[k + 1 + i];
      }
    }
    RemoveMiddle(before, items[k], after);
  }

  /** Adding an item under a fresh id and then removing that id restores the
      profile. */
  lemma AddThenRemove(p: UserProfile, food: string, level: IntoleranceLevel, now: nat)
    requires IdAbsent(p.intolerances, DecimalString(now))
    ensures RemoveIntolerance(AddIntolerance(p, food, level, now), DecimalString(now)) == p
  {
    var id := DecimalString(now);
    var item := IntoleranceItem(id, food, level);
    FilterAppend(OtherId(id), p.intolerances, [item]);
    KeepsAllOthers(p.intolerances, id);
    assert Filter(OtherId(id), [item]) == [] by {
      assert [item][1..] == [];
    }
  }

  /** Filtering keeps ids unique. */
  lemma {:induction false} FilterKeepsUniqueIds(items: seq<IntoleranceItem>, id: string)
    requires UniqueIds(items)
    ensures UniqueIds(Filter(OtherId(id), items))
  {
    if items != [] {
      var rest := Filter(OtherId(id), items[1..]);
      FilterKeepsUniqueIds(items[1..], id);
      assert items == [items[0]] + items[1..];
      FilterAppend(OtherId(id), [items[0]], items[1..]);
      assert [items[0]][1..] == [];
      forall j | 0 <= j < |rest| ensures rest[j].id != items[0].id {
        assert rest[j] in items[1..];
        var b :| 0 <= b < |items[1..]| && items[1..][b] == rest[j];
        assert items[1 + b] == rest[j];
      }
    }
  }

  /** Remove keeps ids unique; add does when the timestamp is fresh. */
  lemma UniqueIdsPreserved(p: UserProfile, id: string, food: string, level: IntoleranceLevel, now: nat)
    requires UniqueIds(p.intolerances)
    ensures UniqueIds(RemoveIntolerance(p, id).intolerances)
    ensures IdAbsent(p.intolerances, DecimalString(now)) ==>
              UniqueIds(AddIntolerance(p, food, level, now).intolerances)
  {
    FilterKeepsUniqueIds(p.intolerances, id);
  }

  /** The new entry goes first, the list is capped at 20, and what follows is
      the old list's first entries; a missing history counts as empty. */
  function AddToHistory(p: UserProfile, item: HistoryItem): (r: UserProfile)
    ensures r.history.Some? && 1 <= |r.history.value| <= HistoryLimit
    ensures r.history.value[0] == item
    ensures r.history.value[1..] == HistoryOf(p)[..Min(|HistoryOf(p)|, HistoryLimit - 1)]
    ensures r.(history := p.history) == p
  {
    var h := [item] + HistoryOf(p);
    assert h[1..] == HistoryOf(p);
    p.(history := Some(h[..Min(|h|, HistoryLimit)]))
  }

  /** Recording several entries, one after the other. */
  function RecordAll(p: UserProfile, items: seq<HistoryItem>): UserProfile {
    if items == [] then p else AddToHistory(RecordAll(p, items[..|items| - 1]), items[|items| - 1])
  }

  /** After recording a non-empty run, the history is the run newest first,
      followed by the old history, cut at 20 entries. */
  lemma {:induction false} RecordAllKeepsNewest(p: UserProfile, items: seq<HistoryItem>)
    requires items != []
    ensures HistoryOf(RecordAll(p, items))
            == (Reverse(items) + HistoryOf(p))[..Min(|items| + |HistoryOf(p)|, HistoryLimit)]
  {
    var init, x := items[..|items| - 1], items[|items| - 1];
    var h0 := HistoryOf(p);
    assert Reverse(items) == [x] + Reverse(init);
    var h := HistoryOf(RecordAll(p, items));
    assert h == [h[0]] + h[1..];
    if init == [] {
      assert Reverse(items) + h0 == [x] + h0;
    } else {
      RecordAllKeepsNewest(p, init);
      var full := Reverse(init) + h0;
      assert Reverse(items) + h0 == [x] + full;
      CapStep(x, full);
    }
  }

  /** Putting an entry in front of a list cut at 20 and cutting again is
      putting it in front of the whole list and cutting once. */
  lemma CapStep(x: HistoryItem, full: seq<HistoryItem>)
    ensures var prev := full[..Min(|full|, HistoryLimit)];
            [x] + prev[..Min(|prev|, HistoryLimit - 1)] == ([x] + full)[..Min(|full| + 1, HistoryLimit)]
  {
  }

  /** Logging out installs the literal empty profile, which is the storage
      default, and so returns to onboarding. */
  function Logout(p: UserProfile): (r: UserProfile)
    ensures r == StorageDefault
    ensures r.intolerances == [] && HistoryOf(r) == [] && !r.isOnboarded
    ensures ScreenOf(r) == OnboardingScreen
  {
    UserProfile(
      intolerances := [],
      health := HealthProfile(condition := "none", preference := "balanced"),
      isOnboarded := false,
      history := Some([]))
  }
}
