/**
 * The "100 things to do before I die" list of `BucketListView`: the list
 * as the view holds it, how a saved list is loaded into exactly 100
 * numbered items, how one item is edited, the title's fixed suffix, the
 * progress count, the reset and the overdue mark.
 */
module BucketList {
  import opened Wrappers
  import opened Text
  import opened Dates

  /** The list always shows this many items, numbered from 1. */
  const ListSize := 100
  const DefaultTitle: string := "死ぬまでにしたい100のこと"
  const DefaultSubtitle: string := "Bucket List 100"
  /** The part of the title the user cannot edit. */
  const TitleSuffix: string := "までにしたい100のこと"

  datatype Item = Item(id: int, text: string, isCompleted: bool)

  /** The list as the view holds it; an absent target date is `None`. */
  datatype ListData = ListData(title: string, subtitle: string, targetDate: Option<string>, items: seq<Item>)

  /** The list as read back from storage: any field but the items may be missing. */
  datatype SavedList = SavedList(title: Option<string>, subtitle: Option<string>, targetDate: Option<string>, items: seq<Item>)

  /** The fields an edit replaces; `None` keeps the item's own value. */
  datatype ItemUpdate = ItemUpdate(text: Option<string>, isCompleted: Option<bool>)

  /** Item `id` with nothing written in it. */
  function BlankItem(id: int): Item {
    Item(id, "", false)
  }

  /** Exactly `ListSize` items, numbered 1, 2, … in order. */
  predicate Normalised(items: seq<Item>) {
    |items| == ListSize && forall i :: 0 <= i < |items| ==> items[i].id == i + 1
  }

  /** Every item is blank and not completed. */
  predicate AllBlank(items: seq<Item>) {
    forall i :: 0 <= i < |items| ==> items[i].text == "" && !items[i].isCompleted
  }

  // ------------------------------------------------------------ loading

  /** `items.find(item => item.id === id)`: the first item with that id, if any. */
  function FindById(items: seq<Item>, id: int): (r: Option<Item>)
    ensures r.None? <==> forall i :: 0 <= i < |items| ==> items[i].id != id
    ensures r.Some? ==> exists i :: 0 <= i < |items| && items[i] == r.value && FirstWithId(items, id, i)
  {
    if items == [] then None
    else if items[0].id == id then
      assert FirstWithId(items, id, 0);
      Some(items[0])
    else
      var r := FindById(items[1..], id);
      if r.Some? then
        var i :| 0 <= i < |items[1..]| && items[1..][i] == r.value && FirstWithId(items[1..], id, i);
        assert FirstWithId(items, id, i + 1);
        r
      else r
  }

  /** `items[i]` is the first item carrying `id`. */
  predicate FirstWithId(items: seq<Item>, id: int, i: int) {
    0 <= i < |items| && items[i].id == id && forall j :: 0 <= j < i ==> items[j].id != id
  }

  /** `x || d` on a string: a missing or empty string gives `d`. */
  function OrDefault(x: Option<string>, d: string): string {
    if Truthy(x) then x.value else d
  }

  /** `targetDate || null`: a missing or empty date is no date. */
  function DateOrNone(x: Option<string>): Option<string> {
    if Truthy(x) then x else None
  }

  /** Item `i + 1` of the loaded list: the first saved item with that id, or a blank one. */
  function MergedItem(saved: seq<Item>, id: int): (it: Item)
    ensures it.id == id
    ensures it == BlankItem(id) || exists j :: 0 <= j < |saved| && saved[j] == it
  {
    match FindById(saved, id)
    case Some(it) => it
    case None => BlankItem(id)
  }

  /** The 100 items built from whatever was saved, partial or old. */
  function MergeItems(saved: seq<Item>): (r: seq<Item>)
    ensures Normalised(r)
  {
    seq(ListSize, i requires 0 <= i < ListSize => MergedItem(saved, i + 1))
  }

  /** What the view holds after reading `saved` from storage; nothing read leaves it as it was. */
  function Load(current: ListData, saved: Option<SavedList>): (r: ListData)
    ensures saved.None? ==> r == current
    ensures saved.Some? ==> Normalised(r.items) && r.title != "" && r.subtitle != "" && r.targetDate != Some("")
  {
    match saved
    case None => current
    case Some(s) =>
      ListData(OrDefault(s.title, DefaultTitle), OrDefault(s.subtitle, DefaultSubtitle), DateOrNone(s.targetDate), MergeItems(s.items))
  }

  /** What storage holds after the view saves `d`. */
  function Stored(d: ListData): SavedList {
    SavedList(Some(d.title), Some(d.subtitle), d.targetDate, d.items)
  }

  // -------------------------------------------------------------- editing

  /** `{...item, ...updates}`. */
  function Patch(it: Item, u: ItemUpdate): Item {
    Item(it.id, u.text.GetOr(it.text), u.isCompleted.GetOr(it.isCompleted))
  }

  /** `updateItem`: applies the update to every item whose id matches and leaves the others. */
  function UpdateItem(items: seq<Item>, id: int, u: ItemUpdate): (r: seq<Item>)
    ensures |r| == |items|
    ensures forall i :: 0 <= i < |items| ==> r[i].id == items[i].id
  {
    seq(|items|, i requires 0 <= i < |items| => if items[i].id == id then Patch(items[i], u) else items[i])
  }

  /** The checkbox of the item shown at position `k`: disabled while the item has no text. */
  function ToggleItem(items: seq<Item>, k: int): (r: seq<Item>)
    requires 0 <= k < |items|
    ensures |r| == |items| && r[k].id == items[k].id && r[k].text == items[k].text
    ensures items[k].text == "" ==> r == items
    ensures items[k].text != "" ==> r[k].isCompleted == !items[k].isCompleted
    ensures forall i :: 0 <= i < |items| && items[i].id != items[k].id ==> r[i] == items[i]
  {
    if items[k].text == "" then items
    else UpdateItem(items, items[k].id, ItemUpdate(None, Some(!items[k].isCompleted)))
  }

  /** Leaving the text box of the item at position `k` stores what was typed. */
  function CommitText(items: seq<Item>, k: int, text: string): (r: seq<Item>)
    requires 0 <= k < |items|
    ensures |r| == |items| && r[k] == items[k].(text := text)
    ensures forall i :: 0 <= i < |items| && items[i].id != items[k].id ==> r[i] == items[i]
  {
    UpdateItem(items, items[k].id, ItemUpdate(Some(text), None))
  }

  /** `handleReset`: the default title and subtitle, no date, 100 blank items; also the state the view starts in. */
  function ResetList(): (r: ListData)
    ensures Normalised(r.items) && AllBlank(r.items) && r.targetDate == None
  {
    ListData(DefaultTitle, DefaultSubtitle, None, seq(ListSize, i requires 0 <= i < ListSize => BlankItem(i + 1)))
  }

  // ------------------------------------------------------------- the title

  /** The editable part of the title: the title without the suffix when it ends with it, else the whole title. */
  function TitlePrefix(title: string): (p: string)
    ensures |p| <= |title|
    ensures EndsWith(title, TitleSuffix) ==> p + TitleSuffix == title
    ensures !EndsWith(title, TitleSuffix) ==> p == title
  {
    if EndsWith(title, TitleSuffix) then
      assert title == title[..|title| - |TitleSuffix|] + title[|title| - |TitleSuffix|..];
      title[..|title| - |TitleSuffix|]
    else title
  }

  /** Typing `p` into the title box sets the title to `p` followed by the suffix. */
  function JoinTitle(p: string): (t: string)
    ensures EndsWith(t, TitleSuffix) && TitlePrefix(t) == p
  {
    var t := p + TitleSuffix;
    assert t[|t| - |TitleSuffix|..] == TitleSuffix;
    assert t[..|t| - |TitleSuffix|] == p;
    t
  }

  // ------------------------------------------------------ progress, overdue

  /** How many items are completed; with 100 items this is also the percentage. */
  function CompletedCount(items: seq<Item>): (n: nat)
    ensures n <= |items|
  {
    if items == [] then 0
    else (if items[0].isCompleted then 1 else 0) + CompletedCount(items[1..])
  }

  predicate IsAllCompleted(items: seq<Item>): (b: bool)
    ensures |items| == ListSize ==> (b <==> forall i :: 0 <= i < |items| ==> items[i].isCompleted)
  {
    CompletedCountBounds(items);
    CompletedCount(items) == ListSize
  }

  /**
   * The overdue mark of one item: the list has a target date, that date
   * sorts before `today` ("YYYY-MM-DD" of the current instant), and the
   * item is not completed.
   */
  predicate IsOverdue(targetDate: Option<string>, today: string, it: Item): (b: bool)
    ensures b ==> !it.isCompleted && targetDate.Some? && targetDate.value != "" && targetDate.value != today
  {
    LexLessIrreflexive(today);
    targetDate.Some? && targetDate.value != "" && LexLess(targetDate.value, today) && !it.isCompleted
  }

  // ================================================================ properties

  /** Loading finds, for each id from 1 to 100, the first saved item with that id, or makes a blank one. */
  lemma LoadedItems(saved: seq<Item>, id: int)
    requires 1 <= id <= ListSize
    ensures var r := MergeItems(saved);
      && ((forall i :: 0 <= i < |saved| ==> saved[i].id != id) ==> r[id - 1] == BlankItem(id))
      && (forall i :: FirstWithId(saved, id, i) ==> r[id - 1] == saved[i])
  {
    var r := MergeItems(saved);
    forall i | FirstWithId(saved, id, i) ensures r[id - 1] == saved[i] {
      var f := FindById(saved, id);
      var j :| 0 <= j < |saved| && saved[j] == f.value && FirstWithId(saved, id, j);
      assert i == j;
    }
  }

  /** Every loaded item is a saved item or a blank one, and a saved item whose id is not 1..100 appears nowhere. */
  lemma LoadedComeFromSaved(saved: seq<Item>)
    ensures var r := MergeItems(saved);
      forall i :: 0 <= i < |r| ==> r[i] == BlankItem(i + 1) || exists j :: 0 <= j < |saved| && saved[j] == r[i]
    ensures var r := MergeItems(saved);
      forall j :: 0 <= j < |saved| && !(1 <= saved[j].id <= ListSize) ==> forall i :: 0 <= i < |r| ==> r[i] != saved[j]
  {
  }

  /** A list that is already 100 numbered items loads back unchanged. */
  lemma MergeNormalised(items: seq<Item>)
    requires Normalised(items)
    ensures MergeItems(items) == items
  {
    var r := MergeItems(items);
    forall i | 0 <= i < ListSize ensures r[i] == items[i] {
      assert FirstWithId(items, i + 1, i);
      LoadedItems(items, i + 1);
    }
  }

  /** Loading is idempotent: loading a loaded list again changes nothing. */
  lemma MergeIdempotent(saved: seq<Item>)
    ensures MergeItems(MergeItems(saved)) == MergeItems(saved)
  {
    MergeNormalised(MergeItems(saved));
  }

  /** A missing or empty title or subtitle loads as the default, a missing or empty date as none; the rest is kept. */
  lemma LoadDefaults(current: ListData, s: SavedList)
    ensures var r := Load(current, Some(s));
      && (r.title == DefaultTitle <==> s.title == None || s.title == Some("") || s.title == Some(DefaultTitle))
      && (r.subtitle == DefaultSubtitle <==> s.subtitle == None || s.subtitle == Some("") || s.subtitle == Some(DefaultSubtitle))
      && (r.targetDate == None <==> s.targetDate == None || s.targetDate == Some(""))
      && (r.targetDate.Some? ==> r.targetDate == s.targetDate)
      && Normalised(r.items)
  {
  }

  /** Nothing read from storage leaves the view's list as it was. */
  lemma LoadNothing(current: ListData)
    ensures Load(current, None) == current
  {
  }

  /** Saving a normalised list with a title, a subtitle and a date that is not empty, then loading it, gives the same list. */
  lemma LoadAfterSave(current: ListData, d: ListData)
    requires Normalised(d.items) && d.title != "" && d.subtitle != "" && d.targetDate != Some("")
    ensures Load(current, Some(Stored(d))) == d
  {
    MergeNormalised(d.items);
  }

  /** The reset list is the default one and is what loading an empty saved list gives. */
  lemma ResetIsEmptyLoad(current: ListData)
    ensures var r := ResetList();
      && r.title == DefaultTitle && r.subtitle == DefaultSubtitle && r.targetDate == None
      && Normalised(r.items) && AllBlank(r.items) && CompletedCount(r.items) == 0
    ensures ResetList() == Load(current, Some(SavedList(None, None, None, [])))
  {
    var r := ResetList();
    NoneCompleted(r.items);
    assert MergeItems([]) == r.items;
  }

  /** An update keeps the list's length and numbering, leaves every other item as it was and merges the given fields into the matching ones. */
  lemma UpdateItemEffect(items: seq<Item>, id: int, u: ItemUpdate)
    ensures var r := UpdateItem(items, id, u);
      && (Normalised(items) ==> Normalised(r))
      && (forall i :: 0 <= i < |items| && items[i].id != id ==> r[i] == items[i])
      && (forall i :: 0 <= i < |items| && items[i].id == id ==>
            && r[i].text == (if u.text.Some? then u.text.value else items[i].text)
            && r[i].isCompleted == (if u.isCompleted.Some? then u.isCompleted.value else items[i].isCompleted))
  {
  }

  /** Applying the same update twice is the same as applying it once. */
  lemma UpdateItemIdempotent(items: seq<Item>, id: int, u: ItemUpdate)
    ensures UpdateItem(UpdateItem(items, id, u), id, u) == UpdateItem(items, id, u)
  {
  }

  /** An item without text cannot be checked or unchecked. */
  lemma BlankItemsDoNotToggle(items: seq<Item>, k: int)
    requires 0 <= k < |items| && items[k].text == ""
    ensures ToggleItem(items, k) == items
  {
  }

  /** On a normalised list, toggling an item with text flips that item alone, and toggling it again restores the list. */
  lemma ToggleFlipsOneItem(items: seq<Item>, k: int)
    requires Normalised(items) && 0 <= k < |items| && items[k].text != ""
    ensures var r := ToggleItem(items, k);
      && Normalised(r)
      && r[k] == items[k].(isCompleted := !items[k].isCompleted)
      && (forall i :: 0 <= i < |items| && i != k ==> r[i] == items[i])
    ensures ToggleItem(ToggleItem(items, k), k) == items
  {
    var r := ToggleItem(items, k);
    assert r[k] == items[k].(isCompleted := !items[k].isCompleted);
    assert r[k].text == items[k].text;
    var r2 := ToggleItem(r, k);
    assert forall i :: 0 <= i < |items| ==> r2[i] == items[i];
  }

  /** Toggling an item moves the completed count by exactly one, up when it becomes completed. */
  lemma ToggleMovesCount(items: seq<Item>, k: int)
    requires Normalised(items) && 0 <= k < |items| && items[k].text != ""
    ensures CompletedCount(ToggleItem(items, k)) == CompletedCount(items) + (if items[k].isCompleted then -1 else 1)
  {
    ToggleFlipsOneItem(items, k);
    CountChangeOne(items, ToggleItem(items, k), k);
  }

  /** Two lists that differ only at position `k` have counts differing by that item alone. */
  lemma {:induction false} CountChangeOne(a: seq<Item>, b: seq<Item>, k: int)
    requires |a| == |b| && 0 <= k < |a|
    requires forall i :: 0 <= i < |a| && i != k ==> a[i] == b[i]
    ensures CompletedCount(b) == CompletedCount(a)
      - (if a[k].isCompleted then 1 else 0) + (if b[k].isCompleted then 1 else 0)
  {
    if k == 0 {
      assert a[1..] == b[1..];
    } else {
      CountChangeOne(a[1..], b[1..], k - 1);
    }
  }

  /** Clearing an item's text does not uncheck it: a completed item can be left completed with no text. */
  lemma ClearingTextKeepsCompletion(items: seq<Item>, k: int)
    requires Normalised(items) && 0 <= k < |items|
    ensures var r := CommitText(items, k, "");
      && r[k].text == "" && r[k].isCompleted == items[k].isCompleted
      && (forall i :: 0 <= i < |items| && i != k ==> r[i] == items[i])
  {
  }

  /** The editable part of `p` followed by the suffix is `p`. */
  lemma TitleRoundTrip(p: string)
    ensures TitlePrefix(JoinTitle(p)) == p
  {
    assert JoinTitle(p)[|JoinTitle(p)| - |TitleSuffix|..] == TitleSuffix;
    assert JoinTitle(p)[..|JoinTitle(p)| - |TitleSuffix|] == p;
  }

  /** A title ending in the suffix is its editable part followed by the suffix; any other title is shown whole. */
  lemma TitleSplit(title: string)
    ensures EndsWith(title, TitleSuffix) ==> JoinTitle(TitlePrefix(title)) == title
    ensures !EndsWith(title, TitleSuffix) ==> TitlePrefix(title) == title
  {
    if EndsWith(title, TitleSuffix) {
      assert title == title[..|title| - |TitleSuffix|] + title[|title| - |TitleSuffix|..];
    }
  }

  /** The default title's editable part is "死ぬ". */
  lemma DefaultTitlePrefix()
    ensures TitlePrefix(DefaultTitle) == "死ぬ"
  {
    assert DefaultTitle == JoinTitle("死ぬ");
    TitleRoundTrip("死ぬ");
  }

  /** The count lies between 0 and the number of items, and reaches it exactly when every item is completed. */
  lemma {:induction false} CompletedCountBounds(items: seq<Item>)
    ensures CompletedCount(items) <= |items|
    ensures CompletedCount(items) == |items| <==> forall i :: 0 <= i < |items| ==> items[i].isCompleted
    ensures CompletedCount(items) == 0 <==> forall i :: 0 <= i < |items| ==> !items[i].isCompleted
  {
    if items != [] {
      CompletedCountBounds(items[1..]);
      assert forall i :: 1 <= i < |items| ==> items[i] == items[1..][i - 1];
    }
  }

  /** On the 100 items, progress is at most 100 and "all completed" holds exactly when every item is completed. */
  lemma AllCompletedIff(items: seq<Item>)
    requires Normalised(items)
    ensures CompletedCount(items) <= ListSize
    ensures IsAllCompleted(items) <==> forall i :: 0 <= i < |items| ==> items[i].isCompleted
  {
    CompletedCountBounds(items);
  }

  lemma NoneCompleted(items: seq<Item>)
    requires forall i :: 0 <= i < |items| ==> !items[i].isCompleted
    ensures CompletedCount(items) == 0
  {
    CompletedCountBounds(items);
  }

  /** For dates written "YYYY-MM-DD", an item is overdue exactly when the target day is before today and the item is not completed. */
  lemma OverdueIffBefore(target: Date, today: Date, it: Item)
    requires Valid(target) && Valid(today)
    ensures IsOverdue(Some(Format(target)), Format(today), it) <==> Before(target, today) && !it.isCompleted
  {
    FormatOrder(target, today);
    FormatPieces(target);
  }

  /** Without a target date, or on a completed item, there is no overdue mark; on the target day itself there is none either. */
  lemma NotOverdue(targetDate: Option<string>, today: string, it: Item)
    ensures targetDate == None || targetDate == Some("") || it.isCompleted ==> !IsOverdue(targetDate, today, it)
    ensures !IsOverdue(Some(today), today, it)
  {
    LexLessIrreflexive(today);
  }
}
