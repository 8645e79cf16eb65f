/** The admin page: the table's click handler (Assign, Close, Delete), the
    "clear all" button, and `refresh`, which re-derives the filter options,
    the stats panel and the table rows from the stored reports. */
module Admin {
  import opened Model
  import opened Storage
  import opened AdminViews

  /** `findIndex` on the id: the first position holding `id`, or -1. */
  function FindIndex(arr: seq<Report>, id: string): (i: int)
    ensures -1 <= i < |arr|
    ensures 0 <= i ==> arr[i].id == id && forall j :: 0 <= j < i ==> arr[j].id != id
    ensures i == -1 <==> forall j :: 0 <= j < |arr| ==> arr[j].id != id
  {
    if arr == [] then -1
    else if arr[0].id == id then 0
    else
      var k := FindIndex(arr[1..], id);
      if k == -1 then -1 else k + 1
  }

  /** `arr[idx].status = s`: only that record's status changes. */
  function SetStatusAt(arr: seq<Report>, idx: nat, s: Status): (r: seq<Report>)
    requires idx < |arr|
    ensures |r| == |arr|
    ensures r[idx].status == s
    ensures r[idx] == arr[idx].(status := s)
    ensures forall j :: 0 <= j < |arr| && j != idx ==> r[j] == arr[j]
  {
    arr[idx := arr[idx].(status := s)]
  }

  /** `arr.splice(idx, 1)`: the record at `idx` goes, the others keep their
      relative order. */
  function RemoveAt(arr: seq<Report>, idx: nat): (r: seq<Report>)
    requires idx < |arr|
    ensures |r| == |arr| - 1
    ensures forall j :: 0 <= j < idx ==> r[j] == arr[j]
    ensures forall j :: idx <= j < |r| ==> r[j] == arr[j + 1]
    ensures multiset(r) == multiset(arr) - multiset{arr[idx]}
  {
    assert arr == arr[..idx] + [arr[idx]] + arr[idx + 1..];
    arr[..idx] + arr[idx + 1..]
  }

  /** Where in a table row the click landed. */
  datatype ClickTarget = AssignButton | CloseButton | DeleteButton | OtherCell

  /** What the table's click handler saves, given the reports it loaded, the
      row's id (None when the click is outside a row that carries one), where
      the click landed and the answer to the delete confirmation; None when
      the handler returns without saving. */
  function ClickSave(arr: seq<Report>, rowId: Option<string>, target: ClickTarget, confirmed: bool): (saved: Option<seq<Report>>)
    ensures saved.None? <==>
      || rowId.None? || FindIndex(arr, rowId.value) == -1
      || target == OtherCell || (target == DeleteButton && !confirmed)
  {
    if rowId.None? then None
    else
      var idx := FindIndex(arr, rowId.value);
      if idx == -1 then None
      else match target
        case AssignButton => Some(SetStatusAt(arr, idx, Assigned))
        case CloseButton => Some(SetStatusAt(arr, idx, Closed))
        case DeleteButton => if confirmed then Some(RemoveAt(arr, idx)) else None
        case OtherCell => None
  }

  /** Assign and Close change the status of the first report with the row's
      id and nothing else: same length, same order, same other fields. */
  lemma StatusClickChangesOneStatus(arr: seq<Report>, id: string, target: ClickTarget, confirmed: bool)
    requires target == AssignButton || target == CloseButton
    requires FindIndex(arr, id) != -1
    ensures var saved := ClickSave(arr, Some(id), target, confirmed);
      var i := FindIndex(arr, id);
      && saved.Some? && |saved.value| == |arr|
      && saved.value[i] == arr[i].(status := if target == AssignButton then Assigned else Closed)
      && (forall j :: 0 <= j < |arr| && j != i ==> saved.value[j] == arr[j])
  {
  }

  /** A confirmed Delete removes exactly the first report with the row's id
      and keeps the others in order. */
  lemma DeleteClickRemovesOne(arr: seq<Report>, id: string)
    requires FindIndex(arr, id) != -1
    ensures var saved := ClickSave(arr, Some(id), DeleteButton, true);
      var i := FindIndex(arr, id);
      && saved.Some? && saved.value == arr[..i] + arr[i + 1..]
      && |saved.value| == |arr| - 1
      && multiset(saved.value) == multiset(arr) - multiset{arr[i]}
  {
    var i := FindIndex(arr, id);
    var r := RemoveAt(arr, i);
    assert r == arr[..i] + arr[i + 1..];
  }

  /** Assign checks nothing about the current status: a Closed report can
      be reopened as Assigned. */
  lemma AssignReopensClosed(arr: seq<Report>, id: string)
    requires FindIndex(arr, id) != -1 && arr[FindIndex(arr, id)].status == Closed
    ensures var saved := ClickSave(arr, Some(id), AssignButton, false);
      saved.Some? && saved.value[FindIndex(arr, id)].status == Assigned
  {
  }

  /** As written, `refresh` rebuilds the select's options before it reads
      the select's value, and rebuilding the options selects the first one,
      "All". The user's choice `chosen` is deliberately ignored: that is the
      defect this function records. */
  function SelectionAfterRefreshAsWritten(arr: seq<Report>, chosen: string): (v: string)
    ensures v == ""
  {
    FilterOptions(arr)[0].value
  }

  /** So, as written, the table always shows every report. */
  lemma FilterIgnoredAsWritten(arr: seq<Report>, chosen: string)
    ensures TableRows(arr, SelectionAfterRefreshAsWritten(arr, chosen)) == arr
  {
  }

  /** On the sample data, choosing "Pothole" shows both reports as written,
      where the one pothole report is meant. */
  lemma FilterIgnoredExample(g: string, p: string, t: int, u: int)
    ensures var arr := SampleReports(g, p, t, u);
      && |TableRows(arr, SelectionAfterRefreshAsWritten(arr, "Pothole"))| == 2
      && TableRows(arr, KeptSelection(arr, "Pothole")) == [arr[1]]
  {
    var arr := SampleReports(g, p, t, u);
    assert Categories(arr) == ["Garbage", "Pothole"] by {
      assert arr[..1][..0] == [];
    }
    assert arr[..1][..0] == [];
    assert OfCategory(arr[..1], "Pothole") == [];
  }

  /** The selection kept across a refresh: the chosen value when it is still
      one of the options, otherwise "All" (the empty value), which is what
      the select reports once its value names no option. */
  function KeptSelection(arr: seq<Report>, chosen: string): (v: string)
    ensures v == chosen || v == ""
    ensures v == chosen <==> chosen == "" || chosen in Categories(arr)
  {
    if chosen in Categories(arr) then chosen else ""
  }

  /** With the selection kept, a category that still has reports shows
      exactly its reports, in store order; a category that has disappeared
      falls back to showing everything. */
  lemma KeptSelectionFilters(arr: seq<Report>, chosen: string)
    ensures chosen != "" && chosen in Categories(arr) ==>
      TableRows(arr, KeptSelection(arr, chosen)) == OfCategory(arr, chosen)
    ensures chosen !in Categories(arr) ==> TableRows(arr, KeptSelection(arr, chosen)) == arr
  {
  }

  /** Seed the sample data, then Close the pothole report: that report is
      Closed, the garbage report is untouched, and the stats still count one
      report per category. */
  lemma SeedThenCloseScenario(slot: Option<seq<Report>>, g: string, p: string, t: int, u: int)
    requires Loaded(slot) == [] && g != p
    ensures var seeded := Loaded(Seeded(slot, g, p, t, u));
      var after := ClickSave(seeded, Some(p), CloseButton, false);
      && after.Some? && |after.value| == 2
      && after.value[0] == seeded[0]
      && after.value[1] == seeded[1].(status := Closed)
      && CountCategory(after.value, "Garbage") == 1
      && CountCategory(after.value, "Pothole") == 1
  {
    var seeded := Loaded(Seeded(slot, g, p, t, u));
    assert FindIndex(seeded, p) == 1;
    var after := ClickSave(seeded, Some(p), CloseButton, false).value;
    assert after[0].category == "Garbage" && after[1].category == "Pothole";
    assert "Garbage" != "Pothole" by {
      assert "Garbage"[0] != "Pothole"[0];
    }
    assert after[..1][..0] == [];
    assert CountCategory(after[..1], "Garbage") == 1;
    assert CountCategory(after[..1], "Pothole") == 0;
  }

  /** The admin page: the store, the category select's value, and what the
      last refresh put on the page. */
  class AdminPage {
    const store: ReportStorage
    var selected: string
    var options: seq<FilterOption>
    var total: nat
    var statKeys: seq<string>
    var statCounts: map<string, nat>
    var shown: seq<Report>

    /** The page displays `arr`: its filter options, a selection that names
        one of them, its stats and the rows the selection lets through. */
    ghost predicate Shows(arr: seq<Report>)
      reads this
    {
      && options == FilterOptions(arr)
      && (selected == "" || selected in Categories(arr))
      && shown == TableRows(arr, selected)
      && total == |arr|
      && Distinct(statKeys)
      && (forall k :: k in statKeys <==> k in statCounts)
      && (forall k :: k in statCounts <==> k in Categories(arr))
      && (forall k :: k in statCounts ==> statCounts[k] == CountCategory(arr, k))
      && TotalOver(arr, statKeys) == total
    }

    /** Page start-up: seed the store, then refresh with "All" selected. */
    constructor (store: ReportStorage, garbageId: string, potholeId: string, garbageNow: int, potholeNow: int)
      modifies store
      ensures this.store == store
      ensures store.slot == Seeded(old(store.slot), garbageId, potholeId, garbageNow, potholeNow)
      ensures selected == "" && Shows(Loaded(store.slot))
    {
      this.store := store;
      selected := "";
      options, total, statKeys, statCounts, shown := [], 0, [], map[], [];
      new;
      store.SeedIfEmpty(garbageId, potholeId, garbageNow, potholeNow);
      Refresh();
    }

    /** `refresh`, with the selection remembered across the rebuild of the
        options (see KeptSelection). */
    method Refresh()
      modifies this
      ensures selected == KeptSelection(Loaded(store.slot), old(selected))
      ensures Shows(Loaded(store.slot))
    {
      var arr := store.LoadReports();
      var chosen := selected;
      options := FilterOptions(arr);
      selected := KeptSelection(arr, chosen);
      total, statKeys, statCounts := RenderStats(arr);
      shown := TableRows(arr, selected);
    }

    /** The select's change event. */
    method OnFilterChange(choice: string)
      modifies this
      ensures selected == KeptSelection(Loaded(store.slot), choice)
      ensures Shows(Loaded(store.slot))
    {
      selected := choice;
      Refresh();
    }

    /** The "clear all" button: a declined confirmation changes nothing; a
        confirmed one empties the store whatever it held. */
    method OnClearAll(confirmed: bool)
      modifies this, store
      ensures !confirmed ==> store.slot == old(store.slot) && unchanged(this)
      ensures confirmed ==> store.slot == Some([]) && Loaded(store.slot) == [] && selected == "" && Shows([])
    {
      if !confirmed {
        return;
      }
      store.SaveReports([]);
      Refresh();
    }

    /** The table's click handler. When it saves, it saves the edited array
        and refreshes; otherwise neither the store nor the page changes. */
    method OnTableClick(rowId: Option<string>, target: ClickTarget, confirmed: bool)
      modifies this, store
      ensures var saved := ClickSave(old(Loaded(store.slot)), rowId, target, confirmed);
        && (saved.None? ==> store.slot == old(store.slot) && unchanged(this))
        && (saved.Some? ==> store.slot == saved
                            && selected == KeptSelection(saved.value, old(selected))
                            && Shows(saved.value))
    {
      ghost var saved := ClickSave(Loaded(store.slot), rowId, target, confirmed);
      if rowId.None? {
        return;
      }
      var arr := store.LoadReports();
      var idx := FindIndex(arr, rowId.value);
      if idx == -1 {
        return;
      }
      if target == AssignButton {
        arr := arr[idx := arr[idx].(status := Assigned)];
        assert saved == Some(arr);
        store.SaveReports(arr);
        Refresh();
      } else if target == CloseButton {
        arr := arr[idx := arr[idx].(status := Closed)];
        assert saved == Some(arr);
        store.SaveReports(arr);
        Refresh();
      } else if target == DeleteButton {
        if !confirmed {
          return;
        }
        arr := arr[..idx] + arr[idx + 1..];
        assert saved == Some(arr);
        store.SaveReports(arr);
        Refresh();
      }
    }
  }
}
