/** What the admin page derives from the stored reports on every refresh:
    the category filter's options (`populateFilterOptions`), the per-category
    counts beside the total (`renderStats`) and the rows of the table
    (`renderTable`). */
module AdminViews {
  import opened Model
  import opened Text

  /** The category of every report, in store order. */
  function Categories(arr: seq<Report>): (cats: seq<string>)
    ensures |cats| == |arr|
    ensures forall i :: 0 <= i < |arr| ==> cats[i] == arr[i].category
  {
    if arr == [] then [] else Categories(arr[..|arr| - 1]) + [arr[|arr| - 1].category]
  }

  predicate StrictlySorted(s: seq<string>) {
    forall i, j :: 0 <= i < j < |s| ==> StrLess(s[i], s[j])
  }

  predicate Distinct(s: seq<string>) {
    forall i, j :: 0 <= i < j < |s| ==> s[i] != s[j]
  }

  /** A strictly sorted sequence has no repeats. */
  lemma StrictlySortedIsDistinct(s: seq<string>)
    requires StrictlySorted(s)
    ensures Distinct(s)
  {
    forall i, j | 0 <= i < j < |s| ensures s[i] != s[j] {
      if s[i] == s[j] {
        StrLessIrreflexive(s[i]);
      }
    }
  }

  /** Adds `c` to a strictly sorted sequence unless it is already there. */
  function InsertSorted(s: seq<string>, c: string): (r: seq<string>)
    requires StrictlySorted(s)
    ensures StrictlySorted(r)
    ensures forall x :: x in r <==> x in s || x == c
  {
    if s == [] then [c]
    else if c == s[0] then s
    else if StrLess(c, s[0]) then
      assert forall j :: 0 < j < |s| ==> StrLess(c, s[j]) by {
        forall j | 0 < j < |s| ensures StrLess(c, s[j]) {
          StrLessTransitive(c, s[0], s[j]);
        }
      }
      [c] + s
    else
      var tail := InsertSorted(s[1..], c);
      assert StrLess(s[0], c) by {
        StrLessTotal(c, s[0]);
      }
      assert forall x :: x in tail ==> StrLess(s[0], x);
      [s[0]] + tail
  }

  /** `Array.from(new Set(categories)).sort()`: the distinct categories in
      ascending order. */
  function SortedDistinct(cats: seq<string>): (r: seq<string>)
    ensures StrictlySorted(r)
    ensures forall x :: x in r <==> x in cats
  {
    if cats == [] then []
    else
      var init := SortedDistinct(cats[..|cats| - 1]);
      assert cats == cats[..|cats| - 1] + [cats[|cats| - 1]];
      InsertSorted(init, cats[|cats| - 1])
  }

  /** A strictly sorted sequence is fixed by the set of its elements, so the
      filter's categories are THE sorted list of distinct categories, not
      merely one of several candidates. */
  lemma {:induction false} SortedUnique(a: seq<string>, b: seq<string>)
    requires StrictlySorted(a) && StrictlySorted(b)
    requires forall x :: x in a <==> x in b
    ensures a == b
  {
    assert a != [] ==> a[0] in b;
    assert b != [] ==> b[0] in a;
    if a != [] && b != [] {
      if a[0] != b[0] {
        assert a[0] in b;
        assert b[0] in a;
        var i :| 0 <= i < |a| && a[i] == b[0];
        var j :| 0 <= j < |b| && b[j] == a[0];
        assert StrLess(a[0], b[0]) by {
          assert i != 0;
        }
        assert StrLess(b[0], a[0]) by {
          assert j != 0;
        }
        StrLessAsymmetric(a[0], b[0]);
      }
      forall x | x in a[1..] ensures x in b[1..] {
        var i :| 1 <= i < |a| && a[i] == x;
        StrLessIrreflexive(a[0]);
        assert x in b;
        var j :| 0 <= j < |b| && b[j] == x;
        assert j != 0;
        assert b[1..][j - 1] == x;
      }
      forall x | x in b[1..] ensures x in a[1..] {
        var j :| 1 <= j < |b| && b[j] == x;
        StrLessIrreflexive(b[0]);
        assert x in a;
        var i :| 0 <= i < |a| && a[i] == x;
        assert i != 0;
        assert a[1..][i - 1] == x;
      }
      SortedUnique(a[1..], b[1..]);
    }
  }

  /** One `<option>` of the category select: its text and its value. */
  datatype FilterOption = FilterOption(text: string, value: string)

  function OptionsFor(cats: seq<string>): (opts: seq<FilterOption>)
    ensures |opts| == |cats|
    ensures forall i :: 0 <= i < |cats| ==> opts[i] == FilterOption(cats[i], cats[i])
  {
    if cats == [] then [] else [FilterOption(cats[0], cats[0])] + OptionsFor(cats[1..])
  }

  /** `populateFilterOptions`: an "All" option with the empty value, then one
      option per distinct category in ascending order, whose value is its
      text. */
  function FilterOptions(arr: seq<Report>): (opts: seq<FilterOption>)
    ensures |opts| >= 1 && opts[0] == FilterOption("All", "")
    ensures forall i :: 1 <= i < |opts| ==> opts[i].text == opts[i].value
    ensures forall i, j :: 1 <= i < j < |opts| ==> StrLess(opts[i].value, opts[j].value)
    ensures forall c :: FilterOption(c, c) in opts[1..] <==> c in Categories(arr)
  {
    var cats := SortedDistinct(Categories(arr));
    var tail := OptionsFor(cats);
    assert forall c :: FilterOption(c, c) in tail <==> c in cats by {
      forall c | c in cats ensures FilterOption(c, c) in tail {
        var i := IndexOf(cats, c);
        assert tail[i] == FilterOption(c, c);
      }
    }
    var opts := [FilterOption("All", "")] + tail;
    assert opts[1..] == tail;
    opts
  }

  function IndexOf(s: seq<string>, x: string): (i: nat)
    requires x in s
    ensures i < |s| && s[i] == x
  {
    if s[0] == x then 0 else 1 + IndexOf(s[1..], x)
  }

  /** The records with category `c`, in store order. */
  function OfCategory(arr: seq<Report>, c: string): (r: seq<Report>)
    ensures |r| <= |arr|
    ensures forall x :: x in r <==> x in arr && x.category == c
  {
    if arr == [] then []
    else
      var init := arr[..|arr| - 1];
      var last := arr[|arr| - 1];
      assert arr == init + [last];
      OfCategory(init, c) + (if last.category == c then [last] else [])
  }

  /** Filtering distributes over concatenation; together with the
      one-element case this says the filter keeps store order. */
  lemma {:induction false} OfCategoryAppend(a: seq<Report>, b: seq<Report>, c: string)
    ensures OfCategory(a + b, c) == OfCategory(a, c) + OfCategory(b, c)
    decreases |b|
  {
    if b == [] {
      assert a + b == a;
    } else {
      var init := b[..|b| - 1];
      assert (a + b)[..|a + b| - 1] == a + init;
      assert (a + b)[|a + b| - 1] == b[|b| - 1];
      OfCategoryAppend(a, init, c);
    }
  }

  /** The filter keeps a one-record store exactly when the record has the
      category. */
  lemma OfCategorySingle(x: Report, c: string)
    ensures OfCategory([x], c) == if x.category == c then [x] else []
  {
    assert [x][..0] == [];
  }

  /** `renderTable`'s filter: an empty filter value shows every report,
      any other shows the reports of that category. */
  function TableRows(arr: seq<Report>, filter: string): (r: seq<Report>)
    ensures filter == "" ==> r == arr
    ensures filter != "" ==> (forall x :: x in r <==> x in arr && x.category == filter)
    ensures filter != "" ==> |r| == CountCategory(arr, filter)
  {
    if filter == "" then arr
    else
      OfCategoryCount(arr, filter);
      OfCategory(arr, filter)
  }

  /** The number of reports with category `c`, counted the way `renderStats`
      accumulates them: one pass, adding one per matching record. */
  function CountCategory(arr: seq<Report>, c: string): nat {
    if arr == [] then 0
    else CountCategory(arr[..|arr| - 1], c) + (if arr[|arr| - 1].category == c then 1 else 0)
  }

  /** The table filtered to a category has as many rows as the stats panel
      counts for it. */
  lemma {:induction false} OfCategoryCount(arr: seq<Report>, c: string)
    ensures |OfCategory(arr, c)| == CountCategory(arr, c)
  {
    if arr != [] {
      OfCategoryCount(arr[..|arr| - 1], c);
    }
  }

  /** The sum of the per-category counts over `keys`. */
  function TotalOver(arr: seq<Report>, keys: seq<string>): nat {
    if keys == [] then 0 else CountCategory(arr, keys[0]) + TotalOver(arr, keys[1..])
  }

  /** How many times `c` occurs in `keys`. */
  function Occurrences(keys: seq<string>, c: string): nat {
    if keys == [] then 0 else (if keys[0] == c then 1 else 0) + Occurrences(keys[1..], c)
  }

  lemma {:induction false} OccurrencesDistinct(keys: seq<string>, c: string)
    requires Distinct(keys)
    ensures Occurrences(keys, c) == if c in keys then 1 else 0
  {
    if keys != [] {
      OccurrencesDistinct(keys[1..], c);
      if keys[0] == c {
        assert c !in keys[1..];
      }
    }
  }

  /** Appending one record adds one to the count of its category and nothing
      to the others. */
  lemma {:induction false} TotalOverSnoc(arr: seq<Report>, keys: seq<string>)
    requires arr != []
    ensures TotalOver(arr, keys) == TotalOver(arr[..|arr| - 1], keys) + Occurrences(keys, arr[|arr| - 1].category)
  {
    if keys != [] {
      TotalOverSnoc(arr, keys[1..]);
    }
  }

  /** The per-category counts add up to the total, for any list of distinct
      keys that covers every category in the store. */
  lemma {:induction false} CountsAddUpToTotal(arr: seq<Report>, keys: seq<string>)
    requires Distinct(keys)
    requires forall k :: 0 <= k < |arr| ==> arr[k].category in keys
    ensures TotalOver(arr, keys) == |arr|
  {
    if arr == [] {
      ZeroTotal(keys);
    } else {
      var init := arr[..|arr| - 1];
      CountsAddUpToTotal(init, keys);
      TotalOverSnoc(arr, keys);
      OccurrencesDistinct(keys, arr[|arr| - 1].category);
    }
  }

  lemma {:induction false} ZeroTotal(keys: seq<string>)
    ensures TotalOver([], keys) == 0
  {
    if keys != [] {
      ZeroTotal(keys[1..]);
    }
  }

  /** A category no record carries has count zero. */
  lemma {:induction false} CountAbsent(arr: seq<Report>, c: string)
    requires c !in Categories(arr)
    ensures CountCategory(arr, c) == 0
  {
    if arr != [] {
      var init := arr[..|arr| - 1];
      assert Categories(arr) == Categories(init) + [arr[|arr| - 1].category];
      CountAbsent(init, c);
    }
  }

  lemma PrefixSnoc(arr: seq<Report>, i: nat)
    requires i < |arr|
    ensures Categories(arr[..i + 1]) == Categories(arr[..i]) + [arr[i].category]
    ensures forall k :: CountCategory(arr[..i + 1], k) == CountCategory(arr[..i], k) + (if arr[i].category == k then 1 else 0)
  {
    assert arr[..i + 1][..i] == arr[..i];
  }

  /** `renderStats`: the total, and a count per category accumulated in one
      pass. The body appends each category to `keys` when it first meets it;
      the contract promises only that `keys` lists each present category
      once, not that order. */
  method RenderStats(arr: seq<Report>) returns (total: nat, keys: seq<string>, byCat: map<string, nat>)
    ensures total == |arr|
    ensures Distinct(keys)
    ensures forall k :: k in keys <==> k in byCat
    ensures forall k :: k in byCat <==> k in Categories(arr)
    ensures forall k :: k in byCat ==> byCat[k] == CountCategory(arr, k)
    ensures TotalOver(arr, keys) == total
  {
    total := |arr|;
    keys, byCat := [], map[];
    var i := 0;
    while i < |arr|
      invariant 0 <= i <= |arr|
      invariant Distinct(keys)
      invariant forall k :: k in keys <==> k in byCat
      invariant forall k :: k in byCat <==> k in Categories(arr[..i])
      invariant forall k :: k in byCat ==> byCat[k] == CountCategory(arr[..i], k)
    {
      var c := arr[i].category;
      var n := if c in byCat then byCat[c] else 0;
      if c !in byCat {
        CountAbsent(arr[..i], c);
      }
      if c !in byCat {
        keys := keys + [c];
      }
      byCat := byCat[c := n + 1];
      PrefixSnoc(arr, i);
      i := i + 1;
    }
    assert arr[..i] == arr;
    forall k | 0 <= k < |arr| ensures arr[k].category in keys {
      assert Categories(arr)[k] == arr[k].category;
    }
    CountsAddUpToTotal(arr, keys);
  }
}
