/** The query side of the graphical launcher `BulletproofLauncher`: which
    entries the window shows for a category and a search text, how a card
    shortens a description, and when a click starts a process. */
module BulletproofLauncher {
  import opened Text
  import opened Apps
  import opened OrderedDict

  /** The sidebar entry that shows every category. */
  const AllCategories: string := "All"

  /** The lists of `keys`, one after another: `apps.extend(app_list)` for each
      list in turn. */
  function Concat(lists: map<string, seq<App>>, keys: seq<string>): (r: seq<App>)
    requires forall k :: k in keys ==> k in lists
    ensures forall a :: a in r <==> exists i :: 0 <= i < |keys| && a in lists[keys[i]]
    decreases |keys|
  {
    if |keys| == 0 then []
    else
      var n := |keys| - 1;
      var r := Concat(lists, keys[..n]) + lists[keys[n]];
      assert forall a :: a in r <==> exists i :: 0 <= i < |keys| && a in lists[keys[i]] by {
        forall a ensures a in r <==> exists i :: 0 <= i < |keys| && a in lists[keys[i]] {
          if a in lists[keys[n]] {
            assert 0 <= n < |keys| && a in lists[keys[n]];
          }
          if exists i :: 0 <= i < |keys| && a in lists[keys[i]] {
            var i :| 0 <= i < |keys| && a in lists[keys[i]];
            if i < n {
              assert keys[..n][i] == keys[i];
            }
          }
        }
      }
      r
  }

  /** The entries `filter_apps` starts from: every list, in category order
      and not re-sorted, for `'All'`; otherwise the category's list, or
      nothing for an unknown category. */
  function Scope(allApps: Dict<seq<App>>, category: string): seq<App>
    requires allApps.Valid()
  {
    if category == AllCategories then Concat(allApps.vals, allApps.keys)
    else Get(allApps, category, [])
  }

  /** The search text as `filter_apps` uses it: lowered, then stripped. */
  function Query(searchText: string): string {
    Strip(Lower(searchText))
  }

  /** The search test on one entry, reading the `'description'` field. */
  predicate Matches(app: App, query: string) {
    Contains(Lower(app.name), query) || Contains(Lower(app.description), query)
    || Contains(Lower(app.command), query)
  }

  /** The entries of `apps` that match `query`, in their order. */
  function Filter(apps: seq<App>, query: string): (r: seq<App>)
    ensures |r| <= |apps|
    ensures forall a :: a in r ==> a in apps && Matches(a, query)
    decreases |apps|
  {
    if |apps| == 0 then []
    else
      var n := |apps| - 1;
      if Matches(apps[n], query) then Filter(apps[..n], query) + [apps[n]] else Filter(apps[..n], query)
  }

  /** What the window lists: the whole scope for an empty query, the
      matching part of it otherwise. */
  function Shown(allApps: Dict<seq<App>>, category: string, searchText: string): seq<App>
    requires allApps.Valid()
  {
    var query := Query(searchText);
    if query == [] then Scope(allApps, category) else Filter(Scope(allApps, category), query)
  }

  /** The state of the window `filter_apps` reads and writes: the catalog,
      the selected sidebar entry, the search box and the listed entries. */
  class Window {
    var allApps: Dict<seq<App>>
    var currentCategory: string
    var searchText: string
    var shown: seq<App>

    /** A new window: no catalog yet, `'All'` selected, an empty search box. */
    constructor ()
      ensures allApps == Empty() && currentCategory == AllCategories
      ensures searchText == [] && shown == []
    {
      allApps := Empty();
      currentCategory := AllCategories;
      searchText := [];
      shown := [];
    }

    /** `filter_apps`: the scope, then the search loop for a non-empty
        query; `display_apps` receives `shown`. The search tests the
        `'description'` field (`SearchLoop`), where the code as written
        reads `app['desc']` and raises (`FilterAsWritten`). */
    method FilterApps()
      requires allApps.Valid()
      modifies this
      ensures allApps == old(allApps) && currentCategory == old(currentCategory)
      ensures searchText == old(searchText)
      ensures shown == Shown(allApps, currentCategory, searchText)
    {
      var query := Strip(Lower(searchText));
      var apps := CollectScope(allApps, currentCategory);
      if query != [] {
        apps := SearchLoop(apps, query);
      }
      shown := apps;
    }

    /** `set_category`: selects a sidebar entry and lists it again. */
    method SetCategory(category: string)
      requires allApps.Valid()
      modifies this
      ensures allApps == old(allApps) && currentCategory == category
      ensures searchText == old(searchText)
      ensures shown == Shown(allApps, category, searchText)
    {
      currentCategory := category;
      FilterApps();
    }

    /** Typing in the search box: `textChanged` runs `filter_apps`. */
    method SetSearchText(text: string)
      requires allApps.Valid()
      modifies this
      ensures allApps == old(allApps) && currentCategory == old(currentCategory)
      ensures searchText == text
      ensures shown == Shown(allApps, currentCategory, text)
    {
      searchText := text;
      FilterApps();
    }

    /** `on_apps_loaded`: stores the detector's catalog and shows `'All'`. */
    method OnAppsLoaded(apps: Dict<seq<App>>)
      requires apps.Valid()
      modifies this
      ensures allApps == apps && currentCategory == AllCategories
      ensures searchText == old(searchText)
      ensures shown == Shown(apps, AllCategories, searchText)
    {
      allApps := apps;
      SetCategory(AllCategories);
    }
  }

  /** The scope part of `filter_apps`: for `'All'`, every list appended in
      turn; otherwise `all_apps.get(category, [])`. */
  method CollectScope(allApps: Dict<seq<App>>, category: string) returns (apps: seq<App>)
    requires allApps.Valid()
    ensures apps == Scope(allApps, category)
  {
    if category == AllCategories {
      apps := [];
      var i := 0;
      while i < |allApps.keys|
        invariant 0 <= i <= |allApps.keys|
        invariant apps == Concat(allApps.vals, allApps.keys[..i])
      {
        assert allApps.keys[..i + 1][..i] == allApps.keys[..i];
        apps := apps + allApps.vals[allApps.keys[i]];
        i := i + 1;
      }
      assert allApps.keys[..i] == allApps.keys;
    } else {
      apps := Get(allApps, category, []);
    }
  }

  /** The search loop of `filter_apps`, reading the `'description'` field. */
  method SearchLoop(apps: seq<App>, query: string) returns (filtered: seq<App>)
    ensures filtered == Filter(apps, query)
  {
    filtered := [];
    var j := 0;
    while j < |apps|
      invariant 0 <= j <= |apps|
      invariant filtered == Filter(apps[..j], query)
    {
      assert apps[..j + 1][..j] == apps[..j];
      var app := apps[j];
      if Contains(Lower(app.name), query) || Contains(Lower(app.description), query)
         || Contains(Lower(app.command), query) {
        filtered := filtered + [app];
      }
      j := j + 1;
    }
    assert apps[..j] == apps;
  }

  /** An entry is shown exactly when it is in the scope and matches; with
      an empty query the whole scope is shown unchanged. */
  lemma {:induction false} FilterMembership(apps: seq<App>, query: string, a: App)
    ensures a in Filter(apps, query) <==> a in apps && Matches(a, query)
    decreases |apps|
  {
    if |apps| > 0 {
      var n := |apps| - 1;
      FilterMembership(apps[..n], query, a);
      assert apps == apps[..n] + [apps[n]];
    }
  }

  /** Filtering keeps the order: filtering two lists one after the other is
      filtering each and joining the results. */
  lemma {:induction false} FilterConcat(a: seq<App>, b: seq<App>, query: string)
    ensures Filter(a + b, query) == Filter(a, query) + Filter(b, query)
    decreases |b|
  {
    if |b| > 0 {
      var n := |b| - 1;
      FilterConcat(a, b[..n], query);
      assert (a + b)[..|a + b| - 1] == a + b[..n];
      assert (a + b)[|a + b| - 1] == b[n];
    } else {
      assert a + b == a;
    }
  }

  /** The empty query matches every entry, so filtering by it changes
      nothing; this is why `filter_apps` may skip the loop for it. */
  lemma {:induction false} FilterEmptyQuery(apps: seq<App>)
    ensures Filter(apps, []) == apps
    decreases |apps|
  {
    if |apps| > 0 {
      var n := |apps| - 1;
      FilterEmptyQuery(apps[..n]);
      assert OccursAt(Lower(apps[n].name), [], 0);
      assert apps == apps[..n] + [apps[n]];
    }
  }

  /** For `'All'` the window lists exactly the entries some category holds
      that match the query (all of them for an empty query). */
  lemma ShownAll(allApps: Dict<seq<App>>, searchText: string, a: App)
    requires allApps.Valid()
    ensures a in Shown(allApps, AllCategories, searchText) <==>
              (exists c :: c in allApps.vals && a in allApps.vals[c])
              && (Query(searchText) == [] || Matches(a, Query(searchText)))
  {
    var scope := Concat(allApps.vals, allApps.keys);
    FilterMembership(scope, Query(searchText), a);
    if exists c :: c in allApps.vals && a in allApps.vals[c] {
      var c :| c in allApps.vals && a in allApps.vals[c];
      var i :| 0 <= i < |allApps.keys| && allApps.keys[i] == c;
      assert a in allApps.vals[allApps.keys[i]];
    }
  }

  /** Every list of `lists` filtered by `query`. */
  function FilterEach(lists: map<string, seq<App>>, query: string): (r: map<string, seq<App>>)
    ensures r.Keys == lists.Keys
  {
    map c | c in lists :: Filter(lists[c], query)
  }

  /** Searching the lists joined in category order is joining the searched
      lists in the same order: the `'All'` view keeps category order and is
      not re-sorted. */
  lemma {:induction false} FilterConcatLists(lists: map<string, seq<App>>, keys: seq<string>, query: string)
    requires forall k :: k in keys ==> k in lists
    ensures Filter(Concat(lists, keys), query) == Concat(FilterEach(lists, query), keys)
    decreases |keys|
  {
    if |keys| > 0 {
      var n := |keys| - 1;
      FilterConcatLists(lists, keys[..n], query);
      FilterConcat(Concat(lists, keys[..n]), lists[keys[n]], query);
    } else {
      assert Filter([], query) == [];
    }
  }

  /** The outcome of the as-written search loop: the entries it would list,
      or the `KeyError` that ends it. */
  datatype Outcome = Listed(apps: seq<App>) | KeyError

  /** The search loop as written, where the second test reads `app['desc']`,
      a key no entry has: the first entry whose name does not contain the
      query raises `KeyError` (the `or` stops at a name that does). */
  function FilterAsWritten(apps: seq<App>, query: string): (r: Outcome)
    ensures r.Listed? ==> r.apps == apps
    decreases |apps|
  {
    if |apps| == 0 then Listed([])
    else if !Contains(Lower(apps[0].name), query) then KeyError
    else
      match FilterAsWritten(apps[1..], query)
      case Listed(rest) => Listed([apps[0]] + rest)
      case KeyError => KeyError
  }

  /** The as-written loop raises exactly when some entry's name lacks the
      query, and otherwise lists the whole scope. */
  lemma {:induction false} FilterAsWrittenRaises(apps: seq<App>, query: string)
    ensures FilterAsWritten(apps, query) == KeyError <==>
              exists i :: 0 <= i < |apps| && !Contains(Lower(apps[i].name), query)
    ensures FilterAsWritten(apps, query).Listed? ==> FilterAsWritten(apps, query) == Listed(apps)
    decreases |apps|
  {
    if |apps| > 0 {
      FilterAsWrittenRaises(apps[1..], query);
      if exists i :: 0 <= i < |apps[1..]| && !Contains(Lower(apps[1..][i].name), query) {
        var i :| 0 <= i < |apps[1..]| && !Contains(Lower(apps[1..][i].name), query);
        assert !Contains(Lower(apps[i + 1].name), query);
      }
      if exists i :: 0 <= i < |apps| && !Contains(Lower(apps[i].name), query) {
        var i :| 0 <= i < |apps| && !Contains(Lower(apps[i].name), query);
        if i > 0 {
          assert apps[1..][i - 1] == apps[i];
        }
      }
      assert apps == [apps[0]] + apps[1..];
    }
  }

  /** Searching the catalog entry of Firefox for `browser`: the description
      matches, so the entry should be listed, but the as-written loop raises
      `KeyError` instead. */
  lemma FilterAsWrittenCounterexample()
    ensures var firefox := App("Firefox", "firefox", "Web Browser", Desktop);
            FilterAsWritten([firefox], "browser") == KeyError
            && Filter([firefox], "browser") == [firefox]
  {
    var firefox := App("Firefox", "firefox", "Web Browser", Desktop);
    BrowserInDescription();
    var name := Lower("Firefox");
    assert name == "firefox";
    assert name[..7] != "browser" by {
      assert name[..7][0] == 'f' && "browser"[0] == 'b';
    }
    assert !Contains(name[1..], "browser");
    assert !Contains(name, "browser");
  }

  /** `browser` occurs in the lowered `Web Browser`, at index 4. */
  lemma BrowserInDescription()
    ensures OccursAt(Lower("Web Browser"), "browser", 4)
  {
    var d := Lower("Web Browser");
    assert d[4] == LowerChar('B') == 'b';
    forall i | 5 <= i < 11 ensures d[i] == "Web Browser"[i] {
      assert !IsUpper("Web Browser"[i]);
    }
    assert d[4..11] == "browser";
  }

  /** The text a card shows for a description: never more than 50
      characters; the description itself when that fits, and otherwise
      exactly 50 characters, its first 47 followed by `...`. */
  function CardDescription(description: string): (r: string)
    ensures |r| <= 50
    ensures |description| <= 50 <==> r == description
    ensures |description| > 50 ==> |r| == 50 && r[..47] == description[..47] && r[47..] == "..."
  {
    if |description| > 50 then description[..47] + "..." else description
  }

  /** What a click on a card leads to: a warning that the entry has no
      command, a started process, or the launch error. */
  datatype LaunchOutcome = NoCommand(name: string) | Launched(name: string) | LaunchFailed(name: string, reason: string)

  /** `launch_app`: an empty command is refused before anything is spawned;
      otherwise the outcome of spawning the command through the shell is
      `spawn`, which the caller supplies. */
  function LaunchApp(app: App, spawn: SpawnResult): (r: LaunchOutcome)
    ensures r.name == app.name
    ensures app.command == [] <==> r.NoCommand?
    ensures app.command != [] ==> (r.Launched? <==> spawn.Started?)
    ensures r.LaunchFailed? ==> spawn == SpawnFailed(r.reason)
  {
    if app.command == [] then NoCommand(app.name)
    else
      match spawn
      case Started => Launched(app.name)
      case SpawnFailed(reason) => LaunchFailed(app.name, reason)
  }
}
