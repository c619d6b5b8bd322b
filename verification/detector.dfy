/** `ApplicationDetector.detect_applications`: the two scans merged, each
    entry filed under its category, each category list sorted by name. */
module Detector {
  import opened Text
  import opened Apps
  import opened OrderedDict
  import opened Categorizer
  import opened NameOrder
  import opened DesktopScan
  import opened PathScan

  /** The catalog entry made of a merged name and what is stored under it. */
  function AppOf(name: string, info: Info): App {
    App(name, info.command, info.description, info.kind)
  }

  /** `all_apps.items()` as catalog entries, in key order. */
  function Entries(all: Dict<Info>): (apps: seq<App>)
    requires all.Valid()
    ensures |apps| == |all.keys|
    ensures forall i :: 0 <= i < |apps| ==> apps[i] == AppOf(all.keys[i], all.vals[all.keys[i]])
  {
    seq(|all.keys|, i requires 0 <= i < |all.keys| => AppOf(all.keys[i], all.vals[all.keys[i]]))
  }

  /** `{**desktop_apps, **path_apps}`. */
  function Merged(desktopDirs: seq<DesktopDir>, path: string, fs: map<string, Listing>): (all: Dict<Info>)
    ensures all.Valid()
  {
    Merge(DesktopApps(desktopDirs), PathApps(path, fs))
  }

  /** The entries of `apps` whose category is `c`, in their order. */
  function InCategory(apps: seq<App>, c: string): (r: seq<App>)
    ensures |r| <= |apps|
    decreases |apps|
  {
    if |apps| == 0 then []
    else
      var n := |apps| - 1;
      if CategoryOf(apps[n]) == c then InCategory(apps[..n], c) + [apps[n]] else InCategory(apps[..n], c)
  }

  /** What `detect_applications` returns for the merged entries `apps`: one
      list per category, in table order with `'Other'` last, each holding its
      entries sorted by name. */
  function Catalog(apps: seq<App>): (d: Dict<seq<App>>)
    ensures d.Valid() && d.keys == Order
    ensures forall c :: c in d.vals ==> |d.vals[c]| == |InCategory(apps, c)|
  {
    OrderShape();
    Dict(Order, map c | c in Order :: SortByName(InCategory(apps, c)))
  }

  /** Filing one more entry extends the list of its category only. */
  lemma InCategoryStep(apps: seq<App>, i: nat)
    requires i < |apps|
    ensures forall c :: InCategory(apps[..i + 1], c)
                        == InCategory(apps[..i], c) + (if CategoryOf(apps[i]) == c then [apps[i]] else [])
  {
    assert apps[..i + 1][..i] == apps[..i];
  }

  /** Appending the next entry to the list of its category keeps every list
      equal to its initial contents followed by the category's entries so far. */
  lemma FilingStep(lists: Dict<seq<App>>, d: Dict<seq<App>>, apps: seq<App>, i: nat, category: string)
    requires lists.Valid() && d.Valid() && d.keys == lists.keys
    requires i < |apps| && category == CategoryOf(apps[i]) && category in lists.vals
    requires forall c :: c in lists.vals ==> d.vals[c] == lists.vals[c] + InCategory(apps[..i], c)
    ensures forall c :: c in lists.vals ==>
              Put(d, category, d.vals[category] + [apps[i]]).vals[c] == lists.vals[c] + InCategory(apps[..i + 1], c)
    ensures Put(d, category, d.vals[category] + [apps[i]]).keys == lists.keys
  {
    InCategoryStep(apps, i);
    forall c | c in lists.vals
      ensures Put(d, category, d.vals[category] + [apps[i]]).vals[c] == lists.vals[c] + InCategory(apps[..i + 1], c)
    {
      if c == category {
        assert InCategory(apps[..i + 1], c) == InCategory(apps[..i], c) + [apps[i]];
      } else {
        assert InCategory(apps[..i + 1], c) == InCategory(apps[..i], c);
      }
    }
  }

  lemma IsCatalog(d: Dict<seq<App>>, apps: seq<App>)
    requires d.Valid() && d.keys == Order
    requires forall c :: c in Order ==> d.vals[c] == SortByName(InCategory(apps, c))
    ensures d == Catalog(apps)
  {
    assert d.vals.Keys == Catalog(apps).vals.Keys;
  }

  /** One empty list per category, in table order with `'Other'` last. */
  method EmptyLists() returns (byCategory: Dict<seq<App>>)
    ensures byCategory.Valid() && byCategory.keys == Order
    ensures forall c :: c in Order ==> byCategory.vals[c] == []
  {
    OrderShape();
    byCategory := Empty();
    for k := 0 to |Table|
      invariant byCategory.Valid()
      invariant byCategory.keys == Order[..k]
      invariant forall c :: c in byCategory.vals ==> byCategory.vals[c] == []
    {
      byCategory := Put(byCategory, Table[k].name, []);
      assert Order[..k + 1] == Order[..k] + [Order[k]];
    }
    byCategory := Put(byCategory, Other, []);
    assert Order == Order[..|Table|] + [Other];
  }

  /** The `for name, info in all_apps.items()` loop: each entry appended to
      the list of its category. */
  method FileEntries(allApps: Dict<Info>, lists: Dict<seq<App>>) returns (byCategory: Dict<seq<App>>)
    requires allApps.Valid() && lists.Valid()
    requires forall c :: c in Order ==> c in lists.vals
    ensures byCategory.Valid() && byCategory.keys == lists.keys
    ensures forall c :: c in lists.vals ==>
              byCategory.vals[c] == lists.vals[c] + InCategory(Entries(allApps), c)
  {
    byCategory := lists;
    ghost var apps := Entries(allApps);
    var i := 0;
    while i < |allApps.keys|
      invariant 0 <= i <= |allApps.keys|
      invariant byCategory.Valid() && byCategory.keys == lists.keys
      invariant forall c :: c in lists.vals ==> byCategory.vals[c] == lists.vals[c] + InCategory(apps[..i], c)
    {
      var name := allApps.keys[i];
      var info := allApps.vals[name];
      var category := CategorizeApplication(name, info);
      var app := AppOf(name, info);
      assert apps[i] == app;
      FilingStep(lists, byCategory, apps, i, category);
      byCategory := Put(byCategory, category, byCategory.vals[category] + [app]);
      i := i + 1;
    }
    assert apps[..i] == apps;
  }

  /** The `for cat in apps_by_category` loop: every list sorted by name. */
  method SortLists(lists: Dict<seq<App>>) returns (byCategory: Dict<seq<App>>)
    requires lists.Valid()
    ensures byCategory.Valid() && byCategory.keys == lists.keys
    ensures forall c :: c in lists.vals ==> byCategory.vals[c] == SortByName(lists.vals[c])
  {
    byCategory := lists;
    for j := 0 to |lists.keys|
      invariant byCategory.Valid() && byCategory.keys == lists.keys
      invariant forall k :: 0 <= k < j ==> byCategory.vals[lists.keys[k]] == SortByName(lists.vals[lists.keys[k]])
      invariant forall k :: j <= k < |lists.keys| ==> byCategory.vals[lists.keys[k]] == lists.vals[lists.keys[k]]
    {
      var c := byCategory.keys[j];
      var sorted := SortByName(byCategory.vals[c]);
      assert sorted == SortByName(lists.vals[lists.keys[j]]);
      ghost var before := byCategory.vals;
      byCategory := Put(byCategory, c, sorted);
      assert byCategory.vals == before[c := sorted];
      forall k | 0 <= k < |lists.keys| && k != j ensures byCategory.vals[lists.keys[k]] == before[lists.keys[k]] {
        assert lists.keys[k] != c;
      }
    }
  }

  /** `detect_applications`: the empty lists, the two scans, the merge, the
      filing and the sorting. */
  method DetectApplications(desktopDirs: seq<DesktopDir>, path: string, fs: map<string, Listing>)
      returns (byCategory: Dict<seq<App>>)
    ensures byCategory == Catalog(Entries(Merged(desktopDirs, path, fs)))
  {
    var empty := EmptyLists();
    var desktopApps := ScanDesktopFiles(desktopDirs);
    var pathApps, _, _, _ := ScanPathCommands(path, fs);
    var allApps := Merge(desktopApps, pathApps);
    var filed := FileEntries(allApps, empty);
    byCategory := SortLists(filed);
    forall c | c in Order ensures byCategory.vals[c] == SortByName(InCategory(Entries(allApps), c)) {
      var filedHere := InCategory(Entries(allApps), c);
      assert c in empty.vals && empty.vals[c] == [];
      assert filed.vals[c] == [] + filedHere;
      assert [] + filedHere == filedHere;
      assert byCategory.vals[c] == SortByName(filed.vals[c]);
    }
    IsCatalog(byCategory, Entries(allApps));
  }

  /** Merge precedence: a merged name comes from one of the scans; a name
      the `PATH` scan found carries the `PATH` entry, whether or not a
      descriptor also named it; any other name keeps its descriptor entry. */
  lemma MergePrecedence(desktopDirs: seq<DesktopDir>, path: string, fs: map<string, Listing>, name: string)
    ensures name in Merged(desktopDirs, path, fs).vals <==>
              name in DesktopApps(desktopDirs).vals || name in PathApps(path, fs).vals
    ensures name in PathApps(path, fs).vals ==>
              Merged(desktopDirs, path, fs).vals[name] == Info(name, CliDescription, Cli)
    ensures name in DesktopApps(desktopDirs).vals && name !in PathApps(path, fs).vals ==>
              Merged(desktopDirs, path, fs).vals[name] == DesktopApps(desktopDirs).vals[name]
  {
    MergeLookup(DesktopApps(desktopDirs), PathApps(path, fs));
    FirstAdmissionsContents(Visible(Listings(path, fs)), name);
  }

  /** The merged entries have distinct names, and an entry is among them
      exactly when its name is a merged key carrying its fields. */
  lemma EntriesDistinct(all: Dict<Info>, a: App)
    requires all.Valid()
    ensures forall i, j :: 0 <= i < j < |Entries(all)| ==> Entries(all)[i].name != Entries(all)[j].name
    ensures a in Entries(all) <==> a.name in all.vals && AppOf(a.name, all.vals[a.name]) == a
    ensures multiset(Entries(all))[a] <= 1
  {
    var apps := Entries(all);
    if a.name in all.vals && AppOf(a.name, all.vals[a.name]) == a {
      var i :| 0 <= i < |all.keys| && all.keys[i] == a.name;
      assert apps[i] == a;
    }
    DistinctCount(apps, a);
  }

  /** In a list of distinct names an entry occurs at most once. */
  lemma {:induction false} DistinctCount(apps: seq<App>, a: App)
    requires forall i, j :: 0 <= i < j < |apps| ==> apps[i].name != apps[j].name
    ensures multiset(apps)[a] <= 1
    decreases |apps|
  {
    if |apps| > 0 {
      var n := |apps| - 1;
      DistinctCount(apps[..n], a);
      assert apps == apps[..n] + [apps[n]];
    }
  }

  /** An entry occurs in the list of its own category as often as it occurs
      among the entries, and in no other list. */
  lemma {:induction false} InCategoryCount(apps: seq<App>, c: string, a: App)
    ensures multiset(InCategory(apps, c))[a] == if CategoryOf(a) == c then multiset(apps)[a] else 0
    decreases |apps|
  {
    if |apps| > 0 {
      var n := |apps| - 1;
      var init, last := apps[..n], apps[n];
      InCategoryCount(init, c, a);
      SplitLast(apps);
      assert multiset(apps) == multiset(init) + multiset{last};
      if CategoryOf(last) == c {
        assert multiset(InCategory(apps, c)) == multiset(InCategory(init, c)) + multiset{last};
      } else {
        assert InCategory(apps, c) == InCategory(init, c);
      }
    }
  }

  /** Every merged entry is listed exactly once, under its category, and
      every listed entry is a merged entry. */
  lemma CatalogExactlyOnce(all: Dict<Info>, a: App)
    requires all.Valid()
    ensures forall c :: c in Order ==>
              multiset(Catalog(Entries(all)).vals[c])[a]
                == if a in Entries(all) && CategoryOf(a) == c then 1 else 0
    ensures a in Entries(all) ==> CategoryOf(a) in Order
  {
    EntriesDistinct(all, a);
    forall c | c in Order
      ensures multiset(Catalog(Entries(all)).vals[c])[a]
                == if a in Entries(all) && CategoryOf(a) == c then 1 else 0
    {
      InCategoryCount(Entries(all), c, a);
      SortByNameSorted(InCategory(Entries(all), c));
    }
  }

  /** The summed lengths of the lists of `cats`. */
  function SizeOver(lists: map<string, seq<App>>, cats: seq<string>): nat
    requires forall c :: c in cats ==> c in lists
    decreases |cats|
  {
    if |cats| == 0 then 0 else |lists[cats[0]]| + SizeOver(lists, cats[1..])
  }

  /** The summed lengths of the category lists of `apps` for `cats`. */
  function FiledCount(apps: seq<App>, cats: seq<string>): nat
    decreases |cats|
  {
    if |cats| == 0 then 0 else |InCategory(apps, cats[0])| + FiledCount(apps, cats[1..])
  }

  /** Filing one more entry adds one to the lists of distinct categories
      that include its own, and nothing to the others. */
  lemma {:induction false} FiledCountStep(apps: seq<App>, cats: seq<string>)
    requires |apps| > 0
    requires forall i, j :: 0 <= i < j < |cats| ==> cats[i] != cats[j]
    ensures FiledCount(apps, cats)
            == FiledCount(apps[..|apps| - 1], cats) + (if CategoryOf(apps[|apps| - 1]) in cats then 1 else 0)
    decreases |cats|
  {
    if |cats| > 0 {
      FiledCountStep(apps, cats[1..]);
      if CategoryOf(apps[|apps| - 1]) == cats[0] {
        assert CategoryOf(apps[|apps| - 1]) !in cats[1..];
      }
    }
  }

  lemma {:induction false} FiledCountEmpty(cats: seq<string>)
    ensures FiledCount([], cats) == 0
    decreases |cats|
  {
    if |cats| > 0 {
      FiledCountEmpty(cats[1..]);
    }
  }

  /** Lists of distinct categories that include every entry's category hold
      each entry once between them. */
  lemma {:induction false} FiledCountAll(apps: seq<App>, cats: seq<string>)
    requires forall i, j :: 0 <= i < j < |cats| ==> cats[i] != cats[j]
    requires forall a :: a in apps ==> CategoryOf(a) in cats
    ensures FiledCount(apps, cats) == |apps|
    decreases |apps|
  {
    if |apps| == 0 {
      FiledCountEmpty(cats);
    } else {
      var n := |apps| - 1;
      assert apps[n] in apps;
      forall a | a in apps[..n] ensures CategoryOf(a) in cats {
        assert a in apps;
      }
      FiledCountAll(apps[..n], cats);
      FiledCountStep(apps, cats);
    }
  }

  /** Lists as long as the category lists of `apps` sum to the same total. */
  lemma {:induction false} SizeOverFiled(lists: map<string, seq<App>>, apps: seq<App>, cats: seq<string>)
    requires forall c :: c in cats ==> c in lists && |lists[c]| == |InCategory(apps, c)|
    ensures SizeOver(lists, cats) == FiledCount(apps, cats)
    decreases |cats|
  {
    if |cats| > 0 {
      SizeOverFiled(lists, apps, cats[1..]);
    }
  }

  /** The lists of the catalog hold as many entries between them as the
      merged dictionary has keys. */
  lemma CatalogTotal(all: Dict<Info>)
    requires all.Valid()
    ensures SizeOver(Catalog(Entries(all)).vals, Order) == |all.keys|
  {
    var apps := Entries(all);
    OrderShape();
    FiledCountAll(apps, Order);
    assert forall c :: c in Order ==> |Catalog(apps).vals[c]| == |InCategory(apps, c)|;
    SizeOverFiled(Catalog(apps).vals, apps, Order);
  }

  /** Each list of the catalog is sorted by lowercased name, holds exactly
      its category's entries, and keeps entries with equal keys in merged
      order. */
  lemma CatalogSorted(apps: seq<App>, c: string, k: string)
    requires c in Order
    ensures Sorted(Catalog(apps).vals[c])
    ensures multiset(Catalog(apps).vals[c]) == multiset(InCategory(apps, c))
    ensures WithKey(Catalog(apps).vals[c], k) == WithKey(InCategory(apps, c), k)
  {
    SortByNameSorted(InCategory(apps, c));
    SortByNameStable(InCategory(apps, c), k);
  }
}
