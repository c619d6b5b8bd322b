/** The terminal launcher `SmartCLILauncher`: the catalog it keeps, its
    search, its numbered menus, its 20-entry pages and its launch
    confirmation. The detector output it loads is an input here. */
module SmartCli {
  import opened Text
  import opened Apps
  import opened OrderedDict
  import BulletproofLauncher

  /** One catalog entry as a dictionary of text fields. */
  type Record = map<string, string>

  /** `app.get(key, '')`. */
  function Field(app: Record, key: string): string {
    if key in app then app[key] else ""
  }

  /** `matches_search`: the lowered query occurs in the lowered name,
      command or description; a missing field reads as empty. */
  predicate MatchesSearch(app: Record, query: string): (m: bool)
    ensures query == [] ==> m
  {
    var q := Lower(query);
    assert query == [] ==> q == [] && OccursAt(Lower(Field(app, "name")), q, 0);
    Contains(Lower(Field(app, "name")), q) || Contains(Lower(Field(app, "command")), q)
    || Contains(Lower(Field(app, "description")), q)
  }

  /** The empty query matches every entry, and the case of the query does
      not matter. */
  lemma MatchesSearchBasics(app: Record, query: string)
    ensures MatchesSearch(app, "")
    ensures MatchesSearch(app, query) <==> MatchesSearch(app, Lower(query))
  {
    assert Lower("") == "";
    assert OccursAt(Lower(Field(app, "name")), "", 0);
    LowerIdempotent(query);
  }

  /** The dictionary form of a catalog entry. */
  function RecordOf(app: App): Record {
    map["name" := app.name, "command" := app.command, "description" := app.description]
  }

  /** The terminal search and the window's search agree on a catalog entry
      once the query is lowered. */
  lemma MatchesSearchAgrees(app: App, query: string)
    ensures MatchesSearch(RecordOf(app), query) <==> BulletproofLauncher.Matches(app, Lower(query))
  {
    var r := RecordOf(app);
    assert Field(r, "name") == app.name;
    assert Field(r, "command") == app.command;
    assert Field(r, "description") == app.description;
  }

  /** The pairs of `ps` whose list is not empty, in order. */
  function NonEmpty(ps: seq<(string, seq<Record>)>): (r: seq<(string, seq<Record>)>)
    ensures forall i :: 0 <= i < |r| ==> r[i].1 != [] && r[i] in ps
    decreases |ps|
  {
    if |ps| == 0 then []
    else
      var n := |ps| - 1;
      if ps[n].1 != [] then NonEmpty(ps[..n]) + [ps[n]] else NonEmpty(ps[..n])
  }

  /** The summed lengths of the lists of `ps`. */
  function TotalLength(ps: seq<(string, seq<Record>)>): nat
    decreases |ps|
  {
    if |ps| == 0 then 0 else TotalLength(ps[..|ps| - 1]) + |ps[|ps| - 1].1|
  }

  /** Dropping the empty lists does not change the total. */
  lemma {:induction false} TotalLengthNonEmpty(ps: seq<(string, seq<Record>)>)
    ensures TotalLength(NonEmpty(ps)) == TotalLength(ps)
    decreases |ps|
  {
    if |ps| > 0 {
      var n := |ps| - 1;
      TotalLengthNonEmpty(ps[..n]);
      if ps[n].1 != [] {
        assert (NonEmpty(ps[..n]) + [ps[n]])[..|NonEmpty(ps[..n]) + [ps[n]]| - 1] == NonEmpty(ps[..n]);
      }
    }
  }

  /** Every stored list is non-empty. */
  ghost predicate StoresNonEmpty(d: Dict<seq<Record>>) {
    forall c :: c in d.vals ==> d.vals[c] != []
  }

  /** Storing a non-empty list keeps every stored list non-empty. */
  lemma StoresNonEmptyPut(d: Dict<seq<Record>>, category: string, apps: seq<Record>)
    requires d.Valid() && StoresNonEmpty(d) && apps != []
    ensures StoresNonEmpty(Put(d, category, apps))
  {
  }

  /** The applications of a category, numbered from 1, that a search found. */
  function MatchingIn(apps: seq<Record>, query: string): (r: seq<Record>)
    ensures |r| <= |apps|
    decreases |apps|
  {
    if |apps| == 0 then []
    else
      var n := |apps| - 1;
      if MatchesSearch(apps[n], query) then MatchingIn(apps[..n], query) + [apps[n]] else MatchingIn(apps[..n], query)
  }

  /** Looking at entry `j` appends it when it matches. */
  lemma MatchingInStep(apps: seq<Record>, j: nat, query: string)
    requires j < |apps|
    ensures MatchingIn(apps[..j + 1], query)
            == if MatchesSearch(apps[j], query) then MatchingIn(apps[..j], query) + [apps[j]]
               else MatchingIn(apps[..j], query)
  {
    assert apps[..j + 1][..j] == apps[..j];
  }

  lemma MatchingPairsStep(lists: map<string, seq<Record>>, cats: seq<string>, i: nat, query: string)
    requires forall c :: c in cats ==> c in lists
    requires i < |cats|
    ensures MatchingPairs(lists, cats[..i + 1], query)
            == MatchingPairs(lists, cats[..i], query) + PairsIn(cats[i], lists[cats[i]], query)
  {
    assert cats[..i + 1][..i] == cats[..i];
  }

  /** The matching entries of category `c`, each paired with `c`. */
  function PairsIn(c: string, apps: seq<Record>, query: string): seq<(string, Record)>
    decreases |apps|
  {
    if |apps| == 0 then []
    else
      var n := |apps| - 1;
      if MatchesSearch(apps[n], query) then PairsIn(c, apps[..n], query) + [(c, apps[n])] else PairsIn(c, apps[..n], query)
  }

  /** The `(category, app)` pairs a search over every category finds: by
      category in catalog order, then in list order. */
  function MatchingPairs(lists: map<string, seq<Record>>, cats: seq<string>, query: string): seq<(string, Record)>
    requires forall c :: c in cats ==> c in lists
    decreases |cats|
  {
    if |cats| == 0 then []
    else
      var n := |cats| - 1;
      MatchingPairs(lists, cats[..n], query) + PairsIn(cats[n], lists[cats[n]], query)
  }

  /** Pairing a category's matches keeps exactly its matching entries. */
  lemma {:induction false} PairsInMembership(c: string, apps: seq<Record>, query: string, k: string, app: Record)
    ensures (k, app) in PairsIn(c, apps, query) <==> k == c && app in apps && MatchesSearch(app, query)
    decreases |apps|
  {
    if |apps| > 0 {
      var n := |apps| - 1;
      PairsInMembership(c, apps[..n], query, k, app);
      assert apps == apps[..n] + [apps[n]];
    }
  }

  /** A search in one list finds exactly the matching entries. */
  lemma {:induction false} MatchingInMembership(apps: seq<Record>, query: string, app: Record)
    ensures app in MatchingIn(apps, query) <==> app in apps && MatchesSearch(app, query)
    decreases |apps|
  {
    if |apps| > 0 {
      var n := |apps| - 1;
      MatchingInMembership(apps[..n], query, app);
      assert apps == apps[..n] + [apps[n]];
    }
  }

  /** A search over every category finds exactly the pairs of a listed
      category and one of its matching entries. */
  lemma {:induction false} MatchingPairsMembership(lists: map<string, seq<Record>>, cats: seq<string>,
                                                   query: string, c: string, app: Record)
    requires forall k :: k in cats ==> k in lists
    ensures (c, app) in MatchingPairs(lists, cats, query) <==>
              c in cats && app in lists[c] && MatchesSearch(app, query)
    decreases |cats|
  {
    if |cats| > 0 {
      var n := |cats| - 1;
      MatchingPairsMembership(lists, cats[..n], query, c, app);
      var last := cats[n];
      PairsInMembership(last, lists[last], query, c, app);
      InSplitLast(cats, c);
    }
  }

  /** `int(s)` for what the menus accept: an optional sign and decimal
      digits. */
  function ParseInt(s: string): Option<int> {
    if |s| > 0 && (s[0] == '+' || s[0] == '-') then
      if IsDigits(s[1..]) then Some(if s[0] == '-' then -(DigitsValue(s[1..]) as int) else DigitsValue(s[1..])) else None
    else if IsDigits(s) then Some(DigitsValue(s))
    else None
  }

  predicate IsDigits(s: string) {
    |s| > 0 && forall i :: 0 <= i < |s| ==> '0' <= s[i] <= '9'
  }

  function DigitsValue(s: string): nat
    requires forall i :: 0 <= i < |s| ==> '0' <= s[i] <= '9'
    decreases |s|
  {
    if |s| == 0 then 0
    else DigitsValue(s[..|s| - 1]) * 10 + (s[|s| - 1] as int - '0' as int)
  }

  /** The decimal numeral of `n`, as the menus print it. */
  function Numeral(n: nat): (s: string)
    ensures IsDigits(s)
    decreases n
  {
    if n < 10 then [('0' as int + n) as char]
    else Numeral(n / 10) + [('0' as int + n % 10) as char]
  }

  /** Reading back a printed number gives the number. */
  lemma {:induction false} ParseNumeral(n: nat)
    ensures ParseInt(Numeral(n)) == Some(n)
    decreases n
  {
    NumeralValue(n);
  }

  lemma {:induction false} NumeralValue(n: nat)
    ensures DigitsValue(Numeral(n)) == n
    decreases n
  {
    if n >= 10 {
      NumeralValue(n / 10);
      var s := Numeral(n);
      assert s[..|s| - 1] == Numeral(n / 10);
    }
  }

  /** `items[n - 1]` for the number typed at a numbered list, if it is one
      of the numbers shown; nothing for an empty line, a non-number or a
      number out of range. */
  function Pick<T>(items: seq<T>, line: string): (r: Option<T>)
    ensures r.Some? <==> exists n :: ParseInt(Strip(line)) == Some(n) && 1 <= n <= |items|
    ensures r.Some? ==> r.value == items[ParseInt(Strip(line)).value - 1]
  {
    var s := Strip(line);
    if s == [] then None
    else
      match ParseInt(s)
      case None => None
      case Some(n) => if 1 <= n <= |items| then Some(items[n - 1]) else None
  }

  /** What the terminal launch did. */
  datatype CliLaunch = MissingField | Cancelled | Spawned | Failed(reason: string)

  /** `launch_application`: reading a missing name, command or description
      raises `KeyError`; otherwise the command runs only when the stripped,
      lowered confirmation is `y` or `yes`, and `spawn` is what running it
      did. */
  function LaunchApplication(app: Record, confirm: string, spawn: SpawnResult): (r: CliLaunch)
    ensures r.MissingField? <==> !("name" in app && "command" in app && "description" in app)
    ensures (r.Spawned? || r.Failed?) <==>
              !r.MissingField? && (Lower(Strip(confirm)) == "y" || Lower(Strip(confirm)) == "yes")
    ensures r.Spawned? ==> spawn.Started?
    ensures r.Failed? ==> spawn == SpawnFailed(r.reason)
  {
    if !("name" in app && "command" in app && "description" in app) then MissingField
    else
      var answer := Lower(Strip(confirm));
      if answer == "y" || answer == "yes" then
        match spawn
        case Started => Spawned
        case SpawnFailed(reason) => Failed(reason)
      else Cancelled
  }

  /** A main-menu line: blank, not a number (or interrupted), or a number. */
  datatype MenuChoice = Blank | NotANumber | Number(n: int)

  /** The line typed at the main menu, stripped and read as a number. */
  function ParseMenuChoice(line: string): MenuChoice {
    var s := Strip(line);
    if s == [] then Blank
    else
      match ParseInt(s)
      case None => NotANumber
      case Some(n) => Number(n)
  }

  /** What `show_main_menu` does with one choice. */
  datatype MenuAction = Redisplay | OpenCategory(category: string) | SearchAll | Rescan | Exit | Invalid

  /** The dispatch of `show_main_menu` over the listed categories. */
  function MainMenuAction(categories: seq<string>, choice: MenuChoice): (a: MenuAction)
    ensures a.OpenCategory? ==> a.category in categories
    ensures a == Exit <==> choice == NotANumber || choice == Number(|categories| + 3)
    ensures a == Redisplay <==> choice == Blank
  {
    match choice
    case Blank => Redisplay
    case NotANumber => Exit
    case Number(n) =>
      if 1 <= n <= |categories| then OpenCategory(categories[n - 1])
      else if n == |categories| + 1 then SearchAll
      else if n == |categories| + 2 then Rescan
      else if n == |categories| + 3 then Exit
      else Invalid
  }

  /** The menu numbers the categories from 1 and puts search, rescan and
      exit right after them; every other number is rejected, and a number
      opens a category exactly when it is one of the listed ones. */
  lemma MainMenuNumbers(categories: seq<string>, n: int)
    ensures forall i :: 0 <= i < |categories| ==>
              MainMenuAction(categories, Number(i + 1)) == OpenCategory(categories[i])
    ensures MainMenuAction(categories, Number(n)).OpenCategory? <==> 1 <= n <= |categories|
    ensures MainMenuAction(categories, Number(n)) == Invalid <==> n < 1 || n > |categories| + 3
    ensures MainMenuAction(categories, Number(n)) == Exit <==> n == |categories| + 3
  {
  }

  /** Typing a number exactly as the menu prints it selects that number. */
  lemma NumeralChoice(n: nat)
    ensures Strip(Numeral(n)) == Numeral(n)
    ensures ParseMenuChoice(Numeral(n)) == Number(n)
  {
    StripDigits(Numeral(n));
    ParseNumeral(n);
  }

  /** Digits have no surrounding whitespace to strip. */
  lemma StripDigits(s: string)
    requires IsDigits(s)
    ensures Strip(s) == s
  {
    assert !IsSpace(s[0]) && !IsSpace(s[|s| - 1]);
    assert LeadingSpaces(s) == 0;
    assert s[0..] == s;
    assert TrailingSpaces(s) == 0;
  }

  /** Entries per page. */
  const PageSize: nat := 20

  /** `apps[start_idx:end_idx]` for page `page`, clamped as Python slices are:
      the page holds the next `PageSize` entries from `page * PageSize`, or
      as many as remain. */
  function PageSlice(apps: seq<Record>, page: nat): (r: seq<Record>)
    ensures |r| <= PageSize
    ensures r == [] <==> page * PageSize >= |apps|
    ensures |r| == if page * PageSize >= |apps| then 0
                   else if |apps| - page * PageSize < PageSize then |apps| - page * PageSize
                   else PageSize
    ensures forall i :: 0 <= i < |r| ==> page * PageSize + i < |apps| && r[i] == apps[page * PageSize + i]
  {
    var start := page * PageSize;
    var end := start + PageSize;
    if start >= |apps| then [] else if end >= |apps| then apps[start..] else apps[start..end]
  }

  /** A key typed at a category page, after `strip().lower()`. */
  datatype PageKey = Quit | Back | SearchHere | Next | Previous | Picked(n: int) | Unreadable

  function ParsePageKey(line: string): (key: PageKey)
    ensures key.Picked? <==> ParseInt(Lower(Strip(line))).Some? && Lower(Strip(line)) !in ["q", "b", "s", "n", "p"]
    ensures key.Picked? ==> ParseInt(Lower(Strip(line))) == Some(key.n)
  {
    var s := Lower(Strip(line));
    if s == "q" then Quit
    else if s == "b" then Back
    else if s == "s" then SearchHere
    else if s == "n" then Next
    else if s == "p" then Previous
    else
      match ParseInt(s)
      case None => Unreadable
      case Some(n) => Picked(n)
  }

  /** What `show_category_apps` does with one key on page `page`. */
  datatype PageAction =
    | Leave
    | Turn(page: nat)
    | SearchCategory
    | Launch(app: Record)
    | InvalidNumber
    | InvalidInput

  /** One step of the page loop as written. `n` and `p` move only when that
      page exists; otherwise they fall through to `int()` and fail as invalid
      input. A number is taken as a position on the page, from 1, although
      the page prints its entries numbered from `start_idx + 1`. */
  function PageStepAsWritten(apps: seq<Record>, page: nat, key: PageKey): (a: PageAction)
    ensures a == Leave <==> key == Quit || key == Back
    ensures a.Launch? ==> key.Picked? && 1 <= key.n <= |PageSlice(apps, page)|
                          && a.app == PageSlice(apps, page)[key.n - 1]
  {
    var start := page * PageSize;
    var end := start + PageSize;
    match key
    case Quit => Leave
    case Back => Leave
    case SearchHere => SearchCategory
    case Next => if end < |apps| then Turn(page + 1) else InvalidInput
    case Previous => if page > 0 then Turn(page - 1) else InvalidInput
    case Picked(n) =>
      if 1 <= n <= |PageSlice(apps, page)| then Launch(apps[start + n - 1]) else InvalidNumber
    case Unreadable => InvalidInput
  }

  /** As written, typing `n` launches the `n`-th entry of the shown page. */
  lemma PickPosition(apps: seq<Record>, page: nat, n: nat)
    requires 1 <= n <= |PageSlice(apps, page)|
    ensures PageStepAsWritten(apps, page, ParsePageKey(Numeral(n))) == Launch(PageSlice(apps, page)[n - 1])
  {
    NumeralPageKey(n);
  }

  /** As written, from the second page on every number printed beside an
      entry is rejected: it is above 20, and only 1 to the page length is
      accepted. With 21 entries, typing the `21` printed on page 1 gives
      "Invalid application number". */
  lemma PrintedNumberRejected(apps: seq<Record>, page: nat, m: nat)
    requires page >= 1 && page * PageSize < m <= page * PageSize + |PageSlice(apps, page)|
    ensures PageStepAsWritten(apps, page, ParsePageKey(Numeral(m))) == InvalidNumber
  {
    PastFirstPage(apps, page);
    BeyondPageRejected(apps, page, m);
    NumeralPageKey(m);
  }

  /** As written, a number beyond the page's length is rejected. */
  lemma BeyondPageRejected(apps: seq<Record>, page: nat, m: int)
    requires m > |PageSlice(apps, page)|
    ensures PageStepAsWritten(apps, page, Picked(m)) == InvalidNumber
  {
  }

  /** From the second page on, a page starts at or beyond its own length. */
  lemma PastFirstPage(apps: seq<Record>, page: nat)
    requires page >= 1
    ensures page * PageSize >= |PageSlice(apps, page)|
  {
    assert page * PageSize >= PageSize by {
      assert PageSize == 20;
    }
  }

  /** One step of the page loop with numbers read as the page prints them:
      entry `apps[i]` is shown as `i + 1`, so a number is accepted when it
      is one of those the page shows. */
  function PageStep(apps: seq<Record>, page: nat, key: PageKey): (a: PageAction)
    ensures a == Leave <==> key == Quit || key == Back
    ensures a.Launch? ==> key.Picked? && page * PageSize < key.n <= page * PageSize + |PageSlice(apps, page)|
                          && a.app == apps[key.n - 1]
  {
    var start := page * PageSize;
    var end := start + PageSize;
    match key
    case Quit => Leave
    case Back => Leave
    case SearchHere => SearchCategory
    case Next => if end < |apps| then Turn(page + 1) else InvalidInput
    case Previous => if page > 0 then Turn(page - 1) else InvalidInput
    case Picked(n) =>
      if start < n <= start + |PageSlice(apps, page)| then Launch(apps[n - 1]) else InvalidNumber
    case Unreadable => InvalidInput
  }

  /** On the first page the printed numbers are the positions, so the
      corrected step does what the code does; the two differ only in how a
      number is read from the second page on. */
  lemma PageStepFirstPage(apps: seq<Record>, key: PageKey)
    ensures PageStep(apps, 0, key) == PageStepAsWritten(apps, 0, key)
    ensures forall page: nat :: !key.Picked? ==> PageStep(apps, page, key) == PageStepAsWritten(apps, page, key)
  {
  }

  /** A launch picks an entry of the shown page, and turning the page
      from a page that shows entries leads to a page that shows entries. */
  lemma PageStepSound(apps: seq<Record>, page: nat, key: PageKey)
    requires PageSlice(apps, page) != []
    ensures PageStep(apps, page, key).Launch? ==>
              key.Picked? && 1 <= key.n - page * PageSize <= |PageSlice(apps, page)|
              && PageStep(apps, page, key).app == PageSlice(apps, page)[key.n - page * PageSize - 1]
    ensures PageStep(apps, page, key).Turn? ==> PageSlice(apps, PageStep(apps, page, key).page) != []
    ensures key == Next ==> (PageStep(apps, page, key).Turn? <==> (page + 1) * PageSize < |apps|)
    ensures key == Previous ==> (PageStep(apps, page, key).Turn? <==> page > 0)
  {
  }

  /** Typing the number printed beside an entry of the shown page, on any
      page, launches that entry. */
  lemma PickShown(apps: seq<Record>, page: nat, n: nat)
    requires 1 <= n <= |PageSlice(apps, page)|
    ensures PageStep(apps, page, ParsePageKey(Numeral(page * PageSize + n))) == Launch(PageSlice(apps, page)[n - 1])
  {
    var start := page * PageSize;
    var m := start + n;
    assert start < m <= start + |PageSlice(apps, page)|;
    assert PageSlice(apps, page)[n - 1] == apps[m - 1];
    assert PageStep(apps, page, Picked(m)) == Launch(apps[m - 1]);
    NumeralPageKey(m);
  }

  /** A number typed as the page prints it is read as that number, not as
      one of the letter keys. */
  lemma NumeralPageKey(n: nat)
    ensures ParsePageKey(Numeral(n)) == Picked(n)
  {
    var s := Numeral(n);
    StripDigits(s);
    LowerDigits(s);
    assert Lower(Strip(s)) == s;
    assert '0' <= s[0] <= '9';
    assert s != "q" && s != "b" && s != "s" && s != "n" && s != "p" by {
      assert s[0] != 'q' && s[0] != 'b' && s[0] != 's' && s[0] != 'n' && s[0] != 'p';
    }
    ParseNumeral(n);
    assert ParseInt(s) == Some(n);
  }

  /** Digits are unchanged by lowering. */
  lemma LowerDigits(s: string)
    requires IsDigits(s)
    ensures Lower(s) == s
  {
  }

  /** The page shown after an action: the turned-to page, or page 0 again
      once the inner loop was left for the outer one. */
  function PageAfter(action: PageAction, page: nat): nat {
    if action.Turn? then action.page else 0
  }

  /** `pages` and `actions` record how `show_category_apps` went over the
      first keys: it starts on page 0, shows a page with entries before each
      key, does what `PageStep` says with it and then shows `PageAfter`. */
  ghost predicate Walk(apps: seq<Record>, keys: seq<PageKey>, pages: seq<nat>, actions: seq<PageAction>) {
    && |pages| == |actions| <= |keys|
    && (|pages| > 0 ==> pages[0] == 0)
    && (forall i :: 0 <= i < |pages| ==> PageSlice(apps, pages[i]) != [])
    && (forall i :: 0 <= i < |actions| ==> actions[i] == PageStep(apps, pages[i], keys[i]))
    && (forall i :: 0 <= i < |actions| - 1 ==> pages[i + 1] == PageAfter(actions[i], pages[i]))
  }

  /** Showing `page` next and taking the next key extends the walk. */
  lemma WalkStep(apps: seq<Record>, keys: seq<PageKey>, pages: seq<nat>, actions: seq<PageAction>, page: nat)
    requires Walk(apps, keys, pages, actions) && |actions| < |keys|
    requires PageSlice(apps, page) != []
    requires |pages| == 0 ==> page == 0
    requires |pages| > 0 ==> page == PageAfter(actions[|actions| - 1], pages[|pages| - 1])
    ensures Walk(apps, keys, pages + [page], actions + [PageStep(apps, page, keys[|actions|])])
  {
    var k := |actions|;
    var ps := pages + [page];
    var acts := actions + [PageStep(apps, page, keys[k])];
    forall i | 0 <= i < k + 1 ensures PageSlice(apps, ps[i]) != [] {
      if i < k { assert ps[i] == pages[i]; }
    }
    forall i | 0 <= i < k + 1 ensures acts[i] == PageStep(apps, ps[i], keys[i]) {
      if i < k { assert acts[i] == actions[i] && ps[i] == pages[i]; }
    }
    forall i | 0 <= i < k ensures ps[i + 1] == PageAfter(acts[i], ps[i]) {
      assert acts[i] == actions[i] && ps[i] == pages[i];
      if i < k - 1 {
        assert ps[i + 1] == pages[i + 1];
      } else {
        assert ps[i + 1] == page;
      }
    }
  }

  /** `show_category_apps` over a series of typed keys: before each key it
      shows `pages[i]`, and `actions[i]` is what the key did. It stops at
      `q` or `b`, or when the keys run out. */
  method BrowseCategory(apps: seq<Record>, keys: seq<PageKey>) returns (pages: seq<nat>, actions: seq<PageAction>)
    requires apps != []
    ensures |pages| == |actions| <= |keys|
    ensures |pages| > 0 ==> pages[0] == 0
    ensures forall i :: 0 <= i < |pages| ==> PageSlice(apps, pages[i]) != []
    ensures forall i :: 0 <= i < |actions| ==> actions[i] == PageStep(apps, pages[i], keys[i])
    ensures forall i :: 0 <= i < |actions| - 1 ==> pages[i + 1] == PageAfter(actions[i], pages[i])
    ensures forall i :: 0 <= i < |actions| - 1 ==> actions[i] != Leave
    ensures |actions| < |keys| ==> |actions| > 0 && actions[|actions| - 1] == Leave
  {
    pages, actions := [], [];
    var page: nat := 0;
    var k := 0;
    while k < |keys|
      invariant k == |pages| == |actions| <= |keys|
      invariant Walk(apps, keys, pages, actions)
      invariant PageSlice(apps, page) != []
      invariant k == 0 ==> page == 0
      invariant k > 0 ==> page == PageAfter(actions[k - 1], pages[k - 1])
      invariant forall i :: 0 <= i < k ==> actions[i] != Leave
    {
      var action := PageStep(apps, page, keys[k]);
      PageStepSound(apps, page, keys[k]);
      WalkStep(apps, keys, pages, actions, page);
      pages := pages + [page];
      actions := actions + [action];
      k := k + 1;
      if action == Leave {
        return;
      }
      page := PageAfter(action, page);
    }
  }

  /** The inner loop of `search_applications`: one category's matches,
      each paired with the category. */
  method CategoryMatches(category: string, apps: seq<Record>, query: string) returns (pairs: seq<(string, Record)>)
    ensures pairs == PairsIn(category, apps, query)
  {
    pairs := [];
    var j := 0;
    while j < |apps|
      invariant 0 <= j <= |apps|
      invariant pairs == PairsIn(category, apps[..j], query)
    {
      assert apps[..j + 1][..j] == apps[..j];
      if MatchesSearch(apps[j], query) {
        pairs := pairs + [(category, apps[j])];
      }
      j := j + 1;
    }
    assert apps[..j] == apps;
  }

  /** `SmartCLILauncher`: the catalog it keeps between menus. */
  class SmartCliLauncher {
    var applications: Dict<seq<Record>>
    var currentCategory: string

    ghost predicate Valid()
      reads this
    {
      applications.Valid() && StoresNonEmpty(applications)
    }

    constructor ()
      ensures Valid() && applications == Empty() && currentCategory == ""
    {
      applications := Empty();
      currentCategory := "";
    }

    /** `load_applications`: stores each non-empty list of the detector's
        output over what was stored before, and counts the stored entries. */
    method LoadApplications(detected: Dict<seq<Record>>) returns (totalApps: nat)
      requires Valid() && detected.Valid()
      modifies this
      ensures Valid()
      ensures applications == PutAll(old(applications), NonEmpty(Items(detected)))
      ensures totalApps == TotalLength(Items(detected))
      ensures currentCategory == old(currentCategory)
    {
      ghost var before := applications;
      totalApps := 0;
      var i := 0;
      LoadedInit(before, detected);
      while i < |detected.keys|
        invariant 0 <= i <= |detected.keys|
        invariant LoadedUpTo(before, detected, i, applications, totalApps)
        invariant currentCategory == old(currentCategory)
      {
        var category := detected.keys[i];
        var apps := detected.vals[category];
        LoadStep(before, detected, i, applications, totalApps);
        if apps != [] {
          applications := Put(applications, category, apps);
          totalApps := totalApps + |apps|;
        }
        i := i + 1;
      }
      LoadedAll(before, detected, applications, totalApps);
    }

    /** `search_applications` up to the listing: nothing for a blank query,
        otherwise every matching `(category, app)` pair. */
    method SearchApplications(line: string) returns (found: seq<(string, Record)>)
      requires Valid()
      ensures var query := Strip(line);
              found == if query == [] then [] else MatchingPairs(applications.vals, applications.keys, query)
    {
      var query := Strip(line);
      found := [];
      if query == [] {
        return;
      }
      var i := 0;
      while i < |applications.keys|
        invariant 0 <= i <= |applications.keys|
        invariant found == MatchingPairs(applications.vals, applications.keys[..i], query)
      {
        var category := applications.keys[i];
        var apps := applications.vals[category];
        MatchingPairsStep(applications.vals, applications.keys, i, query);
        var pairs := CategoryMatches(category, apps, query);
        found := found + pairs;
        i := i + 1;
      }
      TakeAll(applications.keys);
    }

    /** `search_in_category` up to the listing: nothing for a blank query,
        otherwise the category's matching entries in order. */
    method SearchInCategory(category: string, line: string) returns (found: seq<Record>)
      requires Valid() && category in applications.vals
      ensures var query := Strip(line);
              found == if query == [] then [] else MatchingIn(applications.vals[category], query)
    {
      var query := Strip(line);
      if query == [] {
        return [];
      }
      var apps := applications.vals[category];
      found := [];
      var j := 0;
      while j < |apps|
        invariant 0 <= j <= |apps|
        invariant found == MatchingIn(apps[..j], query)
      {
        MatchingInStep(apps, j, query);
        if MatchesSearch(apps[j], query) {
          found := found + [apps[j]];
        }
        j := j + 1;
      }
      assert apps[..j] == apps;
    }
  }

  /** Loading one more list of the detector's output stores it when it is
      not empty and does nothing otherwise. */
  lemma LoadOne(before: Dict<seq<Record>>, detected: Dict<seq<Record>>, m: nat)
    requires before.Valid() && detected.Valid() && m < |detected.keys|
    ensures var key := detected.keys[m];
            var mid := PutAll(before, NonEmpty(Items(detected)[..m]));
            PutAll(before, NonEmpty(Items(detected)[..m + 1]))
              == if detected.vals[key] != [] then Put(mid, key, detected.vals[key]) else mid
  {
    var items := Items(detected);
    var key := detected.keys[m];
    ItemsTake(detected, m);
    NonEmptySnoc(items[..m], (key, detected.vals[key]));
    if detected.vals[key] != [] {
      PutAllSnoc(before, NonEmpty(items[..m]), (key, detected.vals[key]));
    }
  }

  /** The state of `load_applications` after the first `i` lists of the
      detector's output: those that are not empty are stored over `before`,
      and `total` counts their entries. */
  ghost predicate LoadedUpTo(before: Dict<seq<Record>>, detected: Dict<seq<Record>>, i: nat,
                             d: Dict<seq<Record>>, total: nat)
    requires before.Valid() && detected.Valid() && i <= |detected.keys|
  {
    && d.Valid() && StoresNonEmpty(d)
    && d == PutAll(before, NonEmpty(Items(detected)[..i]))
    && total == TotalLength(NonEmpty(Items(detected)[..i]))
  }

  lemma LoadedInit(before: Dict<seq<Record>>, detected: Dict<seq<Record>>)
    requires before.Valid() && detected.Valid() && StoresNonEmpty(before)
    ensures LoadedUpTo(before, detected, 0, before, 0)
  {
    assert Items(detected)[..0] == [];
  }

  /** Loading list `i` stores it when it is not empty and counts its entries. */
  lemma LoadStep(before: Dict<seq<Record>>, detected: Dict<seq<Record>>, i: nat,
                 d: Dict<seq<Record>>, total: nat)
    requires before.Valid() && detected.Valid() && i < |detected.keys|
    requires LoadedUpTo(before, detected, i, d, total)
    ensures var category := detected.keys[i];
            var apps := detected.vals[category];
            if apps != [] then LoadedUpTo(before, detected, i + 1, Put(d, category, apps), total + |apps|)
            else LoadedUpTo(before, detected, i + 1, d, total)
  {
    var category := detected.keys[i];
    var apps := detected.vals[category];
    LoadOne(before, detected, i);
    ItemsTake(detected, i);
    TotalLengthSnoc(Items(detected)[..i], (category, apps));
    if apps != [] {
      StoresNonEmptyPut(d, category, apps);
    }
  }

  lemma LoadedAll(before: Dict<seq<Record>>, detected: Dict<seq<Record>>, d: Dict<seq<Record>>, total: nat)
    requires before.Valid() && detected.Valid()
    requires LoadedUpTo(before, detected, |detected.keys|, d, total)
    ensures d.Valid() && StoresNonEmpty(d)
    ensures d == PutAll(before, NonEmpty(Items(detected)))
    ensures total == TotalLength(Items(detected))
  {
    var ps := Items(detected);
    TakeAll(ps);
    TotalLengthNonEmpty(ps);
  }

  /** Loading one more list adds its length to the count when it is stored. */
  lemma TotalLengthSnoc(ps: seq<(string, seq<Record>)>, p: (string, seq<Record>))
    ensures TotalLength(NonEmpty(ps + [p])) == TotalLength(NonEmpty(ps)) + if p.1 != [] then |p.1| else 0
  {
    NonEmptySnoc(ps, p);
    if p.1 != [] {
      var q := NonEmpty(ps);
      assert (q + [p])[..|q|] == q;
    }
  }

  lemma NonEmptySnoc(ps: seq<(string, seq<Record>)>, p: (string, seq<Record>))
    ensures NonEmpty(ps + [p]) == if p.1 != [] then NonEmpty(ps) + [p] else NonEmpty(ps)
  {
    assert (ps + [p])[..|ps|] == ps;
  }

  /** Loading the first `n` lists of the detector's output over `before`. */
  lemma {:induction false} LoadedPrefix(before: Dict<seq<Record>>, detected: Dict<seq<Record>>, n: nat, c: string)
    requires before.Valid() && detected.Valid() && n <= |detected.keys|
    ensures var after := PutAll(before, NonEmpty(Items(detected)[..n]));
            var hit := c in detected.keys[..n] && detected.vals[c] != [];
            (c in after.vals <==> c in before.vals || hit)
            && (hit ==> after.vals[c] == detected.vals[c])
            && (!hit && c in before.vals ==> after.vals[c] == before.vals[c])
    decreases n
  {
    if n == 0 {
      assert Items(detected)[..0] == [];
    } else {
      var m := n - 1;
      LoadedPrefix(before, detected, m, c);
      LoadOne(before, detected, m);
      KeyListedOnce(detected, m);
      assert detected.keys[..n] == detected.keys[..m] + [detected.keys[m]];
    }
  }

  /** After loading, a category is stored when it was stored before or the
      detector found entries for it; a category with entries takes the new
      list, and one without keeps the old, since the catalog is never
      cleared. */
  lemma LoadedCategories(before: Dict<seq<Record>>, detected: Dict<seq<Record>>, c: string)
    requires before.Valid() && detected.Valid()
    ensures var after := PutAll(before, NonEmpty(Items(detected)));
            var hit := c in detected.vals && detected.vals[c] != [];
            (c in after.vals <==> c in before.vals || hit)
            && (hit ==> after.vals[c] == detected.vals[c])
            && (!hit && c in before.vals ==> after.vals[c] == before.vals[c])
  {
    var n := |detected.keys|;
    LoadedPrefix(before, detected, n, c);
    assert Items(detected)[..n] == Items(detected);
    assert detected.keys[..n] == detected.keys;
  }
}
