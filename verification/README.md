# Smart application launcher: discovery, catalog and query model

A Dafny model of the application discovery and categorisation engine of the
smart application launcher, and of the two front ends that query it.

The engine is `ApplicationDetector` in `bulletproof_launcher.py`. It does four things:

- It reads `.desktop` descriptors (freedesktop.org Desktop Entry files).
- It scans the directories of `PATH` for executables, with a cap of 1000 admissions.
- It merges the two name-keyed dictionaries, with the `PATH` entry taking a shared name.
- It files every entry under the first category of a fixed keyword table and sorts each category list by lowercased name.

On top of it sit two front ends:

- The graphical window (`BulletproofLauncher`) has a scoped substring search (`filter_apps`), a description shortener for cards and a guarded launch.
- The terminal launcher (`SmartCLILauncher` in `smart_cli_launcher.py`) adds:
  - loading of the non-empty categories;
  - a case-insensitive search over one category or all of them;
  - a numbered main menu;
  - 20-entry pages with next/previous navigation;
  - a confirmed launch.

The modules follow the program:

| module | file | what it holds |
|---|---|---|
| `Text` | text.dfy | `str.isspace`, ASCII `lower`, `in`, `strip`, `split()[0]`, `split(sep)` |
| `Apps` | apps.dfy | the entry records and the spawn result |
| `OrderedDict` | ordered_dict.dfy | Python's insertion-ordered `dict`: assignment, a series of assignments, `{**a, **b}` |
| `Categorizer` | categorizer.dfy | the keyword table and `_categorize_application` |
| `DesktopScan` | desktop_scan.dfy | `_scan_desktop_files` |
| `PathScan` | path_scan.dfy | `_scan_path_commands` |
| `NameOrder` | name_order.dfy | the order `list.sort(key=lambda x: x['name'].lower())` produces |
| `Detector` | detector.dfy | `detect_applications` |
| `BulletproofLauncher` | bulletproof_launcher.dfy | `filter_apps`, its window state, `AppCard`'s description, `launch_app` |
| `SmartCli` | smart_cli_launcher.dfy | `SmartCLILauncher` |

The file system, `configparser`, the environment, the keyboard and
`subprocess.Popen` are all inputs:

- A desktop directory is absent or lists its descriptors. Each descriptor is what the parser made of it: unreadable, no `[Desktop Entry]` group, or a key map whose lookups may raise.
- `PATH` is a string. The file system maps a directory to missing, or to its entries (name, regular file, executable) and whether listing raised.
- A typed line is a string.
- A spawn is `Started` or `SpawnFailed(reason)`.

Behaviours worth knowing:

- On a name found by both scans, the `PATH` entry replaces the descriptor entry (`{**desktop_apps, **path_apps}`, line 66).
- Within the descriptor scan a later file with the same name replaces the earlier one (line 115).
- A descriptor with no or an empty `Exec` is kept, with an empty command (lines 109-113).
- The `'All'` view is the category lists joined in dictionary order (lines 565-568). It is not re-sorted.
- The `PATH` cap counts admissions, not distinct names. The same executable name in two `PATH` directories is admitted twice but stored once, so the result can hold fewer than 1000 names even when more than 1000 distinct names exist.
- `detect_applications` returns all nine categories, including empty ones. Only the terminal launcher drops the empty ones.
- A category page numbers its entries from `start_idx + 1` (`smart_cli_launcher.py`, line 103) but reads a typed number as a position on the page (lines 139-140). From the second page on, no printed number is accepted (see Findings).

## Model

| member | source | states |
|---|---|---|
| Text.Strip | bulletproof_launcher.py:562 | the result is a slice of the input with only whitespace cut away at both ends, and has no whitespace at either end; it is empty exactly when the input is all whitespace |
| Text.FirstToken | bulletproof_launcher.py:113 | `split()[0]`: none exactly when the text is all whitespace (where Python raises `IndexError`), otherwise the first whitespace-delimited token |
| Text.JoinSplit | bulletproof_launcher.py:129 | joining the pieces of `split(':')` with `':'` gives back the `PATH` string |
| Text.SplitJoin | bulletproof_launcher.py:129 | splitting a join of colon-free pieces gives back the pieces |
| Text.LowerIdempotent | smart_cli_launcher.py:222-227 | lowering an already lowered query changes nothing |
| OrderedDict.Put | bulletproof_launcher.py:115-119 | `d[k] = v`: the key maps to `v`, a new key goes to the end, an existing key keeps its place |
| OrderedDict.PutAllLookup | bulletproof_launcher.py:153-157 | after a series of assignments a key is present exactly when it was present or assigned, and its value is that of the last assignment to it |
| OrderedDict.PutAllOrder | bulletproof_launcher.py:115 | the keys after a series of assignments are the old keys followed by the new keys in order of first assignment |
| OrderedDict.PutAllSize | bulletproof_launcher.py:153-157 | a series of assignments adds at most one key per assignment, and exactly one when the keys are new and distinct |
| OrderedDict.MergeLookup | bulletproof_launcher.py:66 | `{**a, **b}` has the union of the keys; a key of `b` takes `b`'s value and any other keeps `a`'s; the order is `a`'s keys and then `b`'s new keys |
| Categorizer.OrderShape | bulletproof_launcher.py:52-55 | the result's categories are the eight table names in declaration order followed by `'Other'`, each listed once |
| Categorizer.FirstMatch | bulletproof_launcher.py:171-176 | the index of the first category that has a keyword contained in the lowercased name, description or command; no earlier category has one |
| Categorizer.FirstMatchUnique | bulletproof_launcher.py:171-176 | that first matching category is unique, so classification is deterministic |
| Categorizer.Classify | bulletproof_launcher.py:165-178 | the category is always one of the eight table names or `'Other'` |
| Categorizer.ClassifyFirstMatch | bulletproof_launcher.py:171-178 | an entry gets a table category exactly when that category matches and no earlier one does, and gets `'Other'` exactly when no category matches |
| Categorizer.FieldOrderIrrelevant | bulletproof_launcher.py:173-175 | swapping which field holds which text does not change the category: every keyword is tried on all three fields before the next keyword |
| Categorizer.GimpShadowsGraphics | bulletproof_launcher.py:42-44 | a name containing `gimp` is filed no later than Media, so Graphics' own `gimp` keyword never decides |
| Categorizer.CategorizeApplication | bulletproof_launcher.py:165-178 | the nested loop returns the classification of the name, the stored description and the stored command |
| DesktopScan.ReadEntry | bulletproof_launcher.py:97-122 | a descriptor is skipped exactly when it is unreadable, lacks `[Desktop Entry]`, has `NoDisplay` lowered equal to `true`, has a raising lookup or has a non-empty all-whitespace `Exec`, so one with no or an empty `Exec` is kept; an admitted one yields the name (`Name`, else the stem), the first token of `Exec` (empty for an absent or empty `Exec`) and the description (`Comment`, else `GenericName`, else `Desktop Application`) |
| DesktopScan.FilePairsRead | bulletproof_launcher.py:96-122 | every pair one directory stores was read from one of its files |
| DesktopScan.DirPairsRead | bulletproof_launcher.py:92-122 | every pair the scan stores was read from a file of a present directory |
| DesktopScan.FilePairsComplete | bulletproof_launcher.py:96-119 | every file a directory admits contributes its pair to that directory's pairs |
| DesktopScan.DirPairsComplete | bulletproof_launcher.py:92-119 | a pair a present directory contributes is among the pairs of the whole scan |
| DesktopScan.AdmittedStored | bulletproof_launcher.py:92-119 | every descriptor a present directory admits contributes its pair to the scan, and its name is stored |
| DesktopScan.DesktopApps | bulletproof_launcher.py:83-124 | the dictionary of the collected pairs, assigned in scan order; it holds at most one name per collected pair |
| DesktopScan.DesktopAppsLookup | bulletproof_launcher.py:115-119 | a name is stored exactly when some file yielded it; the last file to yield it decides its entry, and that entry was read from a file |
| DesktopScan.ScanDirectoryFiles | bulletproof_launcher.py:96-122 | the inner loop over one present directory stores each admitted file's pair, in file order, over what earlier directories stored |
| DesktopScan.ScanDesktopFiles | bulletproof_launcher.py:83-124 | the nested loop over directories and files returns the dictionary of the stored pairs |
| PathScan.PathApps | bulletproof_launcher.py:126-163 | the dictionary of the first admissions along `PATH`; it never holds more than 1000 names |
| PathScan.Listings | bulletproof_launcher.py:129 | one listing per piece of `PATH.split(':')` |
| PathScan.AdmittedNames | bulletproof_launcher.py:147-152 | the admitted names are at most as many as the entries looked at |
| PathScan.AdmittedNamesSound | bulletproof_launcher.py:147-152 | every admitted name is the name of a regular, executable entry not starting with `.` and longer than two characters, and every such entry's name is admitted |
| PathScan.ScanDirectory | bulletproof_launcher.py:143-158 | the inner loop admits the next entries until the cap; it stops early only at the cap, right after an admission |
| PathScan.VisitDirectory | bulletproof_launcher.py:139-161 | one directory visited below the cap keeps the scan state: a missing directory adds nothing, a listed one (even one whose listing raised) is scanned up to the cap, and the admissions so far are still exactly those among the entries looked at |
| PathScan.ScanDirectories | bulletproof_launcher.py:129-161 | the outer loop over the pieces of `PATH` leaves directories unvisited only at the cap, and then the admission that reached the cap was among the entries of the last directory visited |
| PathScan.ScanPathCommands | bulletproof_launcher.py:126-163 | the result stores exactly the first `min(1000, admissible)` admissions; `count` is that number and never exceeds 1000; entries or directories are left unvisited only when the cap was reached, no entry is looked at after the admission that reached it, and no directory after the one holding it |
| PathScan.FirstAdmissionsContents | bulletproof_launcher.py:152-157 | every stored name maps to itself as command with `Command line tool` and is an admissible entry's name; the keys are exactly the first `min(1000, admissions)` admitted names; below the cap every admissible name is stored |
| PathScan.FirstAdmissionsSize | bulletproof_launcher.py:132-158 | `len(apps) <= count <= 1000`, with equality when the admitted names are distinct |
| NameOrder.LexLeTotal | bulletproof_launcher.py:79 | any two lowercased names are ordered one way or the other |
| NameOrder.LexLeTransitive | bulletproof_launcher.py:79 | the name order is transitive |
| NameOrder.LexLeAntisymmetric | bulletproof_launcher.py:79 | names ordered both ways are equal |
| NameOrder.SortByNameSorted | bulletproof_launcher.py:78-79 | the sorted list is non-decreasing by lowercased name and is a permutation of the input |
| NameOrder.SortByNameStable | bulletproof_launcher.py:78-79 | the entries sharing a lowercased name keep their relative order |
| Detector.Catalog | bulletproof_launcher.py:52-81 | the catalog of merged entries: the nine categories in table order, each list as long as that category's share of the entries |
| Detector.MergePrecedence | bulletproof_launcher.py:66 | the merged names are the union of both scans' names; a `PATH` name carries the command-line entry; a descriptor-only name keeps its descriptor entry |
| Detector.EntriesDistinct | bulletproof_launcher.py:66-75 | the merged entries have distinct names, and an entry is among them exactly when its name is a merged key carrying its fields |
| Detector.EmptyLists | bulletproof_launcher.py:52-55 | one empty list per category, in table order with `'Other'` last |
| Detector.FileEntries | bulletproof_launcher.py:68-75 | after the loop each list is its old contents followed by the merged entries of its category, in merge order |
| Detector.SortLists | bulletproof_launcher.py:78-79 | every list is replaced by its sorted form and the keys are unchanged |
| Detector.DetectApplications | bulletproof_launcher.py:48-81 | the result is the catalog of the merged scans: all nine categories, each list the sorted entries of that category |
| Detector.CatalogExactlyOnce | bulletproof_launcher.py:68-75 | every merged entry is listed exactly once, under its own category, and nothing else is listed |
| Detector.CatalogTotal | bulletproof_launcher.py:68-75 | the lists hold as many entries between them as the merged dictionary has names |
| Detector.CatalogSorted | bulletproof_launcher.py:78-79 | each list is sorted by lowercased name, is a permutation of its category's entries, and keeps merge order among equal names |
| BulletproofLauncher.Concat | bulletproof_launcher.py:565-568 | the joined lists hold exactly the entries of the listed categories |
| BulletproofLauncher.Window.constructor | bulletproof_launcher.py:266-270 | a new window has an empty catalog, `'All'` selected and an empty search |
| BulletproofLauncher.Window.FilterApps | bulletproof_launcher.py:560-582 | the listed entries are the scope for an empty lowered and stripped query, and otherwise the scope's entries matching it, with the description read from `'description'` (see Findings); nothing else changes |
| BulletproofLauncher.Window.SetCategory | bulletproof_launcher.py:527-558 | selecting a category lists that category's entries under the current search |
| BulletproofLauncher.Window.SetSearchText | bulletproof_launcher.py:412 | editing the search box lists the current scope under the new text |
| BulletproofLauncher.Window.OnAppsLoaded | bulletproof_launcher.py:499-525 | the loaded catalog is stored and `'All'` is shown |
| BulletproofLauncher.CollectScope | bulletproof_launcher.py:564-570 | for `'All'` every list joined in category order, else the category's list or nothing for an unknown category |
| BulletproofLauncher.Filter | bulletproof_launcher.py:573-580 | the search over a scope keeps only entries of the scope that match the query, and at most as many as the scope has |
| BulletproofLauncher.FilterAsWritten | bulletproof_launcher.py:573-580 | the loop as written, reading `app['desc']`: when it does not raise, it lists the whole scope, so it never filters anything out |
| BulletproofLauncher.SearchLoop | bulletproof_launcher.py:573-580 | the loop keeps exactly the entries whose name, description or command contains the query, in order (description read from `'description'`) |
| BulletproofLauncher.FilterMembership | bulletproof_launcher.py:573-580 | an entry is kept exactly when it is in the scope and matches |
| BulletproofLauncher.FilterConcat | bulletproof_launcher.py:573-580 | filtering preserves order: filtering a join is joining the filtered parts |
| BulletproofLauncher.FilterConcatLists | bulletproof_launcher.py:565-580 | the searched `'All'` view is every category list searched in turn, in category order, not re-sorted |
| BulletproofLauncher.FilterEmptyQuery | bulletproof_launcher.py:573 | the empty query matches everything, so skipping the loop for it returns the scope unchanged |
| BulletproofLauncher.ShownAll | bulletproof_launcher.py:565-580 | an entry is listed for `'All'` exactly when some category holds it and it matches the query, or the query is empty |
| BulletproofLauncher.FilterAsWrittenRaises | bulletproof_launcher.py:575-579 | the loop as written raises `KeyError` exactly when some entry's name lacks the query, and otherwise lists the whole scope |
| BulletproofLauncher.FilterAsWrittenCounterexample | bulletproof_launcher.py:577 | searching `browser` over the Firefox entry (`Web Browser`) raises as written, while the corrected search lists it |
| BulletproofLauncher.CardDescription | bulletproof_launcher.py:233-235 | a card's description has at most 50 characters; it is the description when that fits, and otherwise exactly 50: the first 47 characters and `...` |
| BulletproofLauncher.LaunchApp | bulletproof_launcher.py:620-637 | no process is started exactly when the command is empty; otherwise the outcome is the spawn's, reported under the entry's name |
| SmartCli.MatchesSearch | smart_cli_launcher.py:220-228 | `matches_search` over the `.get` fields with `''` defaults; the empty query matches every record |
| SmartCli.MatchesSearchBasics | smart_cli_launcher.py:220-228 | the empty query matches every record, and the query's case does not matter |
| SmartCli.MatchesSearchAgrees | smart_cli_launcher.py:220-228 | on a catalog entry the terminal search agrees with the window's search on the lowered query |
| SmartCli.NonEmpty | smart_cli_launcher.py:33-34 | only pairs with a non-empty list are kept, each one from the input |
| SmartCli.TotalLengthNonEmpty | smart_cli_launcher.py:32-36 | skipping the empty lists does not change the count of entries |
| SmartCli.SmartCliLauncher.constructor | smart_cli_launcher.py:22-25 | a new launcher has an empty catalog and no category |
| SmartCli.SmartCliLauncher.LoadApplications | smart_cli_launcher.py:27-38 | the non-empty lists are stored over the old catalog in detector order; `total_apps` is the number of detected entries; every stored list stays non-empty |
| SmartCli.LoadedCategories | smart_cli_launcher.py:32-36 | after loading, a category is stored exactly when it was stored before or was detected with entries; a detected non-empty list replaces the old one; any other stored list is kept, since the catalog is never cleared |
| SmartCli.SmartCliLauncher.SearchApplications | smart_cli_launcher.py:153-163 | a blank query finds nothing; otherwise the matching `(category, entry)` pairs in category order and then list order |
| SmartCli.CategoryMatches | smart_cli_launcher.py:161-163 | one category's matching entries, paired with it, in order |
| SmartCli.MatchingPairsMembership | smart_cli_launcher.py:159-163 | a pair is found exactly when its category is stored and its entry is in that category's list and matches |
| SmartCli.SmartCliLauncher.SearchInCategory | smart_cli_launcher.py:188-195 | a blank query finds nothing; otherwise the category's matching entries in order |
| SmartCli.MatchingInMembership | smart_cli_launcher.py:195 | an entry is found exactly when it is in the list and matches |
| SmartCli.ParseNumeral | smart_cli_launcher.py:64 | `int()` reads a printed number back as that number |
| SmartCli.Pick | smart_cli_launcher.py:178-186 | an entry is picked exactly when the stripped line reads as a number from 1 to the list length, and it is the entry with that number |
| SmartCli.LaunchApplication | smart_cli_launcher.py:230-251 | a record lacking a name, command or description raises before asking; otherwise the command runs exactly when the stripped, lowered answer is `y` or `yes`, with the spawn's outcome |
| SmartCli.MainMenuAction | smart_cli_launcher.py:58-81 | one dispatch of the main menu: an opened category is one of those listed, a blank line redisplays, and the menu is left exactly for a non-number, an interrupt or the exit number |
| SmartCli.MainMenuNumbers | smart_cli_launcher.py:66-77 | numbers 1 to k open the categories in order, k+1 searches, k+2 rescans, k+3 exits, and every other number is invalid |
| SmartCli.NumeralChoice | smart_cli_launcher.py:58-64 | typing a number as the menu prints it selects that number |
| SmartCli.PageSlice | smart_cli_launcher.py:92-101 | page `p` is `apps[20p : 20p+20]`: entry `i` of the page is `apps[20p+i]`, and the page holds 20 entries or as many as remain past `20p`, so it is empty exactly when `20p >= len(apps)` |
| SmartCli.ParsePageKey | smart_cli_launcher.py:120-138 | a line is a number choice exactly when, stripped and lowered, it is not one of the letter options and reads as an integer |
| SmartCli.PageStepAsWritten | smart_cli_launcher.py:119-145 | one key on a category page as the code reads it: the page is left exactly on `q` or `b`, and a launch picks entry `n` of the shown page for a typed `n` from 1 to the page length |
| SmartCli.PickPosition | smart_cli_launcher.py:136-141 | as written, typing `n` launches the `n`-th entry of the shown page |
| SmartCli.PrintedNumberRejected | smart_cli_launcher.py:103-143 | as written, from the second page on every number printed beside an entry is rejected as an invalid application number |
| SmartCli.PageStep | smart_cli_launcher.py:103-145 | one key on a category page with a typed number read as the page prints it: the page is left exactly on `q` or `b`, and a launch picks `apps[n-1]` for a number `n` the page shows |
| SmartCli.PageStepFirstPage | smart_cli_launcher.py:103-145 | on the first page the corrected step and the code agree on every key, and on every page they agree on every key but a number |
| SmartCli.PageStepSound | smart_cli_launcher.py:111-141 | a launch picks the shown entry printed with the typed number; next is taken exactly when a further page exists and previous exactly when the page is not the first, so a shown page is never empty |
| SmartCli.NumeralPageKey | smart_cli_launcher.py:119-138 | a number typed as the page prints it is read as that number and never as one of the letter keys |
| SmartCli.PickShown | smart_cli_launcher.py:103-141 | with numbers read as printed, typing the number printed beside an entry of any page launches that entry |
| SmartCli.BrowseCategory | smart_cli_launcher.py:83-151 | the page loop starts on page 0, shows a non-empty page before every key, does what the corrected step says with the key, returns to page 0 after a search, launch or invalid input, and stops at `q` or `b` |

## Left out

- The Qt user interface: the sidebar, the stylesheets, the card grid of `display_apps`, card events and the statistics text of `on_apps_loaded`.
- The background loading with `QThread` and `AppLoader`. It is concurrency, and it calls `detect_apps`, a method that does not exist.
- `BulletproofLauncher.__init__` creates `AppDetector()`, a class that does not exist. The window model starts from the state that constructor would set.
- The real file system, `os.environ`, the `configparser` parser and `subprocess.Popen` are inputs. The order of `glob`/`iterdir` is whatever the input lists.
- Reading and printing in the terminal launcher: banners, the truncated name and description columns, the `Press Enter` pauses. `KeyboardInterrupt` is modelled only where the menu treats it as a non-number.
- The terminal launcher's `ApplicationDetector` comes from a `smart_launcher` module that is not part of this model. Its output is an input dictionary of text records.
- The page display reads `app['source']`, which records from `detect_applications` lack. Only the navigation and selection arithmetic are modelled, not the display.
- The outer loop of `show_main_menu` (a rescan and redisplay after each action) is not modelled as a loop. `MainMenuAction` models one dispatch.
- BulletproofLauncher.Window.FilterApps: searches the `'description'` field (`SearchLoop`). The code as written reads `app['desc']` at line 577 and raises `KeyError` (`FilterAsWritten`, see Findings). `SetCategory`, `SetSearchText` and `OnAppsLoaded` run `FilterApps` and inherit this.
- SmartCli.BrowseCategory: reads a typed number as the page prints it (`PageStep`). The code as written reads it as a position on the page (`PageStepAsWritten`); the two differ only from the second page on (see Findings).
- SmartCli.BrowseCategory: requires a non-empty list. On an empty list the source loops forever without reading a key, and no stored list is empty.
- SmartCli.ParseInt: accepts an optional sign and ASCII digits only. Python's `int()` also accepts `_` between digits and non-ASCII decimal digits.
- Text.Lower: lowers ASCII letters only. Python's `str.lower()` also lowers other Unicode letters.
- NameOrder.SortByName: the in-place `list.sort` is modelled as a function returning the sorted list. It is built by stable insertion rather than Timsort, and since a stable sort by a key has exactly one result, the two agree.
- `info.get('command', name)`, `info.get('description', 'Application')` and `info.get('type', 'unknown')` in `detect_applications`: the fallbacks never apply, because both scans store all three fields. The model reads the stored fields.
- PathScan.ScanPathCommands: its `count`, `inspected` and `visited` results are ghost. They only observe the scan.

## Findings

| source | as written | input that shows it | evidently intended | confidence | as-written member | corrected member |
|---|---|---|---|---|---|---|
| bulletproof_launcher.py:577 | the search reads `app['desc']`, a key no catalog entry has (entries carry `'description'`, line 73), so any non-empty search raises `KeyError` at the first entry whose name lacks the query; this only shows once two earlier failures are out of the way, since `AppDetector()` (line 268) and `detect_apps` (line 650) name nothing that exists, so as written the window never holds a catalog | searching `browser` with the Firefox entry (`Web Browser`) in scope | test the `'description'` field, as the terminal launcher's `matches_search` does | not executed | BulletproofLauncher.FilterAsWritten, BulletproofLauncher.FilterAsWrittenCounterexample | BulletproofLauncher.SearchLoop, BulletproofLauncher.Filter, BulletproofLauncher.Window.FilterApps |
| smart_cli_launcher.py:103-140 | the page prints `apps[i]` as `i + 1` (`enumerate(page_apps, start_idx + 1)`) but accepts only `1 <= app_num <= len(page_apps)` and launches `apps[start_idx + app_num - 1]`, so from the second page on every printed number is refused (only the prompt, line 120, speaks of positions `1-len(page_apps)`) | a category with 21 entries: the second page lists its one entry as `21.`, and typing `21` prints "Invalid application number" | accept the numbers the page prints, which the next-page hint (line 112) also uses | not executed | SmartCli.PageStepAsWritten, SmartCli.PrintedNumberRejected | SmartCli.PageStep, SmartCli.PickShown |
