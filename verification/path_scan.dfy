/** `ApplicationDetector._scan_path_commands`: executables found in the
    directories of `PATH`, with a cap on the number of admissions. The file
    system is an input: what `os.path.exists` and `Path(dir).iterdir()` show
    of each directory. */
module PathScan {
  import opened Text
  import opened Apps
  import opened OrderedDict

  /** One directory entry with what `is_file()` and `os.access(…, X_OK)`
      say of it. */
  datatype FileRec = FileRec(name: string, isFile: bool, isExec: bool)

  /** One `PATH` directory: missing, or the entries `iterdir()` yielded before
      it finished or raised `PermissionError`/`OSError` (`raised`). An
      unreadable directory is `Listed([], true)`. */
  datatype Listing = Missing | Listed(entries: seq<FileRec>, raised: bool)

  /** `max_commands`. */
  const MaxCommands: nat := 1000

  /** The description every `PATH` entry gets. */
  const CliDescription: string := "Command line tool"

  /** The admission test: a regular, executable file whose name does not
      start with `.` and is longer than two characters. */
  predicate Admissible(f: FileRec) {
    f.isFile && f.isExec && !(|f.name| > 0 && f.name[0] == '.') && |f.name| > 2
  }

  /** `os.path.exists(dir)` and listing: `''` never exists, nor does a path
      the file system lacks. */
  function Lookup(fs: map<string, Listing>, dir: string): Listing {
    if dir != "" && dir in fs then fs[dir] else Missing
  }

  /** The directories of `os.environ.get('PATH', '').split(':')`, as listings. */
  function Listings(path: string, fs: map<string, Listing>): (ls: seq<Listing>)
    ensures |ls| == |Split(path, ':')|
  {
    var dirs := Split(path, ':');
    seq(|dirs|, i requires 0 <= i < |dirs| => Lookup(fs, dirs[i]))
  }

  /** The entries of one directory the scan could look at. */
  function Entries(l: Listing): seq<FileRec> {
    match l
    case Missing => []
    case Listed(entries, _) => entries
  }

  /** Every entry the scan could look at, directory after directory. */
  function Visible(ls: seq<Listing>): seq<FileRec>
    decreases |ls|
  {
    if |ls| == 0 then [] else Entries(ls[0]) + Visible(ls[1..])
  }

  /** The names of the admissible entries of `fs`, in order. */
  function AdmittedNames(fs: seq<FileRec>): (names: seq<string>)
    ensures |names| <= |fs|
    decreases |fs|
  {
    if |fs| == 0 then []
    else
      var n := |fs| - 1;
      if Admissible(fs[n]) then AdmittedNames(fs[..n]) + [fs[n].name] else AdmittedNames(fs[..n])
  }

  /** The pair stored for each admitted name. */
  function CliPairs(names: seq<string>): (ps: seq<(string, Info)>)
    ensures |ps| == |names|
    ensures forall i :: 0 <= i < |ps| ==> ps[i] == (names[i], Info(names[i], CliDescription, Cli))
  {
    seq(|names|, i requires 0 <= i < |names| => (names[i], Info(names[i], CliDescription, Cli)))
  }

  function Min(a: nat, b: nat): nat {
    if a <= b then a else b
  }

  /** The first `MaxCommands` admissions among `all`, stored in order. */
  function FirstAdmissions(all: seq<FileRec>): (apps: Dict<Info>)
    ensures apps.Valid()
  {
    var names := AdmittedNames(all);
    PutAll(Empty(), CliPairs(names[..Min(MaxCommands, |names|)]))
  }

  /** The dictionary `_scan_path_commands` returns. */
  function PathApps(path: string, fs: map<string, Listing>): (apps: Dict<Info>)
    ensures apps.Valid()
    ensures |apps.keys| <= MaxCommands
  {
    FirstAdmissionsSize(Visible(Listings(path, fs)));
    FirstAdmissions(Visible(Listings(path, fs)))
  }

  lemma {:induction false} AdmittedAppend(a: seq<FileRec>, b: seq<FileRec>)
    ensures AdmittedNames(a + b) == AdmittedNames(a) + AdmittedNames(b)
    decreases |b|
  {
    if |b| == 0 {
      assert a + b == a;
    } else {
      var n := |b| - 1;
      AdmittedAppend(a, b[..n]);
      assert (a + b)[..|a + b| - 1] == a + b[..n];
      assert (a + b)[|a + b| - 1] == b[n];
    }
  }

  lemma CliPairsSnoc(names: seq<string>, name: string)
    ensures CliPairs(names + [name]) == CliPairs(names) + [(name, Info(name, CliDescription, Cli))]
  {
  }

  lemma SeenSnoc(seen0: seq<FileRec>, entries: seq<FileRec>, k: nat)
    requires k < |entries|
    ensures seen0 + entries[..k] + [entries[k]] == seen0 + entries[..k + 1]
  {
    assert entries[..k + 1] == entries[..k] + [entries[k]];
  }

  /** The last of the entries `seen` was admitted, and it lies beyond the
      first `from`. */
  ghost predicate EndsAdmitted(seen: seq<FileRec>, from: nat) {
    from < |seen| && Admissible(seen[|seen| - 1])
  }

  /** Looking at one more entry `f` admits it exactly when it is admissible. */
  lemma ScanEntryStep(seen: seq<FileRec>, f: FileRec)
    ensures |AdmittedNames(seen + [f])| == |AdmittedNames(seen)| + (if Admissible(f) then 1 else 0)
    ensures PutAll(Empty(), CliPairs(AdmittedNames(seen + [f])))
            == if Admissible(f) then Put(PutAll(Empty(), CliPairs(AdmittedNames(seen))), f.name, Info(f.name, CliDescription, Cli))
               else PutAll(Empty(), CliPairs(AdmittedNames(seen)))
  {
    assert (seen + [f])[..|seen|] == seen;
    if Admissible(f) {
      CliPairsSnoc(AdmittedNames(seen), f.name);
      var ps := CliPairs(AdmittedNames(seen) + [f.name]);
      assert ps[..|ps| - 1] == CliPairs(AdmittedNames(seen));
    }
  }

  /** The state of the scan of one directory's entries after the first `k`:
      `seen` extends `seen0` by them, and the count and the dictionary are
      those of the admitted names among `seen`. */
  ghost predicate EntriesScanned(seen0: seq<FileRec>, entries: seq<FileRec>, k: nat,
                                 admitted: nat, apps: Dict<Info>, seen: seq<FileRec>) {
    && k <= |entries|
    && admitted == |AdmittedNames(seen)| <= MaxCommands
    && apps == PutAll(Empty(), CliPairs(AdmittedNames(seen)))
    && seen == seen0 + entries[..k] && |seen| == |seen0| + k
    && (admitted == MaxCommands ==> EndsAdmitted(seen, |seen0|))
  }

  /** Looking at entry `k` below the cap admits it exactly when it is
      admissible. */
  lemma EntryStep(seen0: seq<FileRec>, entries: seq<FileRec>, k: nat,
                  admitted: nat, apps: Dict<Info>, seen: seq<FileRec>)
    requires EntriesScanned(seen0, entries, k, admitted, apps, seen)
    requires k < |entries| && admitted < MaxCommands
    ensures var f := entries[k];
            if Admissible(f)
            then EntriesScanned(seen0, entries, k + 1, admitted + 1,
                                Put(apps, f.name, Info(f.name, CliDescription, Cli)), seen + [f])
            else EntriesScanned(seen0, entries, k + 1, admitted, apps, seen + [f])
  {
    ScanEntryStep(seen, entries[k]);
    SeenSnoc(seen0, entries, k);
  }

  /** The inner loop of `_scan_path_commands` over one directory's entries:
      it stops before the next entry once `admitted` reaches the cap, and
      otherwise admits each admissible entry under its name. `seen` are the
      entries looked at so far. */
  method ScanDirectory(entries: seq<FileRec>, apps0: Dict<Info>, admitted0: nat, ghost seen0: seq<FileRec>)
      returns (apps: Dict<Info>, admitted: nat, ghost seen: seq<FileRec>, ghost j: nat)
    requires admitted0 == |AdmittedNames(seen0)| < MaxCommands
    requires apps0 == PutAll(Empty(), CliPairs(AdmittedNames(seen0)))
    ensures admitted == |AdmittedNames(seen)| <= MaxCommands
    ensures apps == PutAll(Empty(), CliPairs(AdmittedNames(seen)))
    ensures j <= |entries| && seen == seen0 + entries[..j]
    ensures admitted < MaxCommands ==> seen == seen0 + entries
    ensures admitted == MaxCommands ==> EndsAdmitted(seen, |seen0|)
  {
    apps, admitted, seen := apps0, admitted0, seen0;
    var k := 0;
    assert entries[..0] == [];
    while k < |entries|
      invariant 0 <= k <= |entries|
      invariant EntriesScanned(seen0, entries, k, admitted, apps, seen)
    {
      if admitted >= MaxCommands {
        break;
      }
      var f := entries[k];
      EntryStep(seen0, entries, k, admitted, apps, seen);
      if Admissible(f) {
        apps := Put(apps, f.name, Info(f.name, CliDescription, Cli));
        admitted := admitted + 1;
      }
      seen := seen + [f];
      k := k + 1;
    }
    if admitted < MaxCommands {
      TakeAll(entries);
    }
    j := k;
  }

  /** One pass of the outer loop of `_scan_path_commands`, for directory `i`
      reached below the cap: a missing directory is skipped, a listed one is
      scanned entry by entry. Either way the scan state after `i` directories
      becomes the state after `i + 1`, and `done` grows by every entry the
      directory shows. */
  method VisitDirectory(listing: Listing, apps0: Dict<Info>, admitted0: nat,
                        ghost ls: seq<Listing>, ghost all: seq<FileRec>, ghost i: nat,
                        ghost seen0: seq<FileRec>, ghost done0: seq<FileRec>)
      returns (apps: Dict<Info>, admitted: nat, ghost seen: seq<FileRec>, ghost done: seq<FileRec>)
    requires Scanning(ls, all, i, admitted0, apps0, seen0, done0)
    requires i < |ls| && listing == ls[i] && admitted0 < MaxCommands
    ensures Scanning(ls, all, i + 1, admitted, apps, seen, done)
    ensures done == done0 + Entries(listing)
    ensures admitted == MaxCommands ==> |done0| < |seen|
  {
    match listing {
      case Missing =>
        apps, admitted, seen, done := apps0, admitted0, seen0, done0;
        assert done == done0 + [];
      case Listed(entries, _) =>
        ghost var j;
        apps, admitted, seen, j := ScanDirectory(entries, apps0, admitted0, seen0);
        done := done0 + entries;
        PrefixOfConcat(done0, entries, j);
    }
    ScanningStep(ls, all, i, admitted0, apps0, seen0, done0, admitted, apps, seen, done);
  }

  /** The entries of consecutive listings are those of each part, joined. */
  lemma {:induction false} VisibleAppend(a: seq<Listing>, b: seq<Listing>)
    ensures Visible(a + b) == Visible(a) + Visible(b)
    decreases |a|
  {
    if |a| == 0 {
      assert a + b == b;
    } else {
      assert (a + b)[0] == a[0];
      assert (a + b)[1..] == a[1..] + b;
      VisibleAppend(a[1..], b);
    }
  }

  /** Looking at one more directory appends its entries. */
  lemma VisiblePrefixStep(ls: seq<Listing>, i: nat)
    requires i < |ls|
    ensures Visible(ls[..i + 1]) == Visible(ls[..i]) + Entries(ls[i])
  {
    assert ls[..i + 1] == ls[..i] + [ls[i]];
    VisibleAppend(ls[..i], [ls[i]]);
    assert [ls[i]][1..] == [];
  }

  /** Where the outer loop stands after `i` directories: `done` are their
      entries, and once the cap is reached it was reached among the entries
      of directory `i - 1`. */
  ghost predicate CapDirectory(ls: seq<Listing>, i: nat, admitted: nat, seen: seq<FileRec>, done: seq<FileRec>) {
    && i <= |ls|
    && done == Visible(ls[..i])
    && (admitted == MaxCommands ==> 0 < i && |Visible(ls[..i - 1])| < |seen|)
  }

  lemma CapDirectoryInit(ls: seq<Listing>)
    ensures CapDirectory(ls, 0, 0, [], [])
  {
    assert ls[..0] == [];
  }

  /** Visiting directory `i` below the cap extends the entries looked at by
      its own, and reaching the cap there means some of them were seen. */
  lemma OuterStep(ls: seq<Listing>, i: nat, admitted0: nat, seen0: seq<FileRec>, done0: seq<FileRec>,
                  admitted: nat, seen: seq<FileRec>, done: seq<FileRec>)
    requires i < |ls| && CapDirectory(ls, i, admitted0, seen0, done0) && admitted0 < MaxCommands
    requires done == done0 + Entries(ls[i])
    requires admitted == MaxCommands ==> |done0| < |seen|
    ensures CapDirectory(ls, i + 1, admitted, seen, done)
  {
    VisiblePrefixStep(ls, i);
  }

  /** When the scan stops at the cap, the admission that reached it is among
      the entries of the last directory visited. */
  lemma CapOutcome(ls: seq<Listing>, i: nat, admitted: nat, seen: seq<FileRec>, done: seq<FileRec>)
    requires CapDirectory(ls, i, admitted, seen, done) && |seen| <= |done|
    ensures admitted == MaxCommands ==>
              i > 0 && |Visible(ls[..i - 1])| < |seen| <= |Visible(ls[..i])|
  {
  }

  lemma VisibleStep(all: seq<FileRec>, done: seq<FileRec>, ls: seq<Listing>, i: nat)
    requires i < |ls|
    requires all == done + Visible(ls[i..])
    ensures all == (done + Entries(ls[i])) + Visible(ls[i + 1..])
  {
    assert ls[i..][1..] == ls[i + 1..];
  }

  lemma LastOfPrefix(all: seq<FileRec>, seen: seq<FileRec>)
    requires 0 < |seen| <= |all| && seen == all[..|seen|]
    requires Admissible(seen[|seen| - 1])
    ensures Admissible(all[|seen| - 1])
  {
  }

  lemma PrefixOfConcat(a: seq<FileRec>, b: seq<FileRec>, j: nat)
    requires j <= |b|
    ensures (a + b)[..|a| + j] == a + b[..j]
  {
  }

  /** When the admissions of a prefix of all entries number `MaxCommands`, or
      the prefix is everything, they are the first admissions of all. */
  lemma AdmittedPrefix(all: seq<FileRec>, seen: seq<FileRec>)
    requires |seen| <= |all| && seen == all[..|seen|]
    requires |AdmittedNames(seen)| == MaxCommands || (seen == all && |AdmittedNames(seen)| < MaxCommands)
    ensures |AdmittedNames(seen)| == Min(MaxCommands, |AdmittedNames(all)|)
    ensures AdmittedNames(seen) == AdmittedNames(all)[..|AdmittedNames(seen)|]
  {
    AdmittedSplit(all, |seen|);
    CappedPrefix(AdmittedNames(seen), AdmittedNames(all[|seen|..]));
  }

  /** The admissions of a list are those of a prefix followed by those of the
      rest. */
  lemma AdmittedSplit(all: seq<FileRec>, k: nat)
    requires k <= |all|
    ensures AdmittedNames(all) == AdmittedNames(all[..k]) + AdmittedNames(all[k..])
  {
    assert all == all[..k] + all[k..];
    AdmittedAppend(all[..k], all[k..]);
  }

  /** `a` is what a cap of `MaxCommands` keeps of `a + b` when `a` reached the
      cap or nothing follows it. */
  lemma CappedPrefix(a: seq<string>, b: seq<string>)
    requires |a| == MaxCommands || (b == [] && |a| < MaxCommands)
    ensures |a| == Min(MaxCommands, |a + b|)
    ensures a == (a + b)[..|a|]
  {
    assert (a + b)[..|a|] == a;
  }

  /** The state of the outer loop of `_scan_path_commands` after `i`
      directories: `done` are the entries those directories show, `seen` the
      prefix of them looked at, `apps` holds the admissions among `seen`, and
      once the cap is reached the last entry seen was admitted. */
  ghost predicate Scanning(ls: seq<Listing>, all: seq<FileRec>, i: nat, admitted: nat, apps: Dict<Info>,
                           seen: seq<FileRec>, done: seq<FileRec>)
  {
    && i <= |ls|
    && admitted == |AdmittedNames(seen)| <= MaxCommands
    && apps == PutAll(Empty(), CliPairs(AdmittedNames(seen)))
    && all == done + Visible(ls[i..])
    && |seen| <= |done| && seen == done[..|seen|]
    && (admitted < MaxCommands ==> seen == done)
    && (admitted == MaxCommands ==> EndsAdmitted(seen, 0))
  }

  lemma ScanningInit(ls: seq<Listing>)
    ensures Scanning(ls, Visible(ls), 0, 0, Empty(), [], [])
  {
    assert ls[0..] == ls;
    assert PutAll(Empty<Info>(), []) == Empty();
  }

  /** Visiting directory `i` below the cap takes the outer loop from `i`
      directories to `i + 1`. */
  lemma {:induction false} ScanningStep(ls: seq<Listing>, all: seq<FileRec>, i: nat,
                                        admitted0: nat, apps0: Dict<Info>, seen0: seq<FileRec>, done0: seq<FileRec>,
                                        admitted: nat, apps: Dict<Info>, seen: seq<FileRec>, done: seq<FileRec>)
    requires Scanning(ls, all, i, admitted0, apps0, seen0, done0)
    requires i < |ls| && admitted0 < MaxCommands
    requires admitted == |AdmittedNames(seen)| <= MaxCommands
    requires apps == PutAll(Empty(), CliPairs(AdmittedNames(seen)))
    requires done == done0 + Entries(ls[i])
    requires |seen| <= |done| && seen == done[..|seen|]
    requires admitted < MaxCommands ==> seen == done
    requires admitted == MaxCommands ==> EndsAdmitted(seen, |done0|)
    ensures Scanning(ls, all, i + 1, admitted, apps, seen, done)
  {
    VisibleStep(all, done0, ls, i);
  }

  /** What holds when the outer loop of `_scan_path_commands` ends, having
      visited `i` directories and looked at the entries `seen`. */
  lemma ScanOutcome(path: string, fs: map<string, Listing>,
                    seen: seq<FileRec>, done: seq<FileRec>, i: nat, admitted: nat, apps: Dict<Info>)
    requires Scanning(Listings(path, fs), Visible(Listings(path, fs)), i, admitted, apps, seen, done)
    requires i < |Listings(path, fs)| ==> admitted == MaxCommands
    requires CapDirectory(Listings(path, fs), i, admitted, seen, done)
    ensures apps == PathApps(path, fs)
    ensures admitted == Min(MaxCommands, |AdmittedNames(Visible(Listings(path, fs)))|)
    ensures |seen| <= |Visible(Listings(path, fs))|
    ensures admitted == |AdmittedNames(Visible(Listings(path, fs))[..|seen|])|
    ensures |seen| < |Visible(Listings(path, fs))| ==> admitted == MaxCommands
    ensures admitted == MaxCommands ==>
              |seen| > 0 && Admissible(Visible(Listings(path, fs))[|seen| - 1])
    ensures admitted == MaxCommands ==>
              i > 0 && |Visible(Listings(path, fs)[..i - 1])| < |seen| <= |Visible(Listings(path, fs)[..i])|
  {
    var ls := Listings(path, fs);
    CapOutcome(ls, i, admitted, seen, done);
    var all := Visible(ls);
    if admitted < MaxCommands {
      assert i == |ls| && ls[i..] == [];
    }
    assert seen == all[..|seen|];
    if admitted == MaxCommands {
      LastOfPrefix(all, seen);
    }
    AdmittedPrefix(all, seen);
  }

  /** `_scan_path_commands`, loop for loop. The cap is checked before each
      directory and before each entry, so the scan admits exactly the first
      `MaxCommands` admissible entries (or all of them, when there are fewer).
      The ghost results say how far it got: `count` admissions, `inspected`
      entries looked at, `visited` directories looked at; the scan stops
      early only at the cap, and then right after the admission that
      reached it, in the last directory visited. */
  method ScanPathCommands(path: string, fs: map<string, Listing>)
      returns (apps: Dict<Info>, ghost count: nat, ghost inspected: nat, ghost visited: nat)
    ensures apps == PathApps(path, fs)
    ensures count == Min(MaxCommands, |AdmittedNames(Visible(Listings(path, fs)))|)
    ensures inspected <= |Visible(Listings(path, fs))|
    ensures count == |AdmittedNames(Visible(Listings(path, fs))[..inspected])|
    ensures inspected < |Visible(Listings(path, fs))| ==> count == MaxCommands
    ensures count == MaxCommands ==>
              inspected > 0 && Admissible(Visible(Listings(path, fs))[inspected - 1])
    ensures visited <= |Listings(path, fs)|
    ensures visited < |Listings(path, fs)| ==> count == MaxCommands
    ensures count == MaxCommands ==>
              visited > 0
              && |Visible(Listings(path, fs)[..visited - 1])| < inspected <= |Visible(Listings(path, fs)[..visited])|
  {
    var admitted: nat, i: nat;
    ghost var seen: seq<FileRec>, done: seq<FileRec>;
    apps, admitted, seen, done, i := ScanDirectories(path, fs);
    ScanOutcome(path, fs, seen, done, i, admitted, apps);
    count, inspected, visited := admitted, |seen|, i;
  }

  /** The outer loop of `_scan_path_commands` over the pieces of `PATH`: the
      cap is checked before each directory, so the loop leaves directories
      unvisited only at the cap; it ends in the scan state after `i`
      directories. */
  method ScanDirectories(path: string, fs: map<string, Listing>)
      returns (apps: Dict<Info>, admitted: nat, ghost seen: seq<FileRec>, ghost done: seq<FileRec>, i: nat)
    ensures Scanning(Listings(path, fs), Visible(Listings(path, fs)), i, admitted, apps, seen, done)
    ensures CapDirectory(Listings(path, fs), i, admitted, seen, done)
    ensures i < |Listings(path, fs)| ==> admitted == MaxCommands
  {
    var dirs := Split(path, ':');
    ghost var ls := Listings(path, fs);
    ghost var all := Visible(ls);
    apps := Empty();
    admitted := 0;
    seen, done := [], [];
    ScanningInit(ls);
    CapDirectoryInit(ls);
    i := 0;
    while i < |dirs|
      invariant i <= |dirs| == |ls|
      invariant Scanning(ls, all, i, admitted, apps, seen, done)
      invariant CapDirectory(ls, i, admitted, seen, done)
    {
      if admitted >= MaxCommands {
        break;
      }
      var listing := Lookup(fs, dirs[i]);
      assert listing == ls[i];
      ghost var admitted0, seen0, done0 := admitted, seen, done;
      apps, admitted, seen, done := VisitDirectory(listing, apps, admitted, ls, all, i, seen, done);
      OuterStep(ls, i, admitted0, seen0, done0, admitted, seen, done);
      i := i + 1;
    }
  }

  /** Some admissible entry of `fs` is called `name`. */
  ghost predicate NamesAdmissible(fs: seq<FileRec>, name: string) {
    exists j :: 0 <= j < |fs| && Admissible(fs[j]) && fs[j].name == name
  }

  /** The admitted names are the names of the admissible entries: each one
      comes from an admissible entry, and every admissible entry gives one. */
  lemma {:induction false} AdmittedNamesSound(fs: seq<FileRec>)
    ensures forall i :: 0 <= i < |AdmittedNames(fs)| ==> NamesAdmissible(fs, AdmittedNames(fs)[i])
    ensures forall j :: 0 <= j < |fs| && Admissible(fs[j]) ==> fs[j].name in AdmittedNames(fs)
    decreases |fs|
  {
    if |fs| > 0 {
      var n := |fs| - 1;
      var init := fs[..n];
      AdmittedNamesSound(init);
      var names, earlier := AdmittedNames(fs), AdmittedNames(init);
      forall i | 0 <= i < |names| ensures NamesAdmissible(fs, names[i]) {
        if i < |earlier| {
          assert names[i] == earlier[i];
          assert NamesAdmissible(init, earlier[i]);
          var j :| 0 <= j < |init| && Admissible(init[j]) && init[j].name == earlier[i];
          assert fs[j] == init[j];
        } else {
          assert Admissible(fs[n]) && names[i] == fs[n].name;
        }
      }
      forall j | 0 <= j < |fs| && Admissible(fs[j]) ensures fs[j].name in names {
        if j < n {
          assert fs[j] == init[j];
        }
      }
    }
  }

  /** Every key of the result is an admissible entry's name stored with the
      command-line description, and the keys are exactly the first
      `MaxCommands` admissions. When there are at most `MaxCommands`
      admissions, every admissible entry's name is a key. */
  lemma FirstAdmissionsContents(all: seq<FileRec>, k: string)
    ensures k in FirstAdmissions(all).vals ==>
              FirstAdmissions(all).vals[k] == Info(k, CliDescription, Cli) && NamesAdmissible(all, k)
    ensures k in FirstAdmissions(all).vals <==>
              k in AdmittedNames(all)[..Min(MaxCommands, |AdmittedNames(all)|)]
    ensures |AdmittedNames(all)| <= MaxCommands ==>
              forall j :: 0 <= j < |all| && Admissible(all[j]) ==> all[j].name in FirstAdmissions(all).vals
  {
    var names := AdmittedNames(all);
    var firsts := names[..Min(MaxCommands, |names|)];
    var ps := CliPairs(firsts);
    AdmittedNamesSound(all);
    PutAllLookup(Empty(), ps, k);
    assert Written(ps, k) <==> k in firsts by {
      if k in firsts {
        var i :| 0 <= i < |firsts| && firsts[i] == k;
        assert ps[i].0 == k;
      }
    }
    if k in FirstAdmissions(all).vals {
      var i := LastWriteOf(ps, k);
      assert firsts[i] == names[i];
      assert NamesAdmissible(all, names[i]);
    }
    if |names| <= MaxCommands {
      assert firsts == names;
      forall j | 0 <= j < |all| && Admissible(all[j]) ensures all[j].name in FirstAdmissions(all).vals {
        PutAllLookup(Empty(), ps, all[j].name);
        var i :| 0 <= i < |firsts| && firsts[i] == all[j].name;
        assert ps[i].0 == all[j].name;
      }
    }
  }

  /** The result holds at most as many commands as were admitted; when the
      admitted names are distinct it holds exactly `MaxCommands` of them, or
      all of them when there are fewer. */
  lemma FirstAdmissionsSize(all: seq<FileRec>)
    ensures |FirstAdmissions(all).keys| <= Min(MaxCommands, |AdmittedNames(all)|)
    ensures (forall i, j :: 0 <= i < j < |AdmittedNames(all)| ==> AdmittedNames(all)[i] != AdmittedNames(all)[j]) ==>
              |FirstAdmissions(all).keys| == Min(MaxCommands, |AdmittedNames(all)|)
  {
    var names := AdmittedNames(all);
    var firsts := names[..Min(MaxCommands, |names|)];
    var ps := CliPairs(firsts);
    PutAllSize(Empty(), ps);
    if forall i, j :: 0 <= i < j < |names| ==> names[i] != names[j] {
      forall i, j | 0 <= i < j < |ps| ensures ps[i].0 != ps[j].0 {
        assert ps[i].0 == names[i] && ps[j].0 == names[j];
      }
    }
  }
}
