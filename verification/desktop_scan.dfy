/** `ApplicationDetector._scan_desktop_files`: entries from freedesktop.org
    `.desktop` descriptors. The file system and `configparser` are inputs:
    each directory is absent or lists its `*.desktop` files, and each file
    is what the parser made of it. */
module DesktopScan {
  import opened Text
  import opened Apps
  import opened OrderedDict

  /** What `entry.get(key)` gives for a key the group has: its text, or an
      exception (configparser's interpolation raises, for one, on a `%` that
      is neither `%%` nor `%(name)s`, such as the `%U` field codes of many
      `Exec` lines). */
  datatype Lookup = Value(text: string) | Raises

  /** What `config.read(file)` made of one descriptor. Keys are named as the
      source spells them; the parser folds their case. */
  datatype Descriptor =
    | Unreadable                          // reading or parsing raised
    | NoEntryGroup                        // no `[Desktop Entry]` group
    | EntryGroup(entry: map<string, Lookup>)

  datatype DesktopFile = DesktopFile(stem: string, descriptor: Descriptor)

  /** One of the descriptor directories: missing (`os.path.exists` is false)
      or the files its `glob('*.desktop')` yields, in that order. */
  datatype DesktopDir = Absent | Present(files: seq<DesktopFile>)

  /** `entry.get(key, fallback)`, or `None` when it raises. */
  function Get(entry: map<string, Lookup>, key: string, fallback: string): Option<string> {
    if key !in entry then Some(fallback)
    else match entry[key]
      case Value(text) => Some(text)
      case Raises => None
  }

  /** The `NoDisplay` flag is set: its value lowercased is `true`. */
  predicate Hidden(entry: map<string, Lookup>) {
    "NoDisplay" in entry && entry["NoDisplay"].Value? && Lower(entry["NoDisplay"].text) == "true"
  }

  /** One of the five lookups the loop body makes raises. `GenericName` is
      looked up even when `Comment` is present: it is the fallback argument. */
  predicate LookupRaises(entry: map<string, Lookup>) {
    exists key :: key in ["NoDisplay", "Name", "Exec", "GenericName", "Comment"]
      && key in entry && entry[key].Raises?
  }

  /** The loop body passes over the file: it cannot be read, has no
      `[Desktop Entry]` group, is hidden, one of its lookups raises, or its
      `Exec` is not empty but holds only whitespace, so that `split()[0]`
      raises. A descriptor with no `Exec`, or an empty one, is not skipped. */
  predicate Skipped(f: DesktopFile) {
    match f.descriptor
    case Unreadable => true
    case NoEntryGroup => true
    case EntryGroup(entry) =>
      || Hidden(entry)
      || LookupRaises(entry)
      || ("Exec" in entry && entry["Exec"].Value? && entry["Exec"].text != [] && AllSpace(entry["Exec"].text))
  }

  /** The loop body for one file: the pair it stores, or `None` when it
      skips the file (by `continue`, or through the `except`). */
  function ReadEntry(f: DesktopFile): (r: Option<(string, Info)>)
    ensures r.None? <==> Skipped(f)
    ensures r.Some? ==> WellRead(f, r.value.0, r.value.1)
  {
    match f.descriptor
    case Unreadable => None
    case NoEntryGroup => None
    case EntryGroup(entry) =>
      var noDisplay := Get(entry, "NoDisplay", "");
      var name := Get(entry, "Name", f.stem);
      var exec := Get(entry, "Exec", "");
      var generic := Get(entry, "GenericName", "Desktop Application");
      if noDisplay.None? || Lower(noDisplay.value) == "true" then None
      else if name.None? || exec.None? || generic.None? then None
      else
        var description := Get(entry, "Comment", generic.value);
        if description.None? then None
        else if exec.value == "" then Some((name.value, Info("", description.value, Desktop)))
        else
          match FirstToken(exec.value)
          case None => None
          case Some(command) => Some((name.value, Info(command, description.value, Desktop)))
  }

  /** What an admitted descriptor yields: the name is `Name` or else the file
      stem; the command is empty when `Exec` is absent or empty and otherwise
      the first whitespace-delimited token of `Exec`; the description is
      `Comment`, else `GenericName`, else `Desktop Application`. */
  ghost predicate WellRead(f: DesktopFile, name: string, info: Info) {
    && f.descriptor.EntryGroup?
    && var entry := f.descriptor.entry;
    && !Hidden(entry)
    && !LookupRaises(entry)
    && info.kind == Desktop
    && name == (if "Name" in entry then entry["Name"].text else f.stem)
    && (if "Exec" !in entry || entry["Exec"].text == [] then info.command == []
        else IsFirstToken(entry["Exec"].text, info.command))
    && info.description == (if "Comment" in entry then entry["Comment"].text
                            else if "GenericName" in entry then entry["GenericName"].text
                            else "Desktop Application")
  }

  /** The pairs one directory's files store, in file order. */
  function FilePairs(files: seq<DesktopFile>): seq<(string, Info)> {
    Collect(files, ReadEntry)
  }

  /** The pairs the scan stores, directory by directory. */
  function DirPairs(dirs: seq<DesktopDir>): seq<(string, Info)> {
    ConcatMap(dirs, DirFilePairs)
  }

  /** The pairs one directory stores: none when it is absent. */
  function DirFilePairs(d: DesktopDir): seq<(string, Info)> {
    match d
    case Absent => []
    case Present(files) => FilePairs(files)
  }

  /** The dictionary `_scan_desktop_files` returns. */
  function DesktopApps(dirs: seq<DesktopDir>): (apps: Dict<Info>)
    ensures apps.Valid()
    ensures |apps.keys| <= |DirPairs(dirs)|
  {
    PutAllSize(Empty(), DirPairs(dirs));
    PutAll(Empty(), DirPairs(dirs))
  }

  /** Every stored pair comes from an admitted file of a present directory. */
  lemma {:induction false} DirPairsRead(dirs: seq<DesktopDir>)
    ensures forall p :: p in DirPairs(dirs) ==>
              exists d, f :: d in dirs && d.Present? && f in d.files && ReadEntry(f) == Some(p)
    decreases |dirs|
  {
    if |dirs| > 0 {
      var n := |dirs| - 1;
      DirPairsRead(dirs[..n]);
      forall p | p in DirPairs(dirs)
        ensures exists d, f :: d in dirs && d.Present? && f in d.files && ReadEntry(f) == Some(p)
      {
        if p in DirPairs(dirs[..n]) {
          var d, f :| d in dirs[..n] && d.Present? && f in d.files && ReadEntry(f) == Some(p);
          assert d in dirs;
        } else {
          FilePairsRead(dirs[n].files, p);
        }
      }
    }
  }

  lemma {:induction false} FilePairsRead(files: seq<DesktopFile>, p: (string, Info))
    requires p in FilePairs(files)
    ensures exists f :: f in files && ReadEntry(f) == Some(p)
    decreases |files|
  {
    var n := |files| - 1;
    if p in FilePairs(files[..n]) {
      FilePairsRead(files[..n], p);
      var f :| f in files[..n] && ReadEntry(f) == Some(p);
      assert f in files;
    } else {
      assert ReadEntry(files[n]) == Some(p);
    }
  }

  /** Every file a directory admits contributes its pair. */
  lemma FilePairsComplete(files: seq<DesktopFile>, k: nat, p: (string, Info))
    requires k < |files| && ReadEntry(files[k]) == Some(p)
    ensures p in FilePairs(files)
  {
    CollectComplete(files, ReadEntry, k, p);
  }

  /** Every pair a present directory contributes reaches the scan. */
  lemma DirPairsComplete(dirs: seq<DesktopDir>, i: nat, p: (string, Info))
    requires i < |dirs| && dirs[i].Present? && p in FilePairs(dirs[i].files)
    ensures p in DirPairs(dirs)
  {
    ConcatMapComplete(dirs, DirFilePairs, i, p);
  }

  /** The converse of `DirPairsRead`: every file a present directory admits
      contributes its pair, and so its name is stored (with the entry the
      last file of that name yields). */
  lemma AdmittedStored(dirs: seq<DesktopDir>, i: nat, f: DesktopFile)
    requires i < |dirs| && dirs[i].Present? && f in dirs[i].files && ReadEntry(f).Some?
    ensures ReadEntry(f).value in DirPairs(dirs)
    ensures ReadEntry(f).value.0 in DesktopApps(dirs).vals
  {
    var ps, p := DirPairs(dirs), ReadEntry(f).value;
    var k :| 0 <= k < |dirs[i].files| && dirs[i].files[k] == f;
    FilePairsComplete(dirs[i].files, k, p);
    DirPairsComplete(dirs, i, p);
    var j :| 0 <= j < |ps| && ps[j] == p;
    PutAllHas(Empty(), ps, p.0);
  }

  /** A name is in the result exactly when some admitted descriptor produced
      it; its value is the one produced last (a later file with the same name
      overwrites an earlier one); and every value was read from an admitted
      descriptor. */
  lemma DesktopAppsLookup(dirs: seq<DesktopDir>, name: string)
    ensures name in DesktopApps(dirs).vals <==> Written(DirPairs(dirs), name)
    ensures forall i :: LastWrite(DirPairs(dirs), name, i) ==>
              DesktopApps(dirs).vals[name] == DirPairs(dirs)[i].1
    ensures name in DesktopApps(dirs).vals ==>
              exists d, f :: d in dirs && d.Present? && f in d.files
                && ReadEntry(f) == Some((name, DesktopApps(dirs).vals[name]))
  {
    var ps := DirPairs(dirs);
    PutAllLookup(Empty(), ps, name);
    if name in DesktopApps(dirs).vals {
      var last := LastWriteOf(ps, name);
      DirPairsRead(dirs);
      assert ps[last] in ps;
    }
  }

  /** Reading directory `i` appends its pairs, or nothing when it is absent. */
  lemma DirStep(dirs: seq<DesktopDir>, i: nat)
    requires i < |dirs|
    ensures DirPairs(dirs[..i + 1])
            == if dirs[i].Present? then DirPairs(dirs[..i]) + FilePairs(dirs[i].files) else DirPairs(dirs[..i])
  {
    assert dirs[..i + 1][..i] == dirs[..i];
  }

  /** The inner loop of `_scan_desktop_files` after the first `j` files of a
      directory: `apps` holds the pairs read before the directory, `before`,
      and those of the admitted files among the first `j`. */
  ghost predicate FilesScanned(apps: Dict<Info>, before: seq<(string, Info)>, files: seq<DesktopFile>, j: nat)
    requires j <= |files|
  {
    apps == PutAll(Empty(), before + FilePairs(files[..j]))
  }

  /** Reading file `j` stores its pair when it is admitted. */
  lemma FileStep(apps: Dict<Info>, before: seq<(string, Info)>, files: seq<DesktopFile>, j: nat)
    requires j < |files| && FilesScanned(apps, before, files, j)
    ensures var entry := ReadEntry(files[j]);
            FilesScanned(if entry.Some? then Put(apps, entry.value.0, entry.value.1) else apps, before, files, j + 1)
  {
    assert files[..j + 1][..j] == files[..j];
    var entry := ReadEntry(files[j]);
    if entry.Some? {
      PutAllSnoc(Empty(), before + FilePairs(files[..j]), entry.value);
      assert before + FilePairs(files[..j + 1]) == (before + FilePairs(files[..j])) + [entry.value];
    }
  }

  lemma FilesStart(before: seq<(string, Info)>, files: seq<DesktopFile>)
    ensures FilesScanned(PutAll(Empty(), before), before, files, 0)
  {
    assert files[..0] == [];
    assert before + FilePairs([]) == before;
  }

  /** The inner loop of `_scan_desktop_files` over one present directory:
      each admitted file's pair is stored, in file order, over `apps0`, which
      holds the pairs `before` read so far. */
  method ScanDirectoryFiles(files: seq<DesktopFile>, apps0: Dict<Info>, ghost before: seq<(string, Info)>)
      returns (apps: Dict<Info>)
    requires apps0 == PutAll(Empty(), before)
    ensures apps == PutAll(Empty(), before + FilePairs(files))
  {
    apps := apps0;
    FilesStart(before, files);
    var j := 0;
    while j < |files|
      invariant 0 <= j <= |files|
      invariant FilesScanned(apps, before, files, j)
    {
      var entry := ReadEntry(files[j]);
      FileStep(apps, before, files, j);
      if entry.Some? {
        apps := Put(apps, entry.value.0, entry.value.1);
      }
      j := j + 1;
    }
    TakeAll(files);
  }

  /** `_scan_desktop_files`, loop for loop. */
  method ScanDesktopFiles(dirs: seq<DesktopDir>) returns (apps: Dict<Info>)
    ensures apps == DesktopApps(dirs)
  {
    apps := Empty();
    var i := 0;
    while i < |dirs|
      invariant 0 <= i <= |dirs|
      invariant apps == PutAll(Empty(), DirPairs(dirs[..i]))
    {
      DirStep(dirs, i);
      if dirs[i].Present? {
        apps := ScanDirectoryFiles(dirs[i].files, apps, DirPairs(dirs[..i]));
      }
      i := i + 1;
    }
    TakeAll(dirs);
  }
}
