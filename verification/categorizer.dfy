/** `ApplicationDetector._categorize_application`: first match over an ordered
    keyword table. */
module Categorizer {
  import opened Text
  import opened Apps

  datatype Category = Category(name: string, keywords: seq<string>)

  /** The table of `ApplicationDetector.__init__`, in declaration order. */
  const Table: seq<Category> := [
    Category("Programming", ["code", "editor", "ide", "python", "java", "git", "vim"]),
    Category("Security", ["security", "hack", "nmap", "wireshark", "metasploit", "burp"]),
    Category("System", ["system", "monitor", "htop", "top", "kill", "systemctl"]),
    Category("Internet", ["browser", "firefox", "chrome", "wget", "curl", "thunderbird"]),
    Category("Media", ["video", "audio", "vlc", "mpv", "gimp", "blender", "spotify"]),
    Category("Office", ["office", "document", "libreoffice", "writer", "calc", "pdf"]),
    Category("Graphics", ["graphics", "design", "gimp", "inkscape", "krita", "darktable"]),
    Category("Games", ["game", "steam", "lutris", "wine", "emulator"])
  ]

  /** The category of an entry no keyword matches. */
  const Other: string := "Other"

  /** The keys of `detect_applications`' result, in order: the table's
      categories, then `'Other'`. */
  const Order: seq<string> := [
    "Programming", "Security", "System", "Internet", "Media", "Office", "Graphics", "Games", Other
  ]

  /** `Order` lists each category once: the table's names in table order,
      then `Other`. */
  lemma OrderShape()
    ensures |Order| == |Table| + 1
    ensures forall i :: 0 <= i < |Table| ==> Order[i] == Table[i].name
    ensures Order[|Table|] == Other
    ensures forall i, j :: 0 <= i < j < |Order| ==> Order[i] != Order[j]
  {
  }

  /** `keyword in name_lower or keyword in description_lower or
      keyword in command_lower`. */
  predicate Hits(keyword: string, name: string, description: string, command: string) {
    || Contains(Lower(name), keyword)
    || Contains(Lower(description), keyword)
    || Contains(Lower(command), keyword)
  }

  /** Some keyword of `cat` hits one of the three fields. */
  predicate Matches(cat: Category, name: string, description: string, command: string) {
    exists k :: 0 <= k < |cat.keywords| && Hits(cat.keywords[k], name, description, command)
  }

  /** The index of the first matching category from `from` on, or `|Table|`
      when none matches. */
  function FirstMatchFrom(from: nat, name: string, description: string, command: string): (k: nat)
    requires from <= |Table|
    ensures from <= k <= |Table|
    ensures forall j :: from <= j < k ==> !Matches(Table[j], name, description, command)
    ensures k < |Table| ==> Matches(Table[k], name, description, command)
    decreases |Table| - from
  {
    if from == |Table| then |Table|
    else if Matches(Table[from], name, description, command) then from
    else FirstMatchFrom(from + 1, name, description, command)
  }

  /** The index of the first category of the table that matches, or
      `|Table|` when none does. */
  function FirstMatch(name: string, description: string, command: string): (k: nat)
    ensures k <= |Table|
    ensures forall j :: 0 <= j < k ==> !Matches(Table[j], name, description, command)
    ensures k < |Table| ==> Matches(Table[k], name, description, command)
  {
    FirstMatchFrom(0, name, description, command)
  }

  /** The category `_categorize_application` returns: the first category in
      declaration order with a keyword that is a substring of the lowercased
      name, description or command; `'Other'` when there is none. */
  function Classify(name: string, description: string, command: string): (c: string)
    ensures c in Order
  {
    var k := FirstMatch(name, description, command);
    OrderShape();
    if k < |Table| then Table[k].name else Other
  }

  /** The category of a catalog entry. */
  function CategoryOf(app: App): string {
    Classify(app.name, app.description, app.command)
  }

  /** The first matching index is the only index that matches with nothing
      matching before it. */
  lemma FirstMatchUnique(name: string, description: string, command: string, k: nat)
    requires k <= |Table|
    requires forall j :: 0 <= j < k ==> !Matches(Table[j], name, description, command)
    requires k < |Table| ==> Matches(Table[k], name, description, command)
    ensures FirstMatch(name, description, command) == k
  {
  }

  /** Both directions of first-match-wins: the result is the `i`-th
      category exactly when category `i` matches and no earlier one does,
      and it is `'Other'` exactly when no category matches. */
  lemma {:induction false} ClassifyFirstMatch(name: string, description: string, command: string)
    ensures forall i :: 0 <= i < |Table| ==>
              (Classify(name, description, command) == Table[i].name <==>
                 Matches(Table[i], name, description, command)
                 && forall j :: 0 <= j < i ==> !Matches(Table[j], name, description, command))
    ensures Classify(name, description, command) == Other <==>
              forall i :: 0 <= i < |Table| ==> !Matches(Table[i], name, description, command)
  {
    OrderShape();
    var k := FirstMatch(name, description, command);
    forall i | 0 <= i < |Table|
      ensures Classify(name, description, command) == Table[i].name <==>
                Matches(Table[i], name, description, command)
                && forall j :: 0 <= j < i ==> !Matches(Table[j], name, description, command)
    {
      if Matches(Table[i], name, description, command)
         && forall j :: 0 <= j < i ==> !Matches(Table[j], name, description, command) {
        FirstMatchUnique(name, description, command, i);
      }
    }
  }

  /** Field order is irrelevant: the three fields are tested for each keyword
      before the next keyword is tried, so exchanging them never changes the
      category — the keyword order alone decides. */
  lemma {:induction false} FieldOrderIrrelevant(name: string, description: string, command: string)
    ensures Classify(name, description, command) == Classify(description, name, command)
    ensures Classify(name, description, command) == Classify(command, description, name)
  {
    var k := FirstMatch(name, description, command);
    forall c: Category
      ensures (Matches(c, name, description, command) <==> Matches(c, description, name, command))
      ensures (Matches(c, name, description, command) <==> Matches(c, command, description, name))
    {
      if Matches(c, name, description, command) {
        var i :| 0 <= i < |c.keywords| && Hits(c.keywords[i], name, description, command);
        assert Hits(c.keywords[i], description, name, command);
        assert Hits(c.keywords[i], command, description, name);
      }
      if Matches(c, description, name, command) {
        var i :| 0 <= i < |c.keywords| && Hits(c.keywords[i], description, name, command);
        assert Hits(c.keywords[i], name, description, command);
      }
      if Matches(c, command, description, name) {
        var i :| 0 <= i < |c.keywords| && Hits(c.keywords[i], command, description, name);
        assert Hits(c.keywords[i], name, description, command);
      }
    }
    FirstMatchUnique(description, name, command, k);
    FirstMatchUnique(command, description, name, k);
  }

  /** `'gimp'` is a keyword of both Media and Graphics; Media comes first, so
      an entry whose name mentions gimp is never put under Graphics or any
      later category. */
  lemma GimpShadowsGraphics(name: string, description: string, command: string)
    requires Contains(Lower(name), "gimp")
    ensures FirstMatch(name, description, command) <= 4
    ensures Classify(name, description, command) in Order[..5]
  {
    assert Table[4].keywords[4] == "gimp";
    assert Hits(Table[4].keywords[4], name, description, command);
    OrderShape();
  }

  /** `_categorize_application(name, info)`, loop for loop. */
  method CategorizeApplication(name: string, info: Info) returns (category: string)
    ensures category == Classify(name, info.description, info.command)
  {
    var nameLower := Lower(name);
    var descriptionLower := Lower(info.description);
    var commandLower := Lower(info.command);
    var i := 0;
    while i < |Table|
      invariant 0 <= i <= |Table|
      invariant forall j :: 0 <= j < i ==> !Matches(Table[j], name, info.description, info.command)
    {
      var keywords := Table[i].keywords;
      var k := 0;
      while k < |keywords|
        invariant 0 <= k <= |keywords|
        invariant forall m :: 0 <= m < k ==> !Hits(keywords[m], name, info.description, info.command)
      {
        var keyword := keywords[k];
        if Contains(nameLower, keyword) || Contains(descriptionLower, keyword) || Contains(commandLower, keyword) {
          assert Hits(keywords[k], name, info.description, info.command);
          FirstMatchUnique(name, info.description, info.command, i);
          return Table[i].name;
        }
        k := k + 1;
      }
      i := i + 1;
    }
    FirstMatchUnique(name, info.description, info.command, |Table|);
    return Other;
  }
}
