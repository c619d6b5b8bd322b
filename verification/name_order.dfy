/** The order `detect_applications` sorts each category list in:
    `list.sort(key=lambda x: x['name'].lower())`, Python's stable sort on the
    lowercased name, where strings compare code point by code point. */
module NameOrder {
  import opened Text
  import opened Apps

  /** The sort key of an entry. */
  function Key(a: App): string {
    Lower(a.name)
  }

  /** Python's `a <= b` on strings: `a` is a prefix of `b`, or at the first
      position where they differ `a` has the smaller code point. */
  predicate LexLe(a: string, b: string)
    decreases |a|
  {
    |a| == 0 || (|b| > 0 && (a[0] < b[0] || (a[0] == b[0] && LexLe(a[1..], b[1..]))))
  }

  lemma {:induction false} LexLeReflexive(a: string)
    ensures LexLe(a, a)
    decreases |a|
  {
    if |a| > 0 {
      LexLeReflexive(a[1..]);
    }
  }

  lemma {:induction false} LexLeTotal(a: string, b: string)
    ensures LexLe(a, b) || LexLe(b, a)
    decreases |a|
  {
    if |a| > 0 && |b| > 0 && a[0] == b[0] {
      LexLeTotal(a[1..], b[1..]);
    }
  }

  lemma {:induction false} LexLeAntisymmetric(a: string, b: string)
    requires LexLe(a, b) && LexLe(b, a)
    ensures a == b
    decreases |a|
  {
    if |a| > 0 {
      LexLeAntisymmetric(a[1..], b[1..]);
      assert a == [a[0]] + a[1..] && b == [b[0]] + b[1..];
    }
  }

  lemma {:induction false} LexLeTransitive(a: string, b: string, c: string)
    requires LexLe(a, b) && LexLe(b, c)
    ensures LexLe(a, c)
    decreases |a|
  {
    if |a| > 0 && a[0] == b[0] && b[0] == c[0] {
      LexLeTransitive(a[1..], b[1..], c[1..]);
    }
  }

  /** Non-decreasing by lowercased name. */
  ghost predicate Sorted(s: seq<App>) {
    forall i, j :: 0 <= i < j < |s| ==> LexLe(Key(s[i]), Key(s[j]))
  }

  /** Puts `x` before the first entry whose key is not below its own; in a
      sorted list that is after every smaller key and before the equal ones. */
  function Insert(x: App, s: seq<App>): (r: seq<App>)
    ensures |r| == |s| + 1
    decreases |s|
  {
    if |s| == 0 then [x]
    else if LexLe(Key(x), Key(s[0])) then [x] + s
    else [s[0]] + Insert(x, s[1..])
  }

  /** Inserting adds `x` and keeps every other entry. */
  lemma {:induction false} InsertMultiset(x: App, s: seq<App>)
    ensures multiset(Insert(x, s)) == multiset(s) + multiset{x}
    decreases |s|
  {
    if |s| > 0 && !LexLe(Key(x), Key(s[0])) {
      InsertMultiset(x, s[1..]);
      assert s == [s[0]] + s[1..];
    }
  }

  /** The sorted list, built by inserting each entry, last one first, in
      front of the equal keys that follow it. */
  function SortByName(s: seq<App>): (r: seq<App>)
    ensures |r| == |s|
    decreases |s|
  {
    if |s| == 0 then [] else Insert(s[0], SortByName(s[1..]))
  }

  /** The first entry of a non-empty insertion is `x` or the old first entry. */
  lemma InsertHead(x: App, s: seq<App>)
    ensures |Insert(x, s)| == |s| + 1
    ensures Insert(x, s)[0] == x || (|s| > 0 && Insert(x, s)[0] == s[0])
  {
  }

  lemma {:induction false} InsertSorted(x: App, s: seq<App>)
    requires Sorted(s)
    ensures Sorted(Insert(x, s))
    decreases |s|
  {
    if |s| > 0 && !LexLe(Key(x), Key(s[0])) {
      var rest := Insert(x, s[1..]);
      InsertSorted(x, s[1..]);
      InsertHead(x, s[1..]);
      LexLeTotal(Key(x), Key(s[0]));
      var r := [s[0]] + rest;
      forall j | 0 < j < |r| ensures LexLe(Key(r[0]), Key(r[j])) {
        if 1 < j {
          InsertHead(x, s[1..]);
          LexLeTransitive(Key(s[0]), Key(rest[0]), Key(rest[j - 1]));
        }
      }
    } else if |s| > 0 {
      forall j | 0 < j < |s| + 1 ensures LexLe(Key(x), Key(([x] + s)[j])) {
        if j > 1 {
          LexLeTransitive(Key(x), Key(s[0]), Key(s[j - 1]));
        }
      }
    }
  }

  /** The sorted list is ordered by name and holds the same entries. */
  lemma {:induction false} SortByNameSorted(s: seq<App>)
    ensures Sorted(SortByName(s))
    ensures multiset(SortByName(s)) == multiset(s)
    decreases |s|
  {
    if |s| > 0 {
      SortByNameSorted(s[1..]);
      InsertSorted(s[0], SortByName(s[1..]));
      InsertMultiset(s[0], SortByName(s[1..]));
      assert s == [s[0]] + s[1..];
    }
  }

  /** The entries of `s` whose key is `k`, in their order. */
  function WithKey(s: seq<App>, k: string): (r: seq<App>)
    ensures forall a :: a in r ==> a in s && Key(a) == k
    decreases |s|
  {
    if |s| == 0 then []
    else if Key(s[0]) == k then [s[0]] + WithKey(s[1..], k)
    else WithKey(s[1..], k)
  }

  /** Inserting `x` puts it in front of the entries with its own key. */
  lemma {:induction false} InsertWithKey(x: App, s: seq<App>, k: string)
    ensures WithKey(Insert(x, s), k) == (if Key(x) == k then [x] else []) + WithKey(s, k)
    decreases |s|
  {
    var r := Insert(x, s);
    if |s| == 0 {
      assert r == [x] && r[1..] == [];
    } else if LexLe(Key(x), Key(s[0])) {
      assert r == [x] + s;
      assert r[0] == x && r[1..] == s;
    } else {
      var rest := Insert(x, s[1..]);
      assert r == [s[0]] + rest;
      assert r[0] == s[0] && r[1..] == rest;
      InsertWithKey(x, s[1..], k);
      if Key(s[0]) == k && Key(x) == k {
        LexLeReflexive(k);
        assert false;
      }
    }
  }

  /** The sort is stable: the entries that share a key keep their order. */
  lemma {:induction false} SortByNameStable(s: seq<App>, k: string)
    ensures WithKey(SortByName(s), k) == WithKey(s, k)
    decreases |s|
  {
    if |s| > 0 {
      SortByNameStable(s[1..], k);
      InsertWithKey(s[0], SortByName(s[1..]), k);
    }
  }
}
