/**
 * The reverse index of installed collections built from the JSON listing of
 * `ansible-galaxy collection list --format=json`
 * (`installed_collections_dict`): collection name to the list of its install
 * paths.
 */
module Manifest {
  import opened PyStrings

  /**
   * The parsed listing: one `(install root, collection names)` pair per key
   * of the JSON object, in the order the object lists them.
   */
  type Listing = seq<(string, seq<string>)>

  /** `os.path.join(a, b)` on POSIX. */
  function PathJoin(a: string, b: string): string {
    if StartsWith(b, "/") then b
    else if a == [] || a[|a| - 1] == '/' then a + b
    else a + "/" + b
  }

  /** `os.path.join(root, *segments)`. */
  function PathJoinAll(root: string, segments: seq<string>): string
    decreases |segments|
  {
    if segments == [] then root else PathJoinAll(PathJoin(root, segments[0]), segments[1..])
  }

  /** `os.path.join(root, *name.split('.'))`: where a collection lives under a root. */
  function InstallPath(root: string, name: string): string {
    PathJoinAll(root, Split(name, '.'))
  }

  /** A dotted name whose parts are non-empty and hold no `/`. */
  predicate PlainName(name: string) {
    '/' !in name && forall k :: 0 <= k < |Split(name, '.')| ==> Split(name, '.')[k] != []
  }

  lemma {:induction false} PathJoinAllPlain(root: string, segments: seq<string>)
    requires root != [] && root[|root| - 1] != '/' && segments != []
    requires forall k :: 0 <= k < |segments| ==> segments[k] != [] && '/' !in segments[k]
    ensures PathJoinAll(root, segments) == root + "/" + Join(segments, "/")
    decreases |segments|
  {
    var next := PathJoin(root, segments[0]);
    assert !StartsWith(segments[0], "/") by { assert segments[0][0] in segments[0]; }
    assert next == root + "/" + segments[0];
    if |segments| > 1 {
      var last := segments[0][|segments[0]| - 1];
      assert last in segments[0];
      assert next[|next| - 1] == last;
      PathJoinAllPlain(next, segments[1..]);
    }
  }

  /**
   * Under a root that does not end in `/`, a plain collection name
   * `namespace.collection` is installed at `root/namespace/collection`.
   */
  lemma InstallPathPlain(root: string, name: string)
    requires root != [] && root[|root| - 1] != '/' && PlainName(name)
    ensures InstallPath(root, name) == root + "/" + ReplaceChar(name, '.', '/')
  {
    var segments := Split(name, '.');
    forall k | 0 <= k < |segments| ensures '/' !in segments[k] {
      SplitPiecesIn(name, '.', k);
    }
    PathJoinAllPlain(root, segments);
    JoinSplitReplace(name, '.', '/');
  }

  /**
   * `namespace.collection` is installed at `root/namespace/collection` under
   * a root that does not end in `/`.
   */
  lemma InstallPathDotted(root: string, ns: string, coll: string)
    requires root != [] && root[|root| - 1] != '/'
    requires ns != [] && '.' !in ns && '/' !in ns
    requires coll != [] && '.' !in coll && '/' !in coll
    ensures InstallPath(root, ns + "." + coll) == root + "/" + ns + "/" + coll
  {
    assert Split(ns + "." + coll, '.') == [ns, coll] by { SplitDotted(ns, coll); }
    var left := root + "/" + ns;
    assert PathJoin(root, ns) == left by { assert ns[0] in ns; }
    assert PathJoin(left, coll) == left + "/" + coll by {
      assert coll[0] in coll;
      assert left[|left| - 1] == ns[|ns| - 1];
      assert ns[|ns| - 1] in ns;
    }
    assert PathJoinAll(root, [ns, coll]) == PathJoinAll(left, [coll]) by { assert [ns, coll][1..] == [coll]; }
    assert PathJoinAll(left, [coll]) == PathJoinAll(left + "/" + coll, []);
  }

  lemma SplitDotted(ns: string, coll: string)
    requires '.' !in ns && '.' !in coll
    ensures Split(ns + "." + coll, '.') == [ns, coll]
  {
    var name := ns + "." + coll;
    assert name[|ns|] == '.';
    var i := FirstIndex(name, '.');
    assert forall j :: 0 <= j < |ns| ==> name[j] == ns[j];
    assert name[..i] == ns && name[i + 1..] == coll;
  }

  /** Every character of a piece of a split comes from the string split. */
  lemma {:induction false} SplitPiecesIn(s: string, sep: char, k: nat)
    requires k < |Split(s, sep)|
    ensures forall ch :: ch in Split(s, sep)[k] ==> ch in s
    decreases |s|
  {
    if sep in s {
      var i := FirstIndex(s, sep);
      if k == 0 {
        assert forall ch :: ch in s[..i] ==> ch in s;
      } else {
        SplitPiecesIn(s[i + 1..], sep, k - 1);
        assert forall ch :: ch in s[i + 1..] ==> ch in s;
      }
    }
  }

  // ---------------------------------------------------------------------
  // The reverse index
  // ---------------------------------------------------------------------

  /** The install paths of `name` under one root, one per time the root lists it. */
  function PathsUnder(root: string, names: seq<string>, name: string): seq<string> {
    if names == [] then []
    else PathsUnder(root, names[..|names| - 1], name)
         + (if names[|names| - 1] == name then [InstallPath(root, name)] else [])
  }

  /** The install paths of `name`, root by root, in the order of the listing. */
  function PathsOf(listing: Listing, name: string): seq<string> {
    if listing == [] then []
    else PathsOf(listing[..|listing| - 1], name)
         + PathsUnder(listing[|listing| - 1].0, listing[|listing| - 1].1, name)
  }

  /** The names of one root's list, as a set. */
  function Elements(names: seq<string>): set<string> {
    set j | 0 <= j < |names| :: names[j]
  }

  /** Every collection name the listing holds. */
  function NamesOf(listing: Listing): set<string> {
    if listing == [] then {}
    else NamesOf(listing[..|listing| - 1]) + Elements(listing[|listing| - 1].1)
  }

  /** The `defaultdict(list)` update: `name`'s path under `root` goes at the end of its list. */
  function AddPath(index: map<string, seq<string>>, root: string, name: string): map<string, seq<string>> {
    index[name := (if name in index then index[name] else []) + [InstallPath(root, name)]]
  }

  /** The updates for each name under one root, in order. */
  function AddRoot(index: map<string, seq<string>>, root: string, names: seq<string>): map<string, seq<string>> {
    if names == [] then index
    else AddPath(AddRoot(index, root, names[..|names| - 1]), root, names[|names| - 1])
  }

  /** The value `installed_collections_dict` returns: the updates for each root, in order. */
  function Index(listing: Listing): map<string, seq<string>> {
    if listing == [] then map[]
    else AddRoot(Index(listing[..|listing| - 1]), listing[|listing| - 1].0, listing[|listing| - 1].1)
  }

  /** `name` appears in the list of some root. */
  ghost predicate Listed(listing: Listing, name: string) {
    exists i :: 0 <= i < |listing| && name in listing[i].1
  }

  /** `path` is `name`'s install path under a root whose list holds `name`. */
  ghost predicate InstalledAt(listing: Listing, name: string, path: string) {
    exists i :: 0 <= i < |listing| && name in listing[i].1 && path == InstallPath(listing[i].0, name)
  }

  lemma ElementsIn(names: seq<string>, name: string)
    ensures name in Elements(names) <==> name in names
  {
    if name in names {
      var j :| 0 <= j < |names| && names[j] == name;
    }
  }

  lemma {:induction false} PathsUnderMembers(root: string, names: seq<string>, name: string)
    ensures (PathsUnder(root, names, name) != []) == (name in names)
    ensures forall p :: p in PathsUnder(root, names, name) ==> p == InstallPath(root, name)
  {
    if names != [] {
      var init := names[..|names| - 1];
      PathsUnderMembers(root, init, name);
      assert names == init + [names[|names| - 1]];
    }
  }

  /** Splitting off the last root of a listing. */
  lemma ListedLast(listing: Listing, name: string)
    requires listing != []
    ensures Listed(listing, name)
        <==> Listed(listing[..|listing| - 1], name) || name in listing[|listing| - 1].1
  {
    var init := listing[..|listing| - 1];
    if Listed(init, name) {
      var a :| 0 <= a < |init| && name in init[a].1;
      assert listing[a] == init[a];
    }
    if Listed(listing, name) {
      var a :| 0 <= a < |listing| && name in listing[a].1;
      if a < |init| { assert init[a] == listing[a]; }
    }
  }

  lemma InstalledAtLast(listing: Listing, name: string, path: string)
    requires listing != []
    ensures var last := listing[|listing| - 1];
      InstalledAt(listing, name, path)
      <==> InstalledAt(listing[..|listing| - 1], name, path)
           || (name in last.1 && path == InstallPath(last.0, name))
  {
    var init := listing[..|listing| - 1];
    if InstalledAt(init, name, path) {
      var a :| 0 <= a < |init| && name in init[a].1 && path == InstallPath(init[a].0, name);
      assert listing[a] == init[a];
    }
    if InstalledAt(listing, name, path) {
      var a :| 0 <= a < |listing| && name in listing[a].1 && path == InstallPath(listing[a].0, name);
      if a < |init| { assert init[a] == listing[a]; }
    }
  }

  lemma {:induction false} NamesOfListed(listing: Listing, name: string)
    ensures name in NamesOf(listing) <==> Listed(listing, name)
  {
    if listing != [] {
      NamesOfListed(listing[..|listing| - 1], name);
      ElementsIn(listing[|listing| - 1].1, name);
      ListedLast(listing, name);
    }
  }

  lemma {:induction false} PathsOfListed(listing: Listing, name: string)
    ensures (PathsOf(listing, name) != []) == Listed(listing, name)
  {
    if listing != [] {
      var last := listing[|listing| - 1];
      PathsOfListed(listing[..|listing| - 1], name);
      PathsUnderMembers(last.0, last.1, name);
      ListedLast(listing, name);
    }
  }

  lemma {:induction false} PathsOfInstalledAt(listing: Listing, name: string, path: string)
    ensures path in PathsOf(listing, name) <==> InstalledAt(listing, name, path)
  {
    if listing != [] {
      var last := listing[|listing| - 1];
      PathsOfInstalledAt(listing[..|listing| - 1], name, path);
      PathsUnderMembers(last.0, last.1, name);
      InstalledAtLast(listing, name, path);
      var u := PathsUnder(last.0, last.1, name);
      if name in last.1 && path == InstallPath(last.0, name) {
        assert u[0] in u;
      }
    }
  }

  /**
   * The index has a key for exactly the names the listing holds; the paths
   * of a name are its install paths under the roots that list it, and there
   * is at least one.
   */
  lemma IndexSpec(listing: Listing, name: string)
    ensures name in Index(listing) <==> Listed(listing, name)
    ensures name in Index(listing) ==> Index(listing)[name] != []
    ensures name in Index(listing) ==>
      forall p :: p in Index(listing)[name] <==> InstalledAt(listing, name, p)
  {
    IndexAt(listing, name);
    NamesOfListed(listing, name);
    PathsOfListed(listing, name);
    forall p ensures p in PathsOf(listing, name) <==> InstalledAt(listing, name, p) {
      PathsOfInstalledAt(listing, name, p);
    }
  }

  lemma {:induction false} PathsUnderOnce(root: string, names: seq<string>, name: string)
    requires multiset(names)[name] == 1
    ensures PathsUnder(root, names, name) == [InstallPath(root, name)]
  {
    var init, x := names[..|names| - 1], names[|names| - 1];
    assert names == init + [x];
    assert multiset(names) == multiset(init) + multiset{x};
    if x == name {
      PathsUnderMembers(root, init, name);
      assert name !in init by { assert multiset(init)[name] == 0; }
    } else {
      PathsUnderOnce(root, init, name);
    }
  }

  /** A root that lists a name once adds exactly one path for it, after those of earlier roots. */
  lemma IndexAppendsRoot(listing: Listing, root: string, names: seq<string>, name: string)
    requires multiset(names)[name] == 1
    ensures name in Index(listing + [(root, names)])
    ensures Index(listing + [(root, names)])[name]
         == (if name in Index(listing) then Index(listing)[name] else []) + [InstallPath(root, name)]
  {
    var l := listing + [(root, names)];
    IndexAt(listing, name);
    IndexAt(l, name);
    assert l[..|l| - 1] == listing;
    assert name in names by { assert multiset(names)[name] > 0; }
    ElementsIn(names, name);
    NamesOfListed(listing, name);
    PathsOfListed(listing, name);
    PathsUnderOnce(root, names, name);
  }

  // ---------------------------------------------------------------------
  // Building the index in place
  // ---------------------------------------------------------------------

  lemma PathsOfStep(listing: Listing, root: string, names: seq<string>, name: string, n: string)
    ensures PathsOf(listing + [(root, names + [name])], n)
         == PathsOf(listing + [(root, names)], n) + (if n == name then [InstallPath(root, name)] else [])
  {
    var l1 := listing + [(root, names)];
    var l2 := listing + [(root, names + [name])];
    assert l1[..|l1| - 1] == listing && l2[..|l2| - 1] == listing;
    assert (names + [name])[..|names|] == names;
  }

  lemma NamesOfStep(listing: Listing, root: string, names: seq<string>, name: string)
    ensures NamesOf(listing + [(root, names + [name])]) == NamesOf(listing + [(root, names)]) + {name}
  {
    var l1 := listing + [(root, names)];
    var l2 := listing + [(root, names + [name])];
    assert l1[..|l1| - 1] == listing && l2[..|l2| - 1] == listing;
    assert Elements(names + [name]) == Elements(names) + {name} by {
      forall n ensures n in Elements(names + [name]) <==> n in Elements(names) + {name} {
        ElementsIn(names + [name], n);
        ElementsIn(names, n);
      }
    }
  }

  /** `m` holds, for name `n`, what the index of `listing` should hold. */
  ghost predicate AgreesAt(m: map<string, seq<string>>, listing: Listing, n: string) {
    && (n in m <==> n in NamesOf(listing))
    && (n in m ==> m[n] == PathsOf(listing, n))
  }

  /** The updates for one root keep a map in step with the listing, name by name. */
  lemma {:induction false} AddRootAt(m: map<string, seq<string>>, listing: Listing, root: string,
                                     names: seq<string>, n: string)
    requires AgreesAt(m, listing, n)
    ensures AgreesAt(AddRoot(m, root, names), listing + [(root, names)], n)
    decreases |names|
  {
    var l := listing + [(root, names)];
    assert l[..|l| - 1] == listing;
    if names == [] {
      assert Elements([]) == {};
    } else {
      var init, x := names[..|names| - 1], names[|names| - 1];
      AddRootAt(m, listing, root, init, n);
      assert init + [x] == names;
      NamesOfStep(listing, root, init, x);
      PathsOfStep(listing, root, init, x, n);
      NamesOfListed(listing + [(root, init)], x);
      PathsOfListed(listing + [(root, init)], x);
    }
  }

  /**
   * The index built update by update has a key for exactly the listed
   * names, and holds each name's install paths root by root.
   */
  lemma {:induction false} IndexAt(listing: Listing, n: string)
    ensures AgreesAt(Index(listing), listing, n)
    decreases |listing|
  {
    if listing == [] {
      assert NamesOf([]) == {};
    } else {
      var init, last := listing[..|listing| - 1], listing[|listing| - 1];
      IndexAt(init, n);
      AddRootAt(Index(init), init, last.0, last.1, n);
      assert listing == init + [(last.0, last.1)];
    }
  }

  /**
   * `installed_collections_dict`: for each root and each name under it,
   * append the install path to the name's list, creating the list on first
   * sight (the `defaultdict(list)`).
   */
  method InstalledCollectionsDict(listing: Listing) returns (index: map<string, seq<string>>)
    ensures index == Index(listing)
  {
    index := map[];
    var i := 0;
    while i < |listing|
      invariant 0 <= i <= |listing|
      invariant index == Index(listing[..i])
    {
      var path, collections := listing[i].0, listing[i].1;
      ghost var before := index;
      var j := 0;
      while j < |collections|
        invariant 0 <= j <= |collections|
        invariant index == AddRoot(before, path, collections[..j])
      {
        var collection := collections[j];
        AddRootNext(before, path, collections, j);
        var paths := if collection in index then index[collection] else [];
        index := index[collection := paths + [InstallPath(path, collection)]];
        j := j + 1;
      }
      IndexNext(listing, i);
      assert collections[..j] == collections;
      i := i + 1;
    }
    assert listing[..i] == listing;
  }

  /** One more update of the loop over one root's names. */
  lemma AddRootNext(m: map<string, seq<string>>, root: string, names: seq<string>, j: nat)
    requires j < |names|
    ensures AddRoot(m, root, names[..j + 1]) == AddPath(AddRoot(m, root, names[..j]), root, names[j])
  {
    assert names[..j + 1][..j] == names[..j];
  }

  /** One more root of the loop over the listing. */
  lemma IndexNext(listing: Listing, i: nat)
    requires i < |listing|
    ensures Index(listing[..i + 1]) == AddRoot(Index(listing[..i]), listing[i].0, listing[i].1)
  {
    assert listing[..i + 1][..i] == listing[..i];
  }
}
