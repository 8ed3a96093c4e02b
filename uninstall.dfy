/**
 * `collection_uninstall`: the module's own emulation of the uninstall action
 * that `ansible-galaxy` lacks. The JSON listing printed by
 * `ansible-galaxy collection list --format=json` is turned into the reverse
 * index, and every install path of every requested collection (version
 * constraints stripped) is removed with `shutil.rmtree`, in request order.
 */
module Uninstaller {
  import opened Wrappers
  import opened PyStrings
  import opened Specifiers
  import opened Manifest

  /** `q` is the path `p` itself or lies somewhere beneath it. */
  predicate Within(q: string, p: string) {
    q == p || StartsWith(q, p + "/")
  }

  /** The entries `rmtree(p)` takes away. */
  function Subtree(entries: set<string>, p: string): set<string> {
    set q | q in entries && Within(q, p)
  }

  /**
   * The part of the file system the module touches: the paths that exist,
   * and the paths whose removal raises (no permission, busy, ...).
   */
  class FileSystem {
    var entries: set<string>
    const failing: set<string>

    constructor (entries0: set<string>, failing0: set<string>)
      ensures entries == entries0 && failing == failing0
    {
      entries := entries0;
      failing := failing0;
    }

    /**
     * `shutil.rmtree(p)`: raises when `p` does not exist or cannot be
     * removed; otherwise `p` and everything beneath it is gone.
     */
    method Rmtree(p: string) returns (ok: bool)
      modifies this
      ensures ok == (p in old(entries) && p !in failing)
      ensures entries == if ok then old(entries) - Subtree(old(entries), p) else old(entries)
    {
      if p in entries && p !in failing {
        entries := entries - Subtree(entries, p);
        ok := true;
      } else {
        ok := false;
      }
    }
  }

  // ---------------------------------------------------------------------
  // Specification
  // ---------------------------------------------------------------------

  /** What is left after removing paths in order, and the path that raised, if one did. */
  datatype Removal = Removal(remaining: set<string>, failed: Option<string>)

  /** `rmtree` on each path in turn, stopping at the first that raises. */
  function RemoveAll(entries: set<string>, failing: set<string>, paths: seq<string>): Removal
    decreases |paths|
  {
    if paths == [] then Removal(entries, None)
    else if paths[0] in entries && paths[0] !in failing then
      RemoveAll(entries - Subtree(entries, paths[0]), failing, paths[1..])
    else Removal(entries, Some(paths[0]))
  }

  /** The entries beneath none of `paths`. */
  function Pruned(entries: set<string>, paths: seq<string>): set<string> {
    set q | q in entries && forall k :: 0 <= k < |paths| ==> !Within(q, paths[k])
  }

  /** The install paths of each name found in the index, name by name. */
  function TargetPaths(names: seq<string>, index: map<string, seq<string>>): seq<string> {
    if names == [] then []
    else (if names[0] in index then index[names[0]] else []) + TargetPaths(names[1..], index)
  }

  /** Some name has an entry in the index. */
  predicate AnyIndexed(names: seq<string>, index: map<string, seq<string>>) {
    names != [] && (names[0] in index || AnyIndexed(names[1..], index))
  }

  datatype UninstallError =
    | ListingUnreadable      // `json.loads` raised on the listing
    | RemoveFailed(path: string)  // `rmtree` raised on this path

  /** The file system afterwards, and `changed` or the exception raised. */
  datatype Outcome = Outcome(entries: set<string>, result: Result<bool, UninstallError>)

  /**
   * `collection_uninstall(name, stdout)`: `parsed` is the listing when
   * `json.loads` accepts the output, `None` when it raises.
   */
  function Uninstall(entries: set<string>, failing: set<string>, names: seq<string>,
                     parsed: Option<Listing>): Outcome
  {
    match parsed
    case None => Outcome(entries, Err(ListingUnreadable))
    case Some(listing) =>
      UninstallIndexed(entries, failing, RemoveVersionSpecifiers(names), Index(listing))
  }

  // ---------------------------------------------------------------------
  // The imperative uninstall
  // ---------------------------------------------------------------------

  /** The outcome of removing the install paths of `names`, given the index. */
  function UninstallIndexed(entries: set<string>, failing: set<string>, names: seq<string>,
                            index: map<string, seq<string>>): Outcome
  {
    var removal := RemoveAll(entries, failing, TargetPaths(names, index));
    match removal.failed
    case Some(p) => Outcome(removal.remaining, Err(RemoveFailed(p)))
    case None => Outcome(removal.remaining, Ok(AnyIndexed(names, index)))
  }

  /**
   * `collection_uninstall`: build the index, then for each requested name
   * with its constraint stripped, if the index holds it, note the change and
   * remove each of its install paths. An exception ends the run with the
   * earlier removals done.
   */
  method CollectionUninstall(fs: FileSystem, name: seq<string>, parsed: Option<Listing>)
    returns (r: Result<bool, UninstallError>)
    modifies fs
    ensures Uninstall(old(fs.entries), fs.failing, name, parsed) == Outcome(fs.entries, r)
  {
    if parsed.None? {
      return Err(ListingUnreadable);
    }
    var installed := InstalledCollectionsDict(parsed.value);
    var stripped := RemoveVersionSpecifiers(name);
    r := RemoveIndexed(fs, stripped, installed);
  }

  /** The loop of `collection_uninstall`, over the stripped names and the index. */
  method RemoveIndexed(fs: FileSystem, stripped: seq<string>, installed: map<string, seq<string>>)
    returns (r: Result<bool, UninstallError>)
    modifies fs
    ensures UninstallIndexed(old(fs.entries), fs.failing, stripped, installed) == Outcome(fs.entries, r)
  {
    ghost var goal := RemoveAll(fs.entries, fs.failing, TargetPaths(stripped, installed));
    var changed := false;
    var k := 0;
    assert stripped[k..] == stripped;
    while k < |stripped|
      invariant 0 <= k <= |stripped|
      invariant RemoveAll(fs.entries, fs.failing, TargetPaths(stripped[k..], installed)) == goal
      invariant AnyIndexed(stripped, installed) == (changed || AnyIndexed(stripped[k..], installed))
    {
      var collection := stripped[k];
      ghost var later := TargetPaths(stripped[k + 1..], installed);
      TargetPathsStep(stripped, installed, k);
      if collection in installed {
        changed := true;
        var paths := installed[collection];
        var j := 0;
        while j < |paths|
          invariant 0 <= j <= |paths|
          invariant RemoveAll(fs.entries, fs.failing, paths[j..] + later) == goal
        {
          assert paths[j..] + later == [paths[j]] + (paths[j + 1..] + later);
          var ok := fs.Rmtree(paths[j]);
          if !ok {
            return Err(RemoveFailed(paths[j]));
          }
          j := j + 1;
        }
        assert paths[j..] + later == later;
      } else {
        assert [] + later == later;
      }
      k := k + 1;
    }
    assert TargetPaths(stripped[k..], installed) == [];
    return Ok(changed);
  }

  // ---------------------------------------------------------------------
  // Removing paths in order
  // ---------------------------------------------------------------------

  lemma PrunedStep(entries: set<string>, p: string, rest: seq<string>)
    ensures Pruned(entries - Subtree(entries, p), rest) == Pruned(entries, [p] + rest)
  {
    var paths := [p] + rest;
    forall q ensures q in Pruned(entries - Subtree(entries, p), rest) <==> q in Pruned(entries, paths) {
      if q in entries && !Within(q, p) {
        if forall k :: 0 <= k < |rest| ==> !Within(q, rest[k]) {
          forall k | 0 <= k < |paths| ensures !Within(q, paths[k]) {
            if k > 0 { assert paths[k] == rest[k - 1]; }
          }
        }
        if forall k :: 0 <= k < |paths| ==> !Within(q, paths[k]) {
          forall k | 0 <= k < |rest| ensures !Within(q, rest[k]) {
            assert rest[k] == paths[k + 1];
          }
        }
      }
      if q in Pruned(entries, paths) {
        assert paths[0] == p;
      }
    }
  }

  /**
   * Removing paths in order leaves exactly the entries beneath none of
   * them; when one raises, the entries beneath the paths before it are gone,
   * the rest are kept, and the path that raised was protected or already
   * gone.
   */
  lemma {:induction false} RemoveAllSpec(entries: set<string>, failing: set<string>, paths: seq<string>)
    ensures var r := RemoveAll(entries, failing, paths);
      match r.failed
      case None => r.remaining == Pruned(entries, paths)
      case Some(p) =>
        exists k :: 0 <= k < |paths| && paths[k] == p && r.remaining == Pruned(entries, paths[..k])
                    && (p in failing || p !in r.remaining)
                    && Clears(entries, failing, paths[..k])
    decreases |paths|
  {
    if paths == [] {
      assert Pruned(entries, paths) == entries;
    } else {
      var p, rest := paths[0], paths[1..];
      assert paths == [p] + rest;
      if p in entries && p !in failing {
        var after := entries - Subtree(entries, p);
        RemoveAllSpec(after, failing, rest);
        var r := RemoveAll(after, failing, rest);
        match r.failed
        case None =>
          PrunedStep(entries, p, rest);
        case Some(f) =>
          var k :| 0 <= k < |rest| && rest[k] == f && r.remaining == Pruned(after, rest[..k])
                   && (f in failing || f !in r.remaining)
                   && Clears(after, failing, rest[..k]);
          PrunedStep(entries, p, rest[..k]);
          ClearsStep(entries, failing, p, rest[..k]);
          assert paths[..k + 1] == [p] + rest[..k];
          assert paths[k + 1] == f;
      } else {
        assert paths[..0] == [];
        assert Pruned(entries, []) == entries;
      }
    }
  }

  /** Each path, in order, is unprotected and still present once the paths before it are gone. */
  predicate Clears(entries: set<string>, failing: set<string>, paths: seq<string>) {
    forall k :: 0 <= k < |paths| ==> paths[k] !in failing && paths[k] in Pruned(entries, paths[..k])
  }

  /** After a successful first removal, the rest clear exactly when the whole sequence does. */
  lemma ClearsStep(entries: set<string>, failing: set<string>, p: string, rest: seq<string>)
    requires p in entries && p !in failing
    ensures Clears(entries - Subtree(entries, p), failing, rest) <==> Clears(entries, failing, [p] + rest)
  {
    var after, paths := entries - Subtree(entries, p), [p] + rest;
    assert paths[..0] == [];
    assert Pruned(entries, []) == entries;
    forall k | 0 <= k < |rest|
      ensures Pruned(after, rest[..k]) == Pruned(entries, paths[..k + 1])
    {
      PrunedStep(entries, p, rest[..k]);
      assert paths[..k + 1] == [p] + rest[..k];
    }
    if Clears(after, failing, rest) {
      forall k | 0 <= k < |paths|
        ensures paths[k] !in failing && paths[k] in Pruned(entries, paths[..k])
      {
        if k > 0 { assert paths[k] == rest[k - 1]; }
      }
    }
    if Clears(entries, failing, paths) {
      forall k | 0 <= k < |rest|
        ensures rest[k] !in failing && rest[k] in Pruned(after, rest[..k])
      {
        assert paths[k + 1] == rest[k];
      }
    }
  }

  /**
   * The removals all succeed exactly when each path is unprotected and
   * still present once the paths before it are gone.
   */
  lemma {:induction false} RemoveAllSucceedsIff(entries: set<string>, failing: set<string>, paths: seq<string>)
    ensures RemoveAll(entries, failing, paths).failed.None? <==> Clears(entries, failing, paths)
    decreases |paths|
  {
    if paths != [] {
      var p, rest := paths[0], paths[1..];
      assert paths == [p] + rest;
      if p in entries && p !in failing {
        RemoveAllSucceedsIff(entries - Subtree(entries, p), failing, rest);
        ClearsStep(entries, failing, p, rest);
      } else {
        assert paths[..0] == [];
        assert Pruned(entries, []) == entries;
      }
    }
  }

  /** Asking for the same path twice makes the second `rmtree` raise. */
  lemma RemoveAllRepeatFails(entries: set<string>, failing: set<string>, paths: seq<string>, k: nat, m: nat)
    requires k < m < |paths| && paths[k] == paths[m]
    ensures RemoveAll(entries, failing, paths).failed.Some?
  {
    RemoveAllSucceedsIff(entries, failing, paths);
    assert paths[..m][k] == paths[m];
    assert Within(paths[m], paths[..m][k]);
    assert paths[m] !in Pruned(entries, paths[..m]);
  }

  // ---------------------------------------------------------------------
  // The paths to remove
  // ---------------------------------------------------------------------

  lemma {:induction false} TargetPathsMembers(names: seq<string>, index: map<string, seq<string>>, p: string)
    ensures p in TargetPaths(names, index)
        <==> exists i :: 0 <= i < |names| && names[i] in index && p in index[names[i]]
    decreases |names|
  {
    if names != [] {
      TargetPathsMembers(names[1..], index, p);
      if exists i :: 0 <= i < |names| && names[i] in index && p in index[names[i]] {
        var i :| 0 <= i < |names| && names[i] in index && p in index[names[i]];
        if i > 0 { assert names[1..][i - 1] == names[i]; }
      }
      if exists i :: 0 <= i < |names[1..]| && names[1..][i] in index && p in index[names[1..][i]] {
        var i :| 0 <= i < |names[1..]| && names[1..][i] in index && p in index[names[1..][i]];
        assert names[i + 1] == names[1..][i];
      }
    }
  }

  lemma TargetPathsStep(names: seq<string>, index: map<string, seq<string>>, k: nat)
    requires k < |names|
    ensures TargetPaths(names[k..], index)
         == (if names[k] in index then index[names[k]] else []) + TargetPaths(names[k + 1..], index)
    ensures AnyIndexed(names[k..], index) == (names[k] in index || AnyIndexed(names[k + 1..], index))
  {
    assert names[k..][1..] == names[k + 1..];
  }

  lemma {:induction false} AnyIndexedIff(names: seq<string>, index: map<string, seq<string>>)
    ensures AnyIndexed(names, index) <==> exists i :: 0 <= i < |names| && names[i] in index
    decreases |names|
  {
    if names != [] {
      AnyIndexedIff(names[1..], index);
      if exists i :: 0 <= i < |names| && names[i] in index {
        var i :| 0 <= i < |names| && names[i] in index;
        if i > 0 { assert names[1..][i - 1] == names[i]; }
      }
      if exists i :: 0 <= i < |names[1..]| && names[1..][i] in index {
        var i :| 0 <= i < |names[1..]| && names[1..][i] in index;
        assert names[i + 1] == names[1..][i];
      }
    }
  }

  lemma {:induction false} TargetPathsAppend(a: seq<string>, b: seq<string>, index: map<string, seq<string>>)
    ensures TargetPaths(a + b, index) == TargetPaths(a, index) + TargetPaths(b, index)
    decreases |a|
  {
    if a != [] {
      assert (a + b)[0] == a[0];
      assert (a + b)[1..] == a[1..] + b;
      TargetPathsAppend(a[1..], b, index);
    } else {
      assert a + b == b;
    }
  }

  /** The paths of one name sit between those of the names before and after it. */
  lemma TargetPathsSplit(names: seq<string>, index: map<string, seq<string>>, i: nat)
    requires i < |names|
    ensures TargetPaths(names, index)
         == TargetPaths(names[..i], index)
            + (if names[i] in index then index[names[i]] else [])
            + TargetPaths(names[i + 1..], index)
  {
    assert names == names[..i] + names[i..];
    TargetPathsAppend(names[..i], names[i..], index);
    TargetPathsStep(names, index, i);
  }

  // ---------------------------------------------------------------------
  // What an uninstall does
  // ---------------------------------------------------------------------

  /** The install paths `collection_uninstall` hands to `rmtree`, in order. */
  function RequestedPaths(names: seq<string>, listing: Listing): seq<string> {
    TargetPaths(RemoveVersionSpecifiers(names), Index(listing))
  }

  /** `q` lies beneath an install path of one of the requested collections. */
  ghost predicate Doomed(listing: Listing, names: seq<string>, q: string) {
    exists i, p :: 0 <= i < |names| && InstalledAt(listing, StripVersion(names[i]), p) && Within(q, p)
  }

  /** Every path to remove is an install path of a requested collection. */
  lemma TargetInstalled(listing: Listing, names: seq<string>, p: string)
    requires p in TargetPaths(RemoveVersionSpecifiers(names), Index(listing))
    ensures exists i :: 0 <= i < |names| && InstalledAt(listing, StripVersion(names[i]), p)
  {
    var stripped := RemoveVersionSpecifiers(names);
    TargetPathsMembers(stripped, Index(listing), p);
    var i :| 0 <= i < |stripped| && stripped[i] in Index(listing) && p in Index(listing)[stripped[i]];
    IndexSpec(listing, stripped[i]);
    assert InstalledAt(listing, StripVersion(names[i]), p);
  }

  lemma TargetDoomed(listing: Listing, names: seq<string>, q: string, p: string)
    requires p in TargetPaths(RemoveVersionSpecifiers(names), Index(listing)) && Within(q, p)
    ensures Doomed(listing, names, q)
  {
    TargetInstalled(listing, names, p);
    var i :| 0 <= i < |names| && InstalledAt(listing, StripVersion(names[i]), p);
  }

  lemma DoomedTarget(listing: Listing, names: seq<string>, q: string)
    requires Doomed(listing, names, q)
    ensures exists k :: 0 <= k < |TargetPaths(RemoveVersionSpecifiers(names), Index(listing))|
                        && Within(q, TargetPaths(RemoveVersionSpecifiers(names), Index(listing))[k])
  {
    var stripped := RemoveVersionSpecifiers(names);
    var paths := TargetPaths(stripped, Index(listing));
    var i, p :| 0 <= i < |names| && InstalledAt(listing, StripVersion(names[i]), p) && Within(q, p);
    var a :| 0 <= a < |listing| && StripVersion(names[i]) in listing[a].1
             && p == InstallPath(listing[a].0, StripVersion(names[i]));
    assert Listed(listing, stripped[i]);
    IndexSpec(listing, stripped[i]);
    TargetPathsMembers(stripped, Index(listing), p);
    var k :| 0 <= k < |paths| && paths[k] == p;
  }

  /**
   * A successful uninstall reports a change exactly when some requested
   * collection, once its version constraint is stripped, is listed.
   */
  lemma UninstallChangedIff(entries: set<string>, failing: set<string>, names: seq<string>, listing: Listing)
    requires Uninstall(entries, failing, names, Some(listing)).result.Ok?
    ensures Uninstall(entries, failing, names, Some(listing)).result.value
        <==> exists i :: 0 <= i < |names| && Listed(listing, StripVersion(names[i]))
  {
    var stripped := RemoveVersionSpecifiers(names);
    AnyIndexedIff(stripped, Index(listing));
    forall i | 0 <= i < |names| ensures stripped[i] in Index(listing) <==> Listed(listing, StripVersion(names[i])) {
      IndexSpec(listing, stripped[i]);
    }
  }

  /**
   * A successful uninstall removes exactly the entries beneath an install
   * path of a requested collection and keeps every other entry.
   */
  lemma UninstallRemovesExactly(entries: set<string>, failing: set<string>, names: seq<string>, listing: Listing)
    requires Uninstall(entries, failing, names, Some(listing)).result.Ok?
    ensures forall q :: q in Uninstall(entries, failing, names, Some(listing)).entries
                    <==> q in entries && !Doomed(listing, names, q)
  {
    var paths := TargetPaths(RemoveVersionSpecifiers(names), Index(listing));
    RemoveAllSpec(entries, failing, paths);
    forall q ensures q in Pruned(entries, paths) <==> q in entries && !Doomed(listing, names, q) {
      if Doomed(listing, names, q) {
        DoomedTarget(listing, names, q);
      }
      if q in entries && q !in Pruned(entries, paths) {
        var k :| 0 <= k < |paths| && Within(q, paths[k]);
        TargetDoomed(listing, names, q, paths[k]);
      }
    }
  }

  /**
   * A failed uninstall stops at an install path of a requested collection;
   * the entries it removed before that all lay beneath such paths, and
   * nothing was added.
   */
  lemma UninstallFailureKeepsRest(entries: set<string>, failing: set<string>, names: seq<string>, listing: Listing)
    requires Uninstall(entries, failing, names, Some(listing)).result.Err?
    ensures var o := Uninstall(entries, failing, names, Some(listing));
      && o.result.error.RemoveFailed?
      && (exists i :: 0 <= i < |names| && InstalledAt(listing, StripVersion(names[i]), o.result.error.path))
      && o.entries <= entries
      && forall q :: q in entries && q !in o.entries ==> Doomed(listing, names, q)
  {
    var paths := TargetPaths(RemoveVersionSpecifiers(names), Index(listing));
    var o := Uninstall(entries, failing, names, Some(listing));
    var r := RemoveAll(entries, failing, paths);
    assert r.failed.Some? && o == Outcome(r.remaining, Err(RemoveFailed(r.failed.value)));
    RemoveAllSpec(entries, failing, paths);
    var k :| 0 <= k < |paths| && paths[k] == r.failed.value && r.remaining == Pruned(entries, paths[..k]);
    TargetInstalled(listing, names, paths[k]);
    PrunedDoomed(entries, listing, names, k);
  }

  /** What removing the first `k` paths to remove takes away lies beneath a requested collection. */
  lemma PrunedDoomed(entries: set<string>, listing: Listing, names: seq<string>, k: nat)
    requires k <= |RequestedPaths(names, listing)|
    ensures forall q :: q in entries && q !in Pruned(entries, RequestedPaths(names, listing)[..k]) ==>
                          Doomed(listing, names, q)
  {
    var paths := RequestedPaths(names, listing);
    forall q | q in entries && q !in Pruned(entries, paths[..k]) ensures Doomed(listing, names, q) {
      var m :| 0 <= m < k && Within(q, paths[..k][m]);
      TargetDoomed(listing, names, q, paths[m]);
    }
  }

  /**
   * The uninstall completes exactly when each install path to remove, in
   * order, is unprotected and has not gone with an earlier one.
   */
  lemma UninstallSucceedsIff(entries: set<string>, failing: set<string>, names: seq<string>, listing: Listing)
    ensures Uninstall(entries, failing, names, Some(listing)).result.Ok?
        <==> forall k :: 0 <= k < |RequestedPaths(names, listing)| ==>
               RequestedPaths(names, listing)[k] !in failing
               && RequestedPaths(names, listing)[k] in Pruned(entries, RequestedPaths(names, listing)[..k])
  {
    RemoveAllSucceedsIff(entries, failing, RequestedPaths(names, listing));
  }

  /**
   * Nothing requested is listed (for instance, on a second run after a
   * successful uninstall): no change is reported and nothing is removed.
   */
  lemma UninstallNothingListed(entries: set<string>, failing: set<string>, names: seq<string>, listing: Listing)
    requires forall i :: 0 <= i < |names| ==> !Listed(listing, StripVersion(names[i]))
    ensures Uninstall(entries, failing, names, Some(listing)) == Outcome(entries, Ok(false))
  {
    var stripped := RemoveVersionSpecifiers(names);
    var paths := TargetPaths(stripped, Index(listing));
    forall i | 0 <= i < |stripped| ensures stripped[i] !in Index(listing) {
      IndexSpec(listing, stripped[i]);
    }
    AnyIndexedIff(stripped, Index(listing));
    if paths != [] {
      TargetPathsMembers(stripped, Index(listing), paths[0]);
    }
  }

  /**
   * Requesting one listed collection twice (for instance with two different
   * version constraints) makes the uninstall fail: the second pass asks
   * `rmtree` for a path the first pass already removed.
   */
  lemma DuplicateRequestFails(entries: set<string>, failing: set<string>, names: seq<string>,
                              listing: Listing, i: nat, j: nat)
    requires i < j < |names| && StripVersion(names[i]) == StripVersion(names[j])
    requires Listed(listing, StripVersion(names[i]))
    ensures Uninstall(entries, failing, names, Some(listing)).result.Err?
  {
    var stripped := RemoveVersionSpecifiers(names);
    var index := Index(listing);
    var n := stripped[i];
    IndexSpec(listing, n);
    var paths := TargetPaths(stripped, index);
    TargetPathsSplit(stripped, index, i);
    TargetPathsSplit(stripped, index, j);
    TargetPathsSplit(stripped[..j], index, i);
    assert stripped[..j][..i] == stripped[..i];
    assert stripped[..j][i] == n;
    var k := |TargetPaths(stripped[..i], index)|;
    var m := |TargetPaths(stripped[..j], index)|;
    assert paths[k] == index[n][0];
    assert paths[m] == index[n][0];
    RemoveAllRepeatFails(entries, failing, paths, k, m);
  }

  // ---------------------------------------------------------------------
  // An example
  // ---------------------------------------------------------------------

  /**
   * `ns.x` is installed under two roots and `ns.y` under one; uninstalling
   * `ns.x` removes both of its install directories, keeps `ns.y`'s, and
   * reports a change.
   */
  lemma UninstallTwoRoots()
    ensures Uninstall({"/roots/a/ns/x", "/roots/a/ns/y", "/roots/b/ns/x"}, {}, ["ns.x"],
                      Some([("/roots/a", ["ns.x", "ns.y"]), ("/roots/b", ["ns.x"])]))
         == Outcome({"/roots/a/ns/y"}, Ok(true))
  {
    ExamplePaths();
    var index := Index([("/roots/a", ["ns.x", "ns.y"]), ("/roots/b", ["ns.x"])]);
    ExampleIndex("/roots/a", "/roots/b", "ns.x", "ns.y");
    ExampleStrip();
    var pa, pb := "/roots/a/ns/x", "/roots/b/ns/x";
    assert TargetPaths(["ns.x"], index) == [pa, pb] by {
      assert TargetPaths(["ns.x"][1..], index) == [];
    }
    ExampleRemoval();
    assert AnyIndexed(["ns.x"], index);
  }

  lemma ExampleStrip()
    ensures RemoveVersionSpecifiers(["ns.x"]) == ["ns.x"]
  {
    assert ':' !in "ns.x";
    StripVersionSpec("ns.x");
  }

  lemma ExampleRemoval()
    ensures RemoveAll({"/roots/a/ns/x", "/roots/a/ns/y", "/roots/b/ns/x"}, {}, ["/roots/a/ns/x", "/roots/b/ns/x"])
         == Removal({"/roots/a/ns/y"}, None)
  {
    var pa, pb, py := "/roots/a/ns/x", "/roots/b/ns/x", "/roots/a/ns/y";
    var entries := {pa, py, pb};
    assert !Within(py, pa) && !Within(pb, pa) && !Within(py, pb);
    assert Subtree(entries, pa) == {pa};
    assert Subtree(entries - {pa}, pb) == {pb};
    assert entries - {pa} - {pb} == {py};
    assert [pa, pb][1..] == [pb];
  }

  lemma ExamplePaths()
    ensures InstallPath("/roots/a", "ns.x") == "/roots/a/ns/x"
    ensures InstallPath("/roots/b", "ns.x") == "/roots/b/ns/x"
    ensures InstallPath("/roots/a", "ns.y") == "/roots/a/ns/y"
  {
    ExamplePathAX();
    ExamplePathBX();
    ExamplePathAY();
  }

  lemma ExamplePathAX()
    ensures InstallPath("/roots/a", "ns.x") == "/roots/a/ns/x"
  {
    assert "ns.x" == "ns" + "." + "x";
    InstallPathDotted("/roots/a", "ns", "x");
  }

  lemma ExamplePathBX()
    ensures InstallPath("/roots/b", "ns.x") == "/roots/b/ns/x"
  {
    assert "ns.x" == "ns" + "." + "x";
    InstallPathDotted("/roots/b", "ns", "x");
  }

  lemma ExamplePathAY()
    ensures InstallPath("/roots/a", "ns.y") == "/roots/a/ns/y"
  {
    assert "ns.y" == "ns" + "." + "y";
    InstallPathDotted("/roots/a", "ns", "y");
  }

  /** A name listed under two roots is indexed with both install paths, in root order. */
  lemma ExampleIndex(ra: string, rb: string, x: string, y: string)
    requires x != y
    ensures x in Index([(ra, [x, y]), (rb, [x])])
    ensures Index([(ra, [x, y]), (rb, [x])])[x] == [InstallPath(ra, x), InstallPath(rb, x)]
  {
    var first := AddPath(AddPath(map[], ra, x), ra, y);
    assert first[x] == [InstallPath(ra, x)];
    IndexOfTwo((ra, [x, y]), (rb, [x]));
    AddRootOfTwo(map[], ra, x, y);
    AddRootOfOne(first, rb, x);
  }

  lemma IndexOfTwo(a: (string, seq<string>), b: (string, seq<string>))
    ensures Index([a, b]) == AddRoot(AddRoot(map[], a.0, a.1), b.0, b.1)
  {
    assert [a, b][..1] == [a] && [a][..0] == [];
    assert Index([a]) == AddRoot(map[], a.0, a.1);
  }

  lemma AddRootOfTwo(m: map<string, seq<string>>, root: string, x: string, y: string)
    ensures AddRoot(m, root, [x, y]) == AddPath(AddPath(m, root, x), root, y)
  {
    assert [x, y][..1] == [x];
    AddRootOfOne(m, root, x);
  }

  lemma AddRootOfOne(m: map<string, seq<string>>, root: string, x: string)
    ensures AddRoot(m, root, [x]) == AddPath(m, root, x)
  {
    assert [x][..0] == [];
  }
}
