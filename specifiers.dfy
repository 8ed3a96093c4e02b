/**
 * Collection specifiers: the repair of version constraints that Ansible's
 * list splitting tore off their collection name
 * (`fix_orphaned_version_specifiers`), and the stripping of a constraint
 * from a specifier (`remove_version_specifiers`).
 */
module Specifiers {
  import opened PyStrings

  /** `VERSION_SPECIFIER_PREFIXES`, in the order the module lists them. */
  const VersionSpecifierPrefixes: seq<string> := ["*", "!=", "==", ">=", ">", "<=", "<"]

  /**
   * `s.startswith(VERSION_SPECIFIER_PREFIXES)`, read off the first two
   * characters; `StartsWithSpecifierIff` proves it agrees with trying the
   * prefixes one by one.
   */
  predicate StartsWithSpecifier(s: string) {
    s != [] && (s[0] == '*' || s[0] == '>' || s[0] == '<'
                || (|s| >= 2 && (s[0] == '!' || s[0] == '=') && s[1] == '='))
  }

  /** The first-two-characters reading agrees with `str.startswith` on the prefix tuple. */
  lemma StartsWithSpecifierIff(s: string)
    ensures StartsWithSpecifier(s) <==> StartsWithAny(s, VersionSpecifierPrefixes)
  {
    StartsWithAnyIff(s, VersionSpecifierPrefixes);
    if s != [] && (s[0] == '*' || s[0] == '>' || s[0] == '<') {
      var k := if s[0] == '*' then 0 else if s[0] == '>' then 4 else 6;
      assert StartsWith(s, VersionSpecifierPrefixes[k]);
    }
    if |s| >= 2 && (s[0] == '!' || s[0] == '=') && s[1] == '=' {
      var k := if s[0] == '!' then 1 else 2;
      assert StartsWith(s, VersionSpecifierPrefixes[k]);
    }
  }

  /**
   * A list item that is the continuation of the previous specifier: after
   * `lstrip()` it begins with a version-constraint prefix.
   */
  predicate IsOrphan(item: string) {
    StartsWithSpecifier(LStrip(item))
  }

  // ---------------------------------------------------------------------
  // Repair: grouping items into specifiers
  // ---------------------------------------------------------------------

  /** The items of all groups, in order. */
  function Flatten(gs: seq<seq<string>>): seq<string> {
    if gs == [] then [] else Flatten(gs[..|gs| - 1]) + gs[|gs| - 1]
  }

  /** A group: a non-empty run whose items after the first are all orphans. */
  ghost predicate IsGroup(orphan: string -> bool, g: seq<string>) {
    g != [] && forall j :: 1 <= j < |g| ==> orphan(g[j])
  }

  /**
   * `gs` cuts `items` into specifiers: every group is non-empty, every item
   * after the first of a group is an orphan, and every group after the first
   * begins with an item that is not.
   */
  ghost predicate IsGrouping(orphan: string -> bool, items: seq<string>, gs: seq<seq<string>>) {
    Flatten(gs) == items
    && (forall k :: 0 <= k < |gs| ==> IsGroup(orphan, gs[k]))
    && (forall k :: 1 <= k < |gs| ==> !orphan(gs[k][0]))
  }

  /**
   * The groups the repair scan builds: an orphan joins the group of the
   * item before it, any other item (and the first item) starts a new group.
   */
  function GroupsBy(orphan: string -> bool, items: seq<string>): seq<seq<string>> {
    if items == [] then []
    else
      var gs := GroupsBy(orphan, items[..|items| - 1]);
      var x := items[|items| - 1];
      if orphan(x) && gs != [] then gs[..|gs| - 1] + [gs[|gs| - 1] + [x]]
      else gs + [[x]]
  }

  /** The groups of `fix_orphaned_version_specifiers`. */
  function Groups(items: seq<string>): seq<seq<string>> {
    GroupsBy(IsOrphan, items)
  }

  /** Each group joined back with `,`. */
  function JoinGroups(gs: seq<seq<string>>): (r: seq<string>)
    ensures |r| == |gs|
  {
    seq(|gs|, k requires 0 <= k < |gs| => Join(gs[k], ","))
  }

  /** The value `fix_orphaned_version_specifiers` returns. */
  function Repair(items: seq<string>): seq<string> {
    JoinGroups(Groups(items))
  }

  /** A new group at the end: the first item, or an item that is not an orphan. */
  lemma GroupingAddGroup(orphan: string -> bool, items: seq<string>, gs: seq<seq<string>>, x: string)
    requires IsGrouping(orphan, items, gs)
    requires gs == [] || !orphan(x)
    ensures IsGrouping(orphan, items + [x], gs + [[x]])
  {
    var gs' := gs + [[x]];
    assert gs'[..|gs'| - 1] == gs;
    assert forall k :: 0 <= k < |gs| ==> gs'[k] == gs[k];
  }

  /** An orphan at the end joins the last group. */
  lemma GroupingExtendLast(orphan: string -> bool, items: seq<string>, gs: seq<seq<string>>, x: string)
    requires IsGrouping(orphan, items, gs)
    requires gs != [] && orphan(x)
    ensures IsGrouping(orphan, items + [x], gs[..|gs| - 1] + [gs[|gs| - 1] + [x]])
  {
    var last := gs[|gs| - 1];
    var gs' := gs[..|gs| - 1] + [last + [x]];
    assert gs'[..|gs'| - 1] == gs[..|gs| - 1];
    assert gs == gs[..|gs| - 1] + [last];
    assert Flatten(gs) == Flatten(gs[..|gs| - 1]) + last;
    assert forall k :: 0 <= k < |gs| - 1 ==> gs'[k] == gs[k];
    assert forall j :: 0 <= j < |last| ==> (last + [x])[j] == last[j];
    assert IsGroup(orphan, last + [x]);
  }

  /** A last group of several items loses its last item, an orphan. */
  lemma GroupingShrinkLast(orphan: string -> bool, items: seq<string>, gs: seq<seq<string>>)
    requires IsGrouping(orphan, items, gs) && gs != [] && |gs[|gs| - 1]| > 1
    ensures items != [] && orphan(items[|items| - 1])
    ensures var g := gs[|gs| - 1];
      && g == g[..|g| - 1] + [items[|items| - 1]]
      && IsGrouping(orphan, items[..|items| - 1], gs[..|gs| - 1] + [g[..|g| - 1]])
  {
    var g := gs[|gs| - 1];
    var before := gs[..|gs| - 1];
    var g' := g[..|g| - 1];
    var rest := before + [g'];
    assert gs == before + [g];
    assert Flatten(gs) == Flatten(before) + g;
    assert IsGroup(orphan, g);
    assert g == g' + [g[|g| - 1]];
    assert rest[..|rest| - 1] == before;
    assert items[..|items| - 1] == Flatten(before) + g';
    assert forall j :: 1 <= j < |g'| ==> g'[j] == g[j];
    assert IsGroup(orphan, g');
    assert forall k :: 0 <= k < |before| ==> rest[k] == gs[k];
    assert rest[|before|][0] == g[0];
  }

  /** A last group of one item is dropped whole; that item is an orphan only when it comes first. */
  lemma GroupingDropGroup(orphan: string -> bool, items: seq<string>, gs: seq<seq<string>>)
    requires IsGrouping(orphan, items, gs) && gs != [] && |gs[|gs| - 1]| == 1
    ensures items != [] && gs[|gs| - 1] == [items[|items| - 1]]
    ensures IsGrouping(orphan, items[..|items| - 1], gs[..|gs| - 1])
    ensures |gs| > 1 ==> !orphan(items[|items| - 1])
  {
    var g := gs[|gs| - 1];
    var before := gs[..|gs| - 1];
    assert gs == before + [g];
    assert Flatten(gs) == Flatten(before) + g;
    assert forall k :: 0 <= k < |before| ==> before[k] == gs[k];
  }

  /**
   * Dropping the last item of a grouping leaves a grouping `rest` of the
   * other items, from which the scan's last step rebuilds `gs`.
   */
  lemma GroupingDropLast(orphan: string -> bool, items: seq<string>, gs: seq<seq<string>>)
    returns (rest: seq<seq<string>>)
    requires IsGrouping(orphan, items, gs) && gs != []
    ensures items != [] && IsGrouping(orphan, items[..|items| - 1], rest)
    ensures var x := items[|items| - 1];
      gs == if orphan(x) && rest != [] then rest[..|rest| - 1] + [rest[|rest| - 1] + [x]]
            else rest + [[x]]
  {
    var g := gs[|gs| - 1];
    var before := gs[..|gs| - 1];
    assert gs == before + [g];
    if |g| > 1 {
      GroupingShrinkLast(orphan, items, gs);
      rest := before + [g[..|g| - 1]];
      assert rest[..|rest| - 1] == before;
    } else {
      GroupingDropGroup(orphan, items, gs);
      rest := before;
    }
  }

  lemma {:induction false} GroupsIsGrouping(orphan: string -> bool, items: seq<string>)
    ensures IsGrouping(orphan, items, GroupsBy(orphan, items))
    decreases |items|
  {
    if items != [] {
      var init, x := items[..|items| - 1], items[|items| - 1];
      assert items == init + [x];
      GroupsIsGrouping(orphan, init);
      var gs := GroupsBy(orphan, init);
      if orphan(x) && gs != [] {
        GroupingExtendLast(orphan, init, gs, x);
      } else {
        GroupingAddGroup(orphan, init, gs, x);
      }
    }
  }

  /** A grouping of the items is unique, so it is the one the scan builds. */
  lemma {:induction false} GroupingUnique(orphan: string -> bool, items: seq<string>, gs: seq<seq<string>>)
    requires IsGrouping(orphan, items, gs)
    ensures gs == GroupsBy(orphan, items)
    decreases |items|
  {
    if gs == [] {
      assert items == Flatten(gs) == [];
    } else {
      var rest := GroupingDropLast(orphan, items, gs);
      GroupingUnique(orphan, items[..|items| - 1], rest);
    }
  }

  /**
   * `fix_orphaned_version_specifiers`: one accumulator of the pieces of the
   * current specifier, flushed (joined with `,`) when an item that is not an
   * orphan arrives and once more at the end.
   */
  method FixOrphanedVersionSpecifiers(name: seq<string>) returns (fixedName: seq<string>)
    ensures fixedName == Repair(name)
  {
    fixedName := [];
    var components: seq<string> := [];
    ghost var done: seq<seq<string>> := [];
    var i := 0;
    while i < |name|
      invariant 0 <= i <= |name|
      invariant (components == []) == (i == 0)
      invariant Groups(name[..i]) == done + (if components == [] then [] else [components])
      invariant fixedName == JoinGroups(done)
    {
      var item := name[i];
      GroupsNext(name, i);
      if i == 0 {
        assert name[..i] == [];
      }
      ghost var gs := done + (if components == [] then [] else [components]);
      if StartsWithSpecifier(LStrip(item)) {
        if components != [] {
          assert gs[..|gs| - 1] == done && gs[|gs| - 1] == components;
        } else {
          assert done == [] && [] + [item] == [item];
        }
        components := components + [item];
        assert Groups(name[..i + 1]) == done + [components];
      } else {
        if components != [] {
          JoinGroupsAppend(done, components);
          fixedName := fixedName + [Join(components, ",")];
          done := done + [components];
        } else {
          assert done == [];
        }
        components := [item];
        assert Groups(name[..i + 1]) == done + [components];
      }
      i := i + 1;
    }
    if components != [] {
      JoinGroupsAppend(done, components);
      fixedName := fixedName + [Join(components, ",")];
      done := done + [components];
    }
    assert name[..i] == name;
  }

  /** The groups after one more item of the scan. */
  lemma GroupsNext(items: seq<string>, i: nat)
    requires i < |items|
    ensures Groups(items[..i + 1]) ==
      (var gs := Groups(items[..i]);
       if IsOrphan(items[i]) && gs != [] then gs[..|gs| - 1] + [gs[|gs| - 1] + [items[i]]]
       else gs + [[items[i]]])
  {
    assert items[..i + 1][..i] == items[..i];
  }

  /** Joining one more group adds its specifier at the end. */
  lemma JoinGroupsAppend(gs: seq<seq<string>>, g: seq<string>)
    ensures JoinGroups(gs + [g]) == JoinGroups(gs) + [Join(g, ",")]
  {
    assert forall k :: 0 <= k < |gs| ==> (gs + [g])[k] == gs[k];
  }

  // ---------------------------------------------------------------------
  // Properties of the repair
  // ---------------------------------------------------------------------

  /** The repaired list never grows, and is empty exactly when the input is. */
  lemma {:induction false} RepairShrinks(items: seq<string>)
    ensures |Repair(items)| <= |items|
    ensures (Repair(items) == []) == (items == [])
  {
    GroupsIsGrouping(IsOrphan, items);
    FlattenLength(Groups(items));
  }

  lemma {:induction false} FlattenLength(gs: seq<seq<string>>)
    requires forall k :: 0 <= k < |gs| ==> gs[k] != []
    ensures |gs| <= |Flatten(gs)|
    ensures (gs == []) == (Flatten(gs) == [])
  {
    if gs != [] { FlattenLength(gs[..|gs| - 1]); }
  }

  /** One item at a time: what appending an item does to the repaired list. */
  lemma RepairStep(init: seq<string>, x: string)
    ensures Repair(init + [x]) ==
      (if IsOrphan(x) && init != []
       then Repair(init)[..|Repair(init)| - 1] + [Repair(init)[|Repair(init)| - 1] + "," + x]
       else Repair(init) + [x])
  {
    var items := init + [x];
    assert items[..|items| - 1] == init;
    RepairShrinks(init);
    var gs := Groups(init);
    if IsOrphan(x) && gs != [] {
      JoinAppend(gs[|gs| - 1], x, ",");
    }
  }

  /** Joining with `,` gives the same string before and after the repair. */
  lemma {:induction false} RepairKeepsJoin(items: seq<string>)
    ensures Join(Repair(items), ",") == Join(items, ",")
    decreases |items|
  {
    if items != [] {
      var init, x := items[..|items| - 1], items[|items| - 1];
      assert items == init + [x];
      RepairKeepsJoin(init);
      RepairStep(init, x);
      RepairShrinks(init);
      var r := Repair(init);
      if init != [] { JoinAppend(init, x, ","); }
      if IsOrphan(x) && init != [] {
        var head, last := r[..|r| - 1], r[|r| - 1];
        assert r == head + [last];
        if head != [] {
          JoinAppend(head, last, ",");
          JoinAppend(head, last + "," + x, ",");
        }
      } else if init != [] {
        JoinAppend(r, x, ",");
      }
    }
  }

  /** Singleton groups: one per item. */
  lemma {:induction false} SingletonGrouping(orphan: string -> bool, items: seq<string>)
    requires forall k :: 1 <= k < |items| ==> !orphan(items[k])
    ensures IsGrouping(orphan, items, seq(|items|, k requires 0 <= k < |items| => [items[k]]))
    decreases |items|
  {
    var gs := seq(|items|, k requires 0 <= k < |items| => [items[k]]);
    if items != [] {
      var init := items[..|items| - 1];
      SingletonGrouping(orphan, init);
      assert gs[..|gs| - 1] == seq(|init|, k requires 0 <= k < |init| => [init[k]]);
      assert items == init + [items[|items| - 1]];
    }
  }

  /** The number of orphans after the first item. */
  function OrphansAfterFirst(items: seq<string>): nat {
    if |items| <= 1 then 0
    else OrphansAfterFirst(items[..|items| - 1]) + (if IsOrphan(items[|items| - 1]) then 1 else 0)
  }

  /** Every orphan after the first item merges into the item before it. */
  lemma {:induction false} RepairLength(items: seq<string>)
    ensures |Repair(items)| == |items| - OrphansAfterFirst(items)
    decreases |items|
  {
    if items != [] {
      var init, x := items[..|items| - 1], items[|items| - 1];
      assert items == init + [x];
      RepairLength(init);
      RepairStep(init, x);
      RepairShrinks(init);
    }
  }

  lemma {:induction false} NoOrphansCounted(items: seq<string>)
    ensures (OrphansAfterFirst(items) == 0) <==> forall k :: 1 <= k < |items| ==> !IsOrphan(items[k])
    decreases |items|
  {
    if |items| > 1 {
      var init := items[..|items| - 1];
      NoOrphansCounted(init);
      assert forall k :: 1 <= k < |init| ==> init[k] == items[k];
    }
  }

  /**
   * The repair leaves a list alone exactly when no item after the first is an
   * orphan; in particular a list without constraint-prefixed items, and `[]`.
   */
  lemma RepairIdentityIff(items: seq<string>)
    ensures Repair(items) == items <==> forall k :: 1 <= k < |items| ==> !IsOrphan(items[k])
  {
    NoOrphansCounted(items);
    RepairLength(items);
    if forall k :: 1 <= k < |items| ==> !IsOrphan(items[k]) {
      SingletonGrouping(IsOrphan, items);
      var gs := seq(|items|, k requires 0 <= k < |items| => [items[k]]);
      GroupingUnique(IsOrphan, items, gs);
      assert forall k :: 0 <= k < |items| ==> Join(gs[k], ",") == items[k];
    }
  }

  /**
   * An item followed only by constraint fragments is put back into one
   * specifier, the fragments joined in their original order.
   */
  lemma RepairRejoins(items: seq<string>)
    requires items != []
    requires forall k :: 1 <= k < |items| ==> IsOrphan(items[k])
    ensures Repair(items) == [Join(items, ",")]
  {
    assert IsGroup(IsOrphan, items);
    SingleGroup(IsOrphan, items);
    JoinGroupsSingle(items);
  }

  lemma JoinGroupsSingle(g: seq<string>)
    ensures JoinGroups([g]) == [Join(g, ",")]
  {
  }

  lemma SingleGroup(orphan: string -> bool, items: seq<string>)
    requires IsGroup(orphan, items)
    ensures GroupsBy(orphan, items) == [items]
  {
    var gs := [items];
    assert gs[..0] == [];
    assert Flatten(gs) == items;
    GroupingUnique(orphan, items, gs);
  }

  /** The example of the function's documentation comment. */
  lemma RepairDocExample()
    ensures Repair(["community.postgresql:>2.2.1", "<2.4.1", "!=2.3.5"])
         == ["community.postgresql:>2.2.1,<2.4.1,!=2.3.5"]
  {
    var head, f1, f2 := "community.postgresql:>2.2.1", "<2.4.1", "!=2.3.5";
    DocExampleFragments();
    RepairRejoins([head, f1, f2]);
    DocExampleJoin();
  }

  /** Which items of the documented example are orphans. */
  lemma DocExampleFragments()
    ensures !IsOrphan("community.postgresql:>2.2.1")
    ensures IsOrphan("<2.4.1") && IsOrphan("!=2.3.5")
  {
    assert LStrip("community.postgresql:>2.2.1") == "community.postgresql:>2.2.1";
    assert LStrip("<2.4.1") == "<2.4.1";
    assert LStrip("!=2.3.5") == "!=2.3.5";
  }

  /** The documented example's items joined with commas. */
  lemma DocExampleJoin()
    ensures Join(["community.postgresql:>2.2.1", "<2.4.1", "!=2.3.5"], ",")
         == "community.postgresql:>2.2.1,<2.4.1,!=2.3.5"
  {
    var head, f1, f2 := "community.postgresql:>2.2.1", "<2.4.1", "!=2.3.5";
    assert [head, f1, f2][1..] == [f1, f2] && [f1, f2][1..] == [f2];
    assert Join([f2], ",") == f2;
    assert Join([f1, f2], ",") == f1 + "," + f2;
    assert Join([head, f1, f2], ",") == head + "," + (f1 + "," + f2);
  }

  /**
   * The documented git example `git+https://github.com/organization/repo_name.git,devel`
   * arrives split at its comma. The branch name `devel` does not start a
   * constraint, so the repair leaves it a target of its own rather than
   * rejoining it to the locator.
   */
  lemma RepairKeepsGitRefApart()
    ensures Repair(["git+https://github.com/organization/repo_name.git", "devel"])
         == ["git+https://github.com/organization/repo_name.git", "devel"]
  {
    var locator := "git+https://github.com/organization/repo_name.git";
    assert LStrip("devel") == "devel";
    assert !IsOrphan([locator, "devel"][1]);
    RepairIdentityIff([locator, "devel"]);
  }

  // ---------------------------------------------------------------------
  // Stripping the constraint from a specifier
  // ---------------------------------------------------------------------

  /**
   * One step of `remove_version_specifiers`: the text before the first `:`
   * when the field after it starts with a constraint prefix (no `lstrip()`
   * here), the item unchanged otherwise.
   */
  function StripVersion(item: string): string {
    var parts := Split(item, ':');
    if |parts| > 1 && StartsWithSpecifier(parts[1]) then parts[0] else item
  }

  /** `remove_version_specifiers`, one output per input, in order. */
  function RemoveVersionSpecifiers(name: seq<string>): seq<string> {
    seq(|name|, k requires 0 <= k < |name| => StripVersion(name[k]))
  }

  /** Cutting a string at its first `:` does not change whether it starts with a prefix. */
  lemma FieldStartsWithSpecifier(rest: string)
    ensures StartsWithSpecifier(Split(rest, ':')[0]) == StartsWithSpecifier(rest)
  {
    var head := Split(rest, ':')[0];
    SplitHead(rest, ':');
    if ':' in rest {
      var m := FirstIndex(rest, ':');
      assert head == rest[..m];
      if m >= 2 { assert head[..2] == rest[..2]; }
      if m == 1 { assert rest[..2] == [rest[0], ':']; }
    }
  }

  /**
   * `StripVersion` in terms of the first `:` alone: the text after it either
   * starts with a constraint prefix (and is dropped) or the item is kept
   * whole; a second `:` plays no part.
   */
  lemma StripVersionSpec(item: string)
    ensures ':' !in item ==> StripVersion(item) == item
    ensures ':' in item ==>
      var i := FirstIndex(item, ':');
      StripVersion(item) == if StartsWithSpecifier(item[i + 1..]) then item[..i] else item
  {
    if ':' in item {
      var i := FirstIndex(item, ':');
      FieldStartsWithSpecifier(item[i + 1..]);
      assert Split(item, ':')[1] == Split(item[i + 1..], ':')[0];
    }
  }

  /** The same, for a `:` known to be the first one. */
  lemma StripVersionAt(item: string, i: nat)
    requires i < |item| && item[i] == ':' && forall j :: 0 <= j < i ==> item[j] != ':'
    ensures StripVersion(item) == if StartsWithSpecifier(item[i + 1..]) then item[..i] else item
  {
    StripVersionSpec(item);
  }

  /** A stripped name holds no `:` unless it was left whole, and stripping twice changes nothing. */
  lemma StripVersionIdempotent(item: string)
    ensures StripVersion(item) == item || ':' !in StripVersion(item)
    ensures StripVersion(StripVersion(item)) == StripVersion(item)
  {
    StripVersionSpec(item);
    StripVersionSpec(StripVersion(item));
  }

  /** A name without `:` followed by `:` and a constraint is cut back to the name. */
  lemma StripVersionDropsConstraint(bare: string, constraint: string)
    requires ':' !in bare && StartsWithSpecifier(constraint)
    ensures StripVersion(bare + ":" + constraint) == bare
  {
    var item := bare + ":" + constraint;
    assert item[|bare|] == ':' && item[..|bare|] == bare && item[|bare| + 1..] == constraint;
    StripVersionAt(item, |bare|);
  }

  /**
   * A locator whose text after the first `:` does not start with a
   * constraint prefix (`git@github.com:org/repo.git`,
   * `git+file:///home/user/repo.git`) is kept whole.
   */
  lemma StripVersionKeepsLocator(before: string, after: string)
    requires ':' !in before && !StartsWithSpecifier(after)
    ensures StripVersion(before + ":" + after) == before + ":" + after
  {
    var item := before + ":" + after;
    assert item[|before|] == ':' && item[..|before|] == before && item[|before| + 1..] == after;
    StripVersionAt(item, |before|);
  }

  /**
   * The repair step strips leading spaces before testing a prefix, the strip
   * step does not: a constraint written after `: ` makes an orphan fragment
   * for the one and is no constraint for the other.
   */
  lemma StripVersionDoesNotLStrip(bare: string, constraint: string)
    requires ':' !in bare && StartsWithSpecifier(constraint)
    ensures IsOrphan(" " + constraint)
    ensures StripVersion(bare + ": " + constraint) == bare + ": " + constraint
  {
    assert (" " + constraint)[1..] == constraint;
    assert LStrip(constraint) == constraint;
    assert bare + ": " + constraint == bare + ":" + (" " + constraint);
    StripVersionKeepsLocator(bare, " " + constraint);
  }
}
