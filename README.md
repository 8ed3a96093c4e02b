# ansible_collection, modelled in Dafny

The `ansible_collection` Ansible module (`plugins/modules/ansible_collection.py`)
installs, upgrades, force-reinstalls or removes Ansible collections by running
`ansible-galaxy collection ...`. This project models its core and proves
properties of the model:

- **Specifier repair** (`fix_orphaned_version_specifiers`): Ansible splits a
  `name:` option at commas, so `community.postgresql:>2.2.1,<2.4.1` arrives
  as two items. The repair joins each constraint fragment back onto the
  specifier before it (module `Specifiers`, with the Python string
  operations it relies on in `PyStrings`).
- **Constraint stripping** (`remove_version_specifiers`): the bare
  collection name of a specifier (`Specifiers.StripVersion`).
- **The reverse index** (`installed_collections_dict`): the JSON printed by
  `ansible-galaxy collection list --format=json` becomes a map from
  collection name to its install directories, root by root (module
  `Manifest`).
- **The uninstall emulation** (`collection_uninstall`): `ansible-galaxy`
  has no uninstall action, so the module removes each install directory of
  each requested collection with `shutil.rmtree`. This is a `FileSystem`
  class whose `Rmtree` method updates the set of existing paths (module
  `Uninstaller`).
- **The entry point** (`run_module`): argument validation, the command
  planned for each state, executable resolution, the non-zero-exit failure,
  and how `changed` is derived (module `Reconcile`).

Each imperative routine is a `method` proved against a specification
function: `FixOrphanedVersionSpecifiers` against `Repair`,
`InstalledCollectionsDict` against `Index`, `CollectionUninstall` against
`Uninstall`, and `RunModule` against `Reconcile`. The lemmas then state
what the source promises about those functions.

The process runner (`module.run_command`), the `PATH` search
(`shutil.which`) and the JSON decoder (`json.loads`) are parameters:
- `runner: seq<string> -> Process`;
- a map `which` from command name to resolved path;
- `parse: string -> Option<Listing>`, where `None` means `json.loads` raised.

The file system is the set of paths that exist, plus a fixed set of paths
whose removal raises.

## Model

| member | source | states |
|---|---|---|
| PyStrings.LStripSpec | plugins/modules/ansible_collection.py:153 | `lstrip()` removes exactly the leading whitespace: the result is a suffix, what it drops is all whitespace, and it starts with a non-space character or is empty |
| PyStrings.StartsWithAnyIff | plugins/modules/ansible_collection.py:153 | `str.startswith(tuple)` holds exactly when some element of the tuple is a prefix |
| PyStrings.Split | plugins/modules/ansible_collection.py:180 | `str.split(sep)` yields at least one piece, more than one exactly when `sep` occurs, and no piece contains `sep` |
| PyStrings.JoinSplit | plugins/modules/ansible_collection.py:180 | joining the pieces of `split(sep)` with `sep` gives back the original string |
| PyStrings.JoinSplitReplace | plugins/modules/ansible_collection.py:172 | joining the pieces of `split('.')` with `/` is the string with every `.` replaced by `/` |
| PyStrings.SplitWhitespace | plugins/modules/ansible_collection.py:240 | every word of `str.split()` is non-empty and holds no whitespace |
| PyStrings.SplitWhitespaceKeepsText | plugins/modules/ansible_collection.py:240 | `str.split()` loses only whitespace: the concatenated words are the input with all whitespace removed |
| PyStrings.SplitWhitespaceCollapses | plugins/modules/ansible_collection.py:240 | the words of `str.split()` are the maximal whitespace-free runs: joined on one space they equal an independent left-to-right squeeze of the input (leading and trailing whitespace dropped, every inner run written as one space) |
| PyStrings.ContainsIff | plugins/modules/ansible_collection.py:276 | the substring test `needle in hay` holds exactly when `needle` starts at some position of `hay` |
| Specifiers.StartsWithSpecifierIff | plugins/modules/ansible_collection.py:136 | an item starts a version constraint exactly when it starts with one of `*`, `!=`, `==`, `>=`, `>`, `<=`, `<` |
| Specifiers.Repair | plugins/modules/ansible_collection.py:150-162 | the value `fix_orphaned_version_specifiers` returns: each group of the scan joined with `,`; what it means is stated by the lemmas below |
| Specifiers.FixOrphanedVersionSpecifiers | plugins/modules/ansible_collection.py:138-162 | the accumulate-and-flush loop returns `Repair(name)`, the specifiers joined with `,` group by group |
| Specifiers.GroupsIsGrouping | plugins/modules/ansible_collection.py:152-160 | the groups the scan builds cut the input into non-empty runs: each run is one item that is not a constraint fragment (or the first item), followed by the constraint fragments after it |
| Specifiers.GroupingUnique | plugins/modules/ansible_collection.py:152-160 | any grouping with that property is the one the scan builds |
| Specifiers.RepairStep | plugins/modules/ansible_collection.py:152-158 | appending a fragment to a non-empty input appends `,fragment` to the last repaired specifier; appending any other item adds a new specifier |
| Specifiers.RepairKeepsJoin | plugins/modules/ansible_collection.py:138-162 | the repair only undoes the comma split: joining the result with `,` gives the same text as joining the input |
| Specifiers.RepairShrinks | plugins/modules/ansible_collection.py:150-162 | the result is never longer than the input, and is empty exactly when the input is |
| Specifiers.RepairLength | plugins/modules/ansible_collection.py:152-160 | the result has one specifier fewer for each constraint fragment after the first item |
| Specifiers.RepairIdentityIff | plugins/modules/ansible_collection.py:152-160 | the repair changes nothing exactly when no item after the first is a constraint fragment |
| Specifiers.RepairRejoins | plugins/modules/ansible_collection.py:152-160 | an item followed only by fragments becomes a single specifier, the pieces joined with `,` in order |
| Specifiers.RepairDocExample | plugins/modules/ansible_collection.py:141-146 | the documented example `['community.postgresql:>2.2.1', '<2.4.1', '!=2.3.5']` becomes `['community.postgresql:>2.2.1,<2.4.1,!=2.3.5']` |
| Specifiers.RepairKeepsGitRefApart | plugins/modules/ansible_collection.py:85-87 | the documented git example `git+https://github.com/organization/repo_name.git,devel`, split by Ansible at its comma, stays two items: the repair does not rejoin the branch name `devel`, so it is planned as a target of its own |
| Specifiers.StripVersion | plugins/modules/ansible_collection.py:179-184 | the bare name of one specifier; its meaning is stated by `StripVersionSpec` |
| Specifiers.RemoveVersionSpecifiers | plugins/modules/ansible_collection.py:176-184 | `remove_version_specifiers`: `StripVersion` applied to each item, in order |
| Specifiers.StripVersionSpec | plugins/modules/ansible_collection.py:179-184 | without `:` the item is kept; otherwise the text before the first `:` is kept when the text after it starts a constraint, and the whole item otherwise |
| Specifiers.StripVersionIdempotent | plugins/modules/ansible_collection.py:179-184 | a stripped name holds no `:` unless it was kept whole, and stripping twice equals stripping once |
| Specifiers.StripVersionDropsConstraint | plugins/modules/ansible_collection.py:181-182 | `bare:constraint` strips to `bare` |
| Specifiers.StripVersionKeepsLocator | plugins/modules/ansible_collection.py:183-184 | a `:` followed by anything that does not start a constraint (a URL, a git ref) keeps the item whole |
| Specifiers.StripVersionDoesNotLStrip | plugins/modules/ansible_collection.py:181 | unlike the repair, the strip does not skip spaces: `bare: >1.0` is kept whole although ` >1.0` counts as a fragment for the repair |
| Manifest.PathJoin | plugins/modules/ansible_collection.py:172 | `os.path.join(a, b)`: an absolute `b` replaces `a`; otherwise `b` follows `a`, with a `/` between unless `a` is empty or already ends in `/` |
| Manifest.PathJoinAll | plugins/modules/ansible_collection.py:172 | `os.path.join(root, *segments)`, folded segment by segment; its shape is stated by `PathJoinAllPlain` |
| Manifest.InstallPath | plugins/modules/ansible_collection.py:172 | the install path `os.path.join(root, *name.split('.'))`; its shape is stated by `InstallPathPlain` |
| Manifest.PathJoinAllPlain | plugins/modules/ansible_collection.py:172 | `os.path.join(root, *segments)` with non-empty relative segments is `root/seg1/.../segN` |
| Manifest.InstallPathPlain | plugins/modules/ansible_collection.py:172 | the install path of a dotted name with non-empty, slash-free pieces is the root, `/`, and the name with `.` turned into `/` |
| Manifest.InstallPathDotted | plugins/modules/ansible_collection.py:172 | collection `ns.coll` under root `r` is installed at `r/ns/coll` |
| Manifest.Index | plugins/modules/ansible_collection.py:164-174 | the reverse index, root by root and name by name; what it holds is stated by `IndexSpec` |
| Manifest.InstalledCollectionsDict | plugins/modules/ansible_collection.py:164-174 | the nested loop builds `Index(listing)`, one append per listed name, root by root |
| Manifest.IndexAt | plugins/modules/ansible_collection.py:168-172 | for every name, the index built update by update has a key exactly when the name is listed, holding its install paths in listing order |
| Manifest.IndexSpec | plugins/modules/ansible_collection.py:164-174 | a name is a key exactly when some root lists it; its list is non-empty and holds exactly the install paths of the name under the roots that list it |
| Manifest.IndexAppendsRoot | plugins/modules/ansible_collection.py:170-172 | a further root listing a name once appends exactly that root's install path to the name's list |
| Uninstaller.FileSystem.Rmtree | plugins/modules/ansible_collection.py:196 | `rmtree(p)` succeeds exactly when `p` exists and can be removed; it then removes `p` and everything beneath it, and otherwise changes nothing |
| Uninstaller.RemoveAll | plugins/modules/ansible_collection.py:195-196 | the `rmtree` calls in order, stopping at the first that raises; stated by `RemoveAllSpec` and `RemoveAllSucceedsIff` |
| Uninstaller.UninstallIndexed | plugins/modules/ansible_collection.py:190-198 | the loop over the requested names against a built index: the removals, then `changed` when some name was indexed |
| Uninstaller.Uninstall | plugins/modules/ansible_collection.py:186-198 | `collection_uninstall`: an unreadable listing is an error; otherwise the index is built and the requested names removed; stated by the `Uninstall...` lemmas below |
| Uninstaller.CollectionUninstall | plugins/modules/ansible_collection.py:186-198 | the method leaves the file system and returns the result that `Uninstall` prescribes |
| Uninstaller.RemoveIndexed | plugins/modules/ansible_collection.py:190-198 | the loop over stripped names and their paths ends in the state and result that `UninstallIndexed` prescribes |
| Uninstaller.RemoveAllSpec | plugins/modules/ansible_collection.py:195-196 | removing paths in order leaves exactly the entries beneath none of them; a failure names the path at some position `k` that was missing or protected, every path before `k` was unprotected and still present when its turn came, and exactly the entries beneath those earlier paths are removed |
| Uninstaller.RemoveAllSucceedsIff | plugins/modules/ansible_collection.py:195-196 | every removal succeeds exactly when each path is unprotected and still present when its turn comes, i.e. not removed along with an earlier path |
| Uninstaller.RemoveAllRepeatFails | plugins/modules/ansible_collection.py:195-196 | the same path twice in the removal order always ends in a failure |
| Uninstaller.TargetPathsMembers | plugins/modules/ansible_collection.py:192-195 | the paths to remove are exactly the index entries of the requested names found in the index |
| Uninstaller.AnyIndexedIff | plugins/modules/ansible_collection.py:192-194 | `changed` is set exactly when some requested name is in the index |
| Uninstaller.UninstallChangedIff | plugins/modules/ansible_collection.py:190-198 | a completed uninstall reports a change exactly when some requested name, stripped of its constraint, is listed under some root |
| Uninstaller.UninstallRemovesExactly | plugins/modules/ansible_collection.py:186-198 | a completed uninstall leaves exactly the entries beneath no install path of a requested collection |
| Uninstaller.UninstallFailureKeepsRest | plugins/modules/ansible_collection.py:195-196 | a failed uninstall names an install path of a requested collection, adds nothing, and removed only entries beneath such paths |
| Uninstaller.UninstallSucceedsIff | plugins/modules/ansible_collection.py:192-196 | the uninstall completes exactly when each path to remove, in order, is unprotected and still present |
| Uninstaller.UninstallNothingListed | plugins/modules/ansible_collection.py:190-198 | when no requested collection is listed (a second run, say) nothing is removed and no change is reported |
| Uninstaller.DuplicateRequestFails | plugins/modules/ansible_collection.py:192-196 | requesting a listed collection twice makes the second `rmtree` of its path raise, so the uninstall fails |
| Uninstaller.UninstallTwoRoots | plugins/modules/ansible_collection.py:186-198 | `ns.x` installed under two roots and `ns.y` under one: uninstalling `ns.x` removes both of its directories, keeps `ns.y`'s, and reports a change |
| Reconcile.Reconcile | plugins/modules/ansible_collection.py:200-278 | the outcome of `run_module` as a function of the parameters, the search, the runner, the parser and the file system, with line 238 as corrected and a non-`absent` `name: []` excluded (see "## Left out"); stated by the `Reconcile...` lemmas below |
| Reconcile.RunModule | plugins/modules/ansible_collection.py:200-278 | the entry point leaves the file system and returns the result dictionary that `Reconcile` prescribes |
| Reconcile.StateArgs | plugins/modules/ansible_collection.py:201-210 | the `state_args` entry of each state; stated by `StateArgsDistinct` |
| Reconcile.StateArgsDistinct | plugins/modules/ansible_collection.py:201-210 | `absent` alone runs the listing sub-command; the other three states run `install`, and no two states share their arguments |
| Reconcile.ResolveExecutable | plugins/modules/ansible_collection.py:244-247 | `shutil.which` applied only to a bare name; stated by `ResolveExecutableSpec` |
| Reconcile.ResolveExecutableSpec | plugins/modules/ansible_collection.py:244-247 | an executable holding `/` is used exactly as given, whatever the search knows; a bare name resolves to exactly the path the search finds, and is not found when the search has no non-empty path for it; a resolved executable is never empty |
| Reconcile.Targets | plugins/modules/ansible_collection.py:249-255 | the targets: none for `absent`, the repaired names when there are any, `-r <requirements>` otherwise, for requests that have a non-empty `name` or a requirements file (see "## Left out"); stated by `AbsentPlansListing` and `InstallPlansTargets` |
| Reconcile.RepairName | plugins/modules/ansible_collection.py:238 | line 238 as corrected: the repair applied to `name`, an unset `name` read as the empty list |
| Reconcile.RepairNameAsWritten | plugins/modules/ansible_collection.py:238 | line 238 as written: no value (the `TypeError`) when `name` is unset, the repair otherwise |
| Reconcile.Command | plugins/modules/ansible_collection.py:257 | the argument vector handed to `run_command`; stated by `CommandLayout` |
| Reconcile.CommandLayout | plugins/modules/ansible_collection.py:257 | the command is the executable, `collection`, the state's arguments, the whitespace-split extra arguments, then the targets |
| Reconcile.AbsentPlansListing | plugins/modules/ansible_collection.py:249-257 | for `absent` the command is `<exe> collection list --format=json <extra args>`, with no targets whatever names were requested |
| Reconcile.InstallPlansTargets | plugins/modules/ansible_collection.py:251-257 | an install command ends with the repaired names when names were given, and with `-r <requirements>` otherwise |
| Reconcile.InvalidArgumentsFailFirst | plugins/modules/ansible_collection.py:223-227 | both or neither of `name` and `requirements`: the module fails before any process runs, and nothing is touched |
| Reconcile.ExecutableNotFoundFails | plugins/modules/ansible_collection.py:244-247 | a bare executable name the search cannot resolve fails the module before any process runs |
| Reconcile.NonZeroExitFails | plugins/modules/ansible_collection.py:261-268 | a non-zero exit fails the module with exit code, stdout and stderr attached; it reports no change and touches nothing |
| Reconcile.FailureIff | plugins/modules/ansible_collection.py:223-274 | the module fails exactly on invalid arguments, an unresolved executable, a non-zero exit, or an uninstall error for `absent`; the first three touch nothing |
| Reconcile.InstallChangedIff | plugins/modules/ansible_collection.py:275-276 | an install that exits 0 reports a change exactly when stdout contains `was installed successfully`, and touches no file itself |
| Reconcile.AbsentFollowsUninstall | plugins/modules/ansible_collection.py:270-274 | `absent` that exits 0 reports the uninstall emulation's result on the printed listing and leaves the file system as the emulation does; an emulation error is reported as an uninstall failure |
| Reconcile.InstallScenario | plugins/modules/ansible_collection.py:238-276 | `name: pkg.a:>1.0,<2.0`, split by Ansible at the comma, plans `/usr/bin/mgr collection install pkg.a:>1.0,<2.0`; an exit 0 whose output holds the marker reports `changed`, `rc` 0 |
| Reconcile.RequirementsOnlyCrashesAsWritten | plugins/modules/ansible_collection.py:238 | as written, a request giving only `requirements` passes validation but leaves `name` unset, so the repair at line 238 raises |
| Reconcile.RequirementsOnlyPlansInstall | plugins/modules/ansible_collection.py:249-257 | with an unset `name` read as the empty list, a requirements-only request plans `<exe> collection <state args> <extra args> -r <requirements>` |

## Left out

- `plugins/inventory/members.py` (the inventory plugin) is not part of this model.
- `module.run_command` is the parameter `runner`. Its working directory (`chdir`) and environment are left out, because the model cannot see the process.
- `json.loads` is the parameter `parse`. The listing is a sequence of (root, collection names) pairs in the dictionary's iteration order. The model does not require the roots to be distinct.
- `shutil.which` is the map `which`. Expanding `~` and environment variables in options of type `path` is left out.
- Uninstaller.FileSystem.Rmtree: a removal either succeeds completely or changes nothing. The partial removal `shutil.rmtree` leaves behind when it fails halfway through a tree is not modelled, and neither is the difference between files and directories.
- The failure messages of `fail_json` and the `exit_json` call are left out. A failure is the `Failure` value, and the result dictionary is the `ModuleResult` datatype.
- The validation `AnsibleModule` performs from the argument spec is left out: type coercion, the `choices` check on `state`, and the defaults (`present`, `''`, `ansible-galaxy`). `State` admits only the four states, and `Params` carries values after defaults are applied.
- Reconcile.Targets: requires a non-`absent` request to have a non-empty repaired `name` or a `requirements` file. With `name: []` and no requirements, line 252's `if name:` is false and line 255 builds `['-r', None]`; a target list holding `None` is outside the model.
- Reconcile.Reconcile: requires the same of its parameters (`TargetsDefined`), for the same reason: `name: []` with a non-`absent` state would plan `['-r', None]` at line 255.
- Reconcile.Reconcile: models the corrected line 238, where an unset `name` is read as the empty list. As written, a requirements-only request raises `TypeError` there (see "## Findings").
- Reconcile.RunModule: requires that a non-`absent` request with a `name` option has at least one item. As written, an empty list `name: []` passes validation and plans `['-r', None]` for `run_command`, whose behaviour with `None` is outside the model.
- Reconcile.RunModule: models the corrected line 238, where an unset `name` is read as the empty list, so a requirements-only request plans `-r <requirements>`. As written, line 238 raises `TypeError` for that request; `RepairNameAsWritten` and `RequirementsOnlyCrashesAsWritten` exhibit this (see "## Findings").
- Paths are compared as plain text and are not normalised: `a//b`, `a/./b` and a path through a symlink count as different paths from `a/b`, although `shutil.rmtree` would act on the same directory. Aliasing in the file system is not modelled.
- The success marker is the full text `was installed successfully`, tested at line 276; shorter wordings of it do not count as a change.
- Install targets are chosen by `if name:` (line 252), so a non-empty `name` wins; valid arguments never give both `name` and `requirements`.

## Findings

| source | as written | input that shows it | evidently intended | confidence | as-written member | corrected member |
|---|---|---|---|---|---|---|
| plugins/modules/ansible_collection.py:238 | `fix_orphaned_version_specifiers(module.params['name'])` iterates over `name`, which is `None` when only `requirements` is given | `requirements: /my_app/requirements.yml` without `name`, the documented example at lines 110-112: `for item in None` raises `TypeError` before any command is planned | treat an unset `name` as the empty list, so that the command is `ansible-galaxy collection install -r /my_app/requirements.yml` | not executed | Reconcile.RequirementsOnlyCrashesAsWritten | Reconcile.RequirementsOnlyPlansInstall |
