# dynpy-config in Dafny

dynpy-config is a small desktop tool for the `.pth` path files that an
embedded ("embeddable zip") Python distribution picks up from the user's
site-packages folder. The tool has two parts:

- The **service** finds the embedded Python archives by their file names.
  It locates each version's user site-packages folder. It normalises Windows
  and WSL paths and saves path files, writing or deleting each one.
- The **controller** holds the state behind the configuration window:
  - one dictionary of file models and entry models, keyed by the tree view's
    item ids;
  - the ids removed since the version was chosen;
  - the selected id;
  - the active version.

  Its commands add, remove and save path entries and path files.

This project models both parts and proves what they promise.

| file | module | models |
|---|---|---|
| `wrappers.dfy` | `Wrappers` | `Option`, `Result` (a raised exception is a `Failure` with its message), `Unit` |
| `text.dfy` | `Text` | string helpers: prefix, substring, character replacement, join/split on a separator, decimal digits |
| `service.dfy` | `Service` | `PythonPathFile`, `EmbedPython` and its names and equality, `user_site_pkg_path`, `_get_path`, the written `.pth` text, `save_site_package` as an action plan, `embed_versions`, `_is_embed_python`, `embed_python_by` and the blank-name guard |
| `archive_pattern.dfy` | `ArchivePattern` | `PYTHON_PATTERN` matched as `re.match` does: unescaped dots match any character but a newline, greedy quantifiers backtrack in priority order, and `$` also matches before a final newline |
| `tree_ids.dfy` | `TreeIds` | the Tk tree view's item ids `I001`, `I002`, … (`"I%03X" % n`), which never repeat |
| `view_model.dfy` | `ViewModel` | `PathEntryViewModel` and `PathFileViewModel` as classes (the `uuid` setter, `add`, `remove`, `create`), their value snapshots, `create_view_model` |
| `config_tree.dfy` | `ConfigTree` | the controller's dictionary as a value (`Tree`: a map plus its keys in insertion order, which is the order Python dicts iterate in), its invariant, and the effect of every controller operation on it |
| `controller.dfy` | `Controller` | `PythonConfigController` as a class `ConfigController` with the dictionary, `deleted`, `current_id`, `python`, `last_directory` and the view's id counter as fields |

The dictionary's invariant is `ConfigTree.Wellformed`:

- every model is stored under its own id;
- the key list holds each key once;
- every entry hangs under a file of the map;
- every file's `content` is exactly the list of entries in the map that name
  it as their parent, in dictionary order.

The invariant is why `_get_child_of` (which walks the dictionary) and a file's
own `content` (which `remove` edits) always agree. Every command of
`ConfigController` keeps it, as part of `Valid()`.

Inputs that come from outside the program are parameters:

- dialog answers;
- the selected rows of the widgets;
- the archive directory's listing;
- the site packages' path files;
- `USERPROFILE`.

What saving writes or deletes is returned as a list of `Action`s.

Where the specification of the tool and the code disagree, the model follows
the code:

- **`_get_path` is not idempotent.** `\mnt\c\x` becomes `/mnt/c/x`, and that
  becomes `C:/x` (`Service.GetPathTwice`). Normalising twice equals
  normalising once exactly when the first result does not start with
  `/mnt/c/` (`Service.GetPathIdempotent`).
- **Duplicate paths are not rejected.** `add` compares whole entries, and a
  new entry has no id yet, so `create` always appends, even for a path the
  file already holds (`ConfigTree.CreatedPending`).
- **Version equality leaves out the tag.** `tag` is declared with
  `compare=False`, so only path, major and minor are compared
  (`Service.SameEmbed`, `Service.SameEmbedForgets`).
- **Saving collects no per-file failures.** The first failing write or delete
  ends the save.
- **A removed file is not deleted on disk.** It drops out of the save plan and
  stays on disk (`ConfigTree.RemovedFileNotSaved`).

## Model

| member | source | states |
|---|---|---|
| Service.SameEmbedForgets | dynpy/service.py:27-33 | two versions are equal exactly when they agree once tag and architecture are forgotten (`compare=False`) |
| Service.SameEmbedEquivalence | dynpy/service.py:27-33 | the dataclass equality is reflexive, symmetric and transitive |
| Service.ShortVersionParts | dynpy/service.py:35-37 | the first `.` of the short version ends the major's digits; the major is before it and the minor after it |
| Service.ShortVersionInjective | dynpy/service.py:35-37 | equal short versions mean equal major and minor |
| Service.LongVersionInjective | dynpy/service.py:39-41 | with dot-free minors, equal long versions mean equal major, minor and tag |
| Service.FullNameContainsShortVersion | dynpy/service.py:43-45 | the full name `Python <major>.<minor>.<tag>` contains the short version |
| Service.UserSitePkgPath | dynpy/service.py:59-61 | the path is the user site root, then `Python<major><minor>`, then `site-packages` |
| Service.UserSitePkgPathVersionOnly | dynpy/service.py:59-61 | the location depends on major and minor only |
| Service.UserSitePkgPathShared | dynpy/service.py:59-61 | with nothing between major and minor, 3.11 and 31.1 share one folder |
| Service.GetPath | dynpy/service.py:70-75 | no backslash in the result; a `/mnt/c/` prefix becomes `C:/` before the rest with backslashes replaced; any other path keeps its length with each `\` replaced by `/` |
| Service.GetPathIdempotent | dynpy/service.py:70-75 | normalising twice equals normalising once if and only if the normalised path does not start with `/mnt/c/` |
| Service.GetPathTwice | dynpy/service.py:70-75 | counterexample to idempotence: `\mnt\c\x` gives `/mnt/c/x`, which gives `C:/x` |
| Service.GetPathNewlines | dynpy/service.py:70-75 | normalising adds no newline |
| Service.WriteContentRoundTrip | dynpy/service.py:78-82 | splitting the written text on `\n` gives back the normalised lines, provided there is at least one line and no line contains a newline |
| Service.WriteContentEnds | dynpy/service.py:78-82 | the text ends with the last normalised line: no trailing newline |
| Service.ActionFor | dynpy/service.py:100-105 | the action targets the file's path; it is a delete exactly when the file is empty (`is_empty`), otherwise a write of the normalised content |
| Service.SaveSitePackage | dynpy/service.py:100-105 | one action per path file, in input order, each being `ActionFor` that file |
| Service.EmbedFrom | dynpy/service.py:110-121 | an archive gives a version exactly when its name matches the pattern, and the version keeps the archive's path |
| Service.FilterMapMembers | dynpy/service.py:108-122 | the filter-and-parse loop keeps a value exactly when some element parses to it |
| Service.FilterMapAppend | dynpy/service.py:108-122 | filter-and-parse keeps listing order: it distributes over concatenation |
| Service.DiscoveredMembers | dynpy/service.py:108-122 | a version is discovered exactly when some archive of the listing describes it |
| Service.EmbedVersions | dynpy/service.py:108-122 | the loop returns the discovered versions, in listing order |
| Service.DiscoveredDotFree | dynpy/service.py:54-56 | a discovered minor is alphanumeric, so it holds no dot |
| Service.FirstMatch | dynpy/service.py:125-134 | a result is listed and its short version occurs in the name; there is none exactly when no version's short version occurs in the name |
| Service.FirstMatchIsFirst | dynpy/service.py:129-134 | no version earlier in order than the one found matches the name |
| Service.FullNameResolves | dynpy/service.py:125-134 | the full name of a listed version always finds some version |
| Service.FullNameCapturedByPrefix | dynpy/service.py:125-126 | with 3.1 listed before 3.10, the name `Python 3.10.2` finds 3.1 |
| Service.FirstNamed | dynpy/service.py:129-134 | corrected lookup: a result is listed and has exactly the chosen full name; there is none exactly when no version has that full name |
| Service.FirstNamedFindsListed | dynpy/service.py:129-134 | the corrected lookup of a discovered version's full name finds a version with the same major, minor and tag |
| Service.FirstNamedKeepsPrefixApart | dynpy/service.py:129-134 | where the substring lookup picks 3.1, the corrected lookup picks 3.10 |
| Service.EmbedPythonBy | dynpy/service.py:129-134 | the scan with early return gives the first discovered version whose short version occurs in the name |
| Service.ServiceEmbedPythonBy | dynpy/service.py:144-147 | a missing or whitespace-only name gives nothing; any other name gives the first match |
| ArchivePattern.MatchLengths | dynpy/service.py:54-56 | a reported match makes the whole pattern match the name |
| ArchivePattern.MatchLengthsGreatest | dynpy/service.py:54-56 | whenever some way to match exists, a match is reported, and it is the greatest in backtracking priority (leftmost group first, longer first) |
| ArchivePattern.MatchIffMatchable | dynpy/service.py:54-56 | the pattern matches exactly when some assignment of group lengths matches; other names are skipped |
| ArchivePattern.LongestIsLast | dynpy/service.py:54-56 | when every greedy group takes its longest run and the rest matches, nothing has higher priority |
| ArchivePattern.MatchLengthsLongest | dynpy/service.py:54-56 | in that case the reported match is exactly those longest runs |
| ArchivePattern.ValidDeterminedByHead | dynpy/service.py:54-56 | two matches that agree on major, minor and tag agree on the architecture |
| ArchivePattern.DigitRunLongest | dynpy/service.py:55 | `\d+` can take at most the longest run of digits |
| ArchivePattern.AlnumRunLongest | dynpy/service.py:55 | `[0-9a-zA-Z]{,n}` can take at most the longest run of alphanumerics, capped at n |
| ArchivePattern.GroupsShape | dynpy/service.py:54-56 | major is one or more digits, minor at most 4 and tag at most 5 alphanumerics, architecture has no newline, and the name starts with `python-<major>` |
| ArchivePattern.Match | dynpy/service.py:54-56 | the groups of a match have the shapes `GroupsShape` states |
| ArchivePattern.ReleaseArchive | tests/test_source.py:11-21 | `python-3.9.12-embed-amd64.zip` gives major `3`, minor `9`, tag `12`, arch `amd64` |
| ArchivePattern.LetterMinorArchive | tests/test_source.py:23-33 | `python-3.9rc.12-embed-amd64.zip` gives minor `9rc` |
| ArchivePattern.TwoPartArchive | dynpy/service.py:54-56 | `python-3.10-embed-amd64.zip` matches too, as major `3`, minor `1`, empty tag, since the unescaped dots match any character |
| Text.DecimalRoundTrip | dynpy/service.py:116 | `int()` reads back the digits that `f"{major}"` writes |
| Text.DecimalStringInjective | dynpy/service.py:37 | different majors print differently |
| Text.SplitJoin | dynpy/service.py:78-82 | splitting the joined lines on the separator gives them back, when no line contains it |
| TreeIds.TreeId | dynpy/ui/view.py:108-110 | an id is `I` followed by at least three upper-case hex digits |
| TreeIds.IdNumberRoundTrip | dynpy/ui/view.py:108-110 | the serial number can be read back from its id |
| TreeIds.TreeIdInjective | dynpy/ui/view.py:108-110 | different serial numbers give different ids |
| TreeIds.NextIsFresh | dynpy/ui/view.py:108-110 | the next id was never issued before, and issuing it adds exactly that id |
| TreeIds.FirstIds | dynpy/ui/view.py:108-110 | the 1st, 26th and 4096th ids are `I001`, `I01A` and `I1000` |
| ViewModel.PathEntry.constructor | dynpy/ui/controller.py:45-50 | a new entry model holds exactly the given fields |
| ViewModel.PathFile.constructor | dynpy/ui/controller.py:57-63 | a new file model holds the given path, content and `changed` flag, with no id and no parent yet |
| ViewModel.PathFile.SetUuid | dynpy/ui/controller.py:73-77 | the file takes the id, and every entry of its content names it as parent; order, paths, ids and `changed` flags stay |
| ViewModel.RestampedEntries | dynpy/ui/controller.py:73-77 | after re-stamping, every entry names the id as parent and entry i is the old entry i in everything else |
| ViewModel.RestampedTwice | dynpy/ui/controller.py:73-77 | only the last re-stamping is visible |
| ViewModel.PathFile.Add | dynpy/ui/controller.py:83-87 | an entry equal (whole record) to one present changes nothing, not even `changed`; any other is appended and marks the file changed |
| Text.IndexOf | dynpy/ui/controller.py:92 | the index of the first equal element (the one `list.remove` deletes), or the length exactly when no element is equal |
| ViewModel.RemoveFirstPresent | dynpy/ui/controller.py:89-93 | `list.remove` on a present element: one shorter, the multiset loses one copy, the first occurrence goes and the others keep their order |
| ViewModel.AddThenRemove | dynpy/ui/controller.py:83-93 | appending an absent element and then removing it gives the list back |
| ViewModel.PathFile.Remove | dynpy/ui/controller.py:89-93 | an absent entry changes nothing; otherwise the first equal entry leaves `content` and the file is marked changed |
| ViewModel.PathFile.Create | dynpy/ui/controller.py:95-100 | a new entry with the path, the file's id as parent, no id and `changed`; afterwards an equal entry is in the content |
| ViewModel.CreateViewModel | dynpy/ui/controller.py:103-107 | a new unchanged file model with the file's path and one new, distinct, unchanged, parentless entry per line, in order |
| ConfigTree.EmptyWellformed | dynpy/ui/controller.py:113-119 | the empty dictionary satisfies the invariant |
| ConfigTree.StartPending | dynpy/ui/view.py:107-114 | inserting a file whose entries have no ids yet keeps every other file coherent and starts filling this one |
| ConfigTree.AttachPending | dynpy/ui/view.py:116-118 | inserting the next waiting entry of the file keeps filling it |
| ConfigTree.PendingDone | dynpy/ui/view.py:120-122 | a file all of whose entries are inserted restores the invariant |
| ConfigTree.StartEmptyWellformed | dynpy/ui/controller.py:217-230 | a new empty file inserted at the root keeps the invariant |
| ConfigTree.CreatedPending | dynpy/ui/controller.py:95-100 | `create` on a file of a wellformed map always appends the new entry, which is then the only one waiting for an id |
| ConfigTree.ChildIds | dynpy/ui/controller.py:259-269 | the ids of a file's children are distinct and are exactly the keys of the entries under it |
| ConfigTree.RemovalIdsShape | dynpy/ui/controller.py:259-269 | the collected ids are the current id first, then its children; they are distinct keys of the map; an entry collects only itself |
| ConfigTree.ChildrenDropOne | dynpy/ui/controller.py:271-274 | popping one child from the dictionary removes exactly that entry (the first equal one) from its parent's children |
| ConfigTree.RemovedShape | dynpy/ui/controller.py:271-274 | after removal the keys are the old keys without the collected ids, in order, and every other model is unchanged, except that a removed entry's parent loses that entry |
| ConfigTree.RemovedEntryWellformed | dynpy/ui/controller.py:276-280 | removing an entry keeps the invariant, and the parent's content loses exactly the first equal entry |
| ConfigTree.RemovedFileWellformed | dynpy/ui/controller.py:281-285 | removing a file with its children keeps the invariant |
| ConfigTree.RemovedWellformed | dynpy/ui/controller.py:287-293 | removal keeps the invariant, pops exactly the collected ids and leaves the rest as `RemovedShape` states |
| ConfigTree.PlanFollowsFileKeys | dynpy/ui/controller.py:313-319 | the plan has one path file per file model, in dictionary order |
| ConfigTree.FileKeysMembers | dynpy/ui/controller.py:313-314 | `_path_file_models` lists exactly the file models of the map |
| ConfigTree.SavePlanContents | dynpy/ui/controller.py:309-319 | in a wellformed map the plan writes every file with exactly the paths of its content, in content order, and only the files of the map |
| ConfigTree.RemovedFileNotSaved | dynpy/ui/controller.py:313-314 | a removed file drops out of the save plan |
| ConfigTree.RemovedEntryNotSaved | dynpy/ui/controller.py:309-311 | after an entry is removed, its parent is saved without it |
| ConfigTree.SavePlanOfHeld | dynpy/ui/controller.py:316-319 | a map whose files hold given path files, in order, saves exactly those files |
| ConfigTree.StartExtends | dynpy/ui/view.py:120-122 | a loaded file enters the map clean, holding the file's path and lines, as the last file key |
| ConfigTree.AttachExtends | dynpy/ui/view.py:116-118 | inserting a loaded entry adds one unchanged model and keeps the file clean, holding the same lines |
| ConfigTree.LoadedStep | dynpy/ui/view.py:126-127 | one more path file loaded extends what was loaded before |
| ConfigTree.LoadedSaves | dynpy/ui/view.py:124-127 | loading a site package into an empty map and saving it gives the loaded files back |
| ConfigTree.AnyChangedNodes | dynpy/ui/controller.py:173 | some model of the dictionary is changed exactly when some key holds a changed model |
| ConfigTree.ClearedWellformed | dynpy/ui/controller.py:321-326 | marking every model saved keeps the invariant and leaves no changed model |
| ConfigTree.ClearedSavePlan | dynpy/ui/controller.py:321-326 | marking models saved does not change what saving writes |
| Controller.CurrentModelOf | dynpy/ui/controller.py:197-203 | fails exactly when nothing or an unknown id is selected; otherwise gives the selected model |
| Controller.CurrentParentOf | dynpy/ui/controller.py:205-211 | succeeds exactly when the entry's parent id holds a file |
| Controller.CurrentParentFound | dynpy/ui/controller.py:205-211 | in a wellformed map every entry's parent is found, and it is the file whose content holds the entry |
| Controller.AddDecisionCases | dynpy/ui/controller.py:249-257 | the add command fails exactly when nothing or an unknown id is selected; a selected entry gets a sibling under its parent file, an empty file an entry, a non-empty file a new file |
| Controller.Unsaved | dynpy/ui/controller.py:170-175 | true whenever something was removed; false when nothing was removed and no model is changed; otherwise the user's answer |
| Controller.PythonVersions | dynpy/ui/controller.py:128-129 | the full name of every discovered version, one per version, in listing order |
| Controller.PythonVersionsResolve | dynpy/ui/controller.py:128-129 | every name offered in the version list resolves, so picking one never raises "not found" |
| Controller.StampFile | dynpy/ui/view.py:111-112 | the file takes the id and parent, and its entries are re-stamped with the id |
| Controller.ReloadFacts | dynpy/ui/view.py:124-127 | a map loaded from scratch with new ids holds no changed model and none of the old ids |
| Controller.RemovalFacts | dynpy/ui/controller.py:287-293 | the collected ids are distinct keys, a removed entry's parent is still a file once they are popped, and the result keeps the invariant |
| Controller.CreatedThenAttached | dynpy/ui/controller.py:241-247 | `create` followed by the view's insertion adds the new changed entry at the end of the file, under the new id |
| Controller.AddEntryFacts | dynpy/ui/controller.py:241-247 | adding an entry to a file of a valid map keeps the invariant and only issued ids as keys |
| Controller.ConfigController.constructor | dynpy/ui/controller.py:113-119 | an empty dictionary, nothing removed, nothing selected, no version, the profile directory as last directory |
| Controller.ConfigController.Reset | dynpy/ui/controller.py:122-126 | the dictionary and `deleted` are emptied, and selection and version are cleared |
| Controller.ConfigController.InsertFile | dynpy/ui/view.py:107-114 | a file model gets a new id, the root as parent and re-stamped entries, and is stored under the id |
| Controller.ConfigController.InsertEntry | dynpy/ui/view.py:107-114 | the next waiting entry gets a new id and the file as parent, in the map and in the file's content alike |
| Controller.ConfigController.AddContent | dynpy/ui/view.py:116-118 | inserting a loaded file's entries in order restores the invariant and keeps the file holding its lines |
| Controller.ConfigController.LoadPathFile | dynpy/ui/view.py:120-122 | a path file becomes the last file key, holding its path and lines, with only new, unchanged models added |
| Controller.ConfigController.LoadSitePackage | dynpy/ui/view.py:124-127 | every path file of the site package is loaded, in order; from an empty map, saving gives them back |
| Controller.ConfigController.FirePythonChanged | dynpy/ui/controller.py:146-155 | an unresolved name raises `Python <name> not found`; a version equal to the active one changes nothing; any other resets, becomes active, and loads its site package with no changed model and no old id left |
| Controller.ConfigController.SwitchTo | dynpy/ui/controller.py:152-154 | after the switch, the new version is active, nothing is removed or selected, the map saves exactly its site package, and no old id is left |
| Controller.ConfigController.OnVersionSelect | dynpy/ui/controller.py:177-187 | with a version active and unsaved changes, or with no row selected, nothing changes; otherwise the selected name is passed on |
| Controller.ConfigController.Select | dynpy/ui/controller.py:189-195 | the first selected id becomes current; an empty selection raises and changes nothing |
| Controller.ConfigController.SelectDirectory | dynpy/ui/controller.py:232-239 | a chosen directory is returned and remembered; a cancelled dialog returns nothing and keeps the last directory |
| Controller.ConfigController.AddPathEntry | dynpy/ui/controller.py:241-247 | with a directory chosen, the file gains a new changed entry at its end under a new id; otherwise the map is unchanged |
| Controller.ConfigController.AddPathFile | dynpy/ui/controller.py:217-230 | without a version or a name nothing happens; otherwise a new empty changed file `<name>.pth` in the version's user site packages is stored under a new id |
| Controller.ConfigController.AddCommand | dynpy/ui/controller.py:249-257 | follows the add decision: fails and changes nothing for no or an unknown selection, adds an entry under the chosen file, or adds a new file |
| Controller.ConfigController.PopModels | dynpy/ui/controller.py:271-274 | each id is popped from the dictionary and appended to `deleted`, in order |
| Controller.ConfigController.UpdatePathFileModel | dynpy/ui/controller.py:276-285 | a removed entry leaves its parent file's content; a parent that is missing or not a file raises |
| Controller.ConfigController.RemoveCommand | dynpy/ui/controller.py:287-293 | no or an unknown selection raises and changes nothing; otherwise the map becomes `Removed`, `deleted` grows by exactly the collected ids, and the invariant holds |
| Controller.ConfigController.OpenTarget | dynpy/ui/controller.py:295-299 | fails exactly when the current model fails; a file gives nothing; an entry gives its path |
| Controller.ConfigController.SaveCommand | dynpy/ui/controller.py:321-326 | no plan without a version; otherwise one action per file of the save plan; as written, a removal leaves the state unsaved whatever the user answers |
| Controller.ConfigController.SaveAndClear | dynpy/ui/controller.py:321-326 | corrected save: without a version nothing changes; otherwise the same actions, after which nothing counts as unsaved, whatever the answer, and the save plan is unchanged |

## Left out

- Tk widgets, the tree view itself and the window layout of `dynpy/ui/view.py` and `dynpy/ui/utils.py`. Only the ids `add_item` hands out and the order in which the view inserts models are modelled.
- The listener registry, `register` and `fire_event`. The view's two event handlers that change the controller's state are modelled: the loading of a site package after a version change (`LoadSitePackage`, `LoadPathFile`, `AddContent`), and `add_item`, which hands out a new tree id, re-stamps a file's children and registers the model (`InsertFile`, `InsertEntry`, `StampFile`, used by `AddPathEntry` and `AddPathFile`). The remaining events change no controller state and are left out: `fire_selection_changed` and the selection event sent by `python_path_selected`.
- The dialogs (`askyesno`, `askstring`, `askdirectory`) and the widget lookups (`utils.get_entry`): their results are parameters. A missing list box and an empty selection of the version list are both `selected == None`. `_get_selected_id`'s error for a widget that is not a tree view is not modelled.
- `show_in_explorer`: `os.path.exists`, `WINDIR` and the `explorer.exe` subprocess. `OpenTarget` gives only the path that would be shown.
- File-system reads (`read_path_file`, `path_files_from`, `site_package_from`, `glob`): a site package's path files and the archive directory's listing are parameters. The order of the listing is the order `glob` gives.
- File-system writes: `save_site_package` returns `Delete`/`Write` actions instead of calling `os.remove` and `write_text`. An exception raised while saving is not modelled.
- `USERPROFILE` is a parameter; the empty string stands for an unset variable.
- Service.Join: a path is kept as the unnormalised list of its parts, and `/` appends one part as it is. `pathlib` would also split a part at its separators, and an absolute right-hand part would replace the left. The pattern keeps separators out of the version parts, but `USERPROFILE` may hold any text, so the `UserSitePkgPath` lemmas describe parts, not the normalised path.
- Service.WriteContentRoundTrip: the round trip is stated for a split on `\n`. `read_path_file` reads with `splitlines`, which also breaks at `\r` and the other Unicode line boundaries and drops one trailing empty line; `splitlines` is not modelled, because reading is a parameter.
- Text encodings: strings are sequences of characters, and UTF-8 encoding is not modelled.
- ArchivePattern.Match: `\d` is taken as the ASCII digits. Python's `re` on `str` also accepts other Unicode decimal digits, and `int()` would read them.
- Controller.ConfigController.UpdatePathFileModel: for a removed file, the source also empties that file object's own `content`. The object is no longer in the dictionary, so nothing the controller reads sees it, and the model does not track it.
- The dictionary holds value snapshots of the models, not shared objects. The one sharing the controller relies on, an entry object that sits both in the dictionary and in its file's `content`, is modelled by updating both together (`ConfigTree.AttachEntry`). `ViewModel` keeps the objects themselves for the view-model methods.

## Findings

| source | as written | input that shows it | evidently intended | confidence | as-written member | corrected member |
|---|---|---|---|---|---|---|
| dynpy/ui/controller.py:321-326 | saving never clears `deleted` or the `changed` flags, so after any removal `contains_unsaved` stays true and `on_version_select` ignores every later choice of version | an active version, remove any model, then save: `deleted` is still non-empty | a save leaves nothing unsaved | medium, not executed | Controller.ConfigController.SaveCommand | Controller.ConfigController.SaveAndClear |
| dynpy/service.py:125-126 | the lookup tests whether the short version is a substring of the chosen full name, so a shorter version listed first captures a longer one | archives for 3.1.0 and then 3.10.2; choosing `Python 3.10.2` selects 3.1 | the chosen full name selects the version it names | medium, not executed | Service.FullNameCapturedByPrefix | Service.FirstNamedFindsListed |

The controller keeps the lookup and the save as written, so its behaviour stays
faithful to the code. `SaveAndClear` and `FirstNamed` are the corrected
definitions, each with its property proved.
