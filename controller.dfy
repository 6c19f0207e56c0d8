/** `PythonConfigController`: the state behind the configuration window.
    It keeps the dictionary of every file and entry model shown in the tree
    view (as a `ConfigTree.Tree` of value snapshots), the ids removed since
    the version was chosen, the selected id, the active embedded Python and
    the last directory picked. The tree view's part, `add_item`, is modelled
    here as the two insertion methods, drawing ids from the view's counter;
    dialogs, the service's file system reads and the selected rows of the
    widgets are parameters. */
module Controller {
  import opened Wrappers
  import opened Service
  import opened ViewModel
  import opened ConfigTree
  import opened TreeIds

  /** Whether `fire_python_changed` replaces the active version: the name
      resolved, and to a version not equal to the active one. */
  predicate Switches(active: Option<EmbedPython>, found: Option<EmbedPython>)
  {
    found.Some? && !(active.Some? && SameEmbed(active.value, found.value))
  }

  /** `PythonConfigService.embed_python_by` as a value: nothing for a blank
      name, otherwise the first discovered version whose short version occurs
      in it. */
  function Resolved(name: string, listing: seq<Path>): Option<EmbedPython>
  {
    if IsBlank(name) then None else FirstMatch(name, Discovered(listing))
  }

  /** `_current_model` on a map and a selection. */
  function CurrentModelOf(t: Tree, current: Option<string>): (r: Result<NodeValue, string>)
    ensures r.Success? <==> current.Some? && current.value in t.nodes
    ensures r.Success? ==> r.value == t.nodes[current.value]
  {
    if current.None? then Failure("Nothing selected")
    else if current.value !in t.nodes then Failure("No Model with " + current.value)
    else Success(t.nodes[current.value])
  }

  /** `_current_parent`: the model stored under the entry's parent id, which
      must be a file. An absent id raises `KeyError`. */
  function CurrentParentOf(t: Tree, e: EntryValue): (r: Result<FileValue, string>)
    ensures r.Success? <==> IsFileId(t, e.parentUuid)
  {
    if e.parentUuid !in t.nodes then Failure("KeyError: " + e.parentUuid)
    else if t.nodes[e.parentUuid].Entry? then Failure("Except PythonPathFile but got PathEntryViewModel")
    else Success(t.nodes[e.parentUuid].file)
  }

  /** In a wellformed map the parent of every entry of the map is found, and
      it is the file whose content holds the entry. */
  lemma CurrentParentFound(t: Tree, k: string)
    requires Wellformed(t) && k in t.nodes && t.nodes[k].Entry?
    ensures var e := t.nodes[k].entry;
      CurrentParentOf(t, e).Success?
      && CurrentParentOf(t, e).value.uuid == e.parentUuid
      && e in CurrentParentOf(t, e).value.content
  {
    var e := t.nodes[k].entry;
    ChildrenComplete(t.nodes, t.keys, e.parentUuid, k);
  }

  /** What `path_entry_add_command` adds for the current selection. */
  datatype AddTarget = EntryUnder(fid: string) | NewFile

  /** The branch `path_entry_add_command` takes. */
  function AddDecision(t: Tree, current: Option<string>): Result<AddTarget, string>
  {
    match CurrentModelOf(t, current)
    case Failure(msg) => Failure(msg)
    case Success(File(f)) => if f.content == [] then Success(EntryUnder(f.uuid)) else Success(NewFile)
    case Success(Entry(e)) =>
      match CurrentParentOf(t, e)
      case Failure(msg) => Failure(msg)
      case Success(p) => Success(EntryUnder(p.uuid))
  }

  /** The add command fails exactly when nothing, or an unknown id, is
      selected. A selected entry gets a sibling under its parent file, an
      empty selected file gets an entry, and a file with content makes a new
      file instead. */
  lemma AddDecisionCases(t: Tree, current: Option<string>)
    requires Wellformed(t)
    ensures AddDecision(t, current).Failure? <==> current.None? || current.value !in t.nodes
    ensures current.Some? && current.value in t.nodes ==>
      var v := t.nodes[current.value];
      && (v.Entry? ==> AddDecision(t, current) == Success(EntryUnder(v.entry.parentUuid))
                       && IsFileId(t, v.entry.parentUuid))
      && (v.File? && v.file.content == [] ==> AddDecision(t, current) == Success(EntryUnder(current.value)))
      && (v.File? && v.file.content != [] ==> AddDecision(t, current) == Success(NewFile))
  {
    if current.Some? && current.value in t.nodes && t.nodes[current.value].Entry? {
      CurrentParentFound(t, current.value);
    }
  }

  /** `contains_unsaved`, with the answer to the "save first?" question as
      a parameter: removals always count as unsaved; otherwise a changed
      model leaves it to the answer. */
  function Unsaved(deleted: seq<string>, t: Tree, answer: bool): (r: bool)
    ensures |deleted| > 0 ==> r
    ensures |deleted| == 0 && !AnyChanged(t) ==> !r
    ensures |deleted| == 0 && AnyChanged(t) ==> r == answer
  {
    if |deleted| > 0 then true
    else if !AnyChanged(t) then false
    else answer
  }

  /** The map after `_add_path_entry` on file `fid` with the directory
      `path`: the file, now changed, holds a new changed entry at its end,
      stored under `id`. */
  function WithEntry(t: Tree, fid: string, path: string, id: string): Tree
    requires IsFileId(t, fid)
  {
    var f := t.nodes[fid].file;
    var e := EntryValue(path, fid, id, true);
    Tree(t.nodes[fid := File(f.(content := f.content + [e], changed := true))][id := Entry(e)], t.keys + [id])
  }

  /** The map after `_add_path_file` made the file `path` under `id`. */
  function WithFile(t: Tree, path: Path, id: string): Tree
  {
    Tree(t.nodes[id := File(FileValue(path, [], id, "", true))], t.keys + [id])
  }

  /** The last id issued before `c` and every later one is new. */
  lemma LaterIsFresh(c0: nat, c: nat)
    requires c0 <= c
    ensures TreeId(c) !in Issued(c0)
  {
    if TreeId(c) in Issued(c0) {
      var n: nat :| 1 <= n < c0 && TreeId(n) == TreeId(c);
      TreeIdInjective(n, c);
    }
  }

  /** The ids issued up to a counter include those issued before. */
  lemma IssuedGrows(c0: nat, c: nat)
    requires c0 <= c
    ensures Issued(c0) <= Issued(c)
  {
  }

  /** The two assignments of `add_item` to a file model: `model.uuid`,
      whose setter re-stamps the entries, then `model.parent_uuid`. */
  method StampFile(m: PathFile, id: string, parent: string)
    modifies m`modelUuid, m`parentUuid, m.Elements()
    ensures m.modelUuid == id && m.parentUuid == parent && m.content == old(m.content)
    ensures m.Entries() == Restamped(old(m.Entries()), id)
    ensures m.Value() == old(m.Value()).(uuid := id, parentUuid := parent, content := Restamped(old(m.Entries()), id))
  {
    m.SetUuid(id);
    ghost var es := m.Entries();
    m.parentUuid := parent;
    assert m.Entries() == Values(m.content) == es;
  }

  class ConfigController {
    /** `self.uuid`, in insertion order. */
    var tree: Tree
    var deleted: seq<string>
    var currentId: Option<string>
    var python: Option<EmbedPython>
    var lastDirectory: Option<string>
    /** The tree view's item counter: its next item is `TreeId(counter)`. */
    var counter: nat

    ghost predicate Valid()
      reads this
    {
      Wellformed(tree) && counter >= 1 && tree.nodes.Keys <= Issued(counter)
    }

    /** A version is active and something was removed: as written, nothing
        but choosing another version clears `deleted`. */
    predicate Stuck()
      reads this
    {
      python.Some? && |deleted| > 0
    }

    /** `__init__`; `profile` is `USERPROFILE`, if set. */
    constructor (profile: Option<string>)
      ensures Valid()
      ensures tree == Empty && deleted == [] && currentId.None? && python.None?
      ensures lastDirectory == profile && counter == 1
    {
      tree := Empty;
      deleted := [];
      currentId := None;
      python := None;
      lastDirectory := profile;
      counter := 1;
      EmptyWellformed();
    }

    /** `reset`. The tree view's counter is not reset. */
    method Reset()
      requires Valid()
      modifies this`tree, this`deleted, this`currentId, this`python
      ensures Valid()
      ensures tree == Empty && deleted == [] && currentId.None? && python.None?
    {
      tree := Empty;
      deleted := [];
      currentId := None;
      python := None;
      EmptyWellformed();
    }

    function ContainsUnsaved(answer: bool): bool
      reads this
    {
      Unsaved(deleted, tree, answer)
    }

    function CurrentModel(): Result<NodeValue, string>
      reads this
    {
      CurrentModelOf(tree, currentId)
    }

    /** `add_item` for a file model, always at the root: the view takes a
        new id, the `uuid` setter re-stamps the file's entries, and the model
        is stored under the id. Its entries are not in the view yet. */
    method InsertFile(m: PathFile) returns (id: string)
      requires Valid()
      requires forall e :: e in m.content ==> e.uuid == ""
      modifies this`tree, this`counter, m`modelUuid, m`parentUuid, m.Elements()
      ensures id == TreeId(old(counter)) && id !in old(tree.nodes) && counter == old(counter) + 1
      ensures m.modelUuid == id && m.parentUuid == "" && m.Entries() == Restamped(old(m.Entries()), id)
      ensures tree == StartFile(old(tree), id, old(m.Value()))
      ensures Pending(tree, id, 0) && tree.nodes.Keys <= Issued(counter)
    {
      id := TreeId(counter);
      NextIsFresh(counter);
      ghost var v0 := m.Value();
      forall i | 0 <= i < |v0.content| ensures v0.content[i].uuid == "" {
        assert m.content[i] in m.content;
      }
      StampFile(m, id, "");
      tree := Put(tree, id, File(m.Value()));
      counter := counter + 1;
      StartPending(old(tree), id, v0);
    }

    /** `add_item` for entry `j` of file `fid`: the entry takes a new id and
        the file as its parent, and is stored under the id. The file's
        content holds the same entry model, so it sees the new id too. */
    method InsertEntry(fid: string, j: nat) returns (id: string)
      requires Pending(tree, fid, j) && j < |tree.nodes[fid].file.content|
      requires counter >= 1 && tree.nodes.Keys <= Issued(counter)
      modifies this`tree, this`counter
      ensures id == TreeId(old(counter)) && id !in old(tree.nodes) && counter == old(counter) + 1
      ensures tree == AttachEntry(old(tree), fid, j, id)
      ensures Pending(tree, fid, j + 1) && tree.nodes.Keys <= Issued(counter)
    {
      id := TreeId(counter);
      NextIsFresh(counter);
      AttachPending(tree, fid, j, id);
      var f := tree.nodes[fid].file;
      var e := f.content[j].(uuid := id);
      e := e.(parentUuid := fid);
      tree := UpdateFile(tree, fid, f.(content := f.content[j := e]));
      tree := Put(tree, id, Entry(e));
      counter := counter + 1;
    }

    /** `_add_python_path_content`: entries `j..` of file `fid`, each added
        under it in order. `t0` is the map before the file was inserted. */
    method AddContent(fid: string, file: PythonPathFile, ghost t0: Tree, ghost c0: nat)
      requires counter >= 1 && c0 <= counter
      requires tree.nodes.Keys <= Issued(counter)
      requires Pending(tree, fid, 0)
      requires fid !in t0.nodes
      requires Extends(t0, tree, Issued(c0))
      requires Clean(tree.nodes[fid].file)
      requires HoldsFile(tree, fid, file)
      modifies this`tree, this`counter
      ensures Wellformed(tree)
      ensures counter == old(counter) + |file.content|
      ensures tree.nodes.Keys <= Issued(counter)
      ensures Extends(t0, tree, Issued(c0))
      ensures HoldsFile(tree, fid, file)
      ensures FileKeys(tree) == old(FileKeys(tree))
    {
      var j := 0;
      while j < |file.content|
        invariant 0 <= j <= |file.content|
        invariant counter == old(counter) + j
        invariant counter >= 1
        invariant tree.nodes.Keys <= Issued(counter)
        invariant Pending(tree, fid, j)
        invariant |tree.nodes[fid].file.content| == |file.content|
        invariant Extends(t0, tree, Issued(c0))
        invariant Clean(tree.nodes[fid].file)
        invariant HoldsFile(tree, fid, file)
        invariant FileKeys(tree) == old(FileKeys(tree))
      {
        NextIsFresh(counter);
        LaterIsFresh(c0, counter);
        AttachExtends(t0, tree, fid, j, TreeId(counter), file, Issued(c0));
        var id := InsertEntry(fid, j);
        j := j + 1;
      }
      PendingDone(tree, fid);
    }

    /** `_add_python_path_file` on `create_view_model(file)`: the file at
        the root, then each of its lines as an entry under it, in order. */
    method LoadPathFile(file: PythonPathFile) returns (fid: string)
      requires Valid()
      modifies this`tree, this`counter
      ensures Valid()
      ensures fid == TreeId(old(counter)) && fid !in old(tree.nodes)
      ensures counter == old(counter) + 1 + |file.content|
      ensures HoldsFile(tree, fid, file)
      ensures Extends(old(tree), tree, Issued(old(counter)))
      ensures FileKeys(tree) == old(FileKeys(tree)) + [fid]
    {
      var m := CreateViewModel(file);
      forall e | e in m.content ensures e.uuid == "" {
        var i :| 0 <= i < |m.content| && m.content[i] == e;
        assert m.Entries()[i] == e.Value();
      }
      ghost var t0 := tree;
      ghost var v0 := m.Value();
      assert Clean(v0) && Paths(v0.content) == file.content by {
        forall e | e in v0.content ensures !e.changed {
          var i :| 0 <= i < |v0.content| && v0.content[i] == e;
        }
      }
      fid := InsertFile(m);
      LaterIsFresh(old(counter), old(counter));
      StartExtends(t0, fid, v0, file, Issued(old(counter)));
      AddContent(fid, file, t0, old(counter));
    }

    /** `on_python_version_changed` in the view: every path file of the
        version's site package loaded, in order. */
    method LoadSitePackage(files: seq<PythonPathFile>)
      requires Valid()
      modifies this`tree, this`counter
      ensures Valid() && counter >= old(counter) && Loaded(old(tree), tree, files, Issued(old(counter)))
      ensures old(tree) == Empty ==> SavePlan(tree) == files
    {
      ghost var t0 := tree;
      ghost var used := Issued(counter);
      LoadedNone(tree, files, used);
      var i := 0;
      while i < |files|
        invariant 0 <= i <= |files|
        invariant Valid()
        invariant counter >= old(counter)
        invariant Loaded(t0, tree, files[..i], used)
      {
        ghost var t1 := tree;
        ghost var c1 := counter;
        var fid := LoadPathFile(files[i]);
        IssuedGrows(old(counter), c1);
        LoadedStep(t0, t1, tree, files, i, fid, used, Issued(c1));
        i := i + 1;
      }
      LoadedAll(t0, tree, files, used);
      if t0 == Empty {
        LoadedSaves(tree, files, used);
      }
    }

    /** `fire_python_changed`, with the archive listing and the site
        packages on disk as parameters. A name that does not resolve raises;
        a version equal to the active one changes nothing; any other resets
        the controller and loads that version's path files. */
    method FirePythonChanged(version: string, listing: seq<Path>, site: EmbedPython -> seq<PythonPathFile>)
      returns (r: Result<Unit, string>)
      requires Valid()
      modifies this`tree, this`deleted, this`currentId, this`python, this`counter
      ensures Valid()
      ensures r.Failure? <==> Resolved(version, listing).None?
      ensures r.Failure? ==> r.error == "Python " + version + " not found"
      ensures !Switches(old(python), Resolved(version, listing)) ==>
        tree == old(tree) && deleted == old(deleted) && currentId == old(currentId)
        && python == old(python) && counter == old(counter)
      ensures Switches(old(python), Resolved(version, listing)) ==>
        python == Resolved(version, listing) && deleted == [] && currentId.None?
      ensures Switches(old(python), Resolved(version, listing)) ==> SavePlan(tree) == site(python.value)
      ensures Switches(old(python), Resolved(version, listing)) ==> !AnyChanged(tree)
      ensures Switches(old(python), Resolved(version, listing)) ==>
        forall k :: k in old(tree.nodes) ==> k !in tree.nodes
    {
      var found := ServiceEmbedPythonBy(Some(version), listing);
      assert found == Resolved(version, listing);
      if found.None? {
        return Failure("Python " + version + " not found");
      }
      if python.Some? && SameEmbed(python.value, found.value) {
        return Success(Unit);
      }
      SwitchTo(found.value, site(found.value));
      r := Success(Unit);
    }

    /** The switching branch of `fire_python_changed`: `reset`, the new
        version stored, and its site package's path files loaded. */
    method SwitchTo(embed: EmbedPython, files: seq<PythonPathFile>)
      requires Valid()
      modifies this`tree, this`deleted, this`currentId, this`python, this`counter
      ensures Valid()
      ensures python == Some(embed)
      ensures deleted == []
      ensures currentId.None?
      ensures SavePlan(tree) == files
      ensures !AnyChanged(tree)
      ensures forall k :: k in old(tree.nodes) ==> k !in tree.nodes
    {
      ghost var c0 := counter;
      ghost var old0 := tree.nodes.Keys;
      Reset();
      python := Some(embed);
      LoadSitePackage(files);
      ReloadFacts(tree, files, c0, old0);
    }

    /** `on_version_select`, with the question's answer and the selected
        row of the list box as parameters. With a version active and
        unsaved changes, the selection is ignored; no selected row changes
        nothing; otherwise the selected name is passed on. */
    method OnVersionSelect(answer: bool, selected: Option<string>, listing: seq<Path>,
                           site: EmbedPython -> seq<PythonPathFile>)
      returns (r: Result<Unit, string>)
      requires Valid()
      modifies this`tree, this`deleted, this`currentId, this`python, this`counter
      ensures Valid()
      ensures (old(python).Some? && old(ContainsUnsaved(answer))) || selected.None? ==>
        r.Success? && tree == old(tree) && deleted == old(deleted) && currentId == old(currentId)
        && python == old(python) && counter == old(counter)
      ensures !(old(python).Some? && old(ContainsUnsaved(answer))) && selected.Some? ==>
        (r.Failure? <==> Resolved(selected.value, listing).None?)
      ensures old(Stuck()) ==> r.Success? && tree == old(tree) && deleted == old(deleted) && python == old(python)
    {
      if python.Some? && ContainsUnsaved(answer) {
        return Success(Unit);
      }
      if selected.None? {
        return Success(Unit);
      }
      r := FirePythonChanged(selected.value, listing, site);
    }

    /** `_get_selected_id` on the tree view's selection: its first id
        becomes the current one; an empty selection raises `IndexError`. */
    method Select(selection: seq<string>) returns (r: Result<string, string>)
      modifies this`currentId
      ensures |selection| == 0 ==> r.Failure? && currentId == old(currentId)
      ensures |selection| > 0 ==> r == Success(selection[0]) && currentId == Some(selection[0])
    {
      if |selection| == 0 {
        return Failure("IndexError: tuple index out of range");
      }
      currentId := Some(selection[0]);
      r := Success(selection[0]);
    }

    /** `select_directory`, with the dialog's result as a parameter: a
        chosen directory is remembered as the last one. */
    method SelectDirectory(dialog: Option<string>) returns (r: Option<string>)
      modifies this`lastDirectory
      ensures r == dialog
      ensures lastDirectory == if dialog.Some? then dialog else old(lastDirectory)
    {
      if dialog.None? {
        return None;
      }
      lastDirectory := dialog;
      r := dialog;
    }

    /** `_add_path_entry` on file `fid`: `create` appends a new changed
        entry to the file, and the view stores it under a new id. */
    method AddPathEntry(fid: string, dialog: Option<string>)
      requires Valid() && IsFileId(tree, fid)
      modifies this`tree, this`counter, this`lastDirectory
      ensures Valid()
      ensures lastDirectory == if dialog.Some? then dialog else old(lastDirectory)
      ensures dialog.None? ==> tree == old(tree) && counter == old(counter)
      ensures dialog.Some? ==> tree == WithEntry(old(tree), fid, dialog.value, TreeId(old(counter)))
      ensures dialog.Some? ==> counter == old(counter) + 1
    {
      var path := SelectDirectory(dialog);
      if path.None? {
        return;
      }
      var n := |tree.nodes[fid].file.content|;
      AddEntryFacts(tree, fid, path.value, counter);
      tree := Created(tree, fid, path.value);
      // The view's `add_item` for the new entry.
      tree := AttachEntry(tree, fid, n, TreeId(counter));
      counter := counter + 1;
    }

    /** `_add_path_file`, with the name dialog's result and `USERPROFILE` as
        parameters: without an active version or a name nothing happens;
        otherwise a new empty, changed file named `<name>.pth` in the
        version's user site packages is stored under a new id. */
    method AddPathFile(name: Option<string>, profile: string)
      requires Valid()
      modifies this`tree, this`counter
      ensures Valid()
      ensures python.None? || name.None? ==> tree == old(tree) && counter == old(counter)
      ensures python.Some? && name.Some? ==>
        tree == WithFile(old(tree), Join(UserSitePkgPath(profile, python.value), name.value + ".pth"), TreeId(old(counter)))
        && counter == old(counter) + 1
    {
      if python.None? || name.None? {
        return;
      }
      var path := Join(UserSitePkgPath(profile, python.value), name.value + ".pth");
      var m := new PathFile(path, [], true);
      var id := InsertFile(m);
      PendingDone(tree, id);
      assert Restamped([], id) == [];
    }

    /** `path_entry_add_command`: follows `AddDecision`. */
    method AddCommand(dirDialog: Option<string>, nameDialog: Option<string>, profile: string)
      returns (r: Result<Unit, string>)
      requires Valid()
      modifies this`tree, this`counter, this`lastDirectory
      ensures Valid()
      ensures r.Failure? <==> AddDecision(old(tree), old(currentId)).Failure?
      ensures r.Failure? ==> tree == old(tree) && counter == old(counter) && lastDirectory == old(lastDirectory)
      ensures var d := AddDecision(old(tree), old(currentId));
        d.Success? && d.value.EntryUnder? ==> IsFileId(old(tree), d.value.fid)
      ensures var d := AddDecision(old(tree), old(currentId));
        d.Success? && d.value.EntryUnder? ==>
          && lastDirectory == (if dirDialog.Some? then dirDialog else old(lastDirectory))
          && (dirDialog.None? ==> tree == old(tree))
          && (dirDialog.Some? ==> tree == WithEntry(old(tree), d.value.fid, dirDialog.value, TreeId(old(counter))))
      ensures AddDecision(old(tree), old(currentId)) == Success(NewFile) ==>
        && lastDirectory == old(lastDirectory)
        && (python.None? || nameDialog.None? ==> tree == old(tree))
        && (python.Some? && nameDialog.Some? ==>
              tree == WithFile(old(tree), Join(UserSitePkgPath(profile, python.value), nameDialog.value + ".pth"),
                               TreeId(old(counter))))
    {
      AddDecisionCases(tree, currentId);
      var d := AddDecision(tree, currentId);
      match d
      case Failure(msg) =>
        r := Failure(msg);
      case Success(EntryUnder(fid)) =>
        AddPathEntry(fid, dirDialog);
        r := Success(Unit);
      case Success(NewFile) =>
        AddPathFile(nameDialog, profile);
        r := Success(Unit);
    }

    /** `_update_models_in_uuid_dict`: each id popped from the dictionary
        and appended to `deleted`, in order. */
    method PopModels(ids: seq<string>)
      requires NoDup(ids) && forall k :: k in ids ==> k in tree.nodes
      modifies this`tree, this`deleted
      ensures tree == Dropped(old(tree), SetOf(ids))
      ensures deleted == old(deleted) + ids
    {
      ghost var t0 := tree;
      assert tree == Dropped(t0, SetOf(ids[..0])) by {
        assert SetOf(ids[..0]) == {};
        FilterOutAll(tree.keys, {});
        assert tree.nodes - {} == tree.nodes;
      }
      var i := 0;
      while i < |ids|
        invariant 0 <= i <= |ids|
        invariant tree == Dropped(t0, SetOf(ids[..i]))
        invariant deleted == old(deleted) + ids[..i]
      {
        assert SetOf(ids[..i + 1]) == SetOf(ids[..i]) + {ids[i]} by {
          assert ids[..i + 1] == ids[..i] + [ids[i]];
        }
        DroppedStep(t0, SetOf(ids[..i]), ids[i]);
        tree := Dropped(tree, {ids[i]});
        deleted := deleted + [ids[i]];
        i := i + 1;
      }
      assert ids[..i] == ids;
    }

    /** `_update_path_file_model` for the removed model `cur`: an entry
        leaves the content of its parent, which `_current_parent` looks up
        and which must be a file. (For a removed file the source also
        empties that file's own list, which is no longer in the map.) */
    method UpdatePathFileModel(cur: NodeValue) returns (r: Result<Unit, string>)
      modifies this`tree
      ensures r.Failure? <==> cur.Entry? && !IsFileId(old(tree), cur.entry.parentUuid)
      ensures cur.Entry? && IsFileId(old(tree), cur.entry.parentUuid) ==>
        tree == UpdateFile(old(tree), cur.entry.parentUuid,
                           Detached(old(tree).nodes[cur.entry.parentUuid].file, cur.entry))
      ensures !(cur.Entry? && IsFileId(old(tree), cur.entry.parentUuid)) ==> tree == old(tree)
    {
      match cur
      case File(_) =>
        r := Success(Unit);
      case Entry(e) =>
        var parent := CurrentParentOf(tree, e);
        match parent
        case Failure(msg) =>
          r := Failure(msg);
        case Success(p) =>
          tree := UpdateFile(tree, e.parentUuid, Detached(p, e));
          r := Success(Unit);
    }

    /** `path_entry_remove_command`: the current model and its children
        are popped from the dictionary and logged in `deleted`, in that
        order; a removed entry then leaves its parent's content. */
    method RemoveCommand() returns (r: Result<Unit, string>)
      requires Valid()
      modifies this`tree, this`deleted
      ensures Valid()
      ensures old(CurrentModel()).Failure? ==> r.Failure?
      ensures old(CurrentModel()).Failure? ==> tree == old(tree) && deleted == old(deleted)
      ensures old(CurrentModel()).Success? ==> r.Success?
      ensures old(CurrentModel()).Success? ==> tree == Removed(old(tree), old(currentId).value)
      ensures old(CurrentModel()).Success? ==> deleted == old(deleted) + RemovalIds(old(tree), old(currentId).value)
      ensures old(CurrentModel()).Success? ==> |deleted| > |old(deleted)|
    {
      var cur := CurrentModel();
      if cur.Failure? {
        return Failure(cur.error);
      }
      var id := currentId.value;
      ghost var t0 := tree;
      RemovalFacts(t0, id, counter);
      var ids := RemovalIds(tree, id);
      PopModels(ids);
      r := UpdatePathFileModel(cur.value);
      assert tree == Removed(t0, id);
    }

    /** `path_entry_open_command`: what would be shown in the file browser,
        nothing for a file. */
    function OpenTarget(): (r: Result<Option<string>, string>)
      reads this
      ensures r.Failure? <==> CurrentModel().Failure?
      ensures r.Success? ==> (r.value.Some? <==> CurrentModel().value.Entry?)
      ensures r.Success? && r.value.Some? ==> r.value.value == CurrentModel().value.entry.path
    {
      match CurrentModel()
      case Failure(msg) => Failure(msg)
      case Success(File(_)) => Success(None)
      case Success(Entry(e)) => Success(Some(e.path))
    }

    /** `path_entry_save_command`, returning the actions `save_site_package`
        performs. As written it leaves the controller as it is: `deleted`
        and the `changed` flags survive the save. */
    method SaveCommand() returns (plan: Option<seq<Action>>)
      ensures plan.None? <==> python.None?
      ensures plan.Some? ==> |plan.value| == |SavePlan(tree)|
      ensures plan.Some? ==> forall i :: 0 <= i < |plan.value| ==> plan.value[i] == ActionFor(SavePlan(tree)[i])
      ensures Stuck() ==> ContainsUnsaved(true) && ContainsUnsaved(false)
    {
      if python.None? {
        return None;
      }
      var actions := SaveSitePackage(SavePlan(tree));
      plan := Some(actions);
    }

    /** The save as evidently intended: the same actions, after which
        nothing counts as unsaved and the saved map reloads as itself. */
    method SaveAndClear() returns (plan: Option<seq<Action>>)
      requires Valid()
      modifies this`tree, this`deleted
      ensures Valid()
      ensures plan.None? <==> python.None?
      ensures plan.None? ==> tree == old(tree) && deleted == old(deleted)
      ensures plan.Some? ==> |plan.value| == |SavePlan(old(tree))|
      ensures plan.Some? ==> forall i :: 0 <= i < |plan.value| ==> plan.value[i] == ActionFor(SavePlan(old(tree))[i])
      ensures plan.Some? ==> SavePlan(tree) == SavePlan(old(tree)) && !ContainsUnsaved(true) && !ContainsUnsaved(false)
    {
      plan := SaveCommand();
      if plan.None? {
        return;
      }
      ClearedWellformed(tree);
      ClearedSavePlan(tree);
      tree := Cleared(tree);
      deleted := [];
    }
  }

  /** A map loaded from scratch with ids drawn after `c` holds no changed
      model and none of the ids `old0` issued before. */
  lemma ReloadFacts(t: Tree, files: seq<PythonPathFile>, c: nat, old0: set<string>)
    requires Indexed(t) && Loaded(Empty, t, files, Issued(c)) && old0 <= Issued(c)
    ensures !AnyChanged(t)
    ensures forall k :: k in old0 ==> k !in t.nodes
  {
    AnyChangedNodes(t);
    forall k | k in old0 ensures k !in t.nodes {
      assert k in Issued(c);
    }
  }

  /** What `path_entry_remove_command` relies on in a valid state: the
      collected ids are distinct keys of the map, a removed entry's parent
      is still a file once they are popped, and the result keeps the
      invariant. */
  lemma RemovalFacts(t: Tree, cur: string, counter: nat)
    requires Wellformed(t) && cur in t.nodes && t.nodes.Keys <= Issued(counter)
    ensures NoDup(RemovalIds(t, cur))
    ensures forall k :: k in RemovalIds(t, cur) ==> k in t.nodes
    ensures t.nodes[cur].Entry? ==> IsFileId(Dropped(t, SetOf(RemovalIds(t, cur))), t.nodes[cur].entry.parentUuid)
    ensures Wellformed(Removed(t, cur))
    ensures Removed(t, cur).nodes.Keys <= Issued(counter)
  {
    RemovalIdsShape(t, cur);
    RemovedWellformed(t, cur);
    if t.nodes[cur].Entry? {
      assert SetOf(RemovalIds(t, cur)) == {cur};
      RemovedEntryShape(t, cur);
    }
  }

  /** Creating and then inserting the new entry gives `WithEntry`. */
  lemma CreatedThenAttached(t: Tree, fid: string, path: string, id: string)
    requires IsFileId(t, fid) && t.nodes[fid].file.uuid == fid
    requires EntryValue(path, fid, "", true) !in t.nodes[fid].file.content
    ensures var c := Created(t, fid, path);
      IsFileId(c, fid) && |t.nodes[fid].file.content| < |c.nodes[fid].file.content|
      && AttachEntry(c, fid, |t.nodes[fid].file.content|, id) == WithEntry(t, fid, path, id)
  {
    var f := t.nodes[fid].file;
    var n := |f.content|;
    var v := EntryValue(path, fid, "", true);
    var c := Created(t, fid, path);
    assert c == UpdateFile(t, fid, f.(content := f.content + [v], changed := true));
    assert (f.content + [v])[n := v.(uuid := id)] == f.content + [EntryValue(path, fid, id, true)];
  }

  /** What `_add_path_entry` relies on in a valid state: `create` leaves
      the new entry as the only one of the file waiting for an id, inserting
      it gives `WithEntry`, and the result is wellformed with every key
      issued. */
  lemma AddEntryFacts(t: Tree, fid: string, path: string, counter: nat)
    requires Wellformed(t) && IsFileId(t, fid) && counter >= 1 && t.nodes.Keys <= Issued(counter)
    ensures var n := |t.nodes[fid].file.content|;
      Pending(Created(t, fid, path), fid, n) && n < |Created(t, fid, path).nodes[fid].file.content|
    ensures Created(t, fid, path).nodes.Keys <= Issued(counter)
    ensures AttachEntry(Created(t, fid, path), fid, |t.nodes[fid].file.content|, TreeId(counter))
         == WithEntry(t, fid, path, TreeId(counter))
    ensures Wellformed(WithEntry(t, fid, path, TreeId(counter)))
    ensures WithEntry(t, fid, path, TreeId(counter)).nodes.Keys <= Issued(counter + 1)
  {
    var n := |t.nodes[fid].file.content|;
    var id := TreeId(counter);
    CreatedPending(t, fid, path);
    CreatedThenAttached(t, fid, path, id);
    var c := Created(t, fid, path);
    NextIsFresh(counter);
    assert c.nodes.Keys == t.nodes.Keys;
    AttachPending(c, fid, n, id);
    var w := WithEntry(t, fid, path, id);
    PendingDone(w, fid);
  }

  /** `get_python_versions`: the full name of every discovered version, in
      order. */
  function PythonVersions(listing: seq<Path>): (names: seq<string>)
    ensures |names| == |Discovered(listing)|
    ensures forall i :: 0 <= i < |names| ==> names[i] == FullName(Discovered(listing)[i])
  {
    seq(|Discovered(listing)|, i requires 0 <= i < |Discovered(listing)| => FullName(Discovered(listing)[i]))
  }

  /** Every name offered in the version list resolves to a version, so
      choosing a row never raises "not found". */
  lemma PythonVersionsResolve(listing: seq<Path>, i: nat)
    requires i < |PythonVersions(listing)|
    ensures Resolved(PythonVersions(listing)[i], listing).Some?
  {
    var e := Discovered(listing)[i];
    var name := PythonVersions(listing)[i];
    assert name == FullName(e);
    assert name[0] == 'P';
    FullNameResolves(e, Discovered(listing));
  }
}
