/** The controller's identity map as a value: every file and entry model in
    the tree view under the id the view gave it, with the dictionary's
    insertion order kept beside it (the order `_get_child_of` and
    `_path_file_models` walk). The operations of the controller are stated
    here on such values, together with the invariant they keep: every file's
    content is exactly the list of entries in the map that name it as their
    parent. */
module ConfigTree {
  import opened Wrappers
  import opened Text
  import opened Service
  import opened ViewModel

  /** A value of the `uuid` dictionary: a file model or an entry model. */
  datatype NodeValue = File(file: FileValue) | Entry(entry: EntryValue)
  {
    function Uuid(): string
    {
      if File? then file.uuid else entry.uuid
    }

    function Changed(): bool
    {
      if File? then file.changed else entry.changed
    }
  }

  /** The dictionary and its keys in insertion order. */
  datatype Tree = Tree(nodes: map<string, NodeValue>, keys: seq<string>)

  const Empty: Tree := Tree(map[], [])

  predicate NoDup(ks: seq<string>)
  {
    forall i, j :: 0 <= i < j < |ks| ==> ks[i] != ks[j]
  }

  predicate IsChild(nodes: map<string, NodeValue>, k: string, uuid: string)
  {
    k in nodes && nodes[k].Entry? && nodes[k].entry.parentUuid == uuid
  }

  /** The entries among `ks` whose parent is `uuid`, in the order of `ks`. */
  function ChildrenIn(nodes: map<string, NodeValue>, ks: seq<string>, uuid: string): seq<EntryValue>
  {
    if ks == [] then []
    else
      var k := ks[|ks| - 1];
      ChildrenIn(nodes, ks[..|ks| - 1], uuid) + (if IsChild(nodes, k, uuid) then [nodes[k].entry] else [])
  }

  /** `_get_child_of` for the file with id `uuid`. */
  function Children(t: Tree, uuid: string): seq<EntryValue>
  {
    ChildrenIn(t.nodes, t.keys, uuid)
  }

  predicate IsFileId(t: Tree, id: string)
  {
    id in t.nodes && t.nodes[id].File?
  }

  // ---------------------------------------------------------------------
  // The invariant

  /** The key list is the dictionary's key set, each key once. */
  ghost predicate Indexed(t: Tree)
  {
    NoDup(t.keys) && forall k :: k in t.nodes <==> k in t.keys
  }

  /** Every model is stored under its own id, and no id is the root's "". */
  ghost predicate Named(t: Tree)
  {
    forall k :: k in t.nodes ==> t.nodes[k].Uuid() == k && k != ""
  }

  /** Every entry hangs under a file of the map. */
  ghost predicate Rooted(t: Tree)
  {
    forall k :: k in t.nodes && t.nodes[k].Entry? ==> IsFileId(t, t.nodes[k].entry.parentUuid)
  }

  /** Every file's content is the list of its children in the map. */
  ghost predicate Coherent(t: Tree)
  {
    forall k :: IsFileId(t, k) ==> t.nodes[k].file.content == Children(t, k)
  }

  ghost predicate Wellformed(t: Tree)
  {
    Indexed(t) && Named(t) && Rooted(t) && Coherent(t)
  }

  /** Wellformed except that file `fid` is being filled: its first `j`
      entries are in the map, the rest are still waiting for their ids. */
  ghost predicate Pending(t: Tree, fid: string, j: nat)
  {
    Indexed(t) && Named(t) && Rooted(t) && IsFileId(t, fid)
    && j <= |t.nodes[fid].file.content|
    && (forall k :: IsFileId(t, k) && k != fid ==> t.nodes[k].file.content == Children(t, k))
    && t.nodes[fid].file.content[..j] == Children(t, fid)
    && forall m :: j <= m < |t.nodes[fid].file.content| ==>
         t.nodes[fid].file.content[m].uuid == "" && t.nodes[fid].file.content[m].parentUuid == fid
  }

  lemma EmptyWellformed()
    ensures Wellformed(Empty)
  {
  }

  // ---------------------------------------------------------------------
  // Facts about ChildrenIn

  lemma {:induction false} ChildrenFrame(n1: map<string, NodeValue>, n2: map<string, NodeValue>, ks: seq<string>, u: string)
    requires forall k :: k in ks ==> (IsChild(n1, k, u) <==> IsChild(n2, k, u))
    requires forall k :: k in ks && IsChild(n1, k, u) && IsChild(n2, k, u) ==> n1[k].entry == n2[k].entry
    ensures ChildrenIn(n1, ks, u) == ChildrenIn(n2, ks, u)
    decreases |ks|
  {
    if ks != [] {
      var init := ks[..|ks| - 1];
      assert forall k :: k in init ==> k in ks;
      ChildrenFrame(n1, n2, init, u);
      assert ks[|ks| - 1] in ks;
    }
  }

  lemma {:induction false} ChildrenNone(n: map<string, NodeValue>, ks: seq<string>, u: string)
    requires forall k :: k in ks ==> !IsChild(n, k, u)
    ensures ChildrenIn(n, ks, u) == []
    decreases |ks|
  {
    if ks != [] {
      var init := ks[..|ks| - 1];
      assert forall k :: k in init ==> k in ks;
      ChildrenNone(n, init, u);
      assert ks[|ks| - 1] in ks;
    }
  }

  /** Every child comes from a key of `ks` that is a child of `u`. */
  lemma {:induction false} ChildrenFrom(n: map<string, NodeValue>, ks: seq<string>, u: string, e: EntryValue)
    requires e in ChildrenIn(n, ks, u)
    ensures exists k :: k in ks && IsChild(n, k, u) && n[k].entry == e
    decreases |ks|
  {
    var init := ks[..|ks| - 1];
    var last := ks[|ks| - 1];
    if e in ChildrenIn(n, init, u) {
      ChildrenFrom(n, init, u, e);
      var k :| k in init && IsChild(n, k, u) && n[k].entry == e;
      assert k in ks;
    } else {
      assert last in ks && IsChild(n, last, u) && n[last].entry == e;
    }
  }

  /** Every key of `ks` that is a child of `u` contributes its entry. */
  lemma {:induction false} ChildrenComplete(n: map<string, NodeValue>, ks: seq<string>, u: string, k: string)
    requires k in ks && IsChild(n, k, u)
    ensures n[k].entry in ChildrenIn(n, ks, u)
    decreases |ks|
  {
    var init := ks[..|ks| - 1];
    if k != ks[|ks| - 1] {
      assert k in init by {
        var i :| 0 <= i < |ks| && ks[i] == k;
        assert init[i] == k;
      }
      ChildrenComplete(n, init, u, k);
    }
  }

  lemma ChildrenAppend(n: map<string, NodeValue>, ks: seq<string>, k: string, u: string)
    ensures ChildrenIn(n, ks + [k], u)
         == ChildrenIn(n, ks, u) + (if IsChild(n, k, u) then [n[k].entry] else [])
  {
    assert (ks + [k])[..|ks|] == ks;
  }

  /** In a named map, a child's id is its key: ids are never "" and the
      parent is the one asked for. */
  lemma ChildrenNamed(t: Tree, u: string, e: EntryValue)
    requires Named(t) && e in Children(t, u)
    ensures e.uuid in t.nodes && e.uuid != "" && e.parentUuid == u
    ensures t.nodes[e.uuid] == Entry(e)
  {
    ChildrenFrom(t.nodes, t.keys, u, e);
  }

  // ---------------------------------------------------------------------
  // Inserting: what `add_item` does to the map

  /** The map after the view stores `v` under a new id. */
  function Put(t: Tree, id: string, v: NodeValue): Tree
  {
    Tree(t.nodes[id := v], t.keys + [id])
  }

  /** The map after the file model stored under `fid` changed in place. */
  function UpdateFile(t: Tree, fid: string, f: FileValue): Tree
  {
    Tree(t.nodes[fid := File(f)], t.keys)
  }

  /** A file model inserted at the root under `id`: the `uuid` setter
      re-stamps its entries, and its parent is the root "". */
  function StartFile(t: Tree, id: string, f: FileValue): Tree
  {
    Put(t, id, File(f.(uuid := id, parentUuid := "", content := Restamped(f.content, id))))
  }

  /** Entry `j` of file `fid` inserted under `id`: the entry model is shared
      by the file's content and the map, so both see the new id. */
  function AttachEntry(t: Tree, fid: string, j: nat, id: string): Tree
    requires IsFileId(t, fid) && j < |t.nodes[fid].file.content|
  {
    var f := t.nodes[fid].file;
    var e := f.content[j].(uuid := id, parentUuid := fid);
    Put(UpdateFile(t, fid, f.(content := f.content[j := e])), id, Entry(e))
  }

  /** `create(path)` on file `fid`: a new changed entry with no id, added
      unless an equal entry is already there. */
  function Created(t: Tree, fid: string, path: string): Tree
    requires IsFileId(t, fid)
  {
    var f := t.nodes[fid].file;
    var v := EntryValue(path, f.uuid, "", true);
    if v in f.content then t else UpdateFile(t, fid, f.(content := f.content + [v], changed := true))
  }

  lemma PutKeeps(t: Tree, id: string, v: NodeValue)
    requires Indexed(t) && Named(t) && Rooted(t) && id !in t.nodes && id != "" && v.Uuid() == id
    requires v.Entry? ==> IsFileId(t, v.entry.parentUuid)
    ensures Indexed(Put(t, id, v)) && Named(Put(t, id, v)) && Rooted(Put(t, id, v))
  {
    var t' := Put(t, id, v);
    assert NoDup(t'.keys) by {
      forall i | 0 <= i < |t.keys| ensures t'.keys[i] != id {
        assert t.keys[i] in t.nodes;
      }
    }
  }

  lemma UpdateFileKeeps(t: Tree, fid: string, f: FileValue)
    requires Indexed(t) && Named(t) && Rooted(t) && IsFileId(t, fid) && f.uuid == fid
    ensures Indexed(UpdateFile(t, fid, f)) && Named(UpdateFile(t, fid, f)) && Rooted(UpdateFile(t, fid, f))
  {
  }

  /** A new key adds its entry, if it is one, after the old children. */
  lemma ChildrenPut(t: Tree, id: string, v: NodeValue, u: string)
    requires id !in t.keys
    ensures Children(Put(t, id, v), u)
         == Children(t, u) + (if v.Entry? && v.entry.parentUuid == u then [v.entry] else [])
  {
    var n := t.nodes[id := v];
    ChildrenAppend(n, t.keys, id, u);
    ChildrenFrame(t.nodes, n, t.keys, u);
  }

  /** Changing a file model changes nobody's children. */
  lemma ChildrenUpdateFile(t: Tree, fid: string, f: FileValue, u: string)
    requires IsFileId(t, fid)
    ensures Children(UpdateFile(t, fid, f), u) == Children(t, u)
  {
    ChildrenFrame(t.nodes, t.nodes[fid := File(f)], t.keys, u);
  }

  /** Nothing in a rooted map hangs under an id that is not a key. */
  lemma ChildrenOfNew(t: Tree, id: string)
    requires Indexed(t) && Rooted(t) && id !in t.nodes
    ensures Children(t, id) == []
  {
    ChildrenNone(t.nodes, t.keys, id);
  }

  /** Inserting a file whose entries have no ids yet starts filling it. */
  lemma StartPending(t: Tree, id: string, f: FileValue)
    requires Wellformed(t) && id !in t.nodes && id != ""
    requires forall m :: 0 <= m < |f.content| ==> f.content[m].uuid == ""
    ensures Pending(StartFile(t, id, f), id, 0)
  {
    var v := File(f.(uuid := id, parentUuid := "", content := Restamped(f.content, id)));
    var t' := Put(t, id, v);
    PutKeeps(t, id, v);
    ChildrenPut(t, id, v, id);
    ChildrenOfNew(t, id);
    forall k | IsFileId(t', k) && k != id ensures t'.nodes[k].file.content == Children(t', k) {
      ChildrenPut(t, id, v, k);
    }
  }

  /** Inserting the next waiting entry of a file keeps filling it. */
  lemma AttachPending(t: Tree, fid: string, j: nat, id: string)
    requires Pending(t, fid, j) && j < |t.nodes[fid].file.content|
    requires id !in t.nodes && id != ""
    ensures Pending(AttachEntry(t, fid, j, id), fid, j + 1)
  {
    var f := t.nodes[fid].file;
    var e := f.content[j].(uuid := id, parentUuid := fid);
    var c' := f.content[j := e];
    var t1 := UpdateFile(t, fid, f.(content := c'));
    var t' := Put(t1, id, Entry(e));
    UpdateFileKeeps(t, fid, f.(content := c'));
    PutKeeps(t1, id, Entry(e));
    ChildrenUpdateFile(t, fid, f.(content := c'), fid);
    ChildrenPut(t1, id, Entry(e), fid);
    assert c'[..j + 1] == f.content[..j] + [e];
    forall k | IsFileId(t', k) && k != fid ensures t'.nodes[k].file.content == Children(t', k) {
      ChildrenUpdateFile(t, fid, f.(content := c'), k);
      ChildrenPut(t1, id, Entry(e), k);
    }
  }

  /** A file all of whose entries are in the map completes the invariant. */
  lemma PendingDone(t: Tree, fid: string)
    requires IsFileId(t, fid) && Pending(t, fid, |t.nodes[fid].file.content|)
    ensures Wellformed(t)
  {
    assert t.nodes[fid].file.content[..|t.nodes[fid].file.content|] == t.nodes[fid].file.content;
  }

  /** An empty file inserted at the root keeps the invariant. */
  lemma StartEmptyWellformed(t: Tree, id: string, f: FileValue)
    requires Wellformed(t) && id !in t.nodes && id != "" && f.content == []
    ensures Wellformed(StartFile(t, id, f))
  {
    StartPending(t, id, f);
    PendingDone(StartFile(t, id, f), id);
  }

  /** `create` on a file of a wellformed map always appends: no entry of
      the content lacks an id, so none equals the new one. Its new entry is
      then the only one waiting. */
  lemma CreatedPending(t: Tree, fid: string, path: string)
    requires Wellformed(t) && IsFileId(t, fid)
    ensures t.nodes[fid].file.uuid == fid
    ensures EntryValue(path, fid, "", true) !in t.nodes[fid].file.content
    ensures var f := t.nodes[fid].file;
      Created(t, fid, path).nodes[fid].file.content == f.content + [EntryValue(path, fid, "", true)]
    ensures Pending(Created(t, fid, path), fid, |t.nodes[fid].file.content|)
  {
    var f := t.nodes[fid].file;
    var v := EntryValue(path, f.uuid, "", true);
    if v in f.content {
      ChildrenNamed(t, fid, v);
      assert false;
    }
    var f' := f.(content := f.content + [v], changed := true);
    var t' := UpdateFile(t, fid, f');
    UpdateFileKeeps(t, fid, f');
    forall k | IsFileId(t', k) ensures Children(t', k) == Children(t, k) {
      ChildrenUpdateFile(t, fid, f', k);
    }
    assert (f.content + [v])[..|f.content|] == f.content;
  }

  // ---------------------------------------------------------------------
  // Removing: `path_entry_remove_command`

  /** The keys of `ks` outside `r`, in order. */
  function FilterOut(ks: seq<string>, r: set<string>): seq<string>
  {
    if ks == [] then []
    else FilterOut(ks[..|ks| - 1], r) + (if ks[|ks| - 1] in r then [] else [ks[|ks| - 1]])
  }

  /** The map after popping every key of `r`. */
  function Dropped(t: Tree, r: set<string>): Tree
  {
    Tree(t.nodes - r, FilterOut(t.keys, r))
  }

  lemma FilterOutSnoc(ks: seq<string>, k: string, r: set<string>)
    ensures FilterOut(ks + [k], r) == FilterOut(ks, r) + (if k in r then [] else [k])
  {
    assert (ks + [k])[..|ks|] == ks;
  }

  lemma LastNotInInit(ks: seq<string>)
    requires NoDup(ks) && ks != []
    ensures ks[|ks| - 1] !in ks[..|ks| - 1]
    ensures NoDup(ks[..|ks| - 1])
  {
    var init := ks[..|ks| - 1];
    forall i | 0 <= i < |init| ensures init[i] != ks[|ks| - 1] {
      assert init[i] == ks[i];
    }
  }

  lemma {:induction false} FilterOutMembers(ks: seq<string>, r: set<string>, k: string)
    ensures k in FilterOut(ks, r) <==> k in ks && k !in r
    decreases |ks|
  {
    if ks != [] {
      var init := ks[..|ks| - 1];
      FilterOutMembers(init, r, k);
      assert ks == init + [ks[|ks| - 1]];
    }
  }

  lemma {:induction false} FilterOutNoDup(ks: seq<string>, r: set<string>)
    requires NoDup(ks)
    ensures NoDup(FilterOut(ks, r))
    decreases |ks|
  {
    if ks != [] {
      var init := ks[..|ks| - 1];
      var last := ks[|ks| - 1];
      LastNotInInit(ks);
      FilterOutNoDup(init, r);
      FilterOutMembers(init, r, last);
      var a := FilterOut(init, r);
      if last !in r {
        forall i | 0 <= i < |a| ensures (a + [last])[i] != last {
          assert (a + [last])[i] == a[i];
        }
      }
    }
  }

  lemma {:induction false} FilterOutAll(ks: seq<string>, r: set<string>)
    requires forall k :: k in ks ==> k !in r
    ensures FilterOut(ks, r) == ks
    decreases |ks|
  {
    if ks != [] {
      var init := ks[..|ks| - 1];
      assert forall k :: k in init ==> k in ks;
      FilterOutAll(init, r);
      assert ks[|ks| - 1] in ks;
      assert ks == init + [ks[|ks| - 1]];
    }
  }

  /** Popping one more key. */
  lemma {:induction false} FilterOutStep(ks: seq<string>, r: set<string>, x: string)
    ensures FilterOut(FilterOut(ks, r), {x}) == FilterOut(ks, r + {x})
    decreases |ks|
  {
    if ks != [] {
      var init := ks[..|ks| - 1];
      var last := ks[|ks| - 1];
      FilterOutStep(init, r, x);
      var a := FilterOut(init, r);
      if last in r {
        assert FilterOut(ks, r) == a;
      } else {
        assert FilterOut(ks, r) == a + [last];
        FilterOutSnoc(a, last, {x});
      }
    }
  }

  lemma DroppedStep(t: Tree, r: set<string>, x: string)
    ensures Dropped(Dropped(t, r), {x}) == Dropped(t, r + {x})
  {
    FilterOutStep(t.keys, r, x);
    assert (t.nodes - r) - {x} == t.nodes - (r + {x});
  }

  /** Popping keys none of which is a child of `u` leaves `u`'s children. */
  lemma {:induction false} ChildrenDropUnrelated(n: map<string, NodeValue>, ks: seq<string>, r: set<string>, u: string)
    requires forall k :: k in r ==> !IsChild(n, k, u)
    ensures ChildrenIn(n - r, FilterOut(ks, r), u) == ChildrenIn(n, ks, u)
    decreases |ks|
  {
    if ks != [] {
      var init := ks[..|ks| - 1];
      var last := ks[|ks| - 1];
      ChildrenDropUnrelated(n, init, r, u);
      var a := FilterOut(init, r);
      if last in r {
        assert FilterOut(ks, r) == a;
        assert !IsChild(n, last, u);
      } else {
        assert FilterOut(ks, r) == a + [last];
        ChildrenAppend(n - r, a, last, u);
        assert IsChild(n - r, last, u) <==> IsChild(n, last, u);
      }
    }
  }

  /** Removing a key that is not among `ks` does not change their children. */
  lemma ChildrenDropUnrelatedSame(n: map<string, NodeValue>, ks: seq<string>, x: string, u: string)
    requires x !in ks
    ensures ChildrenIn(n - {x}, ks, u) == ChildrenIn(n, ks, u)
  {
    ChildrenFrame(n - {x}, n, ks, u);
  }

  /** In a map whose models sit under their own ids, a child's id is one of
      the keys it was collected from. */
  lemma ChildrenKeyed(n: map<string, NodeValue>, ks: seq<string>, u: string, e: EntryValue)
    requires forall k :: k in n ==> n[k].Uuid() == k
    ensures e in ChildrenIn(n, ks, u) ==> e.uuid in ks
  {
    if e in ChildrenIn(n, ks, u) {
      ChildrenFrom(n, ks, u, e);
    }
  }

  lemma RemoveFirstAppend(c: seq<EntryValue>, e: EntryValue, tail: seq<EntryValue>)
    requires e in c
    ensures RemoveFirst(c + tail, e) == RemoveFirst(c, e) + tail
  {
    var i := IndexOf(c, e);
    IndexOfAppend(c, e, tail);
    RemoveFirstAt(c, e, i);
    RemoveFirstAt(c + tail, e, i);
    SpliceAppend(c, i, tail);
  }

  /** `RemoveFirst` at a known first position. */
  lemma RemoveFirstAt(s: seq<EntryValue>, x: EntryValue, i: nat)
    requires i < |s| && i == IndexOf(s, x)
    ensures RemoveFirst(s, x) == s[..i] + s[i + 1..]
  {
  }

  /** Cutting out position `i` commutes with appending after it. */
  lemma SpliceAppend(c: seq<EntryValue>, i: nat, tail: seq<EntryValue>)
    requires i < |c|
    ensures (c + tail)[..i] + (c + tail)[i + 1..] == (c[..i] + c[i + 1..]) + tail
  {
    var ct := c + tail;
    assert ct[..i] == c[..i];
    assert ct[i + 1..] == c[i + 1..] + tail;
  }

  /** The first occurrence in `c` is also the first in `c + tail`. */
  lemma IndexOfAppend(c: seq<EntryValue>, e: EntryValue, tail: seq<EntryValue>)
    requires e in c
    ensures IndexOf(c + tail, e) == IndexOf(c, e)
  {
    var i := IndexOf(c, e);
    var ct := c + tail;
    assert ct[i] == e;
    forall m | 0 <= m < i ensures ct[m] != e {
      assert ct[m] == c[m];
    }
  }

  /** A key other than `x` contributes the same after `x` is popped. */
  lemma ChildrenAppendDropped(n: map<string, NodeValue>, a: seq<string>, last: string, x: string, u: string)
    requires last != x
    ensures ChildrenIn(n - {x}, a + [last], u)
         == ChildrenIn(n - {x}, a, u) + (if IsChild(n, last, u) then [n[last].entry] else [])
  {
    ChildrenAppend(n - {x}, a, last, u);
    assert IsChild(n - {x}, last, u) <==> IsChild(n, last, u);
  }

  /** Popping one child `x` of `u` removes exactly its entry from `u`'s
      children, as `list.remove` does, when ids are keys. */
  lemma {:induction false} ChildrenDropOne(n: map<string, NodeValue>, ks: seq<string>, x: string, u: string)
    requires forall k :: k in n ==> n[k].Uuid() == k
    requires NoDup(ks) && x in ks && IsChild(n, x, u)
    ensures ChildrenIn(n - {x}, FilterOut(ks, {x}), u) == RemoveFirst(ChildrenIn(n, ks, u), n[x].entry)
    decreases |ks|
  {
    var init := ks[..|ks| - 1];
    LastNotInInit(ks);
    if ks[|ks| - 1] == x {
      ChildrenDropLast(n, ks, x, u);
    } else {
      assert x in init by {
        var i :| 0 <= i < |ks| && ks[i] == x;
        assert init[i] == x;
      }
      ChildrenDropOne(n, init, x, u);
      ChildrenDropBefore(n, ks, x, u);
    }
  }

  /** The case of `ChildrenDropOne` where `x` is the last key. */
  lemma ChildrenDropLast(n: map<string, NodeValue>, ks: seq<string>, x: string, u: string)
    requires forall k :: k in n ==> n[k].Uuid() == k
    requires ks != [] && ks[|ks| - 1] == x && x !in ks[..|ks| - 1] && IsChild(n, x, u)
    ensures ChildrenIn(n - {x}, FilterOut(ks, {x}), u) == RemoveFirst(ChildrenIn(n, ks, u), n[x].entry)
  {
    var init := ks[..|ks| - 1];
    var e := n[x].entry;
    var c := ChildrenIn(n, init, u);
    ChildrenKeyed(n, init, u, e);
    AddThenRemove(c, e);
    assert ChildrenIn(n, ks, u) == c + [e];
    assert forall k :: k in init ==> k !in {x};
    FilterOutAll(init, {x});
    assert FilterOut(ks, {x}) == FilterOut(init, {x}) + [];
    assert FilterOut(ks, {x}) == init;
    ChildrenDropUnrelatedSame(n, init, x, u);
    assert ChildrenIn(n - {x}, FilterOut(ks, {x}), u) == c;
    assert RemoveFirst(ChildrenIn(n, ks, u), e) == c;
  }

  /** The step of `ChildrenDropOne` where `x` comes before the last key. */
  lemma ChildrenDropBefore(n: map<string, NodeValue>, ks: seq<string>, x: string, u: string)
    requires ks != [] && ks[|ks| - 1] != x && x in ks[..|ks| - 1] && IsChild(n, x, u)
    requires ChildrenIn(n - {x}, FilterOut(ks[..|ks| - 1], {x}), u)
          == RemoveFirst(ChildrenIn(n, ks[..|ks| - 1], u), n[x].entry)
    ensures ChildrenIn(n - {x}, FilterOut(ks, {x}), u) == RemoveFirst(ChildrenIn(n, ks, u), n[x].entry)
  {
    var init := ks[..|ks| - 1];
    var last := ks[|ks| - 1];
    var e := n[x].entry;
    var c := ChildrenIn(n, init, u);
    var a := FilterOut(init, {x});
    var tail := if IsChild(n, last, u) then [n[last].entry] else [];
    assert FilterOut(ks, {x}) == a + [last];
    assert ChildrenIn(n - {x}, a + [last], u) == RemoveFirst(c, e) + tail by {
      ChildrenAppendDropped(n, a, last, x, u);
    }
    assert ChildrenIn(n, ks, u) == c + tail;
    assert RemoveFirst(c + tail, e) == RemoveFirst(c, e) + tail by {
      ChildrenComplete(n, init, u, x);
      RemoveFirstAppend(c, e, tail);
    }
  }

  /** The ids of a list of entries. */
  function Uuids(es: seq<EntryValue>): (r: seq<string>)
    ensures |r| == |es| && forall i :: 0 <= i < |es| ==> r[i] == es[i].uuid
  {
    seq(|es|, i requires 0 <= i < |es| => es[i].uuid)
  }

  /** The ids `path_entry_remove_command` pops: the selected model's, then
      those of its children (none for an entry). */
  function RemovalIds(t: Tree, cur: string): seq<string>
    requires cur in t.nodes
  {
    [t.nodes[cur].Uuid()]
      + (if t.nodes[cur].File? then Uuids(Children(t, t.nodes[cur].file.uuid)) else [])
  }

  function SetOf(ids: seq<string>): set<string>
  {
    set k | k in ids
  }

  /** `remove` on a file model: an entry it holds goes, and the file is
      marked changed; any other entry leaves it as it was. */
  function Detached(f: FileValue, e: EntryValue): FileValue
  {
    if e in f.content then f.(content := RemoveFirst(f.content, e), changed := true) else f
  }

  /** The map after `path_entry_remove_command` on `cur`: every collected id
      popped, and an entry also removed from its parent's content. The branch
      that skips a missing or non-file parent is never taken on a wellformed
      map (`RemovedEntryWellformed`); the source raises there, and
      `ConfigController.UpdatePathFileModel` models that raise. */
  function Removed(t: Tree, cur: string): Tree
    requires cur in t.nodes
  {
    var d := Dropped(t, SetOf(RemovalIds(t, cur)));
    match t.nodes[cur]
    case File(_) => d
    case Entry(e) =>
      var p := e.parentUuid;
      if IsFileId(d, p) then UpdateFile(d, p, Detached(d.nodes[p].file, e)) else d
  }

  /** The children of a file in a named, indexed map have distinct ids, and
      those ids are exactly the keys of the entries under it. */
  lemma ChildIds(t: Tree, u: string)
    requires Indexed(t) && Named(t)
    ensures NoDup(Uuids(Children(t, u)))
    ensures forall k :: k in Uuids(Children(t, u)) <==> IsChild(t.nodes, k, u)
  {
    var cs := Children(t, u);
    var us := Uuids(cs);
    forall i, j | 0 <= i < j < |us| ensures us[i] != us[j] {
      ChildrenOrderedKeys(t.nodes, t.keys, u, i, j);
    }
    forall k ensures k in us <==> IsChild(t.nodes, k, u) {
      if k in us {
        var i :| 0 <= i < |us| && us[i] == k;
        ChildrenNamed(t, u, cs[i]);
      }
      if IsChild(t.nodes, k, u) {
        ChildrenComplete(t.nodes, t.keys, u, k);
        var i :| 0 <= i < |cs| && cs[i] == t.nodes[k].entry;
        assert us[i] == k;
      }
    }
  }

  /** Positions among the children follow positions among the keys. */
  lemma {:induction false} ChildrenOrderedKeys(n: map<string, NodeValue>, ks: seq<string>, u: string, i: nat, j: nat)
    requires forall k :: k in n ==> n[k].Uuid() == k
    requires NoDup(ks) && i < j < |ChildrenIn(n, ks, u)|
    ensures ChildrenIn(n, ks, u)[i].uuid != ChildrenIn(n, ks, u)[j].uuid
    decreases |ks|
  {
    var init := ks[..|ks| - 1];
    var last := ks[|ks| - 1];
    var c := ChildrenIn(n, init, u);
    LastNotInInit(ks);
    if j < |c| {
      ChildrenOrderedKeys(n, init, u, i, j);
    } else {
      assert ChildrenIn(n, ks, u)[j] == n[last].entry;
      assert ChildrenIn(n, ks, u)[i] == c[i];
      ChildrenKeyed(n, init, u, c[i]);
    }
  }

  /** What removal collects: the selected id first, each id a present key
      and none twice; for an entry only itself, for a file itself and
      exactly the entries under it. */
  lemma RemovalIdsShape(t: Tree, cur: string)
    requires Wellformed(t) && cur in t.nodes
    ensures RemovalIds(t, cur)[0] == cur && NoDup(RemovalIds(t, cur))
    ensures forall k :: k in RemovalIds(t, cur) ==> k in t.nodes
    ensures t.nodes[cur].Entry? ==> RemovalIds(t, cur) == [cur]
    ensures t.nodes[cur].File? ==>
      forall k :: k in RemovalIds(t, cur) <==> k == cur || IsChild(t.nodes, k, cur)
  {
    if t.nodes[cur].File? {
      var us := Uuids(Children(t, cur));
      ChildIds(t, cur);
      assert cur !in us;
      var ids := [cur] + us;
      forall i, j | 0 <= i < j < |ids| ensures ids[i] != ids[j] {
        if i > 0 {
          assert ids[i] == us[i - 1] && ids[j] == us[j - 1];
        } else {
          assert ids[j] in us;
        }
      }
    }
  }

  /** Popping keys keeps the map indexed, named and rooted when no entry
      left behind hangs under a popped key. */
  lemma DroppedKeeps(t: Tree, r: set<string>)
    requires Indexed(t) && Named(t) && Rooted(t)
    requires forall k :: k in t.nodes && k !in r && t.nodes[k].Entry? ==> t.nodes[k].entry.parentUuid !in r
    ensures Indexed(Dropped(t, r)) && Named(Dropped(t, r)) && Rooted(Dropped(t, r))
  {
    FilterOutNoDup(t.keys, r);
    forall k ensures k in FilterOut(t.keys, r) <==> k in t.nodes - r {
      FilterOutMembers(t.keys, r, k);
    }
  }

  lemma RemovedFileWellformed(t: Tree, cur: string)
    requires Wellformed(t) && IsFileId(t, cur)
    ensures Wellformed(Removed(t, cur))
  {
    var r := SetOf(RemovalIds(t, cur));
    FileRemovalSet(t, cur);
    var d := Dropped(t, r);
    assert Removed(t, cur) == d;
    DroppedKeeps(t, r);
    forall k | IsFileId(d, k) ensures d.nodes[k].file.content == Children(d, k) {
      assert k != cur && IsFileId(t, k);
      assert forall x :: x in r ==> !IsChild(t.nodes, x, k);
      ChildrenDropUnrelated(t.nodes, t.keys, r, k);
    }
  }

  /** Removing a file pops it and exactly the entries under it, and no
      entry left behind hangs under a popped key. */
  lemma FileRemovalSet(t: Tree, cur: string)
    requires Wellformed(t) && IsFileId(t, cur)
    ensures forall k :: k in SetOf(RemovalIds(t, cur)) <==> k == cur || IsChild(t.nodes, k, cur)
    ensures forall k :: k in t.nodes && k !in SetOf(RemovalIds(t, cur)) && t.nodes[k].Entry?
              ==> t.nodes[k].entry.parentUuid !in SetOf(RemovalIds(t, cur))
  {
    RemovalIdsShape(t, cur);
  }

  /** Removing an entry pops its id and detaches it from its parent, which
      holds it. */
  lemma RemovedEntryShape(t: Tree, cur: string)
    requires Wellformed(t) && cur in t.nodes && t.nodes[cur].Entry?
    ensures var e := t.nodes[cur].entry;
      IsFileId(Dropped(t, {cur}), e.parentUuid)
      && Dropped(t, {cur}).nodes[e.parentUuid] == t.nodes[e.parentUuid]
      && e in t.nodes[e.parentUuid].file.content
      && Removed(t, cur) == UpdateFile(Dropped(t, {cur}), e.parentUuid, Detached(t.nodes[e.parentUuid].file, e))
  {
    var e := t.nodes[cur].entry;
    RemovalIdsShape(t, cur);
    assert SetOf(RemovalIds(t, cur)) == {cur};
    ChildrenComplete(t.nodes, t.keys, e.parentUuid, cur);
  }

  lemma RemovedEntryWellformed(t: Tree, cur: string)
    requires Wellformed(t) && cur in t.nodes && t.nodes[cur].Entry?
    ensures Wellformed(Removed(t, cur))
    ensures var p := t.nodes[cur].entry.parentUuid;
      IsFileId(Removed(t, cur), p)
      && Removed(t, cur).nodes[p].file.content == RemoveFirst(t.nodes[p].file.content, t.nodes[cur].entry)
  {
    var e := t.nodes[cur].entry;
    var p := e.parentUuid;
    RemovedEntryShape(t, cur);
    var d := Dropped(t, {cur});
    DroppedKeeps(t, {cur});
    var f' := Detached(t.nodes[p].file, e);
    UpdateFileKeeps(d, p, f');
    ChildrenDropOne(t.nodes, t.keys, cur, p);
    ChildrenUpdateFile(d, p, f', p);
    var t' := UpdateFile(d, p, f');
    assert t'.nodes == (t.nodes - {cur})[p := File(f')];
    forall k | IsFileId(t', k) && k != p ensures t'.nodes[k].file.content == Children(t', k) {
      DroppedEntryOthers(t, cur, k);
      ChildrenUpdateFile(d, p, f', k);
    }
  }

  /** Popping an entry leaves the children of every other file as they were. */
  lemma DroppedEntryOthers(t: Tree, cur: string, k: string)
    requires Wellformed(t) && cur in t.nodes && t.nodes[cur].Entry?
    requires k in t.nodes - {cur} && k != t.nodes[cur].entry.parentUuid
    ensures IsFileId(t, k) ==> Children(Dropped(t, {cur}), k) == t.nodes[k].file.content
  {
    assert !IsChild(t.nodes, cur, k);
    ChildrenDropUnrelated(t.nodes, t.keys, {cur}, k);
  }

  /** Removing keeps the invariant, pops exactly the collected ids and keeps
      the order of the other keys, and leaves every other model as it was,
      except that a removed entry's parent loses that entry. */
  lemma RemovedWellformed(t: Tree, cur: string)
    requires Wellformed(t) && cur in t.nodes
    ensures Wellformed(Removed(t, cur))
    ensures Removed(t, cur).keys == FilterOut(t.keys, SetOf(RemovalIds(t, cur)))
    ensures forall k :: k in Removed(t, cur).nodes <==> k in t.nodes && k !in RemovalIds(t, cur)
    ensures forall k :: k in Removed(t, cur).nodes && !(t.nodes[cur].Entry? && k == t.nodes[cur].entry.parentUuid)
              ==> Removed(t, cur).nodes[k] == t.nodes[k]
  {
    if t.nodes[cur].File? {
      RemovedFileWellformed(t, cur);
    } else {
      RemovedEntryWellformed(t, cur);
    }
    RemovedShape(t, cur);
  }

  /** The keys and models `Removed` leaves. */
  lemma RemovedShape(t: Tree, cur: string)
    requires Wellformed(t) && cur in t.nodes
    ensures Removed(t, cur).keys == FilterOut(t.keys, SetOf(RemovalIds(t, cur)))
    ensures forall k :: k in Removed(t, cur).nodes <==> k in t.nodes && k !in RemovalIds(t, cur)
    ensures forall k :: k in Removed(t, cur).nodes && !(t.nodes[cur].Entry? && k == t.nodes[cur].entry.parentUuid)
              ==> Removed(t, cur).nodes[k] == t.nodes[k]
  {
    var r := SetOf(RemovalIds(t, cur));
    var d := Dropped(t, r);
    assert forall k :: k in r <==> k in RemovalIds(t, cur);
    if t.nodes[cur].File? {
      assert Removed(t, cur) == d;
    } else {
      RemovalIdsShape(t, cur);
      assert r == {cur};
      RemovedEntryShape(t, cur);
    }
  }

  // ---------------------------------------------------------------------
  // Saving: `path_entry_save_command`

  function Paths(es: seq<EntryValue>): (r: seq<string>)
    ensures |r| == |es| && forall i :: 0 <= i < |es| ==> r[i] == es[i].path
  {
    seq(|es|, i requires 0 <= i < |es| => es[i].path)
  }

  /** `_create_py_path`: the file's path and the paths of its children. */
  function PyPath(t: Tree, f: FileValue): PythonPathFile
  {
    PythonPathFile(f.path, Paths(Children(t, f.uuid)))
  }

  /** The file keys among `ks`, in order (`_path_file_models`). */
  function FileKeysIn(t: Tree, ks: seq<string>): seq<string>
  {
    if ks == [] then []
    else FileKeysIn(t, ks[..|ks| - 1]) + (if IsFileId(t, ks[|ks| - 1]) then [ks[|ks| - 1]] else [])
  }

  /** `_create_python_path_files` over the keys `ks`. */
  function PlanIn(t: Tree, ks: seq<string>): seq<PythonPathFile>
  {
    if ks == [] then []
    else
      var k := ks[|ks| - 1];
      PlanIn(t, ks[..|ks| - 1]) + (if IsFileId(t, k) then [PyPath(t, t.nodes[k].file)] else [])
  }

  function SavePlan(t: Tree): seq<PythonPathFile>
  {
    PlanIn(t, t.keys)
  }

  function FileKeys(t: Tree): seq<string>
  {
    FileKeysIn(t, t.keys)
  }

  /** The plan has one file per file model, in dictionary order. */
  lemma {:induction false} PlanFollowsFileKeys(t: Tree, ks: seq<string>)
    ensures |PlanIn(t, ks)| == |FileKeysIn(t, ks)|
    ensures forall i :: 0 <= i < |PlanIn(t, ks)| ==>
      IsFileId(t, FileKeysIn(t, ks)[i]) && PlanIn(t, ks)[i] == PyPath(t, t.nodes[FileKeysIn(t, ks)[i]].file)
    decreases |ks|
  {
    if ks != [] {
      PlanFollowsFileKeys(t, ks[..|ks| - 1]);
    }
  }

  /** The file keys are the keys of file models. */
  lemma {:induction false} FileKeysMembers(t: Tree, ks: seq<string>, k: string)
    ensures k in FileKeysIn(t, ks) <==> k in ks && IsFileId(t, k)
    decreases |ks|
  {
    if ks != [] {
      var init := ks[..|ks| - 1];
      FileKeysMembers(t, init, k);
      assert ks == init + [ks[|ks| - 1]];
    }
  }

  /** In a wellformed map the plan writes every file with exactly the paths
      of its content, in content order; and only the files of the map. */
  lemma SavePlanContents(t: Tree)
    requires Wellformed(t)
    ensures |SavePlan(t)| == |FileKeys(t)|
    ensures forall i :: 0 <= i < |FileKeys(t)| ==> IsFileId(t, FileKeys(t)[i])
    ensures forall i :: 0 <= i < |SavePlan(t)| ==>
      var f := t.nodes[FileKeys(t)[i]].file;
      SavePlan(t)[i] == PythonPathFile(f.path, Paths(f.content))
    ensures forall k :: k in FileKeys(t) <==> IsFileId(t, k)
  {
    PlanFollowsFileKeys(t, t.keys);
    forall i | 0 <= i < |FileKeys(t)| ensures IsFileId(t, FileKeys(t)[i]) {
      FileKeysMembers(t, t.keys, FileKeys(t)[i]);
    }
    forall k ensures k in FileKeys(t) <==> IsFileId(t, k) {
      FileKeysMembers(t, t.keys, k);
    }
  }

  /** A removed file is not saved again, and neither is any file whose key
      is gone. */
  lemma RemovedFileNotSaved(t: Tree, cur: string)
    requires Wellformed(t) && cur in t.nodes
    ensures cur !in FileKeys(Removed(t, cur))
  {
    RemovedWellformed(t, cur);
    RemovalIdsShape(t, cur);
    FileKeysMembers(Removed(t, cur), Removed(t, cur).keys, cur);
  }

  /** After removing an entry, its parent is saved without it. */
  lemma RemovedEntryNotSaved(t: Tree, cur: string)
    requires Wellformed(t) && cur in t.nodes && t.nodes[cur].Entry?
    ensures var p := t.nodes[cur].entry.parentUuid;
      IsFileId(Removed(t, cur), p)
      && PyPath(Removed(t, cur), Removed(t, cur).nodes[p].file).content
         == Paths(RemoveFirst(t.nodes[p].file.content, t.nodes[cur].entry))
  {
    RemovedEntryWellformed(t, cur);
  }

  lemma {:induction false} FileKeysFrame(t1: Tree, t2: Tree, ks: seq<string>)
    requires forall k :: k in ks ==> (IsFileId(t1, k) <==> IsFileId(t2, k))
    ensures FileKeysIn(t1, ks) == FileKeysIn(t2, ks)
    decreases |ks|
  {
    if ks != [] {
      var init := ks[..|ks| - 1];
      assert forall k :: k in init ==> k in ks;
      FileKeysFrame(t1, t2, init);
      assert ks[|ks| - 1] in ks;
    }
  }

  /** A new key that holds a file goes to the end of the file order. */
  lemma FileKeysPut(t: Tree, id: string, v: NodeValue)
    requires id !in t.keys
    ensures FileKeys(Put(t, id, v)) == FileKeys(t) + (if v.File? then [id] else [])
  {
    var t' := Put(t, id, v);
    assert (t.keys + [id])[..|t.keys|] == t.keys;
    FileKeysFrame(t, t', t.keys);
  }

  lemma FileKeysUpdateFile(t: Tree, fid: string, f: FileValue)
    requires IsFileId(t, fid)
    ensures FileKeys(UpdateFile(t, fid, f)) == FileKeys(t)
  {
    FileKeysFrame(t, UpdateFile(t, fid, f), t.keys);
  }

  /** The key `k` of `t` holds a file with the path and the lines of `f`. */
  predicate HoldsFile(t: Tree, k: string, f: PythonPathFile)
  {
    IsFileId(t, k) && t.nodes[k].file.path == f.path && Paths(t.nodes[k].file.content) == f.content
  }

  /** A wellformed map whose files, in order, hold exactly the given files
      saves exactly those files: loading and saving round-trips. */
  lemma SavePlanOfHeld(t: Tree, files: seq<PythonPathFile>)
    requires Wellformed(t) && |FileKeys(t)| == |files|
    requires forall i :: 0 <= i < |files| ==> HoldsFile(t, FileKeys(t)[i], files[i])
    ensures SavePlan(t) == files
  {
    SavePlanContents(t);
  }

  // ---------------------------------------------------------------------
  // Loading: `_add_python_path_file`

  /** A file model as `create_view_model` leaves it: nothing marked changed. */
  predicate Clean(f: FileValue)
  {
    !f.changed && forall e :: e in f.content ==> !e.changed
  }

  /** `t` grew from `t0`: every old model is still there, unaltered, and
      every new model is unchanged and stored under a key outside `used`. */
  predicate Extends(t0: Tree, t: Tree, used: set<string>)
  {
    && (forall k :: k in t0.nodes ==> k in t.nodes && t.nodes[k] == t0.nodes[k])
    && (forall k :: k in t.nodes && k !in t0.nodes ==> !t.nodes[k].Changed() && k !in used)
  }

  lemma ExtendsTrans(t0: Tree, t1: Tree, t2: Tree, u0: set<string>, u1: set<string>)
    requires Extends(t0, t1, u0) && Extends(t1, t2, u1) && u0 <= u1
    ensures Extends(t0, t2, u0)
  {
    forall k | k in t2.nodes && k !in t0.nodes ensures !t2.nodes[k].Changed() && k !in u0 {
      if k in t1.nodes {
        assert t2.nodes[k] == t1.nodes[k];
      }
    }
  }

  /** A clean file inserted at the root, its entries still waiting. */
  lemma StartExtends(t: Tree, id: string, f: FileValue, file: PythonPathFile, used: set<string>)
    requires Indexed(t) && id !in t.nodes && id !in used && Clean(f)
    requires f.path == file.path && Paths(f.content) == file.content
    ensures var t' := StartFile(t, id, f);
      && Extends(t, t', used) && Clean(t'.nodes[id].file) && HoldsFile(t', id, file)
      && FileKeys(t') == FileKeys(t) + [id]
  {
    var t' := StartFile(t, id, f);
    RestampedEntries(f.content, id);
    FileKeysPut(t, id, t'.nodes[id]);
    forall e | e in t'.nodes[id].file.content ensures !e.changed {
      var i :| 0 <= i < |t'.nodes[id].file.content| && t'.nodes[id].file.content[i] == e;
      assert f.content[i] in f.content;
    }
  }

  /** Attaching an entry of a new clean file keeps that file clean and
      holding the same lines, keeps the file keys, and adds one unchanged
      entry model. */
  lemma AttachExtends(t0: Tree, t: Tree, fid: string, j: nat, id: string, file: PythonPathFile, used: set<string>)
    requires Indexed(t) && IsFileId(t, fid) && j < |t.nodes[fid].file.content| && id !in t.nodes && id !in used
    requires fid !in t0.nodes && Extends(t0, t, used)
    requires Clean(t.nodes[fid].file) && HoldsFile(t, fid, file)
    ensures var t' := AttachEntry(t, fid, j, id);
      && Extends(t0, t', used) && Clean(t'.nodes[fid].file) && HoldsFile(t', fid, file)
      && FileKeys(t') == FileKeys(t)
  {
    var f := t.nodes[fid].file;
    var e := f.content[j].(uuid := id, parentUuid := fid);
    var c := f.content[j := e];
    var t1 := UpdateFile(t, fid, f.(content := c));
    var t' := Put(t1, id, Entry(e));
    assert f.content[j] in f.content;
    FileKeysUpdateFile(t, fid, f.(content := c));
    FileKeysPut(t1, id, Entry(e));
    assert Paths(c) == Paths(f.content);
    forall x | x in c ensures !x.changed {
      var i :| 0 <= i < |c| && c[i] == x;
      assert f.content[i] in f.content;
    }
  }

  /** `t` is `t0` with `files` loaded after it: it grew from `t0`, and its
      file keys are those of `t0` followed by one per file, each holding that
      file. No new key is one of `used`. */
  predicate Loaded(t0: Tree, t: Tree, files: seq<PythonPathFile>, used: set<string>)
  {
    var n0 := |FileKeys(t0)|;
    && Extends(t0, t, used)
    && |FileKeys(t)| == n0 + |files| && FileKeys(t)[..n0] == FileKeys(t0)
    && forall i :: 0 <= i < |files| ==> HoldsFile(t, FileKeys(t)[n0 + i], files[i])
  }

  lemma LoadedNone(t: Tree, files: seq<PythonPathFile>, used: set<string>)
    ensures Loaded(t, t, files[..0], used)
  {
    assert files[..0] == [];
  }

  /** One more file loaded, as `_add_python_path_file` does it. */
  lemma LoadedStep(t0: Tree, t1: Tree, t2: Tree, files: seq<PythonPathFile>, n: nat, fid: string,
                   u0: set<string>, u1: set<string>)
    requires n < |files| && Loaded(t0, t1, files[..n], u0) && Extends(t1, t2, u1) && u0 <= u1
    requires FileKeys(t2) == FileKeys(t1) + [fid] && HoldsFile(t2, fid, files[n])
    ensures Loaded(t0, t2, files[..n + 1], u0)
  {
    ExtendsTrans(t0, t1, t2, u0, u1);
    var n0 := |FileKeys(t0)|;
    var fs := files[..n + 1];
    forall i | 0 <= i < |fs| ensures HoldsFile(t2, FileKeys(t2)[n0 + i], fs[i]) {
      if i < n {
        assert FileKeys(t2)[n0 + i] == FileKeys(t1)[n0 + i];
        assert HoldsFile(t1, FileKeys(t1)[n0 + i], files[..n][i]);
      }
    }
    assert FileKeys(t2)[..n0] == FileKeys(t1)[..n0];
  }

  lemma LoadedAll(t0: Tree, t: Tree, files: seq<PythonPathFile>, used: set<string>)
    requires Loaded(t0, t, files[..|files|], used)
    ensures Loaded(t0, t, files, used)
  {
    assert files[..|files|] == files;
  }

  /** Loading into an empty map and saving gives the loaded files back. */
  lemma LoadedSaves(t: Tree, files: seq<PythonPathFile>, used: set<string>)
    requires Wellformed(t) && Loaded(Empty, t, files, used)
    ensures SavePlan(t) == files
  {
    var ks := FileKeys(t);
    assert |ks| == |files| && forall i :: 0 <= i < |files| ==> HoldsFile(t, ks[i], files[i]) by {
      assert FileKeys(Empty) == [];
      forall i | 0 <= i < |files| ensures HoldsFile(t, ks[i], files[i]) {
        assert HoldsFile(t, ks[0 + i], files[i]);
      }
    }
    SavePlanOfHeld(t, files);
  }

  // ---------------------------------------------------------------------
  // Unsaved changes

  /** `any(model.changed for _, model in self.uuid.items())`. */
  predicate AnyChanged(t: Tree)
  {
    exists i :: 0 <= i < |t.keys| && t.keys[i] in t.nodes && t.nodes[t.keys[i]].Changed()
  }

  lemma AnyChangedNodes(t: Tree)
    requires Indexed(t)
    ensures AnyChanged(t) <==> exists k :: k in t.nodes && t.nodes[k].Changed()
  {
    if exists k :: k in t.nodes && t.nodes[k].Changed() {
      var k :| k in t.nodes && t.nodes[k].Changed();
      var i :| 0 <= i < |t.keys| && t.keys[i] == k;
    }
  }

  /** The entries with their `changed` flags cleared. */
  function ClearedEntries(es: seq<EntryValue>): (r: seq<EntryValue>)
    ensures |r| == |es| && forall i :: 0 <= i < |es| ==> r[i] == es[i].(changed := false)
  {
    seq(|es|, i requires 0 <= i < |es| => es[i].(changed := false))
  }

  function ClearedNode(v: NodeValue): NodeValue
  {
    match v
    case File(f) => File(f.(changed := false, content := ClearedEntries(f.content)))
    case Entry(e) => Entry(e.(changed := false))
  }

  function ClearedMap(n: map<string, NodeValue>): map<string, NodeValue>
  {
    map k | k in n :: ClearedNode(n[k])
  }

  /** Every model of the map marked as saved. */
  function Cleared(t: Tree): Tree
  {
    Tree(ClearedMap(t.nodes), t.keys)
  }

  lemma {:induction false} ChildrenCleared(n: map<string, NodeValue>, ks: seq<string>, u: string)
    ensures ChildrenIn(ClearedMap(n), ks, u) == ClearedEntries(ChildrenIn(n, ks, u))
    decreases |ks|
  {
    if ks != [] {
      var init := ks[..|ks| - 1];
      var last := ks[|ks| - 1];
      ChildrenCleared(n, init, u);
      var c := ChildrenIn(n, init, u);
      var tail := if IsChild(n, last, u) then [n[last].entry] else [];
      assert IsChild(ClearedMap(n), last, u) <==> IsChild(n, last, u);
      assert ChildrenIn(n, ks, u) == c + tail;
      assert ClearedEntries(c + tail) == ClearedEntries(c) + ClearedEntries(tail);
    }
  }

  /** Clearing keeps the invariant and leaves nothing marked changed. */
  lemma ClearedWellformed(t: Tree)
    requires Wellformed(t)
    ensures Wellformed(Cleared(t))
    ensures !AnyChanged(Cleared(t))
  {
    var c := Cleared(t);
    assert c.nodes.Keys == t.nodes.Keys;
    assert Indexed(c);
    assert Named(c) by {
      forall k | k in c.nodes ensures c.nodes[k].Uuid() == k && k != "" {
        assert c.nodes[k] == ClearedNode(t.nodes[k]);
      }
    }
    assert Rooted(c) by {
      forall k | k in c.nodes && c.nodes[k].Entry? ensures IsFileId(c, c.nodes[k].entry.parentUuid) {
        assert c.nodes[k] == ClearedNode(t.nodes[k]);
        assert IsFileId(t, t.nodes[k].entry.parentUuid);
      }
    }
    assert Coherent(c) by {
      forall k | IsFileId(c, k) ensures c.nodes[k].file.content == Children(c, k) {
        assert c.nodes[k] == ClearedNode(t.nodes[k]);
        ChildrenCleared(t.nodes, t.keys, k);
      }
    }
    assert !AnyChanged(c) by {
      forall i | 0 <= i < |c.keys| && c.keys[i] in c.nodes ensures !c.nodes[c.keys[i]].Changed() {
        assert c.nodes[c.keys[i]] == ClearedNode(t.nodes[c.keys[i]]);
      }
    }
  }

  /** Clearing does not change what saving writes. */
  lemma {:induction false} ClearedPlanIn(t: Tree, ks: seq<string>)
    ensures PlanIn(Cleared(t), ks) == PlanIn(t, ks)
    decreases |ks|
  {
    if ks != [] {
      var k := ks[|ks| - 1];
      ClearedPlanIn(t, ks[..|ks| - 1]);
      if IsFileId(t, k) {
        var f := t.nodes[k].file;
        ChildrenCleared(t.nodes, t.keys, f.uuid);
        assert Paths(ClearedEntries(Children(t, f.uuid))) == Paths(Children(t, f.uuid));
      }
    }
  }

  lemma ClearedSavePlan(t: Tree)
    ensures SavePlan(Cleared(t)) == SavePlan(t)
  {
    ClearedPlanIn(t, t.keys);
  }
}
