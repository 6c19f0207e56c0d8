/** The view models of the path-configuration tree: a `.pth` file model
    (`PathFileViewModel`) holding an ordered list of entry models
    (`PathEntryViewModel`). Both are mutable dataclasses whose generated
    equality compares every field, so the model gives each class a value
    snapshot (`EntryValue`, `FileValue`) and compares snapshots wherever the
    source compares models with `==` or `in`. */
module ViewModel {
  import opened Text
  import opened Service

  /** The fields of a `PathEntryViewModel`, in declaration order. */
  datatype EntryValue = EntryValue(path: string, parentUuid: string, uuid: string, changed: bool)

  /** The fields of a `PathFileViewModel`, its entries read through. */
  datatype FileValue = FileValue(path: Path, content: seq<EntryValue>, uuid: string, parentUuid: string, changed: bool)

  class PathEntry {
    var path: string
    var parentUuid: string
    var uuid: string
    var changed: bool

    constructor (path: string, parentUuid: string, uuid: string, changed: bool)
      ensures Value() == EntryValue(path, parentUuid, uuid, changed)
    {
      this.path := path;
      this.parentUuid := parentUuid;
      this.uuid := uuid;
      this.changed := changed;
    }

    function Value(): EntryValue
      reads this
    {
      EntryValue(path, parentUuid, uuid, changed)
    }
  }

  /** The snapshots of a list of entry models, element by element. */
  function Values(s: seq<PathEntry>): (r: seq<EntryValue>)
    reads set e | e in s
    ensures |r| == |s|
    ensures forall i :: 0 <= i < |s| ==> r[i] == s[i].Value()
  {
    seq(|s|, j requires 0 <= j < |s| reads s => s[j].Value())
  }

  /** Cutting out one model cuts out its snapshot. */
  lemma ValuesSplice(s: seq<PathEntry>, i: nat)
    requires i < |s|
    ensures Values(s[..i] + s[i + 1..]) == Values(s)[..i] + Values(s)[i + 1..]
  {
    var c := s[..i] + s[i + 1..];
    forall j | 0 <= j < |c| ensures Values(c)[j] == (Values(s)[..i] + Values(s)[i + 1..])[j] {
      if j < i {
        assert c[j] == s[j];
      } else {
        assert c[j] == s[j + 1];
      }
    }
  }

  /** What the `uuid` setter leaves in a file's entries. */
  function Restamped(vs: seq<EntryValue>, uuid: string): seq<EntryValue>
  {
    seq(|vs|, i requires 0 <= i < |vs| => vs[i].(parentUuid := uuid))
  }

  /** After re-stamping, every entry names `uuid` as its parent, and entry i
      is the old entry i in everything else: same order, paths, ids and
      `changed` flags. */
  lemma RestampedEntries(vs: seq<EntryValue>, uuid: string)
    ensures |Restamped(vs, uuid)| == |vs|
    ensures forall e :: e in Restamped(vs, uuid) ==> e.parentUuid == uuid
    ensures forall i :: 0 <= i < |vs| ==> Restamped(vs, uuid)[i] == vs[i].(parentUuid := uuid)
  {
  }

  /** Only the last re-stamping is visible. */
  lemma RestampedTwice(vs: seq<EntryValue>, a: string, b: string)
    ensures Restamped(Restamped(vs, a), b) == Restamped(vs, b)
  {
  }

  /** `list.remove(x)` when `x` is present; when it is not, `s` itself. */
  function RemoveFirst<T(==)>(s: seq<T>, x: T): seq<T>
  {
    var i := IndexOf(s, x);
    if i == |s| then s else s[..i] + s[i + 1..]
  }

  /** Removing a present element drops exactly its first occurrence and keeps
      the order of the others. */
  lemma RemoveFirstPresent<T>(s: seq<T>, x: T)
    requires x in s
    ensures |RemoveFirst(s, x)| == |s| - 1
    ensures multiset(RemoveFirst(s, x)) == multiset(s) - multiset{x}
    ensures var i := IndexOf(s, x);
      s[i] == x && x !in s[..i] && RemoveFirst(s, x) == s[..i] + s[i + 1..]
  {
    var i := IndexOf(s, x);
    var before, after := s[..i], s[i + 1..];
    assert s == before + [x] + after;
    assert multiset(s) == multiset(before) + multiset{x} + multiset(after);
    assert RemoveFirst(s, x) == before + after;
    assert multiset(before + after) == multiset(before) + multiset(after);
    assert x !in before by {
      forall j | 0 <= j < |before| ensures before[j] != x {
        assert before[j] == s[j];
      }
    }
  }

  /** `add` followed by `remove` of an entry that was not there gives the
      original list back. */
  lemma AddThenRemove<T>(s: seq<T>, x: T)
    requires x !in s
    ensures IndexOf(s + [x], x) == |s|
    ensures RemoveFirst(s + [x], x) == s
  {
    assert (s + [x])[..|s|] == s;
  }

  class PathFile {
    var path: Path
    var content: seq<PathEntry>
    var modelUuid: string
    var parentUuid: string
    var changed: bool

    constructor (path: Path, content: seq<PathEntry>, changed: bool)
      ensures this.path == path && this.content == content && this.changed == changed
      ensures modelUuid == "" && parentUuid == ""
    {
      this.path := path;
      this.content := content;
      this.modelUuid := "";
      this.parentUuid := "";
      this.changed := changed;
    }

    function Elements(): set<PathEntry>
      reads this
    {
      set e | e in content
    }

    function Entries(): seq<EntryValue>
      reads this, Elements()
    {
      Values(content)
    }

    function Value(): FileValue
      reads this, Elements()
    {
      FileValue(path, Entries(), modelUuid, parentUuid, changed)
    }

    /** `is_empty`. */
    predicate IsEmpty()
      reads this
    {
      |content| == 0
    }

    /** The `uuid` setter: the file takes the id and every entry in its
        content is re-stamped with it as its parent. */
    method SetUuid(uuid: string)
      modifies this`modelUuid, Elements()
      ensures modelUuid == uuid
      ensures Entries() == Restamped(old(Entries()), uuid)
    {
      modelUuid := uuid;
      var i := 0;
      while i < |content|
        invariant 0 <= i <= |content| && modelUuid == uuid
        invariant forall j :: 0 <= j < i ==> content[j].parentUuid == uuid
        invariant forall e :: e in content ==>
          e.path == old(e.path) && e.uuid == old(e.uuid) && e.changed == old(e.changed)
      {
        content[i].parentUuid := uuid;
        i := i + 1;
      }
      ghost var was := old(Entries());
      forall j | 0 <= j < |content| ensures Entries()[j] == Restamped(was, uuid)[j] {
        assert content[j] in content;
      }
    }

    /** `add`: an entry equal to one already present changes nothing, not
        even `changed`; any other is appended and marks the file changed. */
    method Add(m: PathEntry)
      modifies this`content, this`changed
      ensures m.Value() in old(Entries()) ==> content == old(content) && changed == old(changed)
      ensures m.Value() !in old(Entries()) ==> content == old(content) + [m] && changed
    {
      if m.Value() in Entries() {
        return;
      }
      content := content + [m];
      changed := true;
    }

    /** `remove`: an absent entry changes nothing; otherwise the first equal
        entry goes and the file is marked changed. */
    method Remove(m: PathEntry)
      modifies this`content, this`changed
      ensures m.Value() !in old(Entries()) ==> content == old(content) && changed == old(changed)
      ensures m.Value() in old(Entries()) ==>
        var i := IndexOf(old(Entries()), m.Value());
        content == old(content[..i] + content[i + 1..]) && changed
      ensures Entries() == RemoveFirst(old(Entries()), m.Value())
    {
      var vs := Entries();
      var v := m.Value();
      if v !in vs {
        return;
      }
      var i := IndexOf(vs, v);
      ghost var cs := content;
      content := content[..i] + content[i + 1..];
      changed := true;
      assert m.Value() == v;
      assert Values(cs) == vs;
      ValuesSplice(cs, i);
      assert RemoveFirst(vs, v) == vs[..i] + vs[i + 1..];
    }

    /** `create`: a new changed entry under this file, with no id yet,
        added to the content. */
    method Create(path: string) returns (m: PathEntry)
      modifies this`content, this`changed
      ensures fresh(m) && m.Value() == EntryValue(path, modelUuid, "", true)
      ensures m.Value() in Entries()
      ensures m.Value() in old(Entries()) ==> content == old(content) && changed == old(changed)
      ensures m.Value() !in old(Entries()) ==> content == old(content) + [m] && changed
    {
      m := new PathEntry(path, modelUuid, "", true);
      Add(m);
      assert content[|content| - 1] == m || m.Value() in old(Entries());
    }
  }

  /** The entries `create_view_model` makes from the lines of a file: no
      parent, no id, unchanged. */
  function Unattached(lines: seq<string>): (r: seq<EntryValue>)
  {
    seq(|lines|, i requires 0 <= i < |lines| => EntryValue(lines[i], "", "", false))
  }

  /** Distinct objects, one per position. */
  predicate Distinct(s: seq<PathEntry>)
  {
    forall i, j :: 0 <= i < j < |s| ==> s[i] != s[j]
  }

  /** `create_view_model`: one new entry object per line of the file, in
      order, and a new unchanged file model holding them. */
  method CreateViewModel(file: PythonPathFile) returns (f: PathFile)
    ensures fresh(f) && f.path == file.path && !f.changed
    ensures f.modelUuid == "" && f.parentUuid == ""
    ensures f.Entries() == Unattached(file.content)
    ensures Distinct(f.content)
    ensures forall e :: e in f.content ==> fresh(e)
  {
    var content: seq<PathEntry> := [];
    var i := 0;
    while i < |file.content|
      invariant 0 <= i <= |file.content|
      invariant |content| == i
      invariant forall j :: 0 <= j < i ==> fresh(content[j]) && content[j].Value() == Unattached(file.content)[j]
      invariant Distinct(content)
    {
      var e := new PathEntry(file.content[i], "", "", false);
      content := content + [e];
      i := i + 1;
    }
    f := new PathFile(file.path, content, false);
    assert forall e :: e in f.content ==> fresh(e);
  }
}
