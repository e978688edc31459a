/**
  The converters side by side: what each one depends on, and the guarantee
  that the dependency keys a converter declares can themselves be dispatched.
*/
module Converter {
  import opened Objects
  import opened Wrappers
  import opened Dispatch
  import opened CommitTag
  import opened Tree
  import opened Attributes

  /** `depends()` of the converter `convertTask` chose. */
  function Depends(t: ConvertTask, suffixes: seq<string>): (keys: seq<TaskKey>)
    ensures t.CopyTask? || t.AttributesTask? || t.LfsTask? ==> keys == []
    ensures forall k :: k in keys && k.taskType == Root ==> t.CommitTask? && k == TaskKey(Root, t.commit.tree)
    ensures forall k :: k in keys && k.taskType == Attribute ==> t.TreeTask? && t.rootTree
  {
    match t
    case CommitTask(_, c) => CommitKeys(c)
    case TreeTask(_, items, rootTree) => EntryKeys(Entries(items, rootTree, suffixes))
    case TagTask(_, tag) => TagKeys(tag)
    case CopyTask(_) => []
    case AttributesTask(_) => []
    case LfsTask(_) => []
  }

  /** The objects an object refers to are in the store, and a commit's tree is a tree. */
  predicate RefsPresent(o: GitObject, src: map<ObjectId, GitObject>)
  {
    match o
    case CommitObject(c) =>
      c.tree in src && src[c.tree].TreeObject? && forall p :: p in c.parents ==> p in src
    case TreeObject(items) => forall k :: 0 <= k < |items| ==> items[k].id in src
    case BlobObject(_) => true
    case TagObject(t) => t.target in src
  }

  /**
    A source store closed under references.  A submodule entry names a commit
    too, so this asks for submodule commits to be present as well: the tree
    converter gives such an entry a `Simple` key, whose dispatch parses it.
  */
  predicate Closed(src: map<ObjectId, GitObject>)
  {
    forall id :: id in src ==> RefsPresent(src[id], src)
  }

  /**
    In a closed store, every key a dispatched converter depends on can be
    dispatched in turn: the `Root` key always names a tree, so the
    `IllegalStateException` of `convertTask` is never raised.
  */
  lemma DependenciesDispatch(src: map<ObjectId, GitObject>, key: TaskKey, suffixes: seq<string>, k: TaskKey)
    requires Closed(src)
    requires ConvertTaskFor(src, key).Success?
    requires k in Depends(ConvertTaskFor(src, key).value, suffixes)
    ensures ConvertTaskFor(src, k).Success?
  {
    var t := ConvertTaskFor(src, key).value;
    assert RefsPresent(src[key.objectId], src) by {
      if key.taskType in {Simple, Root} {
        assert key.objectId in src;
      }
    }
    match t
    case CommitTask(_, c) =>
      var i :| 0 <= i < |CommitKeys(c)| && CommitKeys(c)[i] == k;
      if i < |c.parents| {
        assert c.parents[i] in c.parents;
      }
    case TreeTask(_, items, rootTree) =>
      var es := Entries(items, rootTree, suffixes);
      var i :| 0 <= i < |es| && es[i].taskKey == k;
      if i < |items| {
        assert es[i] == EntryAt(items, i, rootTree, suffixes);
      }
    case TagTask(_, tag) =>
    case CopyTask(_) =>
    case AttributesTask(_) =>
    case LfsTask(_) =>
  }

  /** Every item of a tree names a stored object of the kind its mode announces. */
  predicate KindsAgree(src: map<ObjectId, GitObject>, items: seq<TreeItem>)
  {
    forall k :: 0 <= k < |items| ==> items[k].id in src && KindOf(src[items[k].id]) == ModeObjectKind(items[k].mode)
  }

  /**
    The attributes converter reads the root tree's attributes entry: the
    appended entry and a file entry open, while a `.gitattributes` that is a
    directory or a submodule fails with IncorrectObjectType.
  */
  lemma AttributesOpenExactlyForFiles(src: map<ObjectId, GitObject>, items: seq<TreeItem>, suffixes: seq<string>, i: nat)
    requires KindsAgree(src, items)
    requires i < |Entries(items, true, suffixes)|
    requires Entries(items, true, suffixes)[i].taskKey.taskType == Attribute
    ensures var id := Entries(items, true, suffixes)[i].taskKey.objectId;
            OpenAttributes(src, id).Success? <==>
              i == |items| || items[i].id == ZeroId || ModeObjectKind(items[i].mode) == BlobKind
    ensures i < |items| && items[i].id != ZeroId && ModeObjectKind(items[i].mode) != BlobKind ==>
              OpenAttributes(src, items[i].id) == Failure(IncorrectObjectType(items[i].id))
  {
    var es := Entries(items, true, suffixes);
    if i == |items| {
      AttributeKeyIsFirstGitattributes(items, true, suffixes, i);
      assert es[i] == SyntheticAttributes;
    } else {
      assert es[i].taskKey.objectId == items[i].id;
      assert items[i].id in src && KindOf(src[items[i].id]) == ModeObjectKind(items[i].mode);
    }
  }
}
