/** The commit and tag converters: `convertCommitTask` and `convertTagTask`. */
module CommitTag {
  import opened Objects
  import opened Store

  /** The keys a commit depends on: its parents as `Simple` keys, in order, then its tree as the `Root` key. */
  function CommitKeys(c: Commit): seq<TaskKey>
  {
    seq(|c.parents|, i requires 0 <= i < |c.parents| => TaskKey(Simple, c.parents[i])) + [TaskKey(Root, c.tree)]
  }

  /** The commit that `convert` builds: everything kept but the parents and the tree, which are resolved. */
  function ConvertedCommit(c: Commit, resolve: Resolver): Commit
  {
    Commit(resolve(TaskKey(Root, c.tree)),
           seq(|c.parents|, i requires 0 <= i < |c.parents| => resolve(TaskKey(Simple, c.parents[i]))),
           c.author, c.committer, c.encoding, c.message)
  }

  /** The commit converter's `depends()`. */
  method CommitDepends(c: Commit) returns (keys: seq<TaskKey>)
    ensures keys == CommitKeys(c)
    ensures |keys| == |c.parents| + 1
    ensures forall i :: 0 <= i < |c.parents| ==> keys[i] == TaskKey(Simple, c.parents[i])
    ensures keys[|c.parents|] == TaskKey(Root, c.tree)
  {
    keys := [];
    for i := 0 to |c.parents|
      invariant |keys| == i
      invariant forall j :: 0 <= j < i ==> keys[j] == TaskKey(Simple, c.parents[j])
    {
      keys := keys + [TaskKey(Simple, c.parents[i])];
    }
    keys := keys + [TaskKey(Root, c.tree)];
  }

  /** What the commit converter's `convert` hands to the `CommitBuilder`. */
  method BuildCommit(c: Commit, resolve: Resolver) returns (nc: Commit)
    ensures nc == ConvertedCommit(c, resolve)
    ensures nc.author == c.author && nc.committer == c.committer
    ensures nc.encoding == c.encoding && nc.message == c.message
    ensures |nc.parents| == |c.parents|
    ensures forall i :: 0 <= i < |c.parents| ==> nc.parents[i] == resolve(TaskKey(Simple, c.parents[i]))
    ensures nc.tree == resolve(TaskKey(Root, c.tree))
  {
    var parents: seq<ObjectId> := [];
    for i := 0 to |c.parents|
      invariant |parents| == i
      invariant forall j :: 0 <= j < i ==> parents[j] == resolve(TaskKey(Simple, c.parents[j]))
    {
      parents := parents + [resolve(TaskKey(Simple, c.parents[i]))];
    }
    nc := Commit(resolve(TaskKey(Root, c.tree)), parents, c.author, c.committer, c.encoding, c.message);
  }

  /** The commit converter's `convert`: build the commit and insert it. */
  method ConvertCommit(dst: Repository, c: Commit, resolve: Resolver) returns (id: ObjectId)
    modifies dst
    ensures id == dst.hashOf(CommitObject(ConvertedCommit(c, resolve)))
    ensures dst.objects == old(dst.objects)[id := CommitObject(ConvertedCommit(c, resolve))]
    ensures dst.files == old(dst.files)
  {
    var nc := BuildCommit(c, resolve);
    id := dst.Insert(CommitObject(nc));
  }

  /**
    `convert` uses exactly what `depends()` declared: the new parents and the
    new tree are the resolved dependency keys, in the same order.
  */
  lemma CommitConvertResolvesDepends(c: Commit, resolve: Resolver)
    ensures var nc := ConvertedCommit(c, resolve);
            nc.parents + [nc.tree] == ResolveAll(resolve, CommitKeys(c))
  {
    var nc := ConvertedCommit(c, resolve);
    var ids := ResolveAll(resolve, CommitKeys(c));
    assert |nc.parents + [nc.tree]| == |ids|;
    forall i | 0 <= i < |ids|
      ensures (nc.parents + [nc.tree])[i] == ids[i]
    {
      if i < |c.parents| {
        assert CommitKeys(c)[i] == TaskKey(Simple, c.parents[i]);
      } else {
        assert CommitKeys(c)[i] == TaskKey(Root, c.tree);
      }
    }
  }

  /** Exactly one key of a commit is a `Root` key, the last; the others are `Simple` keys. */
  lemma CommitKeysShape(c: Commit)
    ensures forall i :: 0 <= i < |CommitKeys(c)| ==>
              (CommitKeys(c)[i].taskType == Root <==> i == |c.parents|) &&
              (CommitKeys(c)[i].taskType == Simple <==> i < |c.parents|)
  {
  }

  /** The tag converter's `depends()`: the `Simple` key of the target. */
  function TagKeys(t: Tag): seq<TaskKey>
  {
    [TaskKey(Simple, t.target)]
  }

  /** The tag `convert` builds: name, tagger and message kept, target resolved, target type unchanged. */
  function ConvertedTag(t: Tag, resolve: Resolver): (nt: Tag)
    ensures [nt.target] == ResolveAll(resolve, TagKeys(t))
    ensures nt.targetKind == t.targetKind
    ensures nt.tagName == t.tagName && nt.tagger == t.tagger && nt.message == t.message
  {
    Tag(resolve(TaskKey(Simple, t.target)), t.targetKind, t.tagName, t.tagger, t.message)
  }

  /** The tag converter's `convert`: build the tag and insert it. */
  method ConvertTag(dst: Repository, t: Tag, resolve: Resolver) returns (id: ObjectId)
    modifies dst
    ensures id == dst.hashOf(TagObject(ConvertedTag(t, resolve)))
    ensures dst.objects == old(dst.objects)[id := TagObject(ConvertedTag(t, resolve))]
    ensures dst.files == old(dst.files)
  {
    id := dst.Insert(TagObject(ConvertedTag(t, resolve)));
  }
}
