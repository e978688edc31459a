/**
  The tree converter, `convertTreeTask`: classifying the entries of a tree
  (`getEntries`, `matchFilename`), its dependency keys, and the rebuilt tree.
*/
module Tree {
  import opened Objects
  import opened Lex
  import opened Store
  import opened TreeOrder

  predicate EndsWith(s: string, suffix: string)
  {
    |suffix| <= |s| && s[|s| - |suffix|..] == suffix
  }

  /** `matchFilename`: the name ends with one of the tracked suffixes. */
  function MatchFilename(name: string, suffixes: seq<string>): (r: bool)
    ensures r <==> exists k :: 0 <= k < |suffixes| && EndsWith(name, suffixes[k])
  {
    if suffixes == [] then false
    else
      var rest := MatchFilename(name, suffixes[1..]);
      assert forall k :: 0 < k < |suffixes| ==> suffixes[k] == suffixes[1..][k - 1];
      EndsWith(name, suffixes[0]) || rest
  }

  /** No entry before position `n` is named `.gitattributes`. */
  predicate NoAttributesBefore(items: seq<TreeItem>, n: nat)
    requires n <= |items|
  {
    forall j :: 0 <= j < n ==> items[j].name != GitAttributes
  }

  /** The task type `getEntries` gives the entry at position `i`. */
  function EntryTaskType(items: seq<TreeItem>, i: nat, rootTree: bool, suffixes: seq<string>): (t: TaskType)
    requires i < |items|
    ensures t != Root
    ensures t == Attribute ==> rootTree && items[i].name == GitAttributes
    ensures t == UploadLfs ==> items[i].mode == RegularFile && MatchFilename(items[i].name, suffixes)
    ensures t == Simple ==> !(rootTree && NoAttributesBefore(items, i) && items[i].name == GitAttributes) &&
                            !(items[i].mode == RegularFile && MatchFilename(items[i].name, suffixes))
  {
    if rootTree && NoAttributesBefore(items, i) && items[i].name == GitAttributes then Attribute
    else if ModeObjectKind(items[i].mode) == BlobKind && items[i].mode == RegularFile
            && MatchFilename(items[i].name, suffixes) then UploadLfs
    else Simple
  }

  function EntryAt(items: seq<TreeItem>, i: nat, rootTree: bool, suffixes: seq<string>): GitTreeEntry
    requires i < |items|
  {
    GitTreeEntry(items[i].mode, TaskKey(EntryTaskType(items, i, rootTree, suffixes), items[i].id), items[i].name)
  }

  /** A root tree without `.gitattributes` gets one when some suffix is tracked. */
  predicate NeedsSyntheticAttributes(items: seq<TreeItem>, rootTree: bool, suffixes: seq<string>)
  {
    rootTree && NoAttributesBefore(items, |items|) && |suffixes| > 0
  }

  /** The appended entry: a regular file `.gitattributes` converted from no prior content. */
  const SyntheticAttributes: GitTreeEntry := GitTreeEntry(RegularFile, TaskKey(Attribute, ZeroId), GitAttributes)

  /** The entries `getEntries` returns. */
  function Entries(items: seq<TreeItem>, rootTree: bool, suffixes: seq<string>): (es: seq<GitTreeEntry>)
    ensures |es| == |items| + (if NeedsSyntheticAttributes(items, rootTree, suffixes) then 1 else 0)
    ensures forall i :: 0 <= i < |items| ==>
              es[i].fileMode == items[i].mode && es[i].fileName == items[i].name
              && es[i].taskKey.objectId == items[i].id
    ensures NeedsSyntheticAttributes(items, rootTree, suffixes) ==> es[|items|] == SyntheticAttributes
  {
    seq(|items|, i requires 0 <= i < |items| => EntryAt(items, i, rootTree, suffixes))
    + (if NeedsSyntheticAttributes(items, rootTree, suffixes) then [SyntheticAttributes] else [])
  }

  /** `getEntries`: walk the tree, classify each entry, and append the attributes entry when needed. */
  method GetEntries(items: seq<TreeItem>, rootTree: bool, suffixes: seq<string>) returns (entries: seq<GitTreeEntry>)
    ensures entries == Entries(items, rootTree, suffixes)
  {
    entries := [];
    var needAttributes := rootTree;
    var i := 0;
    while i < |items|
      invariant 0 <= i <= |items|
      invariant needAttributes == (rootTree && NoAttributesBefore(items, i))
      invariant entries == seq(i, j requires 0 <= j < i => EntryAt(items, j, rootTree, suffixes))
    {
      var item := items[i];
      var blobTask: TaskType;
      if needAttributes && item.name == GitAttributes {
        blobTask := Attribute;
        needAttributes := false;
      } else if ModeObjectKind(item.mode) == BlobKind && item.mode == RegularFile && MatchFilename(item.name, suffixes) {
        blobTask := UploadLfs;
      } else {
        blobTask := Simple;
      }
      entries := entries + [GitTreeEntry(item.mode, TaskKey(blobTask, item.id), item.name)];
      i := i + 1;
    }
    if needAttributes && |suffixes| > 0 {
      entries := entries + [SyntheticAttributes];
    }
  }

  /** The task keys of a list of entries, in order. */
  function EntryKeys(entries: seq<GitTreeEntry>): (keys: seq<TaskKey>)
    ensures |keys| == |entries|
  {
    seq(|entries|, i requires 0 <= i < |entries| => entries[i].taskKey)
  }

  /** The tree converter's `depends()`: the task key of every entry, in order. */
  method TreeDepends(items: seq<TreeItem>, rootTree: bool, suffixes: seq<string>) returns (keys: seq<TaskKey>)
    ensures keys == EntryKeys(Entries(items, rootTree, suffixes))
    ensures forall i :: 0 <= i < |keys| ==> keys[i] == Entries(items, rootTree, suffixes)[i].taskKey
  {
    var entries := GetEntries(items, rootTree, suffixes);
    keys := [];
    for i := 0 to |entries|
      invariant |keys| == i
      invariant forall j :: 0 <= j < i ==> keys[j] == entries[j].taskKey
    {
      keys := keys + [entries[i].taskKey];
    }
  }

  /**
    An entry gets an `Attribute` key exactly when it is a root tree's first
    entry named `.gitattributes`; this covers the appended entry too.
  */
  lemma AttributeKeyIsFirstGitattributes(items: seq<TreeItem>, rootTree: bool, suffixes: seq<string>, i: nat)
    requires i < |Entries(items, rootTree, suffixes)|
    ensures var es := Entries(items, rootTree, suffixes);
            es[i].taskKey.taskType == Attribute <==>
              rootTree && es[i].fileName == GitAttributes &&
              forall j :: 0 <= j < i ==> es[j].fileName != GitAttributes
  {
    var es := Entries(items, rootTree, suffixes);
    if i < |items| {
      assert es[i] == EntryAt(items, i, rootTree, suffixes);
      assert forall j :: 0 <= j < i ==> es[j].fileName == items[j].name;
    } else {
      assert es[i] == SyntheticAttributes;
      assert forall j :: 0 <= j < |items| ==> es[j].fileName == items[j].name;
    }
  }

  /** A tree has at most one `Attribute` entry, and a non-root tree has none. */
  lemma AtMostOneAttributeEntry(items: seq<TreeItem>, rootTree: bool, suffixes: seq<string>, i: nat, j: nat)
    requires i < j < |Entries(items, rootTree, suffixes)|
    requires Entries(items, rootTree, suffixes)[j].taskKey.taskType == Attribute
    ensures Entries(items, rootTree, suffixes)[i].taskKey.taskType != Attribute
    ensures rootTree
  {
    AttributeKeyIsFirstGitattributes(items, rootTree, suffixes, i);
    AttributeKeyIsFirstGitattributes(items, rootTree, suffixes, j);
  }

  lemma NonRootHasNoAttributeEntry(items: seq<TreeItem>, suffixes: seq<string>, i: nat)
    requires i < |Entries(items, false, suffixes)|
    ensures Entries(items, false, suffixes)[i].taskKey.taskType != Attribute
  {
    AttributeKeyIsFirstGitattributes(items, false, suffixes, i);
  }

  /** A root tree with tracked suffixes always has an `Attribute` entry. */
  lemma RootTreeHasAttributeEntry(items: seq<TreeItem>, suffixes: seq<string>)
    requires |suffixes| > 0
    ensures exists i :: 0 <= i < |Entries(items, true, suffixes)| &&
                        Entries(items, true, suffixes)[i].taskKey.taskType == Attribute
  {
    var es := Entries(items, true, suffixes);
    if NoAttributesBefore(items, |items|) {
      assert es[|items|] == SyntheticAttributes;
    } else {
      var k :| 0 <= k < |items| && items[k].name == GitAttributes;
      var i := FirstGitattributes(items, k);
      assert es[i] == EntryAt(items, i, true, suffixes);
    }
  }

  /** The first `.gitattributes` at or before a given one. */
  lemma {:induction false} FirstGitattributes(items: seq<TreeItem>, k: nat) returns (i: nat)
    requires k < |items| && items[k].name == GitAttributes
    ensures i <= k && items[i].name == GitAttributes && NoAttributesBefore(items, i)
    decreases k
  {
    if NoAttributesBefore(items, k) {
      i := k;
    } else {
      var k' :| 0 <= k' < k && items[k'].name == GitAttributes;
      i := FirstGitattributes(items, k');
    }
  }

  /**
    An entry is sent to LFS exactly when it is a regular file (not executable,
    symlink, directory or submodule) whose name ends with a tracked suffix,
    and it is not the root tree's attributes entry.
  */
  lemma UploadLfsExactlyTrackedRegularFiles(items: seq<TreeItem>, rootTree: bool, suffixes: seq<string>, i: nat)
    requires i < |Entries(items, rootTree, suffixes)|
    ensures var e := Entries(items, rootTree, suffixes)[i];
            e.taskKey.taskType == UploadLfs <==>
              i < |items| && items[i].mode == RegularFile &&
              (exists k :: 0 <= k < |suffixes| && EndsWith(items[i].name, suffixes[k])) &&
              !(rootTree && NoAttributesBefore(items, i) && items[i].name == GitAttributes)
  {
    if i < |items| {
      assert Entries(items, rootTree, suffixes)[i] == EntryAt(items, i, rootTree, suffixes);
    }
  }

  /** With no tracked suffixes nothing goes to LFS and no attributes entry is added. */
  lemma NoSuffixesNoLfs(items: seq<TreeItem>, rootTree: bool)
    ensures |Entries(items, rootTree, [])| == |items|
    ensures forall i :: 0 <= i < |items| ==>
              Entries(items, rootTree, [])[i].taskKey.taskType != UploadLfs
  {
    forall i | 0 <= i < |items|
      ensures Entries(items, rootTree, [])[i].taskKey.taskType != UploadLfs
    {
      UploadLfsExactlyTrackedRegularFiles(items, rootTree, [], i);
    }
  }

  /** An entry with its key replaced by the id the resolver gives it. */
  function ResolveEntry(e: GitTreeEntry, resolve: Resolver): TreeItem
  {
    TreeItem(e.fileMode, resolve(e.taskKey), e.fileName)
  }

  function ResolveEntries(s: seq<GitTreeEntry>, resolve: Resolver): (r: seq<TreeItem>)
    ensures |r| == |s|
  {
    seq(|s|, i requires 0 <= i < |s| => ResolveEntry(s[i], resolve))
  }

  predicate SortedItems(s: seq<TreeItem>)
  {
    forall i, j :: 0 <= i < j < |s| ==> LexLe(SortKey(s[i].mode, s[i].name), SortKey(s[j].mode, s[j].name))
  }

  lemma ResolveConcat(p: seq<GitTreeEntry>, q: seq<GitTreeEntry>, resolve: Resolver)
    ensures ResolveEntries(p + q, resolve) == ResolveEntries(p, resolve) + ResolveEntries(q, resolve)
  {
  }

  lemma MultisetWithout<T>(b: seq<T>, k: nat)
    requires k < |b|
    ensures multiset(b[..k] + b[k + 1..]) == multiset(b) - multiset{b[k]}
  {
    assert b == b[..k] + [b[k]] + b[k + 1..];
  }

  /** Resolving two entry sequences that are permutations of each other gives permutations of each other. */
  lemma {:induction false} ResolvePermutation(a: seq<GitTreeEntry>, b: seq<GitTreeEntry>, resolve: Resolver)
    requires multiset(a) == multiset(b)
    ensures multiset(ResolveEntries(a, resolve)) == multiset(ResolveEntries(b, resolve))
    decreases |a|
  {
    if |a| == 0 {
      assert |b| == |multiset(b)| == 0;
      assert ResolveEntries(a, resolve) == [] == ResolveEntries(b, resolve);
    } else {
      var x := a[0];
      assert x in multiset(b);
      var k :| 0 <= k < |b| && b[k] == x;
      MultisetWithout(b, k);
      assert a == [x] + a[1..];
      var b' := b[..k] + b[k + 1..];
      ResolvePermutation(a[1..], b', resolve);
      assert b == b[..k] + [x] + b[k + 1..];
      ResolveConcat(b[..k] + [x], b[k + 1..], resolve);
      ResolveConcat(b[..k], [x], resolve);
      ResolveConcat(b[..k], b[k + 1..], resolve);
      ResolveConcat([x], a[1..], resolve);
    }
  }

  /**
    The new tree that `convert` encodes: the entries sorted in canonical
    order, each with its id replaced by the resolved id of its key.
  */
  method BuildTree(entries: seq<GitTreeEntry>, resolve: Resolver) returns (tree: seq<TreeItem>)
    ensures SortedItems(tree)
    ensures multiset(tree) == multiset(ResolveEntries(entries, resolve))
  {
    var a := new GitTreeEntry[|entries|](i requires 0 <= i < |entries| => entries[i]);
    assert a[..] == entries;
    SortEntries(a);
    tree := [];
    for i := 0 to a.Length
      invariant tree == ResolveEntries(a[..i], resolve)
    {
      assert a[..i + 1] == a[..i] + [a[i]];
      tree := tree + [ResolveEntry(a[i], resolve)];
    }
    assert a[..a.Length] == a[..];
    ResolvePermutation(a[..], entries, resolve);
  }

  /** The tree converter's `convert`: rebuild the entries and insert the new tree. */
  method ConvertTree(dst: Repository, items: seq<TreeItem>, rootTree: bool, suffixes: seq<string>, resolve: Resolver)
    returns (id: ObjectId)
    modifies dst
    ensures exists tree :: SortedItems(tree) &&
              multiset(tree) == multiset(ResolveEntries(Entries(items, rootTree, suffixes), resolve)) &&
              id == dst.hashOf(TreeObject(tree)) &&
              dst.objects == old(dst.objects)[id := TreeObject(tree)]
    ensures dst.files == old(dst.files)
  {
    var entries := GetEntries(items, rootTree, suffixes);
    var tree := BuildTree(entries, resolve);
    id := dst.Insert(TreeObject(tree));
  }

  /** No two items of a tree have the same sort key. */
  predicate DistinctKeys(s: seq<TreeItem>)
  {
    forall i, j :: 0 <= i < j < |s| ==> SortKey(s[i].mode, s[i].name) != SortKey(s[j].mode, s[j].name)
  }

  /**
    Git names never contain '/', so distinct names give distinct sort keys,
    even between a directory and a file.
  */
  lemma DistinctNamesDistinctKeys(m1: FileMode, n1: string, m2: FileMode, n2: string)
    requires n1 != n2 && '/' !in n1 && '/' !in n2
    ensures SortKey(m1, n1) != SortKey(m2, n2)
  {
    var k1, k2 := SortKey(m1, n1), SortKey(m2, n2);
    if m1 == TreeMode {
      assert k1[..|n1|] == n1 && k1[|n1|] == '/';
    }
    if m2 == TreeMode {
      assert k2[..|n2|] == n2 && k2[|n2|] == '/';
    }
    if m1 != TreeMode && m2 == TreeMode && |n1| == |n2| + 1 {
      assert n1[|n2|] in n1;
    }
    if m1 == TreeMode && m2 != TreeMode && |n2| == |n1| + 1 {
      assert n2[|n1|] in n2;
    }
  }

  /**
    With distinct sort keys there is only one sorted arrangement of a
    multiset of items: the tree `convert` inserts, and so its id, is
    determined by the entries, whatever order the sort met them in.
  */
  lemma {:induction false} SortedUnique(a: seq<TreeItem>, b: seq<TreeItem>)
    requires SortedItems(a) && SortedItems(b) && multiset(a) == multiset(b) && DistinctKeys(a)
    ensures a == b
    decreases |a|
  {
    if |a| == 0 {
      assert |b| == |multiset(b)| == 0;
    } else {
      SortedHeadsAgree(a, b);
      assert multiset(a) == multiset{a[0]} + multiset(a[1..]) by {
        assert a == [a[0]] + a[1..];
      }
      assert multiset(b) == multiset{b[0]} + multiset(b[1..]) by {
        assert b == [b[0]] + b[1..];
      }
      assert multiset(a[1..]) == multiset(a) - multiset{a[0]};
      assert multiset(b[1..]) == multiset(b) - multiset{b[0]};
      SortedUnique(a[1..], b[1..]);
      assert a == [a[0]] + a[1..] && b == [b[0]] + b[1..];
    }
  }

  /** Two sorted arrangements of the same items with distinct keys start alike. */
  lemma SortedHeadsAgree(a: seq<TreeItem>, b: seq<TreeItem>)
    requires |a| > 0 && SortedItems(a) && SortedItems(b) && multiset(a) == multiset(b) && DistinctKeys(a)
    ensures |b| > 0 && a[0] == b[0]
  {
    assert a[0] in multiset(b);
    var p :| 0 <= p < |b| && b[p] == a[0];
    assert b[0] in multiset(a);
    var q :| 0 <= q < |a| && a[q] == b[0];
    if a[0] != b[0] {
      var ka, kb := SortKey(a[0].mode, a[0].name), SortKey(b[0].mode, b[0].name);
      assert LexLe(kb, ka) && LexLe(ka, kb);
      LexLeAntisymmetric(ka, kb);
      assert false;
    }
  }
}
