/**
  The git objects and task keys the converter works with.  Hashing and the
  binary encodings of JGit are abstract: an object id is an opaque name, and
  a tree is the sequence of its decoded entries.
*/
module Objects {

  newtype byte = x: int | 0 <= x < 256

  /** A git object id, kept as its hexadecimal name (what `ObjectId.getName()` returns). */
  datatype ObjectId = ObjectId(name: string)

  /** `ObjectId.zeroId()`: the all-zero id, used as "no source object". */
  const ZeroId: ObjectId := ObjectId("0000000000000000000000000000000000000000")

  /** Name of the attributes file that a root tree may carry. */
  const GitAttributes: string := ".gitattributes"

  /** The natural type of a git object (`RevCommit`, `RevTree`, `RevBlob`, `RevTag`). */
  datatype ObjectKind = CommitKind | TreeKind | BlobKind | TagKind

  /** The modes JGit's `FileMode` distinguishes for tree entries. */
  datatype FileMode = TreeMode | RegularFile | ExecutableFile | Symlink | Gitlink

  /** `FileMode.getObjectType()`: the kind of object an entry of this mode names. */
  function ModeObjectKind(m: FileMode): ObjectKind
  {
    match m
    case TreeMode => TreeKind
    case Gitlink => CommitKind
    case _ => BlobKind
  }

  datatype Commit = Commit(
    tree: ObjectId,
    parents: seq<ObjectId>,
    author: string,
    committer: string,
    encoding: string,
    message: string)

  /** An annotated tag; `targetKind` is the type recorded for its target. */
  datatype Tag = Tag(
    target: ObjectId,
    targetKind: ObjectKind,
    tagName: string,
    tagger: string,
    message: string)

  /** One decoded entry of a stored tree: what `CanonicalTreeParser` yields. */
  datatype TreeItem = TreeItem(mode: FileMode, id: ObjectId, name: string)

  datatype GitObject =
    | CommitObject(commit: Commit)
    | TreeObject(items: seq<TreeItem>)
    | BlobObject(data: seq<byte>)
    | TagObject(tag: Tag)

  function KindOf(o: GitObject): ObjectKind
  {
    match o
    case CommitObject(_) => CommitKind
    case TreeObject(_) => TreeKind
    case BlobObject(_) => BlobKind
    case TagObject(_) => TagKind
  }

  /** `GitConverter.TaskType`: how an object is to be converted. */
  datatype TaskType = Simple | Root | Attribute | UploadLfs

  /** `TaskKey`: the unit of conversion and the key results are memoized under. */
  datatype TaskKey = TaskKey(taskType: TaskType, objectId: ObjectId)

  /** `GitTreeEntry`: a tree entry whose object is still to be resolved through its key. */
  datatype GitTreeEntry = GitTreeEntry(fileMode: FileMode, taskKey: TaskKey, fileName: string)

  /**
    `ConvertResolver.resolve`: the destination id already computed for a key.
    The memoizing scheduler behind it is not part of this model.
  */
  type Resolver = TaskKey -> ObjectId

  /** The failures the converter raises. */
  datatype Error =
    | MissingObject(id: ObjectId)            // MissingObjectException from the source store
    | IncorrectObjectType(id: ObjectId)      // IncorrectObjectTypeException: not a blob
    | UnsupportedObjectType(key: TaskKey)    // IllegalStateException of convertTask
    | RenameFailed(from: string, to: string) // IOException "Can't rename file"
    | UploadFailed(hash: string)             // IOException from the LFS server exchange

  /** The ids a resolver gives for a list of keys, in the same order. */
  function ResolveAll(resolve: Resolver, keys: seq<TaskKey>): (ids: seq<ObjectId>)
    ensures |ids| == |keys|
    ensures forall i :: 0 <= i < |keys| ==> ids[i] == resolve(keys[i])
  {
    seq(|keys|, i requires 0 <= i < |keys| => resolve(keys[i]))
  }
}
