/** `GitConverter.convertTask`: choosing the converter for a task key. */
module Dispatch {
  import opened Objects
  import opened Wrappers

  /** The converter chosen for a key, with the source object it reads. */
  datatype ConvertTask =
    | CommitTask(id: ObjectId, commit: Commit)                      // convertCommitTask
    | TreeTask(id: ObjectId, items: seq<TreeItem>, rootTree: bool)  // convertTreeTask
    | CopyTask(id: ObjectId)                                        // copyTask
    | TagTask(id: ObjectId, tag: Tag)                               // convertTagTask
    | AttributesTask(id: ObjectId)                                  // createAttributesTask
    | LfsTask(id: ObjectId)                                         // convertLfsTask

  /** The key a converter is the conversion of. */
  function KeyOf(t: ConvertTask): TaskKey
  {
    match t
    case CommitTask(id, _) => TaskKey(Simple, id)
    case TreeTask(id, _, rootTree) => TaskKey(if rootTree then Root else Simple, id)
    case CopyTask(id) => TaskKey(Simple, id)
    case TagTask(id, _) => TaskKey(Simple, id)
    case AttributesTask(id) => TaskKey(Attribute, id)
    case LfsTask(id) => TaskKey(UploadLfs, id)
  }

  /** A converter that parses its object was built from what the source store holds under its id. */
  predicate BuiltFrom(t: ConvertTask, src: map<ObjectId, GitObject>)
  {
    match t
    case CommitTask(id, c) => id in src && src[id] == CommitObject(c)
    case TreeTask(id, items, _) => id in src && src[id] == TreeObject(items)
    case CopyTask(id) => id in src && src[id].BlobObject?
    case TagTask(id, tag) => id in src && src[id] == TagObject(tag)
    case AttributesTask(_) => true
    case LfsTask(_) => true
  }

  /**
    `convertTask(key)`.  `Simple` goes by the kind of the object, `Root` only
    accepts a tree, `Attribute` and `UploadLfs` do not look at the source
    store.  A missing object is `MissingObjectException`; a `Root` key on
    anything but a tree is the `IllegalStateException`.
  */
  function ConvertTaskFor(src: map<ObjectId, GitObject>, key: TaskKey): (r: Result<ConvertTask, Error>)
    ensures r.Success? ==> KeyOf(r.value) == key && BuiltFrom(r.value, src)
    ensures r.Failure? <==>
              key.taskType in {Simple, Root} &&
              (key.objectId !in src || (key.taskType == Root && !src[key.objectId].TreeObject?))
    ensures r.Failure? ==>
              r.error == (if key.objectId in src then UnsupportedObjectType(key) else MissingObject(key.objectId))
  {
    var id := key.objectId;
    match key.taskType
    case Simple =>
      if id !in src then Failure(MissingObject(id))
      else
        (match src[id]
         case CommitObject(c) => Success(CommitTask(id, c))
         case TreeObject(items) => Success(TreeTask(id, items, false))
         case BlobObject(_) => Success(CopyTask(id))
         case TagObject(t) => Success(TagTask(id, t)))
    case Root =>
      if id !in src then Failure(MissingObject(id))
      else if src[id].TreeObject? then Success(TreeTask(id, src[id].items, true))
      else Failure(UnsupportedObjectType(key))
    case Attribute => Success(AttributesTask(id))
    case UploadLfs => Success(LfsTask(id))
  }
}
