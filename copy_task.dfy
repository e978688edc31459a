/** The passthrough converter, `copyTask`: a blob is copied as it is. */
module CopyTask {
  import opened Objects
  import opened Wrappers
  import opened Store

  /** Every object is stored under the id the hash gives it. */
  predicate ContentAddressed(objects: map<ObjectId, GitObject>, hashOf: GitObject -> ObjectId)
  {
    forall x :: x in objects ==> hashOf(objects[x]) == x
  }

  /**
    `copyTask(id).convert`: when the destination lacks the object, insert the
    source object (type and bytes) unchanged; either way return the source
    id.  Reading a missing source object is `MissingObjectException`.
  */
  method ConvertCopy(dst: Repository, src: map<ObjectId, GitObject>, id: ObjectId) returns (r: Result<ObjectId, Error>)
    modifies dst
    ensures id in old(dst.objects) ==> r == Success(id) && unchanged(dst)
    ensures id !in old(dst.objects) && id !in src ==> r == Failure(MissingObject(id)) && unchanged(dst)
    ensures id !in old(dst.objects) && id in src ==>
              r == Success(id) && dst.files == old(dst.files) &&
              dst.objects == old(dst.objects)[dst.hashOf(src[id]) := src[id]]
    ensures r.Success? && ContentAddressed(src, dst.hashOf) ==> id in dst.objects
    ensures ContentAddressed(old(dst.objects), dst.hashOf) ==> ContentAddressed(dst.objects, dst.hashOf)
  {
    if id !in dst.objects {
      if id !in src {
        return Failure(MissingObject(id));
      }
      var _ := dst.Insert(src[id]);
    }
    r := Success(id);
  }
}
