/** The destination repository the converter writes to. */
module Store {
  import opened Objects

  /**
    The destination repository: its object database and the files under its
    directory (where the LFS staging and cache area lives).  `hashOf` is the id
    the object inserter computes for an object; hashing itself is abstract.
  */
  class Repository {
    var objects: map<ObjectId, GitObject>
    var files: map<string, seq<byte>>
    const hashOf: GitObject -> ObjectId

    constructor (hashOf: GitObject -> ObjectId, objects: map<ObjectId, GitObject>, files: map<string, seq<byte>>)
      ensures this.hashOf == hashOf && this.objects == objects && this.files == files
    {
      this.hashOf := hashOf;
      this.objects := objects;
      this.files := files;
    }

    /** `ObjectInserter.insert`: store an object under its own hash and return that id. */
    method Insert(o: GitObject) returns (id: ObjectId)
      modifies this
      ensures id == hashOf(o)
      ensures objects == old(objects)[id := o]
      ensures files == old(files)
    {
      id := hashOf(o);
      objects := objects[id := o];
    }

    /** Create or overwrite a file (a `FileOutputStream`). */
    method WriteFile(path: string, data: seq<byte>)
      modifies this
      ensures files == old(files)[path := data]
      ensures objects == old(objects)
    {
      files := files[path := data];
    }

    /** `File.delete`: remove the file if it is there. */
    method DeleteFile(path: string)
      modifies this
      ensures files == old(files) - {path}
      ensures objects == old(objects)
    {
      files := files - {path};
    }

    /**
      `File.renameTo`.  It fails when the source is missing; the operating
      system may make it fail for other reasons too, so a caller learns only
      that success moved the file and failure changed nothing.
    */
    method RenameFile(from: string, to: string) returns (ok: bool)
      modifies this
      ensures ok ==> from in old(files) && files == (old(files) - {from})[to := old(files)[from]]
      ensures !ok ==> files == old(files)
      ensures objects == old(objects)
    {
      ok := from in files;
      if ok {
        files := (files - {from})[to := files[from]];
      }
    }
  }
}
