/** The object store as the pipeline sees it: one bucket, a map from object
    names to stored objects, and the three calls the pipeline makes on it. */
module Storage {
  import opened Wrappers
  import opened Naming

  /** A decoded raster. Its pixels are opaque; only its natural size is observed. */
  datatype Raster = Raster(width: nat, height: nat)

  /** Object contents: bytes as uploaded, or the image that resizing `source`
      to fit inside `bound` (without enlargement) produces. */
  datatype Blob =
    | Bytes(data: seq<bv8>)
    | Resized(source: Raster, bound: Target)

  /** A stored object with the metadata the pipeline sets and reads. */
  datatype StoredObject = StoredObject(content: Blob, contentType: string, cacheControl: string, isPublic: bool)

  class Bucket {
    /** `event.bucket`. */
    const name: string
    /** Every object in the bucket, by name. */
    var objects: map<string, StoredObject>

    constructor (name: string, objects: map<string, StoredObject>)
      ensures this.name == name && this.objects == objects
    {
      this.name := name;
      this.objects := objects;
    }

    /** `file(objectName).download()`: the object's bytes, or nothing when
        there is no such object. */
    method Download(objectName: string) returns (data: Option<Blob>)
      ensures objectName in objects ==> data == Some(objects[objectName].content)
      ensures objectName !in objects ==> data == None
    {
      if objectName in objects {
        data := Some(objects[objectName].content);
      } else {
        data := None;
      }
    }

    /** `file(objectName).save(content, {metadata})`: creates or replaces the
        object. A replaced object starts a new generation and is not public. */
    method Save(objectName: string, content: Blob, contentType: string, cacheControl: string)
      modifies this
      ensures objects == old(objects)[objectName := StoredObject(content, contentType, cacheControl, false)]
    {
      objects := objects[objectName := StoredObject(content, contentType, cacheControl, false)];
    }

    /** `file(objectName).makePublic()` on an existing object; nothing else changes. */
    method MakePublic(objectName: string)
      requires objectName in objects
      modifies this
      ensures objects == old(objects)[objectName := old(objects)[objectName].(isPublic := true)]
    {
      objects := objects[objectName := objects[objectName].(isPublic := true)];
    }
  }
}
