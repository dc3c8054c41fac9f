/** The files the game reads and writes, as a map from path to contents.
    `writable` holds the paths an output file stream can be opened on. */
module Files {
  import opened Wire

  class FileSystem {
    var files: map<Path, seq<byte>>
    const writable: set<Path>

    constructor (files: map<Path, seq<byte>>, writable: set<Path>)
      ensures this.files == files && this.writable == writable
    {
      this.files, this.writable := files, writable;
    }

    /** Opens `name` for binary output and writes `contents`; when the file
        cannot be opened nothing changes. */
    method Save(name: Path, contents: seq<byte>) returns (ok: bool)
      modifies this
      ensures ok <==> name in writable
      ensures ok ==> files == old(files)[name := contents]
      ensures !ok ==> files == old(files)
    {
      ok := name in writable;
      if ok {
        files := files[name := contents];
      }
    }
  }
}
