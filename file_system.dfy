/**
 * The part of the file system the upload pipeline touches: a set of directories and a
 * map from file path to content.  Whether a call fails is not up to the program, so each
 * call takes the operating system's answer as a parameter.
 */
module FileSystem {

  type Bytes = seq<bv8>

  /** The operating system's answer to one call: success, or an I/O error and its message. */
  datatype IoResult = IoOk | IoError(message: string)

  class FileStore {
    var directories: set<string>
    var files: map<string, Bytes>

    constructor (directories: set<string>, files: map<string, Bytes>)
      ensures this.directories == directories && this.files == files
    {
      this.directories := directories;
      this.files := files;
    }

    /** `Files.createDirectories`: on success the directory exists; files are untouched. */
    method CreateDirectories(path: string, io: IoResult) returns (r: IoResult)
      modifies this`directories
      ensures r == io
      ensures io.IoOk? ==> directories == old(directories) + {path}
      ensures io.IoError? ==> directories == old(directories)
    {
      if io.IoOk? {
        directories := directories + {path};
      }
      r := io;
    }

    /**
     * `Files.write`: on success the path holds exactly `content` (a file already there is
     * replaced); on failure nothing changes.
     */
    method Write(path: string, content: Bytes, io: IoResult) returns (r: IoResult)
      modifies this`files
      ensures r == io
      ensures io.IoOk? ==> files == old(files)[path := content]
      ensures io.IoError? ==> files == old(files)
    {
      if io.IoOk? {
        files := files[path := content];
      }
      r := io;
    }
  }
}
