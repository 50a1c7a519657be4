/**
 * The temporary directory both pipelines write the upload into: a set of file
 * names that creating and unlinking change in place.
 */
module Cleanup {

  class TempFiles {
    var files: set<string>

    constructor (existing: set<string>)
      ensures files == existing
    {
      files := existing;
    }

    /** `NamedTemporaryFile(delete=False)`: a new file, under a name not yet in use. */
    method Create(path: string)
      requires path !in files
      modifies this
      ensures files == old(files) + {path}
    {
      files := files + {path};
    }

    /**
     * `os.unlink(path)` or `Path(path).unlink(missing_ok=True)`: afterwards the file is gone;
     * `removed` is false when it was already missing, the case both callers ignore.
     */
    method Unlink(path: string) returns (removed: bool)
      modifies this
      ensures removed <==> path in old(files)
      ensures files == old(files) - {path}
    {
      removed := path in files;
      files := files - {path};
    }
  }
}
