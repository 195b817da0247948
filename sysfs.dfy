/**
 * The part of the filesystem the backlight code touches: each path maps to
 * the text the file holds. Only the calls the Rust code makes are modelled:
 * `fs::read_to_string` and `OpenOptions::new().write(true).open(..)` followed
 * by `write_all`. A write replaces the whole value, as sysfs attribute files
 * do; the byte-overwrite behaviour of a regular file opened without
 * `truncate` is not modelled.
 */
module Sysfs {
  import opened Wrappers

  /** The I/O failures the Rust code's `unwrap` calls would panic on. */
  datatype IoError = NotFound | PermissionDenied

  class FileSystem {
    /** The contents of every existing file, by path. */
    var files: map<string, string>
    /** The paths this process may open for writing. */
    var writable: set<string>

    constructor (files: map<string, string>, writable: set<string>)
      ensures this.files == files && this.writable == writable
    {
      this.files := files;
      this.writable := writable;
    }

    /** `fs::read_to_string`: the whole contents of an existing file. */
    method ReadToString(path: string) returns (r: Result<string, IoError>)
      ensures path in files ==> r == Ok(files[path])
      ensures path !in files ==> r == Err(NotFound)
    {
      if path in files {
        r := Ok(files[path]);
      } else {
        r := Err(NotFound);
      }
    }

    /**
     * Opens an existing file for writing (no `create`) and writes `data`.
     * A missing file or one not open to writing fails and changes nothing.
     */
    method Write(path: string, data: string) returns (r: Outcome<IoError>)
      modifies this`files
      ensures path !in old(files) ==> r == Fail(NotFound)
      ensures path in old(files) && path !in writable ==> r == Fail(PermissionDenied)
      ensures path in old(files) && path in writable ==> r == Pass
      ensures files == if r.Pass? then old(files)[path := data] else old(files)
    {
      if path !in files {
        r := Fail(NotFound);
      } else if path !in writable {
        r := Fail(PermissionDenied);
      } else {
        files := files[path := data];
        r := Pass;
      }
    }
  }
}
