/** The part of the operating system's file API the mailbox write-back uses, over a
    directory modelled as a map from path to content. Whether a call fails is decided
    by the environment and passed in. */
module FileStore {

  class FileSystem {
    var files: map<string, string>

    constructor (initial: map<string, string>)
      ensures files == initial
    {
      files := initial;
    }

    /** os.CreateTemp: a new, empty file under a name not yet in use. */
    method CreateTemp(name: string, fails: bool) returns (ok: bool)
      requires name !in files
      modifies this
      ensures ok == !fails
      ensures files == if ok then old(files)[name := ""] else old(files)
    {
      ok := !fails;
      if ok {
        files := files[name := ""];
      }
    }

    /** os.OpenFile with O_APPEND|O_CREATE: a missing file is created empty, an existing
        one is kept as it is. */
    method OpenAppend(name: string, fails: bool) returns (ok: bool)
      modifies this
      ensures ok == !fails
      ensures files == if ok && name !in old(files) then old(files)[name := ""] else old(files)
    {
      ok := !fails;
      if ok && name !in files {
        files := files[name := ""];
      }
    }

    /** (*os.File).WriteString: appends data to the file. A failed write is taken to
        leave the file as it was. */
    method WriteString(name: string, data: string, fails: bool) returns (ok: bool)
      requires name in files
      modifies this
      ensures ok == !fails
      ensures files == if ok then old(files)[name := old(files)[name] + data] else old(files)
    {
      ok := !fails;
      if ok {
        files := files[name := files[name] + data];
      }
    }

    /** os.Rename: the file moves to the new path, replacing what was there. */
    method Rename(from: string, to: string, fails: bool) returns (ok: bool)
      requires from in files
      modifies this
      ensures ok == !fails
      ensures files == if ok then (old(files) - {from})[to := old(files)[from]] else old(files)
    {
      ok := !fails;
      if ok {
        var content := files[from];
        files := (files - {from})[to := content];
      }
    }

    /** os.Remove: the file is gone afterwards; removing a missing file changes nothing. */
    method Remove(name: string)
      modifies this
      ensures files == old(files) - {name}
    {
      files := files - {name};
    }
  }
}
