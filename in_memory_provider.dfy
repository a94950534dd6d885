/**
 * The in-memory file provider of pkg/fixer/fileprovider/inmem.go: the
 * fixer's view of a set of files held as bytes, with the names of the
 * files it has written and deleted.
 */
module InMemoryProvider {
  import opened Wrappers
  import opened Utf8

  /**
   * The elements of a key set, each once, in the unspecified order in
   * which Go ranges over a map (util.Keys and ListFiles' loop).
   */
  method Keys(keys: set<string>) returns (r: seq<string>)
    ensures forall x :: x in r <==> x in keys
    ensures forall i, j :: 0 <= i < j < |r| ==> r[i] != r[j]
    ensures |r| == |keys|
  {
    r := [];
    var remaining := keys;
    while remaining != {}
      invariant remaining <= keys
      invariant forall x :: x in r <==> x in keys - remaining
      invariant forall i, j :: 0 <= i < j < |r| ==> r[i] != r[j]
      invariant |r| + |remaining| == |keys|
      decreases remaining
    {
      var file :| file in remaining;
      r := r + [file];
      remaining := remaining - {file};
    }
  }

  class InMemoryFileProvider {
    var files: map<string, seq<Byte>>
    var modifiedFiles: set<string>
    var deletedFiles: set<string>

    /** A file recorded as modified is still present. */
    ghost predicate Valid()
      reads this
    {
      modifiedFiles <= files.Keys
    }

    /** NewInMemoryFileProvider: the given files, nothing modified or deleted yet. */
    constructor (initial: map<string, seq<Byte>>)
      ensures Valid()
      ensures files == initial && modifiedFiles == {} && deletedFiles == {}
    {
      files := initial;
      modifiedFiles := {};
      deletedFiles := {};
    }

    /** The name of every file currently held, each once. */
    method ListFiles() returns (r: seq<string>)
      ensures forall f :: f in r <==> f in files
      ensures |r| == |files|
      ensures forall i, j :: 0 <= i < j < |r| ==> r[i] != r[j]
    {
      r := Keys(files.Keys);
    }

    /** A file's contents, or an error naming a file that is not held. */
    function GetFile(file: string): (r: Result<seq<Byte>>)
      reads this
      ensures r.Ok? <==> file in files
      ensures r.Ok? ==> r.value == files[file]
      ensures r.Err? ==> r.error == "file " + file + " not found"
    {
      if file in files then Ok(files[file]) else Err("file " + file + " not found")
    }

    /** Stores a file's contents and records it as modified; its deleted mark, if any, stays. */
    method PutFile(file: string, content: seq<Byte>)
      requires Valid()
      modifies this
      ensures Valid()
      ensures files == old(files)[file := content]
      ensures modifiedFiles == old(modifiedFiles) + {file}
      ensures deletedFiles == old(deletedFiles)
      ensures GetFile(file) == Ok(content)
      ensures forall f :: f != file ==> GetFile(f) == old(GetFile(f))
    {
      files := files[file := content];
      modifiedFiles := modifiedFiles + {file};
    }

    /** Drops a file and its modified mark and records it as deleted, whether or not it was held. */
    method DeleteFile(file: string)
      requires Valid()
      modifies this
      ensures Valid()
      ensures files == old(files) - {file}
      ensures modifiedFiles == old(modifiedFiles) - {file}
      ensures deletedFiles == old(deletedFiles) + {file}
      ensures GetFile(file).Err?
      ensures forall f :: f != file ==> GetFile(f) == old(GetFile(f))
    {
      deletedFiles := deletedFiles + {file};
      files := files - {file};
      modifiedFiles := modifiedFiles - {file};
    }

    /** The names recorded as modified, each once. */
    method ModifiedFiles() returns (r: seq<string>)
      requires Valid()
      ensures forall f :: f in r <==> f in modifiedFiles
      ensures forall f :: f in r ==> GetFile(f).Ok?
      ensures |r| == |modifiedFiles|
    {
      r := Keys(modifiedFiles);
    }

    /** The names recorded as deleted, each once. */
    method DeletedFiles() returns (r: seq<string>)
      ensures forall f :: f in r <==> f in deletedFiles
      ensures |r| == |deletedFiles|
    {
      r := Keys(deletedFiles);
    }
  }

  /**
   * A file deleted and then written again is held, and counts both as
   * modified and as deleted: DeleteFile's mark is never withdrawn.
   */
  method DeleteThenPut(p: InMemoryFileProvider, file: string, content: seq<Byte>)
    requires p.Valid()
    modifies p
    ensures p.Valid()
    ensures p.GetFile(file) == Ok(content)
    ensures file in p.modifiedFiles && file in p.deletedFiles
  {
    p.DeleteFile(file);
    p.PutFile(file, content);
  }
}
