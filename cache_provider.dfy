/**
 * The cache-backed file provider of pkg/fixer/fileprovider/cache.go: the
 * fixer's view of the language server's cached files.  Files are named by
 * path on this side and by URI in the cache; the provider converts with
 * the client's URI rules and keeps the paths it has written and deleted.
 */
module CacheProvider {
  import opened Wrappers
  import opened GoStrings
  import opened Uri
  import opened LspCache
  import opened RoastSet

  /** The errors of Rename: a missing source, or RenameConflictError for an existing target. */
  datatype RenameError = NotFound(file: string) | RenameConflict(from: string, to: string)

  /** The paths that List gives for a set of cached URIs. */
  ghost function ListedPaths(client: Client, uris: set<string>): set<string> {
    set u | u in uris :: ToPath(client, u)
  }

  class CacheFileProvider<M, B, K, R> {
    const cache: Cache<M, B, K, R>
    const client: Client
    const modifiedFiles: Set<string>
    const deletedFiles: Set<string>

    /** The two path sets are distinct objects, and the cache keeps its own invariant. */
    ghost predicate Valid()
      reads this, cache
    {
      modifiedFiles != deletedFiles && cache.Valid()
    }

    /** NewCacheFileProvider: over the given cache, with nothing modified or deleted yet. */
    constructor (c: Cache<M, B, K, R>, ci: Client)
      requires c.Valid()
      ensures Valid()
      ensures cache == c && client == ci
      ensures fresh(modifiedFiles) && fresh(deletedFiles)
      ensures modifiedFiles.elements == {} && deletedFiles.elements == {}
    {
      cache := c;
      client := ci;
      modifiedFiles := new Set([]);
      deletedFiles := new Set([]);
    }

    /**
     * The path of every cached URI, one per URI: `order` is the cached URIs
     * in the order Go's map iteration gave them, each once, and the i-th
     * path is that of the i-th URI.
     */
    method List() returns (paths: seq<string>, ghost order: seq<string>)
      ensures |paths| == |cache.fileContents.Keys|
      ensures forall p :: p in paths <==> p in ListedPaths(client, cache.fileContents.Keys)
      ensures |order| == |paths|
      ensures forall i, j :: 0 <= i < j < |order| ==> order[i] != order[j]
      ensures forall u :: u in order <==> u in cache.fileContents
      ensures forall i :: 0 <= i < |paths| ==> paths[i] == ToPath(client, order[i])
    {
      var files := cache.GetAllFiles();
      paths := [];
      order := [];
      var remaining := files.Keys;
      while remaining != {}
        invariant remaining <= files.Keys
        invariant |paths| + |remaining| == |files.Keys|
        invariant forall p :: p in paths <==> exists u :: u in files.Keys - remaining && p == ToPath(client, u)
        invariant |order| == |paths|
        invariant forall i, j :: 0 <= i < j < |order| ==> order[i] != order[j]
        invariant forall u :: u in order <==> u in files.Keys - remaining
        invariant forall i :: 0 <= i < |paths| ==> paths[i] == ToPath(client, order[i])
        decreases remaining
      {
        var u :| u in remaining;
        assert u !in order;
        paths := paths + [ToPath(client, u)];
        order := order + [u];
        assert forall i :: 0 <= i < |order| - 1 ==> order[i] in order[..|order| - 1];
        remaining := remaining - {u};
      }
    }

    /** The contents cached under the path's URI, or an error naming the path. */
    function Get(file: string): (r: Result<string>)
      reads this, cache
      ensures r.Ok? <==> UriOf(client, file) in cache.fileContents
      ensures r.Ok? ==> r.value == cache.fileContents[UriOf(client, file)]
      ensures r.Err? ==> r.error == "failed to get file " + file
    {
      var (contents, ok) := cache.GetFileContents(UriOf(client, file));
      if ok then Ok(contents) else Err("failed to get file " + file)
    }

    /**
     * Stores contents under `file` itself, not under its URI as Get and
     * Delete look them up; the path sets are left alone.
     */
    method Put(file: string, content: string)
      modifies cache`fileContents
      ensures cache.fileContents == old(cache.fileContents)[file := content]
      ensures !HasPrefix(file, "file:///") ==> Get(file) == old(Get(file))
    {
      cache.SetFileContents(file, content);
      assert !HasPrefix(file, "file:///") ==> UriOf(client, file) != file;
    }

    /** Forgets the path's URI everywhere in the cache but its keyword locations, as Cache.Delete does; the path sets are left alone. */
    method Delete(file: string)
      requires Valid()
      modifies cache`fileContents, cache`modules, cache`aggregateData, cache`diagnosticsFile
      modifies cache`diagnosticsParseErrors, cache`builtinPositionsFile, cache`fileRefs, cache`ignoredFileContents
      ensures Valid()
      ensures Get(file).Err?
      ensures var u := UriOf(client, file);
        && cache.fileContents == old(cache.fileContents) - {u}
        && cache.modules == old(cache.modules) - {u}
        && cache.aggregateData == old(cache.aggregateData) - {u}
        && cache.diagnosticsFile == old(cache.diagnosticsFile) - {u}
        && cache.diagnosticsParseErrors == old(cache.diagnosticsParseErrors) - {u}
        && cache.builtinPositionsFile == old(cache.builtinPositionsFile) - {u}
        && cache.fileRefs == old(cache.fileRefs) - {u}
        && cache.ignoredFileContents == old(cache.ignoredFileContents) - {u}
        && cache.keywordLocationsFile == old(cache.keywordLocationsFile)
    {
      var u := FromPath(client, file);
      cache.Delete(u);
    }

    /**
     * Moves a file's contents to a new path: an error and no change when the
     * source is missing or the target exists; otherwise the target holds the
     * contents, the source is deleted from the cache and recorded as deleted
     * and no longer modified, and the target is recorded as modified.
     */
    method Rename(from: string, to: string) returns (err: Option<RenameError>)
      requires Valid()
      modifies cache`fileContents, cache`modules, cache`aggregateData, cache`diagnosticsFile
      modifies cache`diagnosticsParseErrors, cache`builtinPositionsFile, cache`fileRefs, cache`ignoredFileContents
      modifies modifiedFiles, deletedFiles
      ensures Valid()
      ensures old(Get(from)).Err? ==> err == Some(NotFound(from))
      ensures old(Get(from)).Ok? && old(Get(to)).Ok? ==> err == Some(RenameConflict(from, to))
      ensures err.Some? ==>
        && unchanged(cache)
        && modifiedFiles.elements == old(modifiedFiles.elements)
        && deletedFiles.elements == old(deletedFiles.elements)
      ensures old(Get(from)).Ok? && old(Get(to)).Err? ==>
        && err.None?
        && UriOf(client, from) != UriOf(client, to)
        && Get(to) == old(Get(from))
        && Get(from).Err?
        && cache.fileContents == (old(cache.fileContents) - {UriOf(client, from)})[UriOf(client, to) := old(Get(from)).value]
        && modifiedFiles.elements == (old(modifiedFiles.elements) + {to}) - {from}
        && deletedFiles.elements == old(deletedFiles.elements) + {from}
      ensures old(Get(from)).Ok? && old(Get(to)).Err? ==>
        var u := UriOf(client, from);
        && cache.modules == old(cache.modules) - {u}
        && cache.aggregateData == old(cache.aggregateData) - {u}
        && cache.diagnosticsFile == old(cache.diagnosticsFile) - {u}
        && cache.diagnosticsParseErrors == old(cache.diagnosticsParseErrors) - {u}
        && cache.builtinPositionsFile == old(cache.builtinPositionsFile) - {u}
        && cache.fileRefs == old(cache.fileRefs) - {u}
        && cache.ignoredFileContents == old(cache.ignoredFileContents) - {u}
        && cache.keywordLocationsFile == old(cache.keywordLocationsFile)
    {
      var fromURI := FromPath(client, from);
      var toURI := FromPath(client, to);
      var (content, ok) := cache.GetFileContents(fromURI);
      if !ok {
        return Some(NotFound(from));
      }
      var (_, targetExists) := cache.GetFileContents(toURI);
      if targetExists {
        return Some(RenameConflict(from, to));
      }
      MoveInCache(fromURI, toURI, content);
      RecordMove(from, to);
      return None;
    }

    /** Rename's effect on the cache once both checks have passed. */
    method MoveInCache(fromURI: string, toURI: string, content: string)
      requires Valid() && fromURI != toURI
      modifies cache`fileContents, cache`modules, cache`aggregateData, cache`diagnosticsFile
      modifies cache`diagnosticsParseErrors, cache`builtinPositionsFile, cache`fileRefs, cache`ignoredFileContents
      ensures Valid()
      ensures cache.fileContents == (old(cache.fileContents) - {fromURI})[toURI := content]
      ensures && cache.modules == old(cache.modules) - {fromURI}
              && cache.aggregateData == old(cache.aggregateData) - {fromURI}
              && cache.diagnosticsFile == old(cache.diagnosticsFile) - {fromURI}
              && cache.diagnosticsParseErrors == old(cache.diagnosticsParseErrors) - {fromURI}
              && cache.builtinPositionsFile == old(cache.builtinPositionsFile) - {fromURI}
              && cache.fileRefs == old(cache.fileRefs) - {fromURI}
              && cache.ignoredFileContents == old(cache.ignoredFileContents) - {fromURI}
              && cache.keywordLocationsFile == old(cache.keywordLocationsFile)
    {
      cache.SetFileContents(toURI, content);
      cache.Delete(fromURI);
    }

    /** Rename's effect on the path sets: the target is modified, the source deleted and no longer modified. */
    method RecordMove(from: string, to: string)
      requires Valid()
      modifies modifiedFiles, deletedFiles
      ensures Valid()
      ensures modifiedFiles.elements == (old(modifiedFiles.elements) + {to}) - {from}
      ensures deletedFiles.elements == old(deletedFiles.elements) + {from}
    {
      modifiedFiles.Add([to]);
      modifiedFiles.Remove([from]);
      deletedFiles.Add([from]);
      assert Members([to]) == {to} && Members([from]) == {from};
    }
  }

  /**
   * After a rename onto an absolute path without a drive, List names the
   * new path: the target's URI converts back to it.
   */
  lemma RenamedTargetListed(client: Client, uris: set<string>, to: string)
    requires |to| > 0 && to[0] == '/' && EncodedDriveLength(to[1..]) == 0
    ensures to in ListedPaths(client, uris + {UriOf(client, to)})
  {
    PathRoundTrip(client, to);
  }
}
