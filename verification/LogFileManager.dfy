/** LogFileManager of src/dimserver/storage/clog/log_file.cpp, lines 254-325. */
module LogFileManager {
  import opened Bytes
  import opened ReturnCode
  import opened Io
  import opened LogFile
  import opened LogNames
  import opened Options
  import opened LogSegments

  /** One entry a directory iterator yields. */
  datatype DirEntry = DirEntry(name: string, regular: bool)

  /** The LSN under which `init` registers a directory entry, if it does. */
  function Registered(e: DirEntry): Option<Int64> {
    if e.regular then LsnOf(e.name) else None
  }

  /** Registered under k are exactly the regular files whose names spell k. */
  lemma RegisteredExactly(e: DirEntry, k: Int64)
    ensures Registered(e) == Some(k) <==>
            e.regular && exists blanks, sign, digits, rest :: NameOf(e.name, blanks, sign, digits, rest, k)
  {
    hide LsnOf;
    LsnOfExactly(e.name, k);
  }

  /** `now` has the keys of `before` and the LSNs of the first n directory entries; a key has the path of the
      last of these entries with its LSN, or the one it had if there is none. */
  ghost predicate Scanned(before: map<Int64, string>, path: string, listing: seq<DirEntry>, n: nat,
          now: map<Int64, string>)
    requires n <= |listing|
  {
    && (forall k :: k in now <==> k in before || Names(listing, n, k))
    && (forall k <- now :: Names(listing, n, k) ==> exists i :: LastNaming(path, listing, n, k, i, now[k]))
    && (forall k <- now :: !Names(listing, n, k) ==> now[k] == before[k])
  }

  ghost predicate Names(listing: seq<DirEntry>, n: nat, k: Int64)
    requires n <= |listing|
  {
    exists i :: 0 <= i < n && Registered(listing[i]) == Some(k)
  }

  /** Entry i is the last one naming LSN k, and `file` is its path. */
  ghost predicate LastNaming(path: string, listing: seq<DirEntry>, n: nat, k: Int64, i: int, file: string)
    requires n <= |listing|
  {
    && 0 <= i < n && Registered(listing[i]) == Some(k) && file == path + "/" + listing[i].name
    && forall j :: i < j < n ==> Registered(listing[j]) != Some(k)
  }

  lemma NamesNext(listing: seq<DirEntry>, n: nat, k: Int64)
    requires n < |listing|
    ensures Names(listing, n + 1, k) <==> Names(listing, n, k) || Registered(listing[n]) == Some(k)
  {
    hide Registered;
  }

  lemma LastNamingNext(path: string, listing: seq<DirEntry>, n: nat, k: Int64, i: int, file: string)
    requires n < |listing|
    ensures Registered(listing[n]) == Some(k) ==>
              LastNaming(path, listing, n + 1, k, n, path + "/" + listing[n].name)
    ensures Registered(listing[n]) != Some(k) && LastNaming(path, listing, n, k, i, file) ==>
              LastNaming(path, listing, n + 1, k, i, file)
  {
    hide Registered;
  }

  /** One more directory entry. */
  lemma ScanNext(before: map<Int64, string>, path: string, listing: seq<DirEntry>, n: nat, now: map<Int64, string>)
    requires n < |listing| && Scanned(before, path, listing, n, now)
    ensures Registered(listing[n]).None? ==> Scanned(before, path, listing, n + 1, now)
    ensures Registered(listing[n]).Some? ==>
              Scanned(before, path, listing, n + 1, now[Registered(listing[n]).value := path + "/" + listing[n].name])
  {
    hide Registered, Names, LastNaming;
    var r, m := Registered(listing[n]), n + 1;
    var next := if r.Some? then now[r.value := path + "/" + listing[n].name] else now;
    forall k: Int64 ensures Names(listing, n + 1, k) <==> Names(listing, n, k) || r == Some(k) {
      NamesNext(listing, n, k);
    }
    forall k | k in next && Names(listing, m, k)
      ensures exists i :: LastNaming(path, listing, m, k, i, next[k])
    {
      if r == Some(k) {
        LastNamingNext(path, listing, n, k, n, next[k]);
      } else {
        var i :| LastNaming(path, listing, n, k, i, now[k]);
        LastNamingNext(path, listing, n, k, i, now[k]);
      }
    }
  }

  lemma NothingScanned(before: map<Int64, string>, path: string, listing: seq<DirEntry>)
    ensures Scanned(before, path, listing, 0, before)
  {
  }

  class LogFileManager {
    var dir: string
    var maxEntries: Int32
    /** m_log_files: first LSN to path. */
    var logFiles: map<Int64, string>

    constructor ()
      ensures logFiles == map[]
    {
      dir, maxEntries, logFiles := "", 0, map[];
    }

    /** Registers every regular file with a log file name, under the LSN in its name, on top of what was
        registered before.  `present` and `created` are what the file system says about the directory. */
    method Init(path: string, maxFileCount: Int32, present: bool, created: bool, listing: seq<DirEntry>)
      returns (rc: RC)
      modifies this
      ensures dir == path && maxEntries == maxFileCount
      ensures !present && !created ==> rc == FILE_CREATE_ERR && logFiles == old(logFiles)
      ensures present || created ==> rc == SUCCESS && Scanned(old(logFiles), path, listing, |listing|, logFiles)
    {
      hide LsnOf, Scanned;
      NothingScanned(logFiles, path, listing);
      dir := path;
      maxEntries := maxFileCount;
      if !present {
        if !created {
          return FILE_CREATE_ERR;
        }
      }
      for n := 0 to |listing|
        invariant dir == path && maxEntries == maxFileCount
        invariant Scanned(old(logFiles), path, listing, n, logFiles)
      {
        ScanNext(old(logFiles), path, listing, n, logFiles);
        var file := listing[n];
        if !file.regular {
          continue;
        }
        var lsn := LsnOf(file.name);
        if lsn.None? {
          continue;
        }
        logFiles := logFiles[lsn.value := path + "/" + file.name];
      }
      rc := SUCCESS;
    }

    /** The paths of the registered segments with first LSN >= startLsn, in ascending order of LSN. */
    method ListFiles(startLsn: Int64) returns (rc: RC, files: seq<string>, ghost keys: seq<Int64>)
      ensures rc == SUCCESS && |files| == |keys| && Ascending(keys)
      ensures forall i :: 0 <= i < |keys| ==>
                keys[i] in logFiles && keys[i] >= startLsn && files[i] == logFiles[keys[i]]
      ensures forall k <- logFiles :: k >= startLsn ==> k in keys
    {
      files, keys := [], [];
      var todo := logFiles.Keys;
      while todo != {}
        invariant todo <= logFiles.Keys && |files| == |keys| && Ascending(keys)
        invariant forall i :: 0 <= i < |keys| ==>
                  keys[i] in logFiles && keys[i] >= startLsn && files[i] == logFiles[keys[i]]
        invariant forall i, k :: 0 <= i < |keys| && k in todo ==> keys[i] < k
        invariant forall k <- logFiles :: k >= startLsn ==> k in keys || k in todo
        decreases |todo|
      {
        var lsn := Least(todo);
        if lsn >= startLsn {
          files, keys := files + [logFiles[lsn]], keys + [lsn];
        }
        todo := todo - {lsn};
      }
      rc := SUCCESS;
    }

    /** The position of the map's iterator: the least key not yet visited. */
    method Least(s: set<Int64>) returns (m: Int64)
      requires s != {}
      ensures m in s && forall k <- s :: m <= k
    {
      m :| m in s;
      var rest := s - {m};
      while rest != {}
        invariant m in s && rest <= s && forall k <- s :: k in rest || m <= k
        decreases |rest|
      {
        var k :| k in rest;
        if k < m {
          m := k;
        }
        rest := rest - {k};
      }
    }

    /** Opens the last registered segment for writing; a writer that is open already refuses. */
    method LastFile(writer: LogFileWriter, handle: int, f: File) returns (rc: RC, name: string)
      requires logFiles != map[] ==> -TWO_63 <= MaxKey(logFiles.Keys) + maxEntries < TWO_63
      modifies writer
      ensures logFiles == map[] ==> rc == FILE_NOT_FOUND && name == "" && writer.fd == old(writer.fd)
      ensures logFiles != map[] ==> name == logFiles[MaxKey(logFiles.Keys)]
      ensures logFiles != map[] && old(writer.fd) >= 0 ==>
                rc == FILE_OPEND && writer.fd == old(writer.fd) && writer.file == old(writer.file)
      ensures logFiles != map[] && old(writer.fd) < 0 && handle < 0 ==> rc == FILE_NOT_FOUND && writer.fd < 0
      ensures logFiles != map[] && old(writer.fd) < 0 && handle >= 0 ==>
                rc == SUCCESS && writer.fd == handle && writer.file == f
                && writer.endLsn == MaxKey(logFiles.Keys) + maxEntries
    {
      name := "";
      if logFiles == map[] {
        return FILE_NOT_FOUND, name;
      }
      var last := Greatest(logFiles.Keys);
      name := logFiles[last];
      rc := writer.Open(handle, f, last + maxEntries);
    }

    method Greatest(s: set<Int64>) returns (m: Int64)
      requires s != {}
      ensures m == MaxKey(s)
    {
      m :| m in s;
      var rest := s - {m};
      while rest != {}
        invariant m in s && rest <= s && forall k <- s :: k in rest || k <= m
        decreases |rest|
      {
        var k :| k in rest;
        if m < k {
          m := k;
        }
        rest := rest - {k};
      }
    }

    /** Opens the segment after the last registered one.  The new segment is not registered: m_log_files
        stays as it is. */
    method NextFile(writer: LogFileWriter, handle: int, f: File) returns (rc: RC, name: string)
      requires var next := if logFiles == map[] then 0 else MaxKey(logFiles.Keys) + maxEntries;
               -TWO_63 <= next < TWO_63 && -TWO_63 <= next + maxEntries < TWO_63
      modifies writer
      ensures name == dir + "/" + FileName(if logFiles == map[] then 0 else MaxKey(logFiles.Keys) + maxEntries)
      ensures rc == if handle >= 0 then SUCCESS else FILE_NOT_FOUND
      ensures handle < 0 ==> writer.fd < 0
      ensures handle >= 0 ==> writer.fd == handle && writer.file == f
      ensures handle >= 0 ==>
                writer.endLsn == (if logFiles == map[] then 0 else MaxKey(logFiles.Keys) + maxEntries) + maxEntries
    {
      rc := writer.Close();
      var nextLsn := 0;
      if logFiles != map[] {
        var last := Greatest(logFiles.Keys);
        nextLsn := last + maxEntries;
      }
      name := dir + "/" + PREFIX + ToString(nextLsn) + SUFFIX;
      assert name == dir + "/" + FileName(nextLsn);
      rc := writer.Open(handle, f, nextLsn + maxEntries);
    }
  }
}
