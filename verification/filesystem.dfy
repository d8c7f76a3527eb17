/**
 * A snapshot of the server's file system as the controller sees it through is_file(),
 * is_readable(), filesize() and fread(): the contents of every regular file by path, and
 * the set of paths the web server may read.
 */
module FileSystems {

  datatype FileSystem = FileSystem(files: map<string, string>, readable: set<string>)

  /**
   * PIMCORE_LOG_DIRECTORY.'/'.$filename. The filename is appended as it is: nothing keeps
   * the resulting path inside the log directory.
   */
  function LogPath(logDir: string, filename: string): (path: string)
    ensures |path| == |logDir| + 1 + |filename|
    ensures path[..|logDir|] == logDir && path[|logDir|] == '/' && path[|logDir| + 1..] == filename
  {
    logDir + "/" + filename
  }

  /** Within one log directory, different file names give different path strings (not necessarily
      different files: "a.log" and "./a.log" name the same file). */
  lemma {:induction false} LogPathInjective(logDir: string, a: string, b: string)
    requires a != b
    ensures LogPath(logDir, a) != LogPath(logDir, b)
  {
  }

  /** is_file($path) */
  predicate IsFile(fs: FileSystem, path: string) {
    path in fs.files
  }

  /** is_readable($path) */
  predicate IsReadable(fs: FileSystem, path: string) {
    path in fs.readable
  }

  /** The test every action applies before touching a file: is_file($file) && is_readable($file). */
  predicate IsReadableFile(fs: FileSystem, path: string) {
    IsFile(fs, path) && IsReadable(fs, path)
  }
}
