/**
 * LogviewerController::flushAction: empties a log file and reports how many bytes it held.
 * The log directory is a class whose file map the action updates in place; whether fopen()
 * succeeds is a parameter, since it depends on the operating system.
 */
module Flushing {
  import opened Wrappers
  import opened FileSystems
  import opened FilenameId
  import opened TailReader

  /** The JSON answer: 'status' => 'ok' with the byte count reported in the message, or 'status' => 'error'. */
  datatype FlushResult = Flushed(bytesDeleted: nat) | FlushFailed

  /** The log directory after flushing path and the answer given, on a snapshot. When fopen()
      fails the answer is still ok with the size, and nothing is truncated. */
  function FlushEffect(fs: FileSystem, path: string, openOk: bool): (out: (FileSystem, FlushResult))
    ensures out.0.readable == fs.readable && out.0.files.Keys == fs.files.Keys
    ensures forall p :: p in fs.files && p != path ==> out.0.files[p] == fs.files[p]
    ensures IsReadableFile(fs, path) ==>
      out.1 == Flushed(|fs.files[path]|) && out.0.files[path] == (if openOk then [] else fs.files[path])
    ensures !IsReadableFile(fs, path) ==> out == (fs, FlushFailed)
  {
    if IsFile(fs, path) && IsReadable(fs, path) then
      var size := |fs.files[path]|;
      (if openOk then fs.(files := fs.files[path := []]) else fs, Flushed(size))
    else (fs, FlushFailed)
  }

  class LogDirectory {
    /** The contents of every regular file, by path. */
    var files: map<string, string>
    /** The paths the web server may read. */
    var readable: set<string>

    constructor (files: map<string, string>, readable: set<string>)
      ensures this.files == files && this.readable == readable
    {
      this.files := files;
      this.readable := readable;
    }

    function Snapshot(): FileSystem
      reads this
    {
      FileSystem(files, readable)
    }

    /** flushAction() for the request parameter filename; openOk says whether fopen($file, 'r+') succeeds. */
    method Flush(logDir: string, filename: string, openOk: bool) returns (r: FlushResult)
      modifies this
      ensures (Snapshot(), r) == FlushEffect(old(Snapshot()), LogPath(logDir, filename), openOk)
      ensures readable == old(readable)
      ensures forall p :: p in old(files) && p != LogPath(logDir, filename) ==> p in files && files[p] == old(files)[p]
    {
      var file := LogPath(logDir, filename);
      if file in files && file in readable {
        var size := |files[file]|;
        if openOk {
          files := files[file := []];
        }
        r := Flushed(size);
      } else {
        r := FlushFailed;
      }
    }
  }

  /** A flushed file, polled again from the size it had before the flush, gives an ok result
      with no lines; the answer to the flush reported exactly that size. */
  lemma {:induction false} TailAfterFlush(fs: FileSystem, logDir: string, filename: string, openOk: bool,
                                         matches: string -> bool, invert: bool)
    requires !IsMissingFilename(Some(filename)) && IsReadableFile(fs, LogPath(logDir, filename))
    ensures var path := LogPath(logDir, filename);
      var (fs', answer) := FlushEffect(fs, path, openOk);
      && answer == Flushed(|fs.files[path]|)
      && GetNewLines(fs', logDir, Some(filename), answer.bytesDeleted, matches, invert)
         == TailOk(if openOk then 0 else |fs.files[path]|, Slug(filename), filename, [])
  {
    var path := LogPath(logDir, filename);
    var (fs', answer) := FlushEffect(fs, path, openOk);
    assert IsReadableFile(fs', path);
    UnchangedOrTruncated(fs', logDir, filename, answer.bytesDeleted, matches, invert);
  }
}
