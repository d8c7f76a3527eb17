/**
 * LogviewerController::getFilelist: the entries of the log directory offered to the viewer.
 * scandir()'s answer is a parameter (None when it fails); is_file() and is_readable() are
 * answered by the file system snapshot.
 */
module FileListing {
  import opened Wrappers
  import opened PhpStrings
  import opened FileSystems
  import opened FilenameId
  import opened PhpArrays

  /**
   * One listed log file: 'id', 'text' and 'filename'. The constant fields ('status' => 'ok',
   * 'message' => '', the two service URLs) and the 'timestamp' are not modelled.
   */
  datatype FileEntry = FileEntry(id: string, text: string, filename: string)

  /** substr($file, -4) == '.log' */
  predicate HasLogSuffix(name: string) {
    SubstrTail(name, 4) == ".log"
  }

  /** The tests one scandir() name must pass to be listed. */
  predicate IsListed(fs: FileSystem, logDir: string, name: string) {
    && name != "." && name != ".."
    && HasLogSuffix(name)
    && IsFile(fs, LogPath(logDir, name))
    && IsReadable(fs, LogPath(logDir, name))
  }

  function EntryFor(name: string): FileEntry {
    FileEntry(Slug(name), name, name)
  }

  /** The list built by the foreach loop from the names it is given. */
  function FileList(fs: FileSystem, logDir: string, names: seq<string>): (list: seq<FileEntry>)
    ensures |list| <= |names|
  {
    if names == [] then []
    else
      var last := names[|names| - 1];
      FileList(fs, logDir, names[..|names| - 1]) + (if IsListed(fs, logDir, last) then [EntryFor(last)] else [])
  }

  /** getFilelist(): a failed scandir() counts as an empty directory. */
  method GetFilelist(fs: FileSystem, logDir: string, listing: Option<seq<string>>) returns (list: seq<FileEntry>)
    ensures list == FileList(fs, logDir, if listing.Some? then listing.value else [])
    ensures listing.None? ==> list == []
  {
    var files := if listing.Some? then listing.value else [];
    list := [];
    for i := 0 to |files|
      invariant list == FileList(fs, logDir, files[..i])
    {
      var file := files[i];
      assert files[..i + 1][..i] == files[..i];
      if file == "." || file == ".." {
        continue;
      }
      if HasLogSuffix(file) && IsFile(fs, LogPath(logDir, file)) && IsReadable(fs, LogPath(logDir, file)) {
        var id := Filename2Id(file);
        list := list + [FileEntry(id, file, file)];
      }
    }
    assert files[..|files|] == files;
  }

  /** A name ends in ".log" exactly when substr($name, -4) == '.log'. */
  lemma {:induction false} HasLogSuffixMeansEndsInLog(name: string)
    ensures HasLogSuffix(name) <==> |name| >= 4 && name[|name| - 4..] == ".log"
  {
  }

  /** Every entry is for a name that passed all tests (so never "." or ".."), and carries
      id == filename2id(filename) and text == filename. */
  lemma {:induction false} FileListSound(fs: FileSystem, logDir: string, names: seq<string>)
    ensures forall k :: 0 <= k < |FileList(fs, logDir, names)| ==>
      var e := FileList(fs, logDir, names)[k];
      && e.filename in names
      && IsListed(fs, logDir, e.filename)
      && e.filename != "." && e.filename != ".."
      && |e.filename| >= 4 && e.filename[|e.filename| - 4..] == ".log"
      && e.id == Slug(e.filename)
      && e.text == e.filename
    decreases |names|
  {
    if names != [] {
      var init := names[..|names| - 1];
      var last := names[|names| - 1];
      FileListSound(fs, logDir, init);
      var l := FileList(fs, logDir, init);
      var list := FileList(fs, logDir, names);
      forall k | 0 <= k < |list|
        ensures SoundEntry(fs, logDir, names, list[k])
      {
        if k < |l| {
          assert list[k] == l[k];
          assert l[k].filename in init;
        } else {
          assert list[k] == EntryFor(last);
          HasLogSuffixMeansEndsInLog(last);
        }
      }
    }
  }

  /** The facts FileListSound states about one entry. */
  predicate SoundEntry(fs: FileSystem, logDir: string, names: seq<string>, e: FileEntry) {
    && e.filename in names
    && IsListed(fs, logDir, e.filename)
    && e.filename != "." && e.filename != ".."
    && |e.filename| >= 4 && e.filename[|e.filename| - 4..] == ".log"
    && e.id == Slug(e.filename)
    && e.text == e.filename
  }

  /** Every name that passes the tests is listed. */
  lemma {:induction false} FileListComplete(fs: FileSystem, logDir: string, names: seq<string>, name: string)
    requires name in names && IsListed(fs, logDir, name)
    ensures EntryFor(name) in FileList(fs, logDir, names)
    decreases |names|
  {
    var init := names[..|names| - 1];
    if name in init {
      FileListComplete(fs, logDir, init, name);
    } else {
      assert names == init + [names[|names| - 1]];
    }
  }

  /** The loop handles names one at a time, so scandir() order is kept. */
  lemma {:induction false} FileListConcat(fs: FileSystem, logDir: string, a: seq<string>, b: seq<string>)
    ensures FileList(fs, logDir, a + b) == FileList(fs, logDir, a) + FileList(fs, logDir, b)
    decreases |b|
  {
    if b == [] {
      assert a + b == a;
    } else {
      var b' := b[..|b| - 1];
      var last := b[|b| - 1];
      assert (a + b)[..|a + b| - 1] == a + b';
      assert (a + b)[|a + b| - 1] == last;
      FileListConcat(fs, logDir, a, b');
    }
  }

  /** The 'filename' fields of a list of entries, in order. */
  function Filenames(list: seq<FileEntry>): (names: seq<string>)
    ensures |names| == |list|
    ensures forall k :: 0 <= k < |list| ==> names[k] == list[k].filename
  {
    if list == [] then [] else Filenames(list[..|list| - 1]) + [list[|list| - 1].filename]
  }

  /** The listed names, in order, are a subsequence of what scandir() returned. */
  lemma {:induction false} FileListKeepsOrder(fs: FileSystem, logDir: string, names: seq<string>)
    ensures IsSubsequence(Filenames(FileList(fs, logDir, names)), names)
    decreases |names|
  {
    if names != [] {
      var init := names[..|names| - 1];
      var last := names[|names| - 1];
      var l := FileList(fs, logDir, init);
      FileListKeepsOrder(fs, logDir, init);
      assert names == init + [last];
      if IsListed(fs, logDir, last) {
        assert FileList(fs, logDir, names) == l + [EntryFor(last)];
        assert (l + [EntryFor(last)])[..|l|] == l;
        SubsequenceSnoc(Filenames(l), init, last);
      } else {
        assert FileList(fs, logDir, names) == l;
        SubsequenceExtend(Filenames(l), init, last);
      }
    }
  }
}
