/**
 * LogviewerController::getNewLines: the incremental tail reader. The client sends the file
 * size it saw last; the reader returns the lines appended since then (at most a bounded
 * amount, anchored to the end of the file), filtered by a pattern, and the current size for
 * the next poll.
 */
module TailReader {
  import opened Wrappers
  import opened PhpStrings
  import opened PhpArrays
  import opened FileSystems
  import opened FilenameId

  /** $maxSizeToLoad */
  const MaxSizeToLoad: int := 100000

  datatype TailFailure = NoFilenameSpecified | CannotReadFile

  /**
   * The array getNewLines returns. A failure has 'status' => 'error', 'size' => 0,
   * 'file' => '' and 'lines' => '' (a string, not a list). The echoed keyword 'q', the
   * service URLs and the timestamp are not modelled.
   */
  datatype TailResult =
    | TailFailed(failure: TailFailure)
    | TailOk(size: nat, id: string, file: string, lines: seq<string>)
  {
    function Status(): string {
      if TailFailed? then "error" else "ok"
    }

    function Message(): string {
      match this
      case TailFailed(NoFilenameSpecified) => "No filename specified."
      case TailFailed(CannotReadFile) => "Cannot read file."
      case TailOk(_, _, _, _) => ""
    }

    /** The 'size' field. */
    function Size(): nat {
      if TailFailed? then 0 else size
    }

    /** The 'file' field: '' in a failure. */
    function File(): string {
      if TailFailed? then "" else file
    }

    /** The 'lines' field: no lines in a failure (PHP sends the string '' there, not an array). */
    function Lines(): seq<string> {
      if TailFailed? then [] else lines
    }
  }

  /** is_null($filename) || empty($filename): PHP's empty() also holds of the string "0". */
  predicate IsMissingFilename(filename: Option<string>) {
    filename.None? || filename.value == "" || filename.value == "0"
  }

  /** The pattern "//" that a missing or empty keyword produces: it matches every line. */
  function MatchEverything(line: string): bool {
    true
  }

  /** $maxLength: the growth since the last poll, replaced by half the cap when it exceeds the cap. */
  function ReadLength(fsize: nat, lastFetchedSize: int): (n: int)
    ensures n <= MaxSizeToLoad
    ensures n > 0 ==> n <= fsize - lastFetchedSize
  {
    var maxLength := fsize - lastFetchedSize;
    if maxLength > MaxSizeToLoad then MaxSizeToLoad / 2 else maxLength
  }

  /**
   * fseek($fp, -$n, SEEK_END) followed by fread($fp, $n). A seek to before the start of the
   * file fails and leaves the position at 0, so the read then returns the whole file.
   */
  function ReadTail(content: string, n: int): (data: string)
    requires n > 0
    ensures |data| == if n <= |content| then n else |content|
    ensures |data| <= |content| && data == content[|content| - |data|..]
  {
    if n <= |content| then content[|content| - n..] else content
  }

  /** The bytes one poll reads from a file holding content. */
  function BytesRead(content: string, lastFetchedSize: int): (data: string)
    ensures |data| <= |content| && data == content[|content| - |data|..]
  {
    var n := ReadLength(|content|, lastFetchedSize);
    if n > 0 then ReadTail(content, n) else []
  }

  /** $data after the explode: no lines at all when nothing is read. */
  function ReadLines(content: string, lastFetchedSize: int): (lines: seq<string>)
    ensures forall k :: 0 <= k < |lines| ==> NoNewline(lines[k])
  {
    var n := ReadLength(|content|, lastFetchedSize);
    if n > 0 then Explode(ReadTail(content, n)) else []
  }

  /** The lines a poll returns from a file holding content: the lines read, filtered, with one
      trailing empty piece dropped. */
  function NewLines(content: string, lastFetchedSize: int, matches: string -> bool, invert: bool): (lines: seq<string>)
    ensures |lines| <= |ReadLines(content, lastFetchedSize)|
    ensures forall k :: 0 <= k < |lines| ==> matches(lines[k]) != invert
  {
    DropTrailingEmpty(Grep(ReadLines(content, lastFetchedSize), matches, invert))
  }

  /**
   * getNewLines($filename, $lastFetchedSize, $grepKeyword, $invert); the file system is
   * read through fs, and the pattern built from the keyword is given by its test matches.
   */
  function GetNewLines(fs: FileSystem, logDir: string, filename: Option<string>, lastFetchedSize: int,
                       matches: string -> bool, invert: bool): (r: TailResult)
    ensures IsMissingFilename(filename) ==> r == TailFailed(NoFilenameSpecified)
    ensures !IsMissingFilename(filename) && !IsReadableFile(fs, LogPath(logDir, filename.value)) ==>
      r == TailFailed(CannotReadFile)
    ensures r.TailFailed? ==> r.Size() == 0 && r.Status() == "error" && r.File() == "" && r.Lines() == []
    ensures r.TailOk? <==> !IsMissingFilename(filename) && IsReadableFile(fs, LogPath(logDir, filename.value))
    ensures r.TailOk? ==>
      && r.size == |fs.files[LogPath(logDir, filename.value)]|
      && r.file == filename.value
      && r.id == Slug(filename.value)
  {
    if IsMissingFilename(filename) then TailFailed(NoFilenameSpecified)
    else
      var file := LogPath(logDir, filename.value);
      if !IsFile(fs, file) || !IsReadable(fs, file) then TailFailed(CannotReadFile)
      else
        var content := fs.files[file];
        TailOk(|content|, Slug(filename.value), filename.value, NewLines(content, lastFetchedSize, matches, invert))
  }

  /** A file that has not grown since the last poll, or has shrunk (truncated by a flush),
      gives an ok result with no lines and the current size: never an error. */
  lemma {:induction false} UnchangedOrTruncated(fs: FileSystem, logDir: string, filename: string, lastFetchedSize: int,
                             matches: string -> bool, invert: bool)
    requires !IsMissingFilename(Some(filename)) && IsReadableFile(fs, LogPath(logDir, filename))
    requires lastFetchedSize >= |fs.files[LogPath(logDir, filename)]|
    ensures GetNewLines(fs, logDir, Some(filename), lastFetchedSize, matches, invert)
         == TailOk(|fs.files[LogPath(logDir, filename)]|, Slug(filename), filename, [])
  {
  }

  /** A poll never reads more than the cap; when the file grew by more than the cap, it reads
      exactly the last half-cap bytes (the whole file if it is shorter than that). */
  lemma {:induction false} ReadIsBounded(content: string, lastFetchedSize: int)
    ensures |BytesRead(content, lastFetchedSize)| <= MaxSizeToLoad
    ensures |content| - lastFetchedSize > MaxSizeToLoad ==>
      BytesRead(content, lastFetchedSize) == content[if |content| < 50000 then 0 else |content| - 50000..]
    ensures |content| - lastFetchedSize > MaxSizeToLoad && |content| >= 50000 ==>
      |BytesRead(content, lastFetchedSize)| == 50000
  {
  }

  /** When the file grew by at most the cap, exactly the appended bytes are read: from the last
      seen size to the end, or the whole file when the last seen size was negative. */
  lemma {:induction false} ReadIsExactDelta(content: string, lastFetchedSize: int)
    requires 0 < |content| - lastFetchedSize <= MaxSizeToLoad
    ensures 0 <= lastFetchedSize ==> BytesRead(content, lastFetchedSize) == content[lastFetchedSize..]
    ensures lastFetchedSize < 0 ==> BytesRead(content, lastFetchedSize) == content
  {
  }

  /** The lines read are the pieces of the bytes read, and none of them holds a "\n". */
  lemma {:induction false} ReadLinesSplitBytes(content: string, lastFetchedSize: int)
    requires |content| - lastFetchedSize > 0
    ensures ReadLines(content, lastFetchedSize) == Explode(BytesRead(content, lastFetchedSize))
    ensures Implode(ReadLines(content, lastFetchedSize)) == BytesRead(content, lastFetchedSize)
  {
    ImplodeExplode(BytesRead(content, lastFetchedSize));
  }

  /** Filtering lines and dropping one trailing "" gives an order-preserving subsequence of the
      lines, each passing the filter, that is the filter's output less at most one final "". */
  lemma {:induction false} FilteredLines(data: seq<string>, matches: string -> bool, invert: bool)
    ensures var kept := Grep(data, matches, invert);
      var lines := DropTrailingEmpty(kept);
      && IsSubsequence(lines, data)
      && (forall k :: 0 <= k < |lines| ==> matches(lines[k]) != invert)
      && (lines == kept || (kept != [] && kept[|kept| - 1] == [] && lines + [[]] == kept))
  {
    var kept := Grep(data, matches, invert);
    var lines := DropTrailingEmpty(kept);
    GrepIsSubsequence(data, matches, invert);
    SubsequencePrefix(lines, kept, data);
    DropTrailingEmptyRestores(kept);
    assert forall k :: 0 <= k < |lines| ==> lines[k] == kept[k];
  }

  /** The returned lines are an order-preserving subsequence of the lines read; each passes the
      filter; and they are everything the filter kept except, possibly, one final "". */
  lemma {:induction false} NewLinesAreFiltered(content: string, lastFetchedSize: int, matches: string -> bool, invert: bool)
    ensures var lines := NewLines(content, lastFetchedSize, matches, invert);
      var data := ReadLines(content, lastFetchedSize);
      var kept := Grep(data, matches, invert);
      && IsSubsequence(lines, data)
      && (forall k :: 0 <= k < |lines| ==> matches(lines[k]) != invert)
      && (lines == kept || (kept != [] && kept[|kept| - 1] == [] && lines + [[]] == kept))
  {
    FilteredLines(ReadLines(content, lastFetchedSize), matches, invert);
  }

  /** The filtering guarantees for a whole poll of a readable file. */
  lemma {:induction false} TailLinesAreFiltered(fs: FileSystem, logDir: string, filename: string, lastFetchedSize: int,
                             matches: string -> bool, invert: bool)
    requires !IsMissingFilename(Some(filename)) && IsReadableFile(fs, LogPath(logDir, filename))
    ensures var r := GetNewLines(fs, logDir, Some(filename), lastFetchedSize, matches, invert);
      var data := ReadLines(fs.files[LogPath(logDir, filename)], lastFetchedSize);
      && r.TailOk?
      && IsSubsequence(r.lines, data)
      && (forall k :: 0 <= k < |r.lines| ==> matches(r.lines[k]) != invert)
  {
    NewLinesAreFiltered(fs.files[LogPath(logDir, filename)], lastFetchedSize, matches, invert);
  }

  /** Joining the pieces of a non-empty string after dropping a trailing empty piece gives the
      string back, less its final "\n" if it had one. */
  lemma {:induction false} RejoinAfterDrop(s: string)
    requires s != []
    ensures forall k :: 0 <= k < |DropTrailingEmpty(Explode(s))| ==> NoNewline(DropTrailingEmpty(Explode(s))[k])
    ensures var lines := DropTrailingEmpty(Explode(s));
      (if s[|s| - 1] == '\n' then Implode(lines) + "\n" else Implode(lines)) == s
  {
    var e := Explode(s);
    assert forall k :: 0 <= k < |DropTrailingEmpty(e)| ==> DropTrailingEmpty(e)[k] == e[k];
    ExplodeLastEmpty(s);
    assert e[|e| - 1] == [] <==> s[|s| - 1] == '\n';
    ImplodeExplode(s);
    if s[|s| - 1] == '\n' {
      RejoinAfterDropNewline(s, e);
    } else {
      assert DropTrailingEmpty(e) == e;
    }
  }

  lemma {:induction false} RejoinAfterDropNewline(s: string, e: seq<string>)
    requires s != [] && s[|s| - 1] == '\n'
    requires |e| >= 1 && e[|e| - 1] == [] && Implode(e) == s
    ensures Implode(DropTrailingEmpty(e)) + "\n" == s
  {
    var init := e[..|e| - 1];
    assert e == init + [[]];
    ImplodeSnoc(init, []);
    assert DropTrailingEmpty(e) == init;
    assert Implode(init) + "\n" + [] == Implode(init) + "\n";
  }

  /** Without a filter (the pattern "//") nothing but the trailing empty piece is removed. */
  lemma {:induction false} UnfilteredNewLines(content: string, lastFetchedSize: int)
    ensures NewLines(content, lastFetchedSize, MatchEverything, false) == DropTrailingEmpty(ReadLines(content, lastFetchedSize))
  {
    GrepKeepsAll(ReadLines(content, lastFetchedSize), MatchEverything, false);
  }

  /**
   * Without a filter, reading a growth of at most the cap gives newline-free lines that, joined
   * with "\n", give back exactly the appended bytes, with the one trailing "\n" that split off
   * the dropped empty piece.
   */
  lemma {:induction false} UnfilteredNewLinesRejoin(content: string, lastFetchedSize: int)
    requires 0 <= lastFetchedSize < |content| <= lastFetchedSize + MaxSizeToLoad
    ensures var lines := NewLines(content, lastFetchedSize, MatchEverything, false);
      && (forall k :: 0 <= k < |lines| ==> NoNewline(lines[k]))
      && (if content[|content| - 1] == '\n' then Implode(lines) + "\n" else Implode(lines))
         == content[lastFetchedSize..]
  {
    var appended := content[lastFetchedSize..];
    assert NewLines(content, lastFetchedSize, MatchEverything, false) == DropTrailingEmpty(Explode(appended)) by {
      ReadIsExactDelta(content, lastFetchedSize);
      UnfilteredNewLines(content, lastFetchedSize);
    }
    RejoinAfterDrop(appended);
    assert appended[|appended| - 1] == content[|content| - 1];
  }

  /** The unfiltered round trip for a whole poll of a readable file. */
  lemma {:induction false} UnfilteredLinesRejoin(fs: FileSystem, logDir: string, filename: string, lastFetchedSize: int)
    requires !IsMissingFilename(Some(filename)) && IsReadableFile(fs, LogPath(logDir, filename))
    requires var fsize := |fs.files[LogPath(logDir, filename)]|; 0 <= lastFetchedSize < fsize <= lastFetchedSize + MaxSizeToLoad
    ensures var content := fs.files[LogPath(logDir, filename)];
      var r := GetNewLines(fs, logDir, Some(filename), lastFetchedSize, MatchEverything, false);
      && r.TailOk?
      && (forall k :: 0 <= k < |r.lines| ==> NoNewline(r.lines[k]))
      && (if content[|content| - 1] == '\n' then Implode(r.lines) + "\n" else Implode(r.lines))
         == content[lastFetchedSize..]
  {
    UnfilteredNewLinesRejoin(fs.files[LogPath(logDir, filename)], lastFetchedSize);
  }

  /** Substring search: the pattern made from a keyword without regular-expression syntax. */
  predicate Contains(line: string, keyword: string)
    decreases |line|
  {
    |keyword| <= |line| && (line[..|keyword|] == keyword || Contains(line[1..], keyword))
  }

  /** The pattern "/$keyword/" for a keyword without regular-expression syntax. */
  function Containing(keyword: string): string -> bool {
    line => Contains(line, keyword)
  }

  /** The file "a\nb\nc\n" read from size 0 splits into a, b, c and a final empty piece. */
  lemma {:induction false} ThreeLineRead()
    ensures ReadLines("a\nb\nc\n", 0) == ["a", "b", "c", ""]
  {
    var content := "a\nb\nc\n";
    var pieces := ["a", "b", "c", ""];
    assert pieces[1..] == ["b", "c", ""] && pieces[2..] == ["c", ""] && pieces[3..] == [""];
    assert Implode(pieces) == content;
    ExplodeImplode(pieces);
    assert ReadTail(content, 6) == content;
  }

  /** Filtering those pieces on "b", without and with inversion. */
  lemma {:induction false} ThreeLineGrep()
    ensures Grep(["a", "b", "c", ""], Containing("b"), false) == ["b"]
    ensures Grep(["a", "b", "c", ""], Containing("b"), true) == ["a", "c", ""]
  {
    var pieces := ["a", "b", "c", ""];
    var b := Containing("b");
    assert pieces[1..] == ["b", "c", ""] && pieces[2..] == ["c", ""] && pieces[3..] == [""];
    assert !Contains("", "b");
    assert "a"[..1] == "a" != "b" && "a"[1..] == [];
    assert "c"[..1] == "c" != "b" && "c"[1..] == [];
    assert "b"[..1] == "b";
    assert !Contains("a", "b") && !Contains("c", "b") && Contains("b", "b");
    assert b("b") && !b("a") && !b("c") && !b("");
    assert Grep(pieces[3..], b, true) == [""];
    assert Grep(pieces[2..], b, true) == ["c", ""];
    assert Grep(pieces[1..], b, true) == ["c", ""];
    assert Grep(pieces[3..], b, false) == [];
    assert Grep(pieces[2..], b, false) == [];
    assert Grep(pieces[1..], b, false) == ["b"];
  }

  /** The file "a\nb\nc\n" read from size 0 without a filter gives a, b and c. */
  lemma {:induction false} ThreeLineUnfiltered()
    ensures NewLines("a\nb\nc\n", 0, MatchEverything, false) == ["a", "b", "c"]
  {
    var pieces := ["a", "b", "c", ""];
    ThreeLineRead();
    GrepKeepsAll(pieces, MatchEverything, false);
    assert DropTrailingEmpty(pieces) == pieces[..3] == ["a", "b", "c"];
  }

  /** Filtered on "b" the same read gives b, and inverted a and c. */
  lemma {:induction false} ThreeLineFiltered()
    ensures NewLines("a\nb\nc\n", 0, Containing("b"), false) == ["b"]
    ensures NewLines("a\nb\nc\n", 0, Containing("b"), true) == ["a", "c"]
  {
    ThreeLineRead();
    ThreeLineGrep();
    assert DropTrailingEmpty(["b"]) == ["b"] by {
      assert ["b"][0] != [];
    }
    assert DropTrailingEmpty(["a", "c", ""]) == ["a", "c"] by {
      assert ["a", "c", ""][..2] == ["a", "c"];
    }
  }

  /** The same example through getNewLines, for a file app.log in the log directory. */
  lemma {:induction false} ThreeLineExample(logDir: string)
    ensures var fs := FileSystem(map[LogPath(logDir, "app.log") := "a\nb\nc\n"], {LogPath(logDir, "app.log")});
      && GetNewLines(fs, logDir, Some("app.log"), 0, MatchEverything, false).lines == ["a", "b", "c"]
      && GetNewLines(fs, logDir, Some("app.log"), 0, Containing("b"), false).lines == ["b"]
      && GetNewLines(fs, logDir, Some("app.log"), 0, Containing("b"), true).lines == ["a", "c"]
  {
    var path := LogPath(logDir, "app.log");
    var fs := FileSystem(map[path := "a\nb\nc\n"], {path});
    assert !IsMissingFilename(Some("app.log"));
    assert IsReadableFile(fs, path) && fs.files[path] == "a\nb\nc\n";
    ThreeLineUnfiltered();
    ThreeLineFiltered();
  }
}
