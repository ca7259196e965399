/**
 * `MultipleOutputHelper.WriteFiles`, the writer of the code generator: it
 * writes each generated file unless its content is already there up to
 * surrounding whitespace and carriage returns, converts line endings as
 * asked, and then deletes the extra files that match the given patterns
 * under the output directory but were not generated by this call.
 */
module MultipleOutput {
  import opened Basics
  import opened Strings

  // ---------------------------------------------------------------------
  // Text rules
  // ---------------------------------------------------------------------

  /** `txt ?? ""`. */
  function TextOf(txt: Option<string>): string {
    if txt.Some? then txt.value else []
  }

  /** The form in which old and new contents are compared: trimmed, without `\r`. */
  function Normalize(t: string): string {
    RemoveChar(Trim(t), '\r')
  }

  predicate IsEol(endOfLine: Option<string>, name: string) {
    endOfLine.Some? && EqualsIgnoreCase(endOfLine.value, name)
  }

  /** The text as written: `lf` drops every `\r`, `crlf` makes every line end `\r\n`, anything else keeps it. */
  function ConvertEol(text: string, endOfLine: Option<string>): string {
    if IsEol(endOfLine, "lf") then RemoveChar(text, '\r')
    else if IsEol(endOfLine, "crlf") then ReplaceChar(RemoveChar(text, '\r'), '\n', "\r\n")
    else text
  }

  /** Every `\n` follows a `\r` and every `\r` precedes a `\n`. */
  predicate IsCrlf(s: string) {
    && (forall i | 0 <= i < |s| && s[i] == '\n' :: i > 0 && s[i - 1] == '\r')
    && (forall i | 0 <= i < |s| && s[i] == '\r' :: i + 1 < |s| && s[i + 1] == '\n')
  }

  /** Putting `\r` before each `\n` of a text without `\r` gives `\r\n` line ends only. */
  lemma {:induction false} AddCrIsCrlf(s: string)
    requires '\r' !in s
    ensures IsCrlf(ReplaceChar(s, '\n', "\r\n"))
    ensures ReplaceChar(s, '\n', "\r\n") == [] || ReplaceChar(s, '\n', "\r\n")[0] != '\n'
  {
    if s != [] {
      var h := if s[0] == '\n' then "\r\n" else [s[0]];
      var t := ReplaceChar(s[1..], '\n', "\r\n");
      assert '\r' !in s[1..];
      AddCrIsCrlf(s[1..]);
      var r := h + t;
      assert r == ReplaceChar(s, '\n', "\r\n");
      forall i | 0 <= i < |r| && r[i] == '\n' ensures i > 0 && r[i - 1] == '\r' {
        if i >= |h| {
          assert r[i] == t[i - |h|];
          assert i - |h| > 0;
          assert r[i - 1] == t[i - 1 - |h|];
        }
      }
      forall i | 0 <= i < |r| && r[i] == '\r' ensures i + 1 < |r| && r[i + 1] == '\n' {
        if i >= |h| {
          assert r[i] == t[i - |h|];
          assert r[i + 1] == t[i + 1 - |h|];
        }
      }
    }
  }

  /** What every end-of-line setting writes. */
  lemma ConvertEolShape(text: string, endOfLine: Option<string>)
    ensures IsEol(endOfLine, "lf") ==> '\r' !in ConvertEol(text, endOfLine)
    ensures !IsEol(endOfLine, "lf") && IsEol(endOfLine, "crlf") ==> IsCrlf(ConvertEol(text, endOfLine))
    ensures !IsEol(endOfLine, "lf") && !IsEol(endOfLine, "crlf") ==> ConvertEol(text, endOfLine) == text
  {
    if !IsEol(endOfLine, "lf") && IsEol(endOfLine, "crlf") {
      AddCrIsCrlf(RemoveChar(text, '\r'));
    }
  }

  /** Converting line endings never changes the compared form, so a file just written compares equal. */
  lemma NormalizeConvertEol(text: string, endOfLine: Option<string>)
    ensures Normalize(ConvertEol(text, endOfLine)) == Normalize(text)
  {
    var plain := RemoveChar(text, '\r');
    TrimRemoveCrCommute(text);
    RemoveCharIdempotent(text, '\r');
    if IsEol(endOfLine, "lf") {
      TrimRemoveCrCommute(plain);
    } else if IsEol(endOfLine, "crlf") {
      var crlf := ReplaceChar(plain, '\n', "\r\n");
      TrimRemoveCrCommute(crlf);
      RemoveCrAfterAddCr(plain);
    }
  }

  // ---------------------------------------------------------------------
  // The file system
  // ---------------------------------------------------------------------

  /** The files (full path to text) and directories of a file system. */
  datatype Disk = Disk(files: map<string, string>, dirs: set<string>)

  /**
   * `IFileSystem`: its files and directories change; `GetFullPath`,
   * `Combine`, `GetDirectoryName` and the pattern match of `GetFiles` are
   * fixed functions of their arguments.
   */
  class FileSystem {
    var files: map<string, string>
    var dirs: set<string>
    const fullPath: string -> string
    const combine: (string, string) -> string
    const directoryName: string -> string
    /** Whether `GetFiles(dir, pattern, recursive: true)` lists a file. */
    const matches: (string, string, string) -> bool

    constructor (files: map<string, string>, dirs: set<string>, fullPath: string -> string,
                 combine: (string, string) -> string, directoryName: string -> string,
                 matches: (string, string, string) -> bool)
      ensures this.files == files && this.dirs == dirs && this.fullPath == fullPath
      ensures this.combine == combine && this.directoryName == directoryName && this.matches == matches
    {
      this.files := files;
      this.dirs := dirs;
      this.fullPath := fullPath;
      this.combine := combine;
      this.directoryName := directoryName;
      this.matches := matches;
    }

    function State(): Disk
      reads this
    {
      Disk(files, dirs)
    }

    function FileExists(path: string): (r: bool)
      reads this
      ensures r <==> path in files
    {
      path in files
    }

    function DirectoryExists(path: string): (r: bool)
      reads this
      ensures r <==> path in dirs
    {
      path in dirs
    }

    function ReadAllText(path: string): (r: string)
      requires path in files
      reads this
      ensures r == files[path]
    {
      files[path]
    }

    method CreateDirectory(path: string)
      modifies this
      ensures files == old(files) && dirs == old(dirs) + {path}
    {
      dirs := dirs + {path};
    }

    method WriteAllText(path: string, text: string)
      modifies this
      ensures files == old(files)[path := text] && dirs == old(dirs)
    {
      files := files[path := text];
    }

    method DeleteFile(path: string)
      modifies this
      ensures files == old(files) - {path} && dirs == old(dirs)
    {
      files := files - {path};
    }
  }

  // ---------------------------------------------------------------------
  // The specification of WriteFiles
  // ---------------------------------------------------------------------

  type FileToWrite = (string, Option<string>)

  /**
   * One generated file: skipped when the existing file already has its
   * content in compared form; otherwise written, converted, after creating
   * a missing parent directory for a new file.
   */
  function WriteStep(fs: FileSystem, d: Disk, outDir: string, entry: FileToWrite, endOfLine: Option<string>): (r: Disk) {
    var outFile := fs.combine(outDir, entry.0);
    var text := ConvertEol(TextOf(entry.1), endOfLine);
    if outFile in d.files then
      if Normalize(d.files[outFile]) == Normalize(TextOf(entry.1)) then d
      else d.(files := d.files[outFile := text])
    else
      var parent := fs.directoryName(outFile);
      Disk(d.files[outFile := text], d.dirs + {parent})
  }

  /** The generated files, written in order. */
  function WriteAll(fs: FileSystem, d: Disk, outDir: string, entries: seq<FileToWrite>, endOfLine: Option<string>): Disk {
    if entries == [] then d
    else WriteStep(fs, WriteAll(fs, d, outDir, entries[..|entries| - 1], endOfLine), outDir, entries[|entries| - 1], endOfLine)
  }

  lemma WriteAllSnoc(fs: FileSystem, d: Disk, outDir: string, entries: seq<FileToWrite>, endOfLine: Option<string>,
                     i: nat, next: nat)
    requires i < |entries| && next == i + 1
    ensures WriteAll(fs, d, outDir, entries[..next], endOfLine) ==
      WriteStep(fs, WriteAll(fs, d, outDir, entries[..i], endOfLine), outDir, entries[i], endOfLine)
  {
    assert entries[..next][..i] == entries[..i];
  }

  /**
   * A generated file ends up present with its content in compared form,
   * whether it was skipped or written; a new one gets its parent directory;
   * no other file changes and no directory is removed.
   */
  lemma WriteStepEffect(fs: FileSystem, d: Disk, outDir: string, entry: FileToWrite, endOfLine: Option<string>)
    ensures var r := WriteStep(fs, d, outDir, entry, endOfLine);
      var outFile := fs.combine(outDir, entry.0);
      && outFile in r.files && Normalize(r.files[outFile]) == Normalize(TextOf(entry.1))
      && (outFile !in d.files ==> fs.directoryName(outFile) in r.dirs)
      && d.dirs <= r.dirs
      && (forall f | f in d.files && f != outFile :: f in r.files && r.files[f] == d.files[f])
      && (forall f | f in r.files && f != outFile :: f in d.files)
  {
    NormalizeConvertEol(TextOf(entry.1), endOfLine);
  }

  /** Writing the same file twice in a row changes nothing the second time. */
  lemma WriteStepIdempotent(fs: FileSystem, d: Disk, outDir: string, entry: FileToWrite, endOfLine: Option<string>)
    ensures var once := WriteStep(fs, d, outDir, entry, endOfLine);
      WriteStep(fs, once, outDir, entry, endOfLine) == once
  {
    WriteStepEffect(fs, d, outDir, entry, endOfLine);
  }

  /**
   * After all writes, every generated file not written again later holds
   * its content in compared form.
   */
  lemma {:induction false} WriteAllContent(fs: FileSystem, d: Disk, outDir: string, entries: seq<FileToWrite>,
                                           endOfLine: Option<string>, j: nat)
    requires j < |entries|
    requires forall k | j < k < |entries| :: fs.combine(outDir, entries[k].0) != fs.combine(outDir, entries[j].0)
    ensures var r := WriteAll(fs, d, outDir, entries, endOfLine);
      var outFile := fs.combine(outDir, entries[j].0);
      outFile in r.files && Normalize(r.files[outFile]) == Normalize(TextOf(entries[j].1))
    decreases |entries|
  {
    var init := entries[..|entries| - 1];
    var last := entries[|entries| - 1];
    WriteStepEffect(fs, WriteAll(fs, d, outDir, init, endOfLine), outDir, last, endOfLine);
    if j < |entries| - 1 {
      forall k | j < k < |init| ensures fs.combine(outDir, init[k].0) != fs.combine(outDir, init[j].0) {
        assert init[k] == entries[k];
      }
      assert init[j] == entries[j];
      WriteAllContent(fs, d, outDir, init, endOfLine, j);
    }
  }

  /** The generated set: each generated path in URL form, compared ignoring case. */
  function Generated(entries: seq<FileToWrite>, toUrl: string -> string): set<string> {
    if entries == [] then {}
    else Generated(entries[..|entries| - 1], toUrl) + {FoldCase(toUrl(entries[|entries| - 1].0))}
  }

  lemma {:induction false} GeneratedMembers(entries: seq<FileToWrite>, toUrl: string -> string, x: string)
    ensures x in Generated(entries, toUrl) <==> exists j | 0 <= j < |entries| :: FoldCase(toUrl(entries[j].0)) == x
    decreases |entries|
  {
    if entries != [] {
      var init := entries[..|entries| - 1];
      GeneratedMembers(init, toUrl, x);
      if x in Generated(init, toUrl) {
        var j :| 0 <= j < |init| && FoldCase(toUrl(init[j].0)) == x;
        assert entries[j] == init[j];
      }
      if exists j | 0 <= j < |entries| :: FoldCase(toUrl(entries[j].0)) == x {
        var j :| 0 <= j < |entries| && FoldCase(toUrl(entries[j].0)) == x;
        if j < |init| {
          assert entries[j] == init[j];
        }
      }
    }
  }

  /** The files the delete patterns list under a directory. */
  function Candidates(fs: FileSystem, files: map<string, string>, dir: string, patterns: seq<string>): (r: set<string>)
    ensures r <= files.Keys
  {
    if patterns == [] then {}
    else (set f | f in files && fs.matches(dir, patterns[0], f)) + Candidates(fs, files, dir, patterns[1..])
  }

  /**
   * `outRoot`: the output directory in URL form with exactly one trailing
   * slash: the URL's trailing slashes, however many, become one.
   */
  function OutRoot(outDir: string, toUrl: string -> string): (r: string)
    ensures |r| >= 1 && r[|r| - 1] == '/'
    ensures |r| == 1 || r[|r| - 2] != '/'
    ensures var url := toUrl(outDir);
      && |r| - 1 <= |url| && r[..|r| - 1] == url[..|r| - 1]
      && forall i | |r| - 1 <= i < |url| :: url[i] == '/'
  {
    TrimEndChar(toUrl(outDir), '/') + "/"
  }

  /** A listed file is deleted when it lies under the output root and its relative path was not generated. */
  predicate ShouldDelete(file: string, outRoot: string, generated: set<string>, toUrl: string -> string) {
    var url := toUrl(file);
    StartsWith(url, outRoot) && FoldCase(url[|outRoot|..]) !in generated
  }

  /** The files `WriteFiles` deletes, given the disk after writing. */
  function Doomed(fs: FileSystem, d: Disk, outDir: string, entries: seq<FileToWrite>,
                  deleteExtraPattern: Option<seq<string>>, toUrl: string -> string): (r: set<string>)
    ensures r <= d.files.Keys
  {
    if deleteExtraPattern.None? || deleteExtraPattern.value == [] then {}
    else
      var outRoot := OutRoot(outDir, toUrl);
      var generated := Generated(entries, toUrl);
      set f | f in Candidates(fs, d.files, outDir, deleteExtraPattern.value) && ShouldDelete(f, outRoot, generated, toUrl)
  }

  /** Without a delete pattern nothing is deleted. */
  lemma NoPatternNoDelete(fs: FileSystem, d: Disk, outDir: string, entries: seq<FileToWrite>,
                          deleteExtraPattern: Option<seq<string>>, toUrl: string -> string)
    requires deleteExtraPattern.None? || deleteExtraPattern.value == []
    ensures Doomed(fs, d, outDir, entries, deleteExtraPattern, toUrl) == {}
  {
  }

  /**
   * A deleted file lies under the output root, and its path relative to
   * the root differs, ignoring case, from every path generated in the call.
   */
  lemma DoomedNotGenerated(fs: FileSystem, d: Disk, outDir: string, entries: seq<FileToWrite>,
                           deleteExtraPattern: Option<seq<string>>, toUrl: string -> string, file: string)
    requires file in Doomed(fs, d, outDir, entries, deleteExtraPattern, toUrl)
    ensures StartsWith(toUrl(file), OutRoot(outDir, toUrl))
    ensures forall j | 0 <= j < |entries| ::
      !EqualsIgnoreCase(toUrl(file)[|OutRoot(outDir, toUrl)|..], toUrl(entries[j].0))
  {
    var rel := toUrl(file)[|OutRoot(outDir, toUrl)|..];
    forall j | 0 <= j < |entries| ensures !EqualsIgnoreCase(rel, toUrl(entries[j].0)) {
      GeneratedMembers(entries, toUrl, FoldCase(rel));
    }
  }

  // ---------------------------------------------------------------------
  // WriteFiles
  // ---------------------------------------------------------------------

  /**
   * One pass of the writing loop of `WriteFiles`: the file is skipped or
   * written as `WriteStep` says.
   */
  method WriteFile(fileSystem: FileSystem, outDir: string, entry: FileToWrite, endOfLine: Option<string>)
    modifies fileSystem
    ensures fileSystem.State() == WriteStep(fileSystem, old(fileSystem.State()), outDir, entry, endOfLine)
  {
    var (path, txt) := entry;
    var outFile := fileSystem.combine(outDir, path);
    var fileExists := fileSystem.FileExists(outFile);
    var skip := false;
    if fileExists {
      var content := fileSystem.ReadAllText(outFile);
      skip := Normalize(content) == Normalize(TextOf(txt));
    } else if !fileSystem.DirectoryExists(fileSystem.directoryName(outFile)) {
      fileSystem.CreateDirectory(fileSystem.directoryName(outFile));
    }
    if !skip {
      var text := TextOf(txt);
      if IsEol(endOfLine, "lf") {
        text := RemoveChar(text, '\r');
      } else if IsEol(endOfLine, "crlf") {
        text := ReplaceChar(RemoveChar(text, '\r'), '\n', "\r\n");
      }
      fileSystem.WriteAllText(outFile, text);
    }
  }

  /**
   * `WriteFiles`: a null file system is rejected; otherwise the output
   * directory is resolved and created, the generated files are written as
   * `WriteAll` says, and the `Doomed` files are deleted, nothing else.
   */
  method WriteFiles(fileSystem: FileSystem?, outDir: string, filesToWrite: seq<FileToWrite>,
                    deleteExtraPattern: Option<seq<string>>, endOfLine: Option<string>, toUrl: string -> string)
    returns (r: Outcome<string>)
    modifies fileSystem
    ensures fileSystem == null ==> r == Fail("fileSystem")
    ensures fileSystem != null ==>
      var dir := fileSystem.fullPath(outDir);
      var written := WriteAll(fileSystem, old(fileSystem.State()).(dirs := old(fileSystem.dirs) + {dir}), dir,
                              filesToWrite, endOfLine);
      var doomed := Doomed(fileSystem, written, dir, filesToWrite, deleteExtraPattern, toUrl);
      && r == Pass
      && fileSystem.dirs == written.dirs
      && fileSystem.files.Keys == written.files.Keys - doomed
      && (forall f | f in fileSystem.files :: fileSystem.files[f] == written.files[f])
  {
    if fileSystem == null {
      return Fail("fileSystem");
    }
    var fs := fileSystem;
    var dir := fs.fullPath(outDir);
    fs.CreateDirectory(dir);
    var generated := WriteEach(fs, dir, filesToWrite, endOfLine, toUrl);

    if deleteExtraPattern.None? || |deleteExtraPattern.value| == 0 {
      return Pass;
    }
    var filesToDelete := Candidates(fs, fs.files, dir, deleteExtraPattern.value);
    DeleteExtraFiles(fs, filesToDelete, OutRoot(dir, toUrl), generated, toUrl);
    return Pass;
  }

  /**
   * The writing pass of `WriteFiles`: each file in turn, in list order; the
   * result is the set of relative paths written.
   */
  method WriteEach(fs: FileSystem, dir: string, filesToWrite: seq<FileToWrite>, endOfLine: Option<string>,
                   toUrl: string -> string)
    returns (generated: set<string>)
    modifies fs
    ensures fs.State() == WriteAll(fs, old(fs.State()), dir, filesToWrite, endOfLine)
    ensures generated == Generated(filesToWrite, toUrl)
  {
    ghost var start := fs.State();
    generated := {};
    var i := 0;
    assert filesToWrite[..0] == [];
    while i < |filesToWrite|
      invariant i <= |filesToWrite|
      invariant fs.State() == WriteAll(fs, start, dir, filesToWrite[..i], endOfLine)
      invariant generated == Generated(filesToWrite[..i], toUrl)
    {
      var path := filesToWrite[i].0;
      var next := i + 1;
      WriteAllSnoc(fs, start, dir, filesToWrite, endOfLine, i, next);
      assert filesToWrite[..next][..i] == filesToWrite[..i];
      generated := generated + {FoldCase(toUrl(path))};
      WriteFile(fs, dir, filesToWrite[i], endOfLine);
      i := next;
    }
    assert filesToWrite[..i] == filesToWrite;
  }

  /**
   * The deletion pass of `WriteFiles`: every listed file under the output
   * root whose relative path was not generated is deleted; nothing else
   * changes.
   */
  method DeleteExtraFiles(fs: FileSystem, filesToDelete: set<string>, outRoot: string,
                          generated: set<string>, toUrl: string -> string)
    modifies fs
    ensures fs.dirs == old(fs.dirs)
    ensures fs.files.Keys ==
      old(fs.files.Keys) - set f | f in filesToDelete && ShouldDelete(f, outRoot, generated, toUrl)
    ensures forall f | f in fs.files :: fs.files[f] == old(fs.files[f])
  {
    var todo := filesToDelete;
    while todo != {}
      invariant todo <= filesToDelete
      invariant fs.dirs == old(fs.dirs)
      invariant fs.files.Keys ==
        old(fs.files.Keys) - set f | f in filesToDelete - todo && ShouldDelete(f, outRoot, generated, toUrl)
      invariant forall f | f in fs.files :: fs.files[f] == old(fs.files[f])
      decreases todo
    {
      var file :| file in todo;
      var url := toUrl(file);
      if StartsWith(url, outRoot) && FoldCase(url[|outRoot|..]) !in generated {
        fs.DeleteFile(file);
      }
      todo := todo - {file};
    }
  }
}
