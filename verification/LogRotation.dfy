/** A file sink that rotates its log files: index 0 is the file being written, and higher
    indices are older. Renaming a file that exists, opening and writing are assumed to succeed. */
module LogRotation {

  /** The directory: the contents of the log files by index. */
  class Directory {
    var present: bool
    var files: map<nat, string>
    /** Whether a file has ever been renamed onto another one. */
    ghost var overwritten: bool

    method Create() returns (created: bool)
      requires !present
      modifies this
      ensures created && present && files == old(files) && overwritten == old(overwritten)
    {
      present := true;
      return true;
    }

    method Rename(from: nat, to: nat) returns (ok: bool)
      modifies this
      ensures ok == (from in old(files)) && present == old(present)
      ensures files == if ok then (old(files) - {from})[to := old(files)[from]] else old(files)
      ensures overwritten == (old(overwritten) || (ok && from != to && to in old(files)))
    {
      if from !in files {
        return false;
      }
      overwritten := overwritten || (from != to && to in files);
      files := (files - {from})[to := files[from]];
      return true;
    }
  }

  class LogFile {
    const dir: Directory
    var isOpen: bool
    var curSize: nat
    var index: nat

    constructor (dir: Directory, index: nat)
      ensures this.dir == dir && this.index == index && !isOpen && curSize == 0
    {
      this.dir, this.index, isOpen, curSize := dir, index, false, 0;
    }

    /** Opens for appending, or for writing from the start. */
    method Open(truncate: bool) returns (ok: bool)
      modifies this, dir
      ensures ok && isOpen && index == old(index)
      ensures dir.present == old(dir.present) && dir.overwritten == old(dir.overwritten)
      ensures old(isOpen) ==> dir.files == old(dir.files) && curSize == old(curSize)
      ensures !old(isOpen) ==>
                var text := if truncate || index !in old(dir.files) then "" else old(dir.files)[index];
                dir.files == old(dir.files)[index := text] && curSize == |text|
    {
      if isOpen {
        return true;
      }
      if truncate || index !in dir.files {
        dir.files := dir.files[index := ""];
      } else {
        assert dir.files[index := dir.files[index]] == dir.files;
      }
      isOpen, curSize := true, |dir.files[index]|;
      return true;
    }

    method Close()
      modifies this
      ensures !isOpen && index == old(index) && curSize == old(curSize)
    {
      isOpen := false;
    }

    /** Appends a line. The size does not count the line end. */
    method Write(line: string)
      requires isOpen ==> index in dir.files
      modifies this, dir
      ensures isOpen == old(isOpen) && index == old(index)
      ensures dir.present == old(dir.present) && dir.overwritten == old(dir.overwritten)
      ensures !isOpen ==> dir.files == old(dir.files) && curSize == old(curSize)
      ensures isOpen ==> dir.files == old(dir.files)[index := old(dir.files)[index] + line + "\n"]
                         && curSize == old(curSize) + |line|
    {
      if !isOpen {
        return;
      }
      dir.files := dir.files[index := dir.files[index] + line + "\n"];
      curSize := curSize + |line|;
    }

    method RenameIndex(to: nat) returns (ok: bool)
      modifies this, dir
      ensures ok == (old(index) in old(dir.files)) && dir.present == old(dir.present)
      ensures isOpen == old(isOpen) && curSize == old(curSize) && index == if ok then to else old(index)
      ensures dir.files == if ok then (old(dir.files) - {old(index)})[to := old(dir.files)[old(index)]] else old(dir.files)
      ensures dir.overwritten == (old(dir.overwritten) || (ok && old(index) != to && to in old(dir.files)))
    {
      ok := dir.Rename(index, to);
      if ok {
        index := to;
      }
    }
  }

  // ----- what rotation does to the contents -----

  /** The indices are exactly those below n. */
  ghost predicate Contiguous(files: map<nat, string>, n: nat)
  {
    forall k: nat :: k in files <==> k < n
  }

  /** What index k holds once the files from index i on have moved up by one. */
  ghost function ContentAt(files: map<nat, string>, i: nat, k: nat): string
  {
    var j := if k < i then k else k - 1;
    if j in files then files[j] else ""
  }

  /** The files from index i on have moved up by one. */
  ghost function MovedUp(files: map<nat, string>, n: nat, i: nat): map<nat, string>
    requires Contiguous(files, n)
  {
    map k: nat | k <= n && k != i :: ContentAt(files, i, k)
  }

  /** The contents after rotation: a single file starts anew; below the limit all move up;
      at the limit the oldest is dropped. */
  ghost function Rotated(files: map<nat, string>, n: nat, maxCount: nat): map<nat, string>
    requires Contiguous(files, n) && n > 0
  {
    if maxCount == 1 then files[0 := ""]
    else if n < maxCount then MovedUp(files, n, 0)[0 := ""]
    else (MovedUp(files, n, 0) - {n})[0 := ""]
  }

  /** The number of files after a rotation. */
  function NextCount(n: nat, maxCount: nat): nat
  {
    if maxCount != 1 && n < maxCount then n + 1 else n
  }

  lemma RotatedContiguous(files: map<nat, string>, n: nat, maxCount: nat)
    requires Contiguous(files, n) && n > 0
    ensures Contiguous(Rotated(files, n, maxCount), NextCount(n, maxCount))
  {
  }

  /** The files, their number, and the size counted for the one being written. */
  datatype State = State(files: map<nat, string>, n: nat, size: nat)

  ghost predicate ValidState(s: State)
  {
    s.n > 0 && Contiguous(s.files, s.n)
  }

  /** Logging one line. */
  ghost function Logged(s: State, maxSize: nat, maxCount: nat, line: string): (t: State)
    requires ValidState(s)
    ensures ValidState(t)
  {
    var files, size := s.files[0 := s.files[0] + line + "\n"], s.size + |line|;
    if maxSize == 0 || size < maxSize then State(files, s.n, size)
    else
      RotatedContiguous(files, s.n, maxCount);
      State(Rotated(files, s.n, maxCount), NextCount(s.n, maxCount), 0)
  }

  class FileSink {
    const dir: Directory
    const maxFileSize: nat
    const maxFileCount: nat
    const truncate: bool
    var file: LogFile?

    constructor (dir: Directory, maxFileSize: nat, maxFileCount: nat, truncate: bool)
      ensures this.dir == dir && this.maxFileSize == maxFileSize && this.maxFileCount == maxFileCount
      ensures this.truncate == truncate && file == null
    {
      this.dir, this.maxFileSize, this.maxFileCount, this.truncate := dir, maxFileSize, maxFileCount, truncate;
      file := null;
    }

    ghost predicate Valid(n: nat)
      reads this, dir, file
    {
      n > 0 && Contiguous(dir.files, n) && file != null && file.dir == dir && file.index == 0 && file.isOpen
    }

    /** Opens the first file. A directory that had to be created counts as a failure. */
    method Init() returns (ok: bool)
      modifies this`file, dir
      ensures ok == old(dir.present)
      ensures dir.present && dir.overwritten == old(dir.overwritten)
      ensures ok ==> file != null && fresh(file) && file.dir == dir && file.index == 0 && file.isOpen
      ensures ok ==> var text := if truncate || 0 !in old(dir.files) then "" else old(dir.files)[0];
                     dir.files == old(dir.files)[0 := text] && file.curSize == |text|
      ensures !ok ==> file == old(file) && dir.files == old(dir.files)
    {
      if !dir.present {
        var created := dir.Create();
        if created {
          return false;
        }
      }
      file := new LogFile(dir, 0);
      ok := file.Open(truncate);
      return file.isOpen;
    }

    method Uninit()
      modifies file
      ensures file != null ==> !file.isOpen && file.index == old(file.index) && file.curSize == old(file.curSize)
    {
      if file == null || !file.isOpen {
        return;
      }
      file.Close();
    }

    /** Writes the line of a message that passes the level, and rotates once the file is full. */
    method Log(level: nat, threshold: nat, line: string, ghost n: nat) returns (ok: bool)
      requires file != null && file.isOpen ==> Valid(n)
      modifies this`file, dir, file
      ensures old(file == null || !file.isOpen) ==> !ok && file == old(file) && dir.files == old(dir.files)
      ensures old(file != null && file.isOpen) && level < threshold ==>
                ok && Valid(n) && file == old(file) && StateOf(n) == old(StateOf(n))
      ensures old(file != null && file.isOpen) && level >= threshold ==>
                var s := Logged(old(StateOf(n)), maxFileSize, maxFileCount, line);
                ok && Valid(s.n) && StateOf(s.n) == s && (file == old(file) || fresh(file))
      ensures dir.overwritten == old(dir.overwritten) && dir.present == old(dir.present)
    {
      if file == null || !file.isOpen {
        return false;
      }
      if level < threshold {
        return true;
      }
      HasFirst(dir.files, n);
      file.Write(line);
      if maxFileSize == 0 || file.curSize < maxFileSize {
        return true;
      }
      file.Close();
      RotatedContiguous(dir.files, n, maxFileCount);
      ok := RoutingLogs(n);
    }

    ghost function StateOf(n: nat): State
      reads this, dir, file
      requires Valid(n)
    {
      State(dir.files, n, file.curSize)
    }

    /** All indexed files but the one being written. */
    method ListLogs() returns (logs: map<nat, LogFile>)
      ensures logs.Keys == dir.files.Keys - {0}
      ensures forall k :: k in logs ==> fresh(logs[k]) && logs[k].dir == dir && logs[k].index == k && !logs[k].isOpen
      ensures forall j, k :: j in logs && k in logs && j != k ==> logs[j] != logs[k]
    {
      logs := map[];
      var rest := dir.files.Keys - {0};
      while rest != {}
        invariant rest <= dir.files.Keys - {0} && logs.Keys == dir.files.Keys - {0} - rest
        invariant forall k :: k in logs ==> fresh(logs[k]) && logs[k].dir == dir && logs[k].index == k && !logs[k].isOpen
        invariant forall j, k :: j in logs && k in logs && j != k ==> logs[j] != logs[k]
        decreases rest
      {
        var k :| k in rest;
        var f := new LogFile(dir, k);
        logs := logs[k := f];
        rest := rest - {k};
      }
    }

    /** The files by index, with the one being written as the first. */
    method ListAll(ghost n: nat) returns (logs: map<nat, LogFile>)
      requires n > 0 && Contiguous(dir.files, n) && file != null && file.dir == dir && file.index == 0 && !file.isOpen
      ensures logs.Keys == dir.files.Keys && |logs| == n && n - 1 in logs && 0 in dir.files
      ensures forall k :: k in logs ==> (logs[k] == file || fresh(logs[k])) && logs[k].dir == dir
      ensures forall k :: k in logs ==> logs[k].index == k && !logs[k].isOpen
      ensures forall j, k :: j in logs && k in logs && j != k ==> logs[j] != logs[k]
    {
      logs := ListLogs();
      logs := logs[0 := file];
      assert logs.Keys == dir.files.Keys;
      LogsBelow(logs, dir.files, n);
    }

    /** Renames the files from the oldest on; the i-th becomes the (i + 1)-th. */
    method RenameAll(logs: map<nat, LogFile>, ghost n: nat) returns (ok: bool)
      requires Contiguous(dir.files, n) && logs.Keys == dir.files.Keys
      requires forall k :: k in logs ==> logs[k].dir == dir && logs[k].index == k && !logs[k].isOpen
      requires forall j, k :: j in logs && k in logs && j != k ==> logs[j] != logs[k]
      modifies dir, logs.Values
      ensures ok && dir.files == MovedUp(old(dir.files), n, 0)
      ensures forall k :: k in logs ==> logs[k].index == k + 1 && !logs[k].isOpen
      ensures dir.overwritten == old(dir.overwritten) && dir.present == old(dir.present)
    {
      hide Contiguous, MovedUp;
      ghost var files := dir.files;
      KeysBelow(files, n);
      MovedNone(files, n);
      LogsBelow(logs, files, n);
      var index := |logs|;
      var it: nat := index;
      ok := true;
      while it > 0
        invariant it == index <= n == |logs| && ok && dir.files == MovedUp(files, n, it)
        invariant forall k :: k in logs ==> logs[k].index == (if k < it then k else k + 1) && !logs[k].isOpen
        invariant dir.overwritten == old(dir.overwritten) && dir.present == old(dir.present)
      {
        it := it - 1;
        MovedOne(files, n, it);
        ok := logs[it].RenameIndex(index);
        if !ok {
          return;
        }
        index := index - 1;
      }
    }

    /** Moves every file up by one, from the oldest on; beyond the limit the oldest becomes the
        file being written. */
    method RoutingLogs(ghost n: nat) returns (ok: bool)
      requires n > 0 && Contiguous(dir.files, n) && file != null && file.dir == dir && file.index == 0
      modifies this`file, dir, file
      ensures ok && dir.files == Rotated(old(dir.files), n, maxFileCount)
      ensures file != null && file.dir == dir && file.index == 0 && file.isOpen && file.curSize == 0
      ensures file == old(file) || fresh(file)
      ensures dir.overwritten == old(dir.overwritten) && dir.present == old(dir.present)
    {
      hide Contiguous, MovedUp;
      file.Close();
      HasFirst(dir.files, n);
      if maxFileCount == 1 {
        ok := file.Open(true);
        return;
      }
      ghost var files := dir.files;
      var logs := ListAll(n);
      ok := RenameAll(logs, n);
      if !ok {
        return;
      }
      MovedFirst(files, n);
      if |logs| < maxFileCount {
        file := new LogFile(dir, 0);
        ok := file.Open(true);
        return file.isOpen;
      }
      file := logs[|logs| - 1];
      ok := ReuseOldest(n);
    }

    /** The file that has been renamed last becomes the one being written. */
    method ReuseOldest(ghost n: nat) returns (ok: bool)
      requires file != null && file.dir == dir && file.index == n && !file.isOpen && n in dir.files && 0 !in dir.files
      modifies dir, file
      ensures ok && dir.files == (old(dir.files) - {n})[0 := ""]
      ensures file.index == 0 && file.isOpen && file.curSize == 0
      ensures dir.overwritten == old(dir.overwritten) && dir.present == old(dir.present)
    {
      RenamedToFirst(dir.files, n);
      ok := file.RenameIndex(0);
      if !ok {
        return;
      }
      ok := file.Open(true);
    }
  }

  /** What a file held before it became the first is of no importance once it is truncated. */
  lemma RenamedToFirst(files: map<nat, string>, n: nat)
    requires n in files
    ensures (files - {n})[0 := files[n]][0 := ""] == (files - {n})[0 := ""]
  {
  }

  lemma HasFirst(files: map<nat, string>, n: nat)
    requires Contiguous(files, n) && n > 0
    ensures 0 in files
  {
  }

  lemma LogsBelow<T>(logs: map<nat, T>, files: map<nat, string>, n: nat)
    requires Contiguous(files, n) && logs.Keys == files.Keys
    ensures |logs| == n && forall k: nat :: k in logs <==> k < n
  {
    KeysBelow(files, n);
    assert |logs| == |logs.Keys|;
    forall k: nat
      ensures k in logs <==> k < n
    {
      assert k in logs <==> k in logs.Keys;
    }
  }

  /** The oldest file is there under its new index, and nothing is left at zero. */
  lemma MovedFirst(files: map<nat, string>, n: nat)
    requires Contiguous(files, n) && n > 0
    ensures n in MovedUp(files, n, 0) && 0 !in MovedUp(files, n, 0)
  {
  }

  lemma {:induction false} KeysBelow(files: map<nat, string>, n: nat)
    requires Contiguous(files, n)
    ensures |files| == n && |files.Keys| == n
  {
    if n == 0 {
      assert files.Keys == {};
    } else {
      var fewer := files - {n - 1};
      KeysBelow(fewer, n - 1);
      assert files.Keys == fewer.Keys + {n - 1};
    }
  }

  lemma MovedNone(files: map<nat, string>, n: nat)
    requires Contiguous(files, n)
    ensures MovedUp(files, n, n) == files
  {
  }

  lemma MovedOne(files: map<nat, string>, n: nat, i: nat)
    requires Contiguous(files, n) && i < n
    ensures var before := MovedUp(files, n, i + 1);
            && i in before && i + 1 !in before
            && (before - {i})[i + 1 := before[i]] == MovedUp(files, n, i)
  {
  }

  // ----- logging -----

  /** The text of the files, from the oldest to the one being written. */
  ghost function Text(files: map<nat, string>, n: nat): string
    requires Contiguous(files, n)
  {
    Above(files, n, 0)
  }

  /** The text of the files from index n - 1 down to index i. */
  ghost function Above(files: map<nat, string>, n: nat, i: nat): string
    requires Contiguous(files, n)
    decreases n - i
  {
    if i >= n then "" else Above(files, n, i + 1) + files[i]
  }

  lemma {:induction false} AboveSame(files: map<nat, string>, other: map<nat, string>, n: nat, i: nat)
    requires Contiguous(files, n) && Contiguous(other, n)
    requires forall k :: i <= k < n ==> files[k] == other[k]
    ensures Above(files, n, i) == Above(other, n, i)
    decreases n - i
  {
    if i < n {
      AboveSame(files, other, n, i + 1);
    }
  }

  /** Moving all files up by one moves their text. */
  lemma {:induction false} AboveMoved(files: map<nat, string>, n: nat, moved: map<nat, string>, i: nat)
    requires Contiguous(files, n) && Contiguous(moved, n + 1) && i <= n
    requires forall k :: 0 < k <= n ==> moved[k] == files[k - 1]
    ensures Above(moved, n + 1, i + 1) == Above(files, n, i)
    decreases n - i
  {
    if i < n {
      AboveMoved(files, n, moved, i + 1);
    }
  }

  /** At the limit the text loses what the oldest file held. */
  lemma {:induction false} AboveDropped(files: map<nat, string>, n: nat, moved: map<nat, string>, i: nat)
    requires Contiguous(files, n) && Contiguous(moved, n) && i < n
    requires forall k :: 0 < k < n ==> moved[k] == files[k - 1]
    ensures Above(files, n, i) == files[n - 1] + Above(moved, n, i + 1)
    decreases n - i
  {
    if i < n - 1 {
      AboveDropped(files, n, moved, i + 1);
      assert files[n - 1] + Above(moved, n, i + 2) + files[i] == files[n - 1] + (Above(moved, n, i + 2) + files[i]);
    } else {
      assert "" + files[i] == files[i] + "";
    }
  }

  ghost predicate IsSuffix(s: string, t: string)
  {
    |s| <= |t| && t[|t| - |s|..] == s
  }

  lemma SuffixOfConcat(a: string, b: string)
    ensures IsSuffix(b, a + b)
  {
  }

  lemma RotatedText(files: map<nat, string>, n: nat, maxCount: nat)
    requires n > 0 && Contiguous(files, n) && Contiguous(Rotated(files, n, maxCount), NextCount(n, maxCount))
    ensures var text := Text(Rotated(files, n, maxCount), NextCount(n, maxCount));
            if maxCount == 1 then text == Above(files, n, 1)
            else if n < maxCount then text == Text(files, n)
            else Text(files, n) == files[n - 1] + text
  {
    var moved := Rotated(files, n, maxCount);
    if maxCount == 1 {
      AboveSame(files, moved, n, 1);
      assert Above(files, n, 1) + "" == Above(files, n, 1);
    } else if n < maxCount {
      AboveMoved(files, n, moved, 0);
      assert Text(files, n) + "" == Text(files, n);
    } else {
      AboveDropped(files, n, moved, 0);
      assert Above(moved, n, 1) + "" == Above(moved, n, 1);
    }
  }

  /** With one file at most, older files stay and everything logged so far is lost with a
      rotation; otherwise the text kept is the end of what has been written. */
  lemma LoggedText(s: State, maxSize: nat, maxCount: nat, line: string)
    requires ValidState(s)
    ensures var t, all := Logged(s, maxSize, maxCount, line), Text(s.files, s.n) + (line + "\n");
            && (maxCount != 1 || s.n == 1 ==> IsSuffix(Text(t.files, t.n), all))
            && (maxSize == 0 || s.size + |line| < maxSize || (maxCount != 1 && s.n < maxCount) ==>
                  Text(t.files, t.n) == all)
            && (maxCount == 1 && maxSize != 0 && s.size + |line| >= maxSize ==>
                  Text(t.files, t.n) == Above(s.files, s.n, 1))
  {
    var files := s.files[0 := s.files[0] + line + "\n"];
    AboveSame(s.files, files, s.n, 1);
    var older := Above(s.files, s.n, 1);
    assert older + (s.files[0] + line + "\n") == older + s.files[0] + (line + "\n");
    RotatedContiguous(files, s.n, maxCount);
    RotatedText(files, s.n, maxCount);
    var all := Text(s.files, s.n) + (line + "\n");
    if maxCount != 1 && s.n >= maxCount {
      SuffixOfConcat(files[s.n - 1], Text(Rotated(files, s.n, maxCount), s.n));
    }
  }

  // ----- runs -----

  ghost function Run(s: State, maxSize: nat, maxCount: nat, lines: seq<string>): (t: State)
    requires ValidState(s)
    ensures ValidState(t)
  {
    if lines == [] then s
    else Logged(Run(s, maxSize, maxCount, lines[..|lines| - 1]), maxSize, maxCount, lines[|lines| - 1])
  }

  /** What one line does: its file takes it; or it is full with it, and then every file moves up
      by one, or with one file at most the newest is emptied. */
  lemma LoggedMeans(s: State, maxSize: nat, maxCount: nat, line: string)
    requires ValidState(s)
    ensures var t, full := Logged(s, maxSize, maxCount, line), maxSize != 0 && s.size + |line| >= maxSize;
            && (forall k: nat :: k in t.files <==> k < t.n)
            && (!full ==> t == State(s.files[0 := s.files[0] + line + "\n"], s.n, s.size + |line|))
            && (full && maxCount == 1 ==> t == State(s.files[0 := ""], s.n, 0))
            && (full && maxCount != 1 ==>
                  && t.n == (if s.n < maxCount then s.n + 1 else s.n) && t.files[0] == "" && t.size == 0
                  && forall k :: 1 <= k < t.n ==>
                       t.files[k] == if k == 1 then s.files[0] + line + "\n" else s.files[k - 1])
  {
  }

  /** At every line of every run: the counted size stays below a maximum that is set, once there
      has been a line. A line that does not fill the file is appended to it. One that does starts a
      new file, and every file moves up by one; at the limit exactly the text of the oldest, with
      the line if it is the only file, is gone. With a limit of one the only change is that the
      newest file is emptied. */
  lemma RunRotates(s: State, maxSize: nat, maxCount: nat, lines: seq<string>, line: string)
    requires ValidState(s)
    ensures Run(s, maxSize, maxCount, []) == s
    ensures var b, t := Run(s, maxSize, maxCount, lines), Run(s, maxSize, maxCount, lines + [line]);
            var full, text := maxSize != 0 && b.size + |line| >= maxSize, Text(b.files, b.n) + (line + "\n");
            && b.n > 0 && (forall k: nat :: k in b.files <==> k < b.n)
            && (forall k: nat :: k in t.files <==> k < t.n)
            && (maxSize != 0 ==> t.size < maxSize)
            && (!full ==> t == State(b.files[0 := b.files[0] + line + "\n"], b.n, b.size + |line|))
            && (full && maxCount == 1 ==> t == State(b.files[0 := ""], b.n, 0))
            && (full && maxCount != 1 ==>
                  && t.n == (if b.n < maxCount then b.n + 1 else b.n) && t.files[0] == "" && t.size == 0
                  && (forall k :: 1 <= k < t.n ==>
                        t.files[k] == if k == 1 then b.files[0] + line + "\n" else b.files[k - 1])
                  && if b.n < maxCount then Text(t.files, t.n) == text
                     else text == b.files[b.n - 1] + (if b.n == 1 then line + "\n" else "") + Text(t.files, t.n))
  {
    hide Logged;
    var b := Run(s, maxSize, maxCount, lines);
    assert (lines + [line])[..|lines|] == lines;
    LoggedMeans(b, maxSize, maxCount, line);
    LoggedFull(b, maxSize, maxCount, line);
  }

  /** The files stay one text, but for the oldest at the limit. */
  lemma LoggedFull(s: State, maxSize: nat, maxCount: nat, line: string)
    requires ValidState(s)
    ensures var t, text := Logged(s, maxSize, maxCount, line), Text(s.files, s.n) + (line + "\n");
            maxSize != 0 && s.size + |line| >= maxSize && maxCount != 1 ==>
              if s.n < maxCount then Text(t.files, t.n) == text
              else text == s.files[s.n - 1] + (if s.n == 1 then line + "\n" else "") + Text(t.files, t.n)
  {
    var files := s.files[0 := s.files[0] + line + "\n"];
    AboveSame(s.files, files, s.n, 1);
    var older := Above(s.files, s.n, 1);
    assert older + (s.files[0] + line + "\n") == older + s.files[0] + (line + "\n");
    RotatedContiguous(files, s.n, maxCount);
    RotatedText(files, s.n, maxCount);
    assert s.n == 1 ==> files[s.n - 1] == s.files[0] + (line + "\n");
    assert s.files[s.n - 1] + "" == s.files[s.n - 1];
  }

  /** A file that is full with its first line: the line is in the older file then. */
  lemma FullAtOnce()
    ensures var t := Run(State(map[0 := ""], 1, 0), 1, 2, ["a"]);
            t == State(map[0 := "", 1 := "a\n"], 2, 0)
  {
    var s := State(map[0 := ""], 1, 0);
    RunRotates(s, 1, 2, [], "a");
    assert [] + ["a"] == ["a"];
    assert "" + "a" + "\n" == "a\n";
    var t := Run(s, 1, 2, ["a"]);
    assert t.files == map[0 := "", 1 := "a\n"];
  }

  function Written(lines: seq<string>): string
  {
    if lines == [] then "" else Written(lines[..|lines| - 1]) + (lines[|lines| - 1] + "\n")
  }

  lemma SuffixAppend(s: string, t: string, line: string)
    requires IsSuffix(s, t)
    ensures IsSuffix(s + line, t + line)
  {
  }

  lemma SuffixTrans(s: string, t: string, u: string)
    requires IsSuffix(s, t) && IsSuffix(t, u)
    ensures IsSuffix(s, u)
  {
    assert u[|u| - |s|..] == u[|u| - |t|..][|t| - |s|..];
  }

  lemma NothingWritten(text: string, lines: seq<string>)
    requires lines == []
    ensures IsSuffix(text, text + Written(lines))
  {
    SuffixOfConcat("", text);
    assert text + "" == text == "" + text;
  }

  lemma WrittenLast(text: string, lines: seq<string>)
    requires lines != []
    ensures var last := |lines| - 1;
            text + Written(lines[..last]) + (lines[last] + "\n") == text + Written(lines)
  {
    var last := |lines| - 1;
    ConcatThree(text, Written(lines[..last]), lines[last] + "\n");
  }

  lemma ConcatThree(a: string, b: string, c: string)
    ensures a + b + c == a + (b + c)
  {
  }

  lemma LoggedCount(s: State, maxSize: nat, maxCount: nat, line: string)
    requires ValidState(s)
    ensures var t := Logged(s, maxSize, maxCount, line);
            s.n <= t.n && (t.n == s.n || t.n <= maxCount) && (maxCount == 1 ==> t.n == s.n)
  {
  }

  /** In every run the files hold the end of everything there was and everything logged, and
      there are never more than the limit or than there were at the start. */
  lemma {:induction false} RunKeepsSuffix(s: State, maxSize: nat, maxCount: nat, lines: seq<string>)
    requires ValidState(s) && (maxCount != 1 || s.n == 1)
    ensures var t := Run(s, maxSize, maxCount, lines);
            && IsSuffix(Text(t.files, t.n), Text(s.files, s.n) + Written(lines))
            && s.n <= t.n && (t.n <= maxCount || t.n == s.n) && (maxCount == 1 ==> t.n == 1)
  {
    hide IsSuffix, Logged, Text, Contiguous, Written;
    if lines == [] {
      NothingWritten(Text(s.files, s.n), lines);
    } else {
      var before, line := lines[..|lines| - 1], lines[|lines| - 1];
      RunKeepsSuffix(s, maxSize, maxCount, before);
      var m := Run(s, maxSize, maxCount, before);
      var t := Run(s, maxSize, maxCount, lines);
      LoggedText(m, maxSize, maxCount, line);
      LoggedCount(m, maxSize, maxCount, line);
      SuffixAppend(Text(m.files, m.n), Text(s.files, s.n) + Written(before), line + "\n");
      WrittenLast(Text(s.files, s.n), lines);
      SuffixTrans(Text(t.files, t.n), Text(m.files, m.n) + (line + "\n"), Text(s.files, s.n) + Written(lines));
    }
  }

  /** Logging with one file at most touches only the newest file, and leaves it empty when it is
      full. */
  lemma LoggedSingle(s: State, maxSize: nat, line: string)
    requires ValidState(s)
    ensures var t := Logged(s, maxSize, 1, line);
            && t.n == s.n && (forall k :: 1 <= k < s.n ==> t.files[k] == s.files[k])
            && if maxSize == 0 || s.size + |line| < maxSize then
                 t.files[0] == s.files[0] + line + "\n" && t.size == s.size + |line|
               else t.files[0] == "" && t.size == 0
  {
  }

  function TotalLength(lines: seq<string>): nat
  {
    if lines == [] then 0 else TotalLength(lines[..|lines| - 1]) + |lines[|lines| - 1]|
  }

  /** A file of this size takes the lines without becoming full. */
  predicate Fits(size: nat, maxSize: nat, lines: seq<string>)
  {
    maxSize == 0 || lines == [] || size + TotalLength(lines) < maxSize
  }

  /** The number of lines up to the last one that fills the file; 0 if none does. */
  function Filling(size: nat, maxSize: nat, lines: seq<string>): (k: nat)
    ensures k <= |lines|
  {
    if lines == [] then 0 else
      var before := lines[..|lines| - 1];
      var k := Filling(size, maxSize, before);
      if Fits(if k == 0 then size else 0, maxSize, lines[k..]) then k else |lines|
  }

  lemma TotalSnoc(lines: seq<string>, line: string)
    ensures TotalLength(lines + [line]) == TotalLength(lines) + |line|
  {
    assert (lines + [line])[..|lines|] == lines;
  }

  /** None of the lines fills the file exactly if they fit together, and behind the last one
      that does the rest fits into an empty file. */
  lemma {:induction false} FillingMeans(size: nat, maxSize: nat, lines: seq<string>)
    ensures var k := Filling(size, maxSize, lines);
            && (k == 0 <==> Fits(size, maxSize, lines))
            && Fits(if k == 0 then size else 0, maxSize, lines[k..])
  {
    if lines != [] {
      var before, line := lines[..|lines| - 1], lines[|lines| - 1];
      FillingMeans(size, maxSize, before);
      assert lines == before + [line];
      TotalSnoc(before, line);
    }
  }

  /** What the newest file holds then: all lines behind what it held, or just those behind the
      last one that filled it. */
  function Newest(text: string, size: nat, maxSize: nat, lines: seq<string>): string
  {
    var k := Filling(size, maxSize, lines);
    (if k == 0 then text else "") + Written(lines[k..])
  }

  function NewestSize(size: nat, maxSize: nat, lines: seq<string>): nat
  {
    var k := Filling(size, maxSize, lines);
    (if k == 0 then size else 0) + TotalLength(lines[k..])
  }

  lemma NewestStart(text: string, size: nat, maxSize: nat)
    ensures Newest(text, size, maxSize, []) == text && NewestSize(size, maxSize, []) == size
  {
    var none: seq<string> := [];
    assert none[0..] == [];
    assert text + "" == text;
  }

  lemma NewestStep(text: string, size: nat, maxSize: nat, lines: seq<string>, line: string)
    ensures var total, all := NewestSize(size, maxSize, lines) + |line|, lines + [line];
            if maxSize == 0 || total < maxSize then
              Newest(text, size, maxSize, all) == Newest(text, size, maxSize, lines) + line + "\n"
              && NewestSize(size, maxSize, all) == total
            else Newest(text, size, maxSize, all) == "" && NewestSize(size, maxSize, all) == 0
  {
    hide Written, TotalLength;
    var k, all := Filling(size, maxSize, lines), lines + [line];
    NoLines();
    assert all[..|all| - 1] == lines && all[|all|..] == [] && all[k..] == lines[k..] + [line];
    TotalSnoc(lines[k..], line);
    WrittenSnoc(if k == 0 then text else "", lines[k..], line);
    assert "" + "" == "";
  }

  /** In every run with one file at most, the older files that were there stay as they are. The
      newest file holds what it held and all lines if these fit, and else just the lines behind
      the last one that filled it. */
  lemma {:induction false} SingleFileRun(s: State, maxSize: nat, lines: seq<string>)
    requires ValidState(s)
    ensures var t := Run(s, maxSize, 1, lines);
            && t.n == s.n && (forall i :: 1 <= i < s.n ==> t.files[i] == s.files[i])
            && t.files[0] == Newest(s.files[0], s.size, maxSize, lines)
            && t.size == NewestSize(s.size, maxSize, lines)
            && Text(t.files, t.n) == Above(s.files, s.n, 1) + t.files[0]
  {
    hide Logged, Newest, NewestSize;
    if lines == [] {
      NewestStart(s.files[0], s.size, maxSize);
    } else {
      var before, line := lines[..|lines| - 1], lines[|lines| - 1];
      assert lines == before + [line];
      SingleFileRun(s, maxSize, before);
      LoggedSingle(Run(s, maxSize, 1, before), maxSize, line);
      NewestStep(s.files[0], s.size, maxSize, before, line);
    }
    AboveSame(s.files, Run(s, maxSize, 1, lines).files, s.n, 1);
  }

  lemma NoLines()
    ensures Written([]) == "" && TotalLength([]) == 0
  {
  }

  lemma WrittenSnoc(text: string, lines: seq<string>, line: string)
    ensures text + Written(lines) + line + "\n" == text + Written(lines + [line])
    ensures |Written(lines + [line])| > 0
  {
    assert (lines + [line])[..|lines|] == lines;
    assert Written(lines + [line]) == Written(lines) + (line + "\n");
  }

  lemma {:induction false} WrittenConcat(first: seq<string>, second: seq<string>)
    ensures Written(first + second) == Written(first) + Written(second)
  {
    if second == [] {
      assert first + second == first;
      assert Written(first) + "" == Written(first);
    } else {
      var init, last := second[..|second| - 1], second[|second| - 1];
      assert (first + second)[..|first + second| - 1] == first + init;
      WrittenConcat(first, init);
      ConcatThree(Written(first), Written(init), last + "\n");
    }
  }

  lemma SuffixBeforeEnd(a: string, b: string, end: string)
    ensures IsSuffix(a + end, b + end) <==> IsSuffix(a, b)
  {
    if |a| <= |b| {
      assert (b + end)[|b| - |a|..] == b[|b| - |a|..] + end;
      if b[|b| - |a|..] + end == a + end {
        assert (b[|b| - |a|..] + end)[..|a|] == (a + end)[..|a|];
        assert (a + end)[..|a|] == a && (b[|b| - |a|..] + end)[..|a|] == b[|b| - |a|..];
      }
    }
  }

  /** The text such a run loses: what the newest file held and the lines up to the last one that
      filled it. */
  function Lost(newest: string, size: nat, maxSize: nat, lines: seq<string>): string
  {
    var k := Filling(size, maxSize, lines);
    if k == 0 then "" else newest + Written(lines[..k])
  }

  /** That text is missing between the older files and the newest one, and nothing else is. So
      everything is there exactly if the lines fit; and if they do not, what is there is the end of
      everything exactly if the older files happen to be repeated at the end of what is lost. */
  lemma SingleFileLoses(s: State, maxSize: nat, lines: seq<string>)
    requires ValidState(s)
    ensures var t, older := Run(s, maxSize, 1, lines), Above(s.files, s.n, 1);
            var lost, all := Lost(s.files[0], s.size, maxSize, lines), Text(s.files, s.n) + Written(lines);
            && Text(t.files, t.n) == older + t.files[0] && all == older + lost + t.files[0]
            && (Text(t.files, t.n) == all <==> Fits(s.size, maxSize, lines))
            && (IsSuffix(Text(t.files, t.n), all) <==>
                  Fits(s.size, maxSize, lines) || IsSuffix(older, older + lost))
  {
    hide Run, Written, Filling, Fits, Above;
    var k := Filling(s.size, maxSize, lines);
    var t, older, lost := Run(s, maxSize, 1, lines), Above(s.files, s.n, 1), Lost(s.files[0], s.size, maxSize, lines);
    SingleFileRun(s, maxSize, lines);
    FillingMeans(s.size, maxSize, lines);
    assert lines[..k] + lines[k..] == lines;
    LostIs(s.files[0], lines, k);
    assert s.files[0] + Written(lines) == lost + t.files[0];
    TextIs(s);
    ConcatThree(older, s.files[0], Written(lines));
    ConcatThree(older, lost, t.files[0]);
    SuffixBeforeEnd(older, older + lost, t.files[0]);
  }

  lemma TextIs(s: State)
    requires ValidState(s)
    ensures Text(s.files, s.n) == Above(s.files, s.n, 1) + s.files[0]
  {
  }

  lemma LostIs(newest: string, lines: seq<string>, k: nat)
    requires k <= |lines|
    ensures k == 0 ==> newest + Written(lines) == "" + (newest + Written(lines[k..]))
    ensures newest + Written(lines) == (newest + Written(lines[..k])) + ("" + Written(lines[k..]))
    ensures k > 0 ==> |Written(lines[..k])| > 0
  {
    WrittenConcat(lines[..k], lines[k..]);
    assert lines[..k] + lines[k..] == lines;
    ConcatThree(newest, Written(lines[..k]), Written(lines[k..]));
    assert "" + Written(lines[k..]) == Written(lines[k..]);
  }

  /** A limit of one with two files there: the older file is kept and the newer text is lost. */
  lemma SingleFileLosesEnd()
    ensures var s := State(map[0 := "b", 1 := "a"], 2, 1);
            && ValidState(s)
            && var t := Run(s, 2, 1, ["c"]);
            Text(t.files, t.n) == "a" && !IsSuffix("a", Text(s.files, s.n) + Written(["c"]))
  {
    var s := State(map[0 := "b", 1 := "a"], 2, 1);
    assert ["c"][..0] == [];
    assert Run(s, 2, 1, []) == s;
    LoggedText(s, 2, 1, "c");
    assert Above(s.files, 2, 2) == "" && Above(s.files, 2, 1) == "" + "a" == "a";
    assert Text(s.files, 2) == "a" + "b";
    assert Written(["c"]) == "" + ("c" + "\n");
    var all := Text(s.files, 2) + Written(["c"]);
    assert all[|all| - 1] == '\n';
  }
}
