/**
 * The split script acting on a worker's files: splitFile, remove_file and
 * the loop over file_properties.
 *
 * A file as it is read is the sequence of lines readline() returns, each
 * with its own terminator; readline() returns "" only at the end of a file,
 * so no stored entry is empty. A file the script rewrites holds what each
 * write() call wrote: the header line, then each kept data row followed by
 * one more "\n", as one entry. Read again, such an entry would come back as
 * two lines (the row, then a blank "\n"); the model does not re-split it.
 */
module Splitter {
  import opened Outcomes
  import opened WorkerIdentity
  import opened Partition
  import opened Dispatch

  type Lines = seq<string>
  type Files = map<string, Lines>

  const BackupSuffix := ".bak"

  predicate NoEmptyLines(lines: Lines)
  {
    forall j :: 0 <= j < |lines| ==> lines[j] != ""
  }

  predicate AllNonEmpty(files: Files)
  {
    forall name :: name in files ==> NoEmptyLines(files[name])
  }

  /** readline(): the next line, or "" at the end of the file. */
  function ReadLine(lines: Lines, pos: int): string
  {
    if 0 <= pos < |lines| then lines[pos] else ""
  }

  /** What `outfile.write(f"{line}\n")` adds for a kept row. */
  function Emit(line: string): string
  {
    line + "\n"
  }

  function EmitAll(rows: Lines): Lines
  {
    seq(|rows|, k requires 0 <= k < |rows| => Emit(rows[k]))
  }

  /** The header line, when there is one to copy. */
  function HeaderLines(src: Lines, containsHeaders: bool): Lines
  {
    if containsHeaders && |src| > 0 then [src[0]] else []
  }

  /** The data rows: everything after the header. */
  function DataRows(src: Lines, containsHeaders: bool): Lines
  {
    if containsHeaders && |src| > 0 then src[1..] else src
  }

  /** The rewritten file: the header, then the kept data rows as written.
      It starts with the source's header, and holds no more entries than
      the source had lines. */
  function SplitOutput(src: Lines, containsHeaders: bool, id: int, n: int): (out: Lines)
    requires n >= 1
    ensures |HeaderLines(src, containsHeaders)| <= |out| <= |src|
    ensures out[..|HeaderLines(src, containsHeaders)|] == HeaderLines(src, containsHeaders)
  {
    HeaderLines(src, containsHeaders) + EmitAll(Select(DataRows(src, containsHeaders), id, n))
  }

  function BackupName(name: string): (b: string)
    ensures b != name
  {
    assert |name + BackupSuffix| == |name| + 4;
    name + BackupSuffix
  }

  /** splitFile's effect on the files: the original goes to <name>.bak and <name> is rewritten. */
  function SplitEffect(files: Files, name: string, containsHeaders: bool, id: int, n: int): (r: Result<Files, ScriptError>)
    ensures r.Success? <==> n >= 1 && name in files
    ensures r.Success? ==> r.value.Keys == files.Keys + {BackupName(name)}
    ensures r.Success? ==> r.value[BackupName(name)] == files[name]
    ensures r.Success? ==> r.value[name] == SplitOutput(files[name], containsHeaders, id, n)
    ensures r.Success? ==> forall other :: other in files && other != name && other != BackupName(name) ==>
      r.value[other] == files[other]
  {
    if n < 1 then Failure(BadPartitionCount(n))
    else if name !in files then Failure(FileNotFound(name))
    else Success(files[BackupName(name) := files[name]][name := SplitOutput(files[name], containsHeaders, id, n)])
  }

  /** remove_file's effect: os.remove fails on an absent file. */
  function RemoveEffect(files: Files, name: string): (r: Result<Files, ScriptError>)
    ensures r.Success? <==> name in files
    ensures r.Success? ==> r.value.Keys == files.Keys - {name}
    ensures r.Success? ==> forall other :: other in r.value ==> r.value[other] == files[other]
  {
    if name !in files then Failure(FileNotFound(name)) else Success(files - {name})
  }

  /** One entry of the loop over file_properties. */
  function ApplyEntry(files: Files, file: FileSpec, id: Identity): (r: Result<Files, ScriptError>)
    ensures Decide(file, id) == Success(Leave) ==> r == Success(files)
    ensures Decide(file, id).Failure? ==> r.Failure?
  {
    var action :- Decide(file, id);
    match action
    case Split(p, n) => SplitEffect(files, file.filename, file.containsHeaders, p, n)
    case Delete => RemoveEffect(files, file.filename)
    case Leave => Success(files)
  }

  /** The files after the script, and whether it finished or stopped. */
  datatype Run = Run(files: Files, outcome: Outcome<ScriptError>)

  /** Every entry is left alone by this worker. */
  predicate AllLeft(entries: seq<FileSpec>, id: Identity)
  {
    forall j :: 0 <= j < |entries| ==> Decide(entries[j], id) == Success(Leave)
  }

  /** Some entry cannot be decided (a REGIONAL entry without a region). */
  predicate SomeUnreadable(entries: seq<FileSpec>, id: Identity)
  {
    exists j :: 0 <= j < |entries| && Decide(entries[j], id).Failure?
  }

  /** The loop over file_properties: the first failing entry stops the script,
      with the earlier entries' changes already made. */
  function RunEntries(files: Files, entries: seq<FileSpec>, id: Identity): (r: Run)
    ensures AllLeft(entries, id) ==> r == Run(files, Pass)
    ensures SomeUnreadable(entries, id) ==> r.outcome.Fail?
    decreases |entries|
  {
    if entries == [] then Run(files, Pass)
    else match ApplyEntry(files, entries[0], id)
      case Failure(e) => Run(files, Fail(e))
      case Success(next) => RunEntries(next, entries[1..], id)
  }

  /** One turn of the loop over file_properties, from entry k on. */
  lemma RunEntriesStep(files: Files, entries: seq<FileSpec>, k: nat, id: Identity)
    requires k < |entries|
    ensures RunEntries(files, entries[k..], id) ==
      match ApplyEntry(files, entries[k], id)
      case Failure(e) => Run(files, Fail(e))
      case Success(next) => RunEntries(next, entries[k + 1..], id)
  {
    assert entries[k..][0] == entries[k] && entries[k..][1..] == entries[k + 1..];
  }

  /** The whole script: identity first, then the entries. */
  function RunScript(files: Files, env: Env, entries: seq<FileSpec>): (r: Run)
    ensures ParseIdentity(env).Failure? ==> r == Run(files, Fail(ParseIdentity(env).error))
  {
    match ParseIdentity(env)
    case Failure(e) => Run(files, Fail(e))
    case Success(id) => RunEntries(files, entries, id)
  }

  /** Whether an entry may touch the named file: its own name or its backup. */
  predicate Touches(entries: seq<FileSpec>, name: string)
  {
    exists j :: 0 <= j < |entries| && (name == entries[j].filename || name == BackupName(entries[j].filename))
  }

  /** A file no entry names, nor the backup of one, is the same after the script. */
  lemma {:induction false} RunLeavesOthers(files: Files, entries: seq<FileSpec>, id: Identity, other: string)
    requires !Touches(entries, other)
    ensures (other in RunEntries(files, entries, id).files <==> other in files)
    ensures other in files ==> RunEntries(files, entries, id).files[other] == files[other]
    decreases |entries|
  {
    if entries != [] {
      assert other != entries[0].filename && other != BackupName(entries[0].filename);
      match ApplyEntry(files, entries[0], id)
      case Failure(e) =>
      case Success(next) =>
        assert other in next <==> other in files;
        assert other in files ==> next[other] == files[other];
        assert !Touches(entries[1..], other) by {
          forall j | 0 <= j < |entries[1..]|
            ensures other != entries[1..][j].filename && other != BackupName(entries[1..][j].filename)
          {
            assert entries[1..][j] == entries[j + 1];
          }
        }
        RunLeavesOthers(next, entries[1..], id, other);
    }
  }

  /**
   * The rewritten file: with a header, line 0 is the source's line 0 and no
   * other line is a header; line 1 + k is data row id + k * n followed by
   * "\n"; the number of lines is the header plus ceil((rows - id) / n).
   */
  lemma SplitOutputShape(src: Lines, containsHeaders: bool, id: int, n: int)
    requires 0 <= id < n
    ensures var out := SplitOutput(src, containsHeaders, id, n);
      var h := |HeaderLines(src, containsHeaders)|;
      var data := DataRows(src, containsHeaders);
      && (containsHeaders && |src| > 0 ==> h == 1 && out[0] == src[0])
      && |out| == h + (|data| + n - 1 - id) / n
      && forall k :: 0 <= k < |out| - h ==>
           0 <= SourceRow(id, n, k) < |data| && out[h + k] == Emit(data[SourceRow(id, n, k)])
  {
    SelectStride(DataRows(src, containsHeaders), id, n);
  }

  /** A single partition keeps every data row, each written with its extra "\n". */
  lemma SplitSinglePartition(src: Lines, containsHeaders: bool)
    ensures SplitOutput(src, containsHeaders, 0, 1) ==
      HeaderLines(src, containsHeaders) + EmitAll(DataRows(src, containsHeaders))
  {
    SelectSinglePartition(DataRows(src, containsHeaders));
  }

  /** One turn of splitFile's loop: the kept rows of one more data row. */
  lemma LoopStep(data: Lines, line: string, index: nat, id: int, n: int)
    requires n >= 1 && index < |data| && line == data[index]
    ensures EmitAll(Select(data[..index + 1], id, n)) ==
      EmitAll(Select(data[..index], id, n)) + (if index % n == id then [Emit(line)] else [])
  {
    assert data[..index + 1][..index] == data[..index];
    var kept := Select(data[..index], id, n);
    if index % n == id {
      assert EmitAll(kept + [line]) == EmitAll(kept) + [Emit(line)];
    }
  }

  /** What splitFile leaves behind: the backup copy, then <name> holding its
      header followed by the kept data rows, is splitFile's effect. */
  lemma SplitEffectAfterLoop(files: Files, name: string, containsHeaders: bool, id: int, n: int)
    requires AllNonEmpty(files) && name in files && n >= 1
    ensures var src := files[name];
      var h := HeaderLines(src, containsHeaders);
      var after := files[BackupName(name) := src][name := h][name := h + EmitAll(Select(src[|h|..], id, n))];
      SplitEffect(files, name, containsHeaders, id, n) == Success(after) && AllNonEmpty(after)
  {
    var src := files[name];
    var h := HeaderLines(src, containsHeaders);
    var copied := files[BackupName(name) := src];
    assert src[|h|..] == DataRows(src, containsHeaders);
    assert copied[name := h][name := SplitOutput(src, containsHeaders, id, n)] == copied[name := SplitOutput(src, containsHeaders, id, n)];
    SplitOutputNonEmpty(src, containsHeaders, id, n);
  }

  /** The rewritten file has no empty line either. */
  lemma SplitOutputNonEmpty(src: Lines, containsHeaders: bool, id: int, n: int)
    requires n >= 1 && NoEmptyLines(src)
    ensures NoEmptyLines(SplitOutput(src, containsHeaders, id, n))
  {
    var out := SplitOutput(src, containsHeaders, id, n);
    var h := HeaderLines(src, containsHeaders);
    forall j | 0 <= j < |out| ensures out[j] != ""
    {
      if j >= |h| {
        assert out[j] == Emit(Select(DataRows(src, containsHeaders), id, n)[j - |h|]);
      }
    }
  }

  class FileSystem {
    var files: Files

    ghost predicate Valid()
      reads this
    {
      AllNonEmpty(files)
    }

    constructor (initial: Files)
      requires AllNonEmpty(initial)
      ensures Valid() && files == initial
    {
      files := initial;
    }

    /** splitFile: copy the file to <name>.bak, truncate <name>, copy the
        header line, then write back the kept data rows. */
    method SplitFile(name: string, containsHeaders: bool, partitionId: int, partitions: int)
      returns (r: Outcome<ScriptError>)
      requires Valid()
      modifies this
      ensures Valid()
      ensures match SplitEffect(old(files), name, containsHeaders, partitionId, partitions)
        case Success(after) => r == Pass && files == after
        case Failure(e) => r == Fail(e) && files == old(files)
    {
      if partitions < 1 {
        return Fail(BadPartitionCount(partitions));
      }
      if name !in files {
        return Fail(FileNotFound(name));
      }
      var backup := BackupName(name);
      files := files[backup := files[name]];
      ghost var src := files[backup];
      ghost var copied := files;
      assert NoEmptyLines(src);
      files := files[name := []];
      var pos := 0;
      if containsHeaders {
        var header := ReadLine(files[backup], pos);
        if header != "" {
          assert files[name] + [header] == [src[0]];
          files := files[name := files[name] + [header]];
          pos := pos + 1;
        }
      }
      assert files == copied[name := HeaderLines(src, containsHeaders)];
      CopyKeptRows(backup, name, pos, partitionId, partitions);
      SplitEffectAfterLoop(old(files), name, containsHeaders, partitionId, partitions);
      return Pass;
    }

    /** The `while True` loop of splitFile: read the backup from line `start`
        until readline() returns "", counting data rows from 0, and append
        each row whose count is partitionId modulo partitions to <name>. */
    method CopyKeptRows(backup: string, name: string, start: int, partitionId: int, partitions: int)
      requires partitions >= 1 && backup != name && backup in files && name in files
      requires NoEmptyLines(files[backup]) && 0 <= start <= |files[backup]|
      modifies this
      ensures files == old(files)[name := old(files[name]) + EmitAll(Select(old(files[backup])[start..], partitionId, partitions))]
    {
      ghost var src := files[backup];
      ghost var data := src[start..];
      ghost var before := files[name];
      var pos := start;
      var index := 0;
      ghost var written := before;
      while true
        invariant files == old(files)[name := written] && files[backup] == src
        invariant pos == start + index && pos <= |src|
        invariant written == before + EmitAll(Select(data[..index], partitionId, partitions))
        decreases |src| - pos
      {
        var line := ReadLine(files[backup], pos);
        if line == "" {
          break;
        }
        LoopStep(data, line, index, partitionId, partitions);
        pos := pos + 1;
        if index % partitions == partitionId {
          files := files[name := files[name] + [Emit(line)]];
          written := written + [Emit(line)];
        }
        index := index + 1;
      }
      assert data[..index] == data;
    }

    /** remove_file. */
    method RemoveFile(name: string) returns (r: Outcome<ScriptError>)
      requires Valid()
      modifies this
      ensures Valid()
      ensures match RemoveEffect(old(files), name)
        case Success(after) => r == Pass && files == after
        case Failure(e) => r == Fail(e) && files == old(files)
    {
      if name !in files {
        return Fail(FileNotFound(name));
      }
      files := files - {name};
      return Pass;
    }

    /** One entry of the loop over file_properties: decide, then split, remove or leave the file. */
    method ProcessEntry(file: FileSpec, id: Identity) returns (r: Outcome<ScriptError>)
      requires Valid()
      modifies this
      ensures Valid()
      ensures match ApplyEntry(old(files), file, id)
        case Success(after) => r == Pass && files == after
        case Failure(e) => r == Fail(e) && files == old(files)
    {
      var action := Decide(file, id);
      if action.Failure? {
        return Fail(action.error);
      }
      match action.value {
        case Split(p, n) =>
          r := SplitFile(file.filename, file.containsHeaders, p, n);
        case Delete =>
          r := RemoveFile(file.filename);
        case Leave =>
          r := Pass;
      }
    }

    /** The loop over file_properties: each entry in order, until the first failure. */
    method RunEntriesLoop(entries: seq<FileSpec>, id: Identity) returns (r: Outcome<ScriptError>)
      requires Valid()
      modifies this
      ensures Valid()
      ensures Run(files, r) == RunEntries(old(files), entries, id)
    {
      var k := 0;
      while k < |entries|
        invariant 0 <= k <= |entries| && Valid()
        invariant RunEntries(files, entries[k..], id) == RunEntries(old(files), entries, id)
      {
        RunEntriesStep(files, entries, k, id);
        r := ProcessEntry(entries[k], id);
        if r.Fail? {
          return;
        }
        k := k + 1;
      }
      return Pass;
    }

    /** The script: read the identity, then act on each entry in order. */
    method RunSplitScript(env: Env, entries: seq<FileSpec>) returns (r: Outcome<ScriptError>)
      requires Valid()
      modifies this
      ensures Valid()
      ensures Run(files, r) == RunScript(old(files), env, entries)
    {
      var parsed := ParseIdentity(env);
      if parsed.Failure? {
        return Fail(parsed.error);
      }
      r := RunEntriesLoop(entries, parsed.value);
    }
  }
}
