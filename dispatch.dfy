/**
 * The per-file branch chain of the split script: from an entry of
 * file_properties and the worker's identity, the one action taken on that
 * file — split it, delete it, or leave it alone.
 *
 * Decide is the intended chain (the full instance count as the number of
 * partitions, and a well-formed call for REGIONAL); DecideAsWritten is the
 * chain as the script has it.
 */
module Dispatch {
  import opened Outcomes
  import opened WorkerIdentity
  import opened Partition

  const Regional := "REGIONAL"
  const Global := "GLOBAL"
  const UniqueGlobal := "UNIQUE_GLOBAL"
  const UniqueLocal := "UNIQUE_LOCAL"

  /** One entry of file_properties; `region` is read only for REGIONAL. */
  datatype FileSpec = FileSpec(
    filename: string,
    containsHeaders: bool,
    partitionScope: string,
    region: Option<string>)

  /** What happens to one file on one worker. */
  datatype Action =
    | Split(partitionId: int, partitions: int)
    | Delete
    | Leave

  predicate Recognised(scope: string)
  {
    scope == Regional || scope == Global || scope == UniqueGlobal || scope == UniqueLocal
  }

  /** The branch chain, first matching branch wins. */
  function Decide(file: FileSpec, id: Identity): (r: Result<Action, ScriptError>)
    ensures r.Failure? <==> file.partitionScope == Regional && file.region.None?
    ensures r.Failure? ==> r.error == MissingKey("region")
    ensures !Recognised(file.partitionScope) ==> r == Success(Leave)
    ensures file.partitionScope == Regional && file.region.Some? && file.region.value != id.location ==>
      r == Success(Leave)
    ensures file.partitionScope == Global ==> r == Success(Split(id.globalId, id.globalCount))
    ensures file.partitionScope == Regional && file.region == Some(id.location) ==>
      r == Success(Split(id.localId, id.localCount))
    ensures r.Success? && r.value.Split? ==>
      || (file.partitionScope == Regional && r.value == Split(id.localId, id.localCount))
      || (file.partitionScope == Global && r.value == Split(id.globalId, id.globalCount))
    ensures r == Success(Delete) <==>
      || (file.partitionScope == UniqueGlobal && id.globalId != 0)
      || (file.partitionScope == UniqueLocal && id.localId != 0)
  {
    var scope := file.partitionScope;
    if scope == Regional && file.region.None? then Failure(MissingKey("region"))
    else if scope == Regional && file.region.value == id.location then Success(Split(id.localId, id.localCount))
    else if scope == Global then Success(Split(id.globalId, id.globalCount))
    else if scope == UniqueGlobal && id.globalId != 0 then Success(Delete)
    else if scope == UniqueLocal && id.localId != 0 then Success(Delete)
    else Success(Leave)
  }

  /**
   * Whether the worker goes on to run the load test with data row i of this
   * file: a failed decision stops the script, and the command chain then
   * never starts the test.
   */
  predicate UsesRow(file: FileSpec, id: Identity, i: int)
  {
    match Decide(file, id)
    case Failure(_) => false
    case Success(Split(p, n)) => n >= 1 && Keeps(i, p, n)
    case Success(Delete) => false
    case Success(Leave) => true
  }

  /** Whether the worker keeps the file at all. */
  predicate Retains(file: FileSpec, id: Identity)
  {
    Decide(file, id) != Success(Delete) && Decide(file, id).Success?
  }

  /** GLOBAL: over global ids 0..N-1, data row i is used by worker i % N only. */
  lemma GlobalRowOneHolder(file: FileSpec, base: Identity, i: nat)
    requires file.partitionScope == Global && base.globalCount >= 1
    ensures (set g | 0 <= g < base.globalCount && UsesRow(file, base.(globalId := g), i)) == {i % base.globalCount}
  {
    var n := base.globalCount;
    var holders := set g | 0 <= g < n && UsesRow(file, base.(globalId := g), i);
    forall g | 0 <= g < n
      ensures g in holders <==> g == i % n
    {
      assert Decide(file, base.(globalId := g)) == Success(Split(g, n));
    }
    assert holders == {i % n};
  }

  /** REGIONAL, region matching: over local ids 0..L-1, data row i is used by worker i % L only. */
  lemma RegionalRowOneHolder(file: FileSpec, base: Identity, i: nat)
    requires file.partitionScope == Regional && file.region == Some(base.location) && base.localCount >= 1
    ensures (set l | 0 <= l < base.localCount && UsesRow(file, base.(localId := l), i)) == {i % base.localCount}
  {
    var n := base.localCount;
    var holders := set l | 0 <= l < n && UsesRow(file, base.(localId := l), i);
    forall l | 0 <= l < n
      ensures l in holders <==> l == i % n
    {
      assert Decide(file, base.(localId := l)) == Success(Split(l, n));
    }
    assert holders == {i % n};
  }

  /** UNIQUE_GLOBAL: among global ids 0..N-1 exactly one worker, id 0, keeps the file. */
  lemma UniqueGlobalOneHolder(file: FileSpec, base: Identity, n: int)
    requires file.partitionScope == UniqueGlobal && n >= 1
    ensures (set g | 0 <= g < n && Retains(file, base.(globalId := g))) == {0}
    ensures |set g | 0 <= g < n && Retains(file, base.(globalId := g))| == 1
  {
    var holders := set g | 0 <= g < n && Retains(file, base.(globalId := g));
    forall g | 0 <= g < n
      ensures g in holders <==> g == 0
    {
      assert Decide(file, base.(globalId := g)) == if g == 0 then Success(Leave) else Success(Delete);
    }
    assert holders == {0};
  }

  /** UNIQUE_LOCAL: among the local ids 0..L-1 of one region exactly one worker, id 0, keeps the file. */
  lemma UniqueLocalOneHolder(file: FileSpec, base: Identity, n: int)
    requires file.partitionScope == UniqueLocal && n >= 1
    ensures (set l | 0 <= l < n && Retains(file, base.(localId := l))) == {0}
    ensures |set l | 0 <= l < n && Retains(file, base.(localId := l))| == 1
  {
    var holders := set l | 0 <= l < n && Retains(file, base.(localId := l));
    forall l | 0 <= l < n
      ensures l in holders <==> l == 0
    {
      assert Decide(file, base.(localId := l)) == if l == 0 then Success(Leave) else Success(Delete);
    }
    assert holders == {0};
  }

  /**
   * The chain as written: the REGIONAL branch indexes the entry with the
   * tuple ("contains_headers", local id, local count - 1), and both split
   * branches pass the instance count minus one as the number of partitions.
   */
  function DecideAsWritten(file: FileSpec, id: Identity): (r: Result<Action, ScriptError>)
    ensures file.partitionScope != Regional ==>
      (r == Decide(file, id) <==> file.partitionScope != Global)
  {
    var scope := file.partitionScope;
    if scope == Regional && file.region.None? then Failure(MissingKey("region"))
    else if scope == Regional && file.region.value == id.location then Failure(TupleKeyLookup(id.localId, id.localCount - 1))
    else if scope == Global then Success(Split(id.globalId, id.globalCount - 1))
    else if scope == UniqueGlobal && id.globalId != 0 then Success(Delete)
    else if scope == UniqueLocal && id.localId != 0 then Success(Delete)
    else Success(Leave)
  }

  /** As written, a REGIONAL entry for the worker's own region always stops the script. */
  lemma AsWrittenRegionalRaises(file: FileSpec, id: Identity)
    requires file.partitionScope == Regional && file.region == Some(id.location)
    ensures DecideAsWritten(file, id).Failure?
    ensures Decide(file, id) == Success(Split(id.localId, id.localCount))
  {
  }

  /** As written, with N >= 2 workers the last global id is asked for partition N-1 of N-1: it keeps no row. */
  lemma AsWrittenLastWorkerStarves<T>(file: FileSpec, id: Identity, rows: seq<T>)
    requires file.partitionScope == Global && id.globalCount >= 2 && id.globalId == id.globalCount - 1
    ensures DecideAsWritten(file, id) == Success(Split(id.globalId, id.globalId))
    ensures Select(rows, id.globalId, id.globalId) == []
  {
    SelectOutOfRange(rows, id.globalId, id.globalId);
  }

  /** As written, a run with a single worker asks for zero partitions. */
  lemma AsWrittenSingleWorkerZeroPartitions(file: FileSpec, id: Identity)
    requires file.partitionScope == Global && id.globalCount == 1
    ensures DecideAsWritten(file, id) == Success(Split(id.globalId, 0))
    ensures Decide(file, id) == Success(Split(id.globalId, 1))
  {
  }
}
