/**
 * A worker's coordinates, as the split script reads them from its
 * environment before it looks at any file.
 */
module WorkerIdentity {
  import opened Outcomes
  import opened Numerals

  type Env = map<string, string>

  const GlobalInstanceId := "GLOBAL_INSTANCE_ID"
  const LocalInstanceId := "LOCAL_INSTANCE_ID"
  const GlobalInstanceCount := "GLOBAL_INSTANCE_COUNT"
  const LocalInstanceCount := "LOCAL_INSTANCE_COUNT"
  const CurrentLocation := "CURRENT_LOCATION"

  /** Position among all workers of the run and among the workers of one region. */
  datatype Identity = Identity(
    globalId: int,
    localId: int,
    globalCount: int,
    localCount: int,
    location: string)

  /** The 0-based coordinates the partitioning relies on. Nothing in the
      script checks this; lemmas that need it take it as a precondition. */
  predicate ZeroBased(id: Identity)
  {
    && 0 <= id.globalId < id.globalCount
    && 0 <= id.localId < id.localCount
  }

  /** int(os.environ[name]): KeyError when unset, ValueError when not a numeral. */
  function ReadInt(env: Env, name: string): (r: Result<int, ScriptError>)
    ensures r.Success? <==> name in env && IsNumeral(env[name])
    ensures r.Failure? ==> r.error == (if name in env then NotAnInteger(name) else MissingVariable(name))
  {
    if name !in env then Failure(MissingVariable(name))
    else match ParseInt(env[name])
      case None => Failure(NotAnInteger(name))
      case Some(v) => Success(v)
  }

  /** The identity block of the script: four integers and the location, read
      in this order; the first one that is missing or malformed stops it. */
  function ParseIdentity(env: Env): (r: Result<Identity, ScriptError>)
    ensures r.Success? <==>
      && (forall name | name in [GlobalInstanceId, LocalInstanceId, GlobalInstanceCount, LocalInstanceCount] ::
            name in env && IsNumeral(env[name]))
      && CurrentLocation in env
    ensures r.Success? ==>
      && Some(r.value.globalId) == ParseInt(env[GlobalInstanceId])
      && Some(r.value.localId) == ParseInt(env[LocalInstanceId])
      && Some(r.value.globalCount) == ParseInt(env[GlobalInstanceCount])
      && Some(r.value.localCount) == ParseInt(env[LocalInstanceCount])
      && r.value.location == env[CurrentLocation]
    ensures GlobalInstanceId !in env ==> r == Failure(MissingVariable(GlobalInstanceId))
  {
    var globalId :- ReadInt(env, GlobalInstanceId);
    var localId :- ReadInt(env, LocalInstanceId);
    var globalCount :- ReadInt(env, GlobalInstanceCount);
    var localCount :- ReadInt(env, LocalInstanceCount);
    if CurrentLocation !in env then Failure(MissingVariable(CurrentLocation))
    else Success(Identity(globalId, localId, globalCount, localCount, env[CurrentLocation]))
  }
}
