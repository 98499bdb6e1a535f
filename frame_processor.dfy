/**
 * LocalJMeterFrameProcessor: the commands one frame runs on its worker.
 *
 * The processor's fields are set once by its constructor and only read
 * afterwards, so it is a value here. A frame's command is a chain of steps
 * joined by `&&`: each step runs only if every step before it succeeded,
 * and the environment a step sees holds what the `export`s before it set.
 */
module FrameProcessor {
  import opened Outcomes
  import opened Numerals
  import opened WorkerIdentity
  import opened Dispatch

  const HomeDirPath := "/root"
  const WorkerDirPath := "jmeterWorker"
  const JMeterFilePath := WorkerDirPath + "/XXX.jmx"

  /** The fields __init__ sets from its arguments (current_instance_count,
      current_location, number_of_local_instances, number_of_global_instances). */
  datatype Processor = Processor(
    instanceBeginCount: int,
    currentLocation: string,
    localInstances: int,
    globalInstances: int)

  /** One command of a frame's `&&` chain. */
  datatype Step =
    | Export(name: string, value: string)
    | Python(script: string)
    | ChangeDir(dir: string)
    | MakeDir(dir: string)
    | RunJMeter(testPlan: string, resultsFile: string)
    | MoveOutput(frameNum: int)

  /** _get_id_config_command: the five exports that give a frame its identity. */
  function IdConfigCommand(p: Processor, frameNum: int): (cmd: seq<Step>)
    ensures |cmd| == 5 && forall j :: 0 <= j < |cmd| ==> cmd[j].Export?
  {
    [ Export(GlobalInstanceId, IntToString(frameNum + p.instanceBeginCount)),
      Export(LocalInstanceId, IntToString(frameNum)),
      Export(GlobalInstanceCount, IntToString(p.globalInstances)),
      Export(LocalInstanceCount, IntToString(p.localInstances)),
      Export(CurrentLocation, p.currentLocation) ]
  }

  /** _get_split_files_cmd: run the split script from the worker directory. */
  function SplitFilesCommand(): Step
  {
    Python(HomeDirPath + "/" + WorkerDirPath + "/splitFiles.py")
  }

  /**
   * frameCmd: identity, then the split, then the load test, then the output
   * move. The exports come first and only first, and the split script is
   * the one Python step, right after them.
   */
  function FrameCmd(p: Processor, frameNum: int): (cmd: seq<Step>)
    ensures |cmd| == 10
    ensures forall j :: 0 <= j < |cmd| ==> (cmd[j].Export? <==> j < 5)
    ensures forall j :: 0 <= j < |cmd| ==> (cmd[j].Python? <==> j == 5)
    ensures cmd[8].RunJMeter? && cmd[9] == MoveOutput(frameNum)
  {
    IdConfigCommand(p, frameNum)
    + [ SplitFilesCommand(),
        ChangeDir(WorkerDirPath),
        MakeDir("jmeterOut"),
        RunJMeter(HomeDirPath + "/" + WorkerDirPath + "/" + JMeterFilePath, "jmeterOut/TestPlan_results.csv"),
        MoveOutput(frameNum) ]
  }

  /** Position of the split step, and of the load test, in a frame's chain. */
  const SplitStep := 5
  const TestStep := 8

  /** `export` always succeeds; another step fails when its position is in `failing`. */
  predicate Succeeds(steps: seq<Step>, j: int, failing: set<int>)
    requires 0 <= j < |steps|
  {
    steps[j].Export? || j !in failing
  }

  /** Under `&&`, step k runs iff every step before it succeeded. */
  predicate Runs(steps: seq<Step>, k: int, failing: set<int>)
    requires 0 <= k <= |steps|
  {
    forall j :: 0 <= j < k ==> Succeeds(steps, j, failing)
  }

  /** The environment step k sees: the caller's, updated by the exports before it. */
  function EnvBefore(steps: seq<Step>, env: Env, k: int): Env
    requires 0 <= k <= |steps|
  {
    if k == 0 then env
    else
      var e := EnvBefore(steps, env, k - 1);
      match steps[k - 1]
      case Export(name, value) => e[name := value]
      case _ => e
  }

  /** The identity the frame is meant to have. */
  function FrameIdentity(p: Processor, frameNum: int): Identity
  {
    Identity(frameNum + p.instanceBeginCount, frameNum, p.globalInstances, p.localInstances, p.currentLocation)
  }

  /** The environment the split step sees: the caller's, with the five exports applied in order. */
  lemma EnvAtSplit(p: Processor, frameNum: int, env: Env)
    ensures EnvBefore(FrameCmd(p, frameNum), env, SplitStep) ==
      env[GlobalInstanceId := IntToString(frameNum + p.instanceBeginCount)]
         [LocalInstanceId := IntToString(frameNum)]
         [GlobalInstanceCount := IntToString(p.globalInstances)]
         [LocalInstanceCount := IntToString(p.localInstances)]
         [CurrentLocation := p.currentLocation]
  {
    var cmd := FrameCmd(p, frameNum);
    var e1 := env[GlobalInstanceId := IntToString(frameNum + p.instanceBeginCount)];
    var e2 := e1[LocalInstanceId := IntToString(frameNum)];
    var e3 := e2[GlobalInstanceCount := IntToString(p.globalInstances)];
    var e4 := e3[LocalInstanceCount := IntToString(p.localInstances)];
    assert EnvBefore(cmd, env, 1) == e1;
    assert EnvBefore(cmd, env, 2) == e2;
    assert EnvBefore(cmd, env, 3) == e3;
    assert EnvBefore(cmd, env, 4) == e4;
  }

  /** The identity the split script parses from an environment holding the exports. */
  lemma ParseExportedIdentity(env: Env, g: int, l: int, gc: int, lc: int, loc: string)
    ensures ParseIdentity(env[GlobalInstanceId := IntToString(g)]
                             [LocalInstanceId := IntToString(l)]
                             [GlobalInstanceCount := IntToString(gc)]
                             [LocalInstanceCount := IntToString(lc)]
                             [CurrentLocation := loc]) == Success(Identity(g, l, gc, lc, loc))
  {
    ParseIntToString(g);
    ParseIntToString(l);
    ParseIntToString(gc);
    ParseIntToString(lc);
  }

  /**
   * The split step is the only Python step, it comes right after the five
   * exports, it always runs, and the identity the split script reads in
   * the environment it sees is the frame's own.
   */
  lemma SplitSeesFrameIdentity(p: Processor, frameNum: int, env: Env, failing: set<int>)
    ensures var cmd := FrameCmd(p, frameNum);
      && cmd[SplitStep] == SplitFilesCommand()
      && (forall j :: 0 <= j < |cmd| && cmd[j].Python? ==> j == SplitStep)
      && Runs(cmd, SplitStep, failing)
      && ParseIdentity(EnvBefore(cmd, env, SplitStep)) == Success(FrameIdentity(p, frameNum))
  {
    var cmd := FrameCmd(p, frameNum);
    var ids := IdConfigCommand(p, frameNum);
    assert |cmd| == 10;
    forall j | 0 <= j < 5
      ensures cmd[j] == ids[j] && cmd[j].Export?
    {
    }
    EnvAtSplit(p, frameNum, env);
    ParseExportedIdentity(env, frameNum + p.instanceBeginCount, frameNum, p.globalInstances,
      p.localInstances, p.currentLocation);
  }

  /** The load test starts only if the split, the `cd` and the `mkdir` all succeeded;
      the output is moved only if the load test succeeded. */
  lemma TestRunsOnlyAfterSplit(p: Processor, frameNum: int, failing: set<int>)
    ensures var cmd := FrameCmd(p, frameNum);
      && cmd[TestStep].RunJMeter?
      && (Runs(cmd, TestStep, failing) <==> SplitStep !in failing && 6 !in failing && 7 !in failing)
      && (Runs(cmd, |cmd| - 1, failing) ==> Runs(cmd, TestStep, failing) && TestStep !in failing)
  {
    var cmd := FrameCmd(p, frameNum);
    assert |cmd| == 10;
    assert cmd[5].Python? && cmd[6].ChangeDir? && cmd[7].MakeDir? && cmd[8].RunJMeter?;
    assert forall j :: 0 <= j < 5 ==> cmd[j] == IdConfigCommand(p, frameNum)[j];
    if Runs(cmd, TestStep, failing) {
      assert Succeeds(cmd, 5, failing) && Succeeds(cmd, 6, failing) && Succeeds(cmd, 7, failing);
    }
    if Runs(cmd, |cmd| - 1, failing) {
      assert Succeeds(cmd, 8, failing);
    }
  }

  /**
   * What the split scripts of two frames of one processor read: the global
   * id is the frame number plus instance_begin_count and the local id the
   * frame number, so the two differ by instance_begin_count; the counts and
   * the location are the processor's and do not depend on the frame; and
   * distinct frames get distinct global ids.
   */
  lemma FramesOfOneProcessor(p: Processor, f1: int, f2: int, env1: Env, env2: Env)
    ensures var r1 := ParseIdentity(EnvBefore(FrameCmd(p, f1), env1, SplitStep));
      var r2 := ParseIdentity(EnvBefore(FrameCmd(p, f2), env2, SplitStep));
      && r1.Success? && r2.Success?
      && r1.value.globalId - r1.value.localId == p.instanceBeginCount
      && r1.value.localId == f1
      && r1.value.globalCount == r2.value.globalCount == p.globalInstances
      && r1.value.localCount == r2.value.localCount == p.localInstances
      && r1.value.location == r2.value.location == p.currentLocation
      && (f1 != f2 ==> r1.value.globalId != r2.value.globalId)
  {
    SplitSeesFrameIdentity(p, f1, env1, {});
    SplitSeesFrameIdentity(p, f2, env2, {});
  }

  /** The frame numbers 0..L-1 of a processor whose range of global ids fits
      its run give 0-based identities. */
  lemma ZeroBasedFrames(p: Processor, frameNum: int)
    requires 0 <= frameNum < p.localInstances
    requires 0 <= p.instanceBeginCount && p.instanceBeginCount + p.localInstances <= p.globalInstances
    ensures ZeroBased(FrameIdentity(p, frameNum))
  {
  }

  /** Frames numbered from 1 never have local id 0, so each of them deletes a
      UNIQUE_LOCAL file and no worker of the region keeps it. */
  lemma FramesFromOneDropUniqueLocal(p: Processor, file: FileSpec, frameNum: int)
    requires file.partitionScope == UniqueLocal && frameNum >= 1
    ensures Decide(file, FrameIdentity(p, frameNum)) == Success(Delete)
  {
  }
}
