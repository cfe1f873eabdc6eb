/** The leaves of a dependency condition: what a condition may ask about a job,
    a job array, an array's counters or a time window. */
module DepLeaf {
  import opened JobIndex
  import opened JobStatus
  import opened Wrappers

  /** `(array job id, element index)`; the index is 0 for an array head and for a plain job. */
  datatype JobId = JobId(base: int, idx: int)

  /** `chain` lists the elements of a job array in `nextJob` order. */
  datatype Job = Job(id: JobId, isArray: bool, chain: seq<Ref>, status: Status, lastRunSucc: bool,
                     exitStatus: int, startTime: int, endTime: int)

  type Ref = nat

  datatype RelOp = GT | GE | LT | LE | EQ | NE | ALWAYS

  datatype JobKind = Done | Exit | Started | Ended | PostDone | PostErr

  datatype CountKind = NumPend | NumHold | NumRun | NumExit | NumDone | NumStart | NumEnded

  type IdxList = l: seq<Range> | Steps(l) witness []

  /** `jobs` are the elements named by the condition, in `depJobList` order. */
  datatype JobIdx = JobIdx(ranges: IdxList, jobs: seq<Ref>)

  datatype Leaf =
    | JobLeaf(kind: JobKind, op: RelOp, exitCode: int, job: Option<Ref>, idx: Option<JobIdx>, oneToOne: bool)
    | CountLeaf(counter: CountKind, cop: RelOp, num: int, group: Option<Ref>)
    | WindowLeaf(window: Ref)
}
