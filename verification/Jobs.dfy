/** Jobs as the scheduler reads them from the job table. */
module Jobs {

  datatype Option<+T> = None | Some(value: T)

  type JobId = string

  datatype Status =
    | Unapproved | Queued | Scheduling | Running
    | Finished | Failed | Error
    | Killing | Killed | Pausing | Paused

  /** The part of a job row that no transition changes. `workers` is the optional "numpsworker" parameter,
      `device` the "gpuType" parameter ("any" when absent) and `time` the printed submission time. */
  datatype Spec = Spec(user: string, vc: string, device: string, resourceGpu: int, workers: Option<int>,
                       preemptible: bool, time: string)

  datatype Job = Job(id: JobId, spec: Spec, status: Status)

  /** Devices over all workers; zero workers count as one (GetJobTotalGpu). */
  function TotalGpu(spec: Spec): int {
    spec.resourceGpu * (if spec.workers.None? || spec.workers.value == 0 then 1 else spec.workers.value)
  }

  /** What the ledgers charge for a job: requests of zero or less are free. */
  function Need(spec: Spec): nat {
    if TotalGpu(spec) > 0 then TotalGpu(spec) else 0
  }

  predicate IsActive(status: Status) {
    status == Scheduling || status == Running
  }

  /** The rows a scheduling round looks at. */
  predicate IsConsidered(status: Status) {
    status == Queued || IsActive(status)
  }
}
