/** The status of a job, as the set of the status bits that are set. */
module JobStatus {
  datatype Stat = PEND | PSUSP | RUN | SSUSP | USUSP | EXIT | DONE | PDONE | PERR | WAIT | UNKWN | VOID | PRE_EXEC

  type Status = set<Stat>

  predicate IsPend(s: Status) { PEND in s || PSUSP in s }
  predicate IsFinish(s: Status) { DONE in s || EXIT in s }
  predicate IsPostDone(s: Status) { PDONE in s }
  predicate IsPostErr(s: Status) { PERR in s }
  predicate IsPostFinish(s: Status) { IsPostDone(s) || IsPostErr(s) }
}
