/**
 * Play-time accounting.  The game keeps the play time banked so far
 * (`time`, milliseconds) and the uptime at which the current active interval
 * began (`activeFrom`), with -1 meaning "not active".  Uptime readings are
 * parameters (`now`), never read from a clock here.
 */
module Clock {

  const Inactive := -1

  /**
   * `getTime()`: the banked time plus the running interval, if one is running;
   * while active that is exactly what `pause()` would bank.
   */
  function Elapsed(time: int, activeFrom: int, now: int): (r: int)
    ensures activeFrom == Inactive ==> r == time
    ensures activeFrom != Inactive ==> r == Banked(time, activeFrom, now)
  {
    if activeFrom != Inactive then time + now - activeFrom else time
  }

  /** What `pause()` banks: the running interval folded into `time` (unguarded, as the game does it). */
  function Banked(time: int, activeFrom: int, now: int): int {
    time + now - activeFrom
  }

  /** Pausing an active game leaves the reported play time where it was. */
  lemma PauseKeepsElapsed(time: int, activeFrom: int, now: int)
    requires activeFrom != Inactive
    ensures Elapsed(Banked(time, activeFrom, now), Inactive, now) == Elapsed(time, activeFrom, now)
  {
  }

  /** While inactive the reported time is frozen; while active it never runs backwards. */
  lemma ElapsedMonotone(time: int, activeFrom: int, now: int, later: int)
    requires now <= later
    ensures activeFrom == Inactive ==> Elapsed(time, activeFrom, later) == Elapsed(time, activeFrom, now)
    ensures Elapsed(time, activeFrom, now) <= Elapsed(time, activeFrom, later)
  {
  }

  /** One resume/pause pair: the game became active at `resumedAt` and paused at `pausedAt`. */
  datatype Interval = Interval(resumedAt: int, pausedAt: int)

  /** The banked time after a series of resume-then-pause pairs, starting from `time`. */
  function AfterSessions(time: int, sessions: seq<Interval>): int
    decreases |sessions|
  {
    if sessions == [] then time
    else AfterSessions(Banked(time, sessions[0].resumedAt, sessions[0].pausedAt), sessions[1..])
  }

  function ActiveTotal(sessions: seq<Interval>): int
    decreases |sessions|
  {
    if sessions == [] then 0
    else sessions[0].pausedAt - sessions[0].resumedAt + ActiveTotal(sessions[1..])
  }

  /** Play time is exactly the sum of the active intervals: no gap between sessions is counted. */
  lemma {:induction false} SessionsAddUp(time: int, sessions: seq<Interval>)
    ensures AfterSessions(time, sessions) == time + ActiveTotal(sessions)
    decreases |sessions|
  {
    if sessions != [] {
      SessionsAddUp(Banked(time, sessions[0].resumedAt, sessions[0].pausedAt), sessions[1..]);
    }
  }
}
