/** The sliding-window call throttle of package `throttle`: at most `limit` calls in any
    window of `duration`. Instants and durations are integers in nanoseconds; the current
    instant is passed in by the caller instead of being read from the clock. */
module Throttle {

  /** Go's `time.Second`, in nanoseconds. */
  const Second: int := 1_000_000_000

  function Max(a: int, b: int): int { if a >= b then a else b }

  predicate Sorted(s: seq<int>) {
    forall i, j :: 0 <= i <= j < |s| ==> s[i] <= s[j]
  }

  // ---------------------------------------------------------------- one call

  /** The instant reserved by a call at `now`, given the queue `q` of the latest reservations:
      `now` while the queue is not full; otherwise the later of `now` and the instant that lies
      `duration` after the oldest queued reservation. */
  function Reservation(q: seq<int>, limit: nat, duration: int, now: int): (r: int)
    requires 1 <= limit
    ensures r >= now
    ensures |q| < limit ==> r == now
    ensures limit <= |q| ==> r >= q[0] + duration && (r == now || r == q[0] + duration)
  {
    if |q| < limit then now else Max(q[0] + duration, now)
  }

  /** The queue after a call at `now`: the reservation is appended, and when the queue was full
      its oldest entry is dropped first. */
  function Admit(q: seq<int>, limit: nat, duration: int, now: int): (q': seq<int>)
    requires 1 <= limit
    ensures |q'| == if |q| < limit then |q| + 1 else |q|
  {
    if |q| < limit then q + [now] else q[1..] + [Reservation(q, limit, duration, now)]
  }

  /** The three branches of `GetSleepDuration`, on a queue that is never over-full. */
  lemma AdmitCases(q: seq<int>, limit: nat, duration: int, now: int)
    requires 1 <= limit && |q| <= limit
    ensures |q| == limit && q[0] + duration > now ==>
              Admit(q, limit, duration, now) == q[1..] + [q[0] + duration] &&
              Reservation(q, limit, duration, now) == q[0] + duration
    ensures |q| == limit && q[0] + duration <= now ==>
              Admit(q, limit, duration, now) == q[1..] + [now] &&
              Reservation(q, limit, duration, now) == now
    ensures |q| < limit ==>
              Admit(q, limit, duration, now) == q + [now] && Reservation(q, limit, duration, now) == now
  {
  }

  /** The wait returned to the caller: how far the reservation lies after `now`. */
  lemma WaitIsDelayUntilOldestExpires(q: seq<int>, limit: nat, duration: int, now: int)
    requires 1 <= limit
    ensures var wait := Reservation(q, limit, duration, now) - now;
            wait >= 0 &&
            wait == if limit <= |q| && q[0] + duration > now then q[0] + duration - now else 0
  {
  }

  // ---------------------------------------------------------------- the history of calls

  /** The last `n` elements of `s` (all of them when there are fewer). */
  function Recent(s: seq<int>, n: nat): (r: seq<int>)
    ensures |r| == if |s| <= n then |s| else n
  {
    if |s| <= n then s else s[|s| - n..]
  }

  /** `r[k]` is the reservation made by the call at clock reading `t[k]`: the first `limit`
      calls reserve their own instant, every later one the later of its instant and `duration`
      after the reservation `limit` calls before it. */
  ghost predicate Scheduled(r: seq<int>, t: seq<int>, limit: nat, duration: int) {
    |r| == |t| && forall k :: 0 <= k < |r| ==> ScheduledAt(r, t, limit, duration, k)
  }

  ghost predicate ScheduledAt(r: seq<int>, t: seq<int>, limit: nat, duration: int, k: nat)
    requires k < |r| && k < |t|
  {
    r[k] == if k < limit then t[k] else Max(r[k - limit] + duration, t[k])
  }

  /** The reservations handed out for the clock readings `t`, one call after another, each
      by `Reservation` on the latest `limit` reservations before it. */
  ghost function Schedule(t: seq<int>, limit: nat, duration: int): (r: seq<int>)
    requires 1 <= limit
    ensures |r| == |t|
  {
    if t == [] then []
    else
      var r := Schedule(t[..|t| - 1], limit, duration);
      r + [Reservation(Recent(r, limit), limit, duration, t[|t| - 1])]
  }

  /** The queue of a throttle that has seen the clock readings `t`, starting empty. */
  ghost function QueueOf(t: seq<int>, limit: nat, duration: int): seq<int>
    requires 1 <= limit
  {
    if t == [] then [] else Admit(QueueOf(t[..|t| - 1], limit, duration), limit, duration, t[|t| - 1])
  }

  /** The queue of the latest `limit` reservations evolves by `Admit`. */
  lemma RecentStep(r: seq<int>, limit: nat, duration: int, now: int)
    requires 1 <= limit
    ensures var q := Recent(r, limit);
            Recent(r + [Reservation(q, limit, duration, now)], limit) == Admit(q, limit, duration, now)
  {
    var q := Recent(r, limit);
    var v := Reservation(q, limit, duration, now);
    var r' := r + [v];
    if limit <= |r| {
      assert q == r[|r| - limit..] && q[0] == r[|r| - limit];
      assert Recent(r', limit) == r'[|r'| - limit..] == q[1..] + [v];
    }
  }

  /** The queue always holds the latest `limit` reservations. */
  lemma {:induction false} QueueIsRecent(t: seq<int>, limit: nat, duration: int)
    requires 1 <= limit
    ensures QueueOf(t, limit, duration) == Recent(Schedule(t, limit, duration), limit)
    decreases |t|
  {
    if t != [] {
      QueueIsRecent(t[..|t| - 1], limit, duration);
      RecentStep(Schedule(t[..|t| - 1], limit, duration), limit, duration, t[|t| - 1]);
    }
  }

  /** The instant a call reserves, as computed on the queue, is the schedule's entry for it. */
  lemma ReservationIsScheduled(t: seq<int>, limit: nat, duration: int, now: int)
    requires 1 <= limit
    ensures Schedule(t + [now], limit, duration) ==
            Schedule(t, limit, duration) + [Reservation(QueueOf(t, limit, duration), limit, duration, now)]
  {
    assert (t + [now])[..|t|] == t;
    QueueIsRecent(t, limit, duration);
  }

  /** One more call extends a schedule that follows the recurrence. */
  lemma ScheduleStep(r: seq<int>, t: seq<int>, limit: nat, duration: int, now: int)
    requires 1 <= limit && Scheduled(r, t, limit, duration)
    ensures var v := Reservation(Recent(r, limit), limit, duration, now);
            Scheduled(r + [v], t + [now], limit, duration)
  {
    var q := Recent(r, limit);
    var v := Reservation(q, limit, duration, now);
    var r', t' := r + [v], t + [now];
    assert limit <= |r| ==> q[0] == r[|r| - limit];
    forall k | 0 <= k < |r'| ensures ScheduledAt(r', t', limit, duration, k) {
      if k < |r| {
        assert ScheduledAt(r, t, limit, duration, k);
        assert r'[k] == r[k] && t'[k] == t[k];
        assert k >= limit ==> r'[k - limit] == r[k - limit];
      } else {
        assert k >= limit ==> r'[k - limit] == r[|r| - limit] == q[0];
      }
    }
  }

  /** The reservations the throttle hands out follow the recurrence. */
  lemma {:induction false} ScheduleFollowsRecurrence(t: seq<int>, limit: nat, duration: int)
    requires 1 <= limit
    ensures Scheduled(Schedule(t, limit, duration), t, limit, duration)
    decreases |t|
  {
    if t != [] {
      var t0, now := t[..|t| - 1], t[|t| - 1];
      ScheduleFollowsRecurrence(t0, limit, duration);
      ScheduleStep(Schedule(t0, limit, duration), t0, limit, duration, now);
      assert t0 + [now] == t;
    }
  }

  /** Each call's reservation is no earlier than the previous one's, given a clock that never
      goes back. */
  lemma {:induction false} ScheduleStepUp(r: seq<int>, t: seq<int>, limit: nat, duration: int, k: nat)
    requires 1 <= limit && Scheduled(r, t, limit, duration) && Sorted(t)
    requires 1 <= k < |r|
    ensures r[k - 1] <= r[k]
    decreases k
  {
    assert ScheduledAt(r, t, limit, duration, k) && ScheduledAt(r, t, limit, duration, k - 1);
    assert t[k - 1] <= t[k];
    if k > limit {
      ScheduleStepUp(r, t, limit, duration, k - limit);
    }
  }

  /** With a clock that never goes back, the reservations are in ascending order. */
  lemma ScheduleSorted(r: seq<int>, t: seq<int>, limit: nat, duration: int)
    requires 1 <= limit && Scheduled(r, t, limit, duration) && Sorted(t)
    ensures Sorted(r)
  {
    forall i, j | 0 <= i <= j < |r| ensures r[i] <= r[j] {
      AscendingUpTo(r, t, limit, duration, i, j);
    }
  }

  lemma {:induction false} AscendingUpTo(r: seq<int>, t: seq<int>, limit: nat, duration: int, i: nat, j: nat)
    requires 1 <= limit && Scheduled(r, t, limit, duration) && Sorted(t)
    requires i <= j < |r|
    ensures r[i] <= r[j]
    decreases j - i
  {
    if i < j {
      AscendingUpTo(r, t, limit, duration, i, j - 1);
      ScheduleStepUp(r, t, limit, duration, j);
    }
  }

  // ---------------------------------------------------------------- the rate bound

  /** Every reservation lies at least `duration` after the one `limit` calls before it. */
  ghost predicate Spaced(s: seq<int>, limit: nat, duration: int) {
    forall k :: limit <= k < |s| ==> s[k] >= s[k - limit] + duration
  }

  lemma SchedulesAreSpaced(r: seq<int>, t: seq<int>, limit: nat, duration: int)
    requires Scheduled(r, t, limit, duration)
    ensures Spaced(r, limit, duration)
  {
    forall k | limit <= k < |r| ensures r[k] >= r[k - limit] + duration {
      assert ScheduledAt(r, t, limit, duration, k);
    }
  }

  /** How many elements of `s` fall in the half-open window `[lo, hi)`. */
  function WindowCount(s: seq<int>, lo: int, hi: int): (n: nat)
    ensures n <= |s|
  {
    if s == [] then 0 else (if lo <= s[0] < hi then 1 else 0) + WindowCount(s[1..], lo, hi)
  }

  lemma {:induction false} WindowCountPrefix(s: seq<int>, n: nat, lo: int, hi: int)
    requires n <= |s|
    requires forall k :: n <= k < |s| ==> s[k] >= hi
    ensures WindowCount(s, lo, hi) == WindowCount(s[..n], lo, hi)
  {
    if n == 0 {
      if s != [] {
        WindowCountPrefix(s[1..], 0, lo, hi);
      }
    } else {
      assert s[..n][1..] == s[1..][..n - 1];
      WindowCountPrefix(s[1..], n - 1, lo, hi);
    }
  }

  /** A sorted sequence whose elements `limit` apart are at least `duration` apart has at most
      `limit` elements in any window of length `duration`. */
  lemma {:induction false} SpacedWindowBound(s: seq<int>, limit: nat, duration: int, lo: int)
    requires Sorted(s) && Spaced(s, limit, duration)
    ensures WindowCount(s, lo, lo + duration) <= limit
    decreases |s|
  {
    if s == [] {
    } else if s[0] < lo {
      var s' := s[1..];
      forall k | limit <= k < |s'| ensures s'[k] >= s'[k - limit] + duration {
        assert s'[k] == s[k + 1] && s'[k - limit] == s[k + 1 - limit];
      }
      SpacedWindowBound(s', limit, duration, lo);
    } else {
      var n := if |s| <= limit then |s| else limit;
      forall k | n <= k < |s| ensures s[k] >= lo + duration {
        assert s[k] >= s[k - limit] + duration && s[k - limit] >= s[0];
      }
      WindowCountPrefix(s, n, lo, lo + duration);
    }
  }

  /** The throttle's purpose: with a clock that never goes back, at most `limit` reserved
      instants fall in any window `[lo, lo + duration)`. */
  lemma ScheduleRateBound(r: seq<int>, t: seq<int>, limit: nat, duration: int, lo: int)
    requires 1 <= limit && Scheduled(r, t, limit, duration) && Sorted(t)
    ensures WindowCount(r, lo, lo + duration) <= limit
  {
    ScheduleSorted(r, t, limit, duration);
    SchedulesAreSpaced(r, t, limit, duration);
    SpacedWindowBound(r, limit, duration, lo);
  }

  // ---------------------------------------------------------------- the Go type

  /** `TThrottle`. The `sync.Mutex` it embeds is left out, and `initialized` stands for
      "`fifo` is not nil". The ghost field `calls` records every clock reading passed in. */
  class TThrottle {
    var limit: int
    var duration: int
    var initialized: bool
    var fifo: seq<int>
    ghost var calls: seq<int>

    ghost predicate Valid()
      reads this
    {
      initialized ==> 1 <= limit && |fifo| <= limit && fifo == QueueOf(calls, limit, duration)
    }

    /** The instants handed out so far, one per call. */
    ghost function Reserved(): (r: seq<int>)
      reads this
      requires Valid() && initialized
      ensures |r| == |calls|
    {
      Schedule(calls, limit, duration)
    }

    /** The zero value of the Go struct. */
    constructor ()
      ensures Valid() && !initialized
      ensures limit == 0 && duration == 0 && fifo == []
    {
      limit, duration, initialized, fifo := 0, 0, false, [];
      calls := [];
    }

    /** `Init`: a limit of calls per `denominatorSeconds` seconds and an empty queue of
        capacity `numeratorLimit`. A limit below 1 is refused: Go's `make` panics on a
        negative capacity, and with capacity 0 the first call would block for ever. */
    method Init(numeratorLimit: int, denominatorSeconds: int)
      requires 1 <= numeratorLimit
      modifies this
      ensures Valid() && initialized
      ensures limit == numeratorLimit && duration == Second * denominatorSeconds
      ensures fifo == [] && calls == []
    {
      limit := numeratorLimit;
      duration := Second * denominatorSeconds;
      fifo := [];
      initialized := true;
      calls := [];
    }

    /** `GetSleepDuration` at clock reading `now`: reserves an instant for the caller, records it
        in the queue and returns how long the caller must wait for it. */
    method GetSleepDuration(now: int) returns (dur: int)
      requires Valid() && initialized
      modifies this
      ensures Valid() && initialized
      ensures limit == old(limit) && duration == old(duration)
      ensures fifo == Admit(old(fifo), limit, duration, now)
      ensures dur == Reservation(old(fifo), limit, duration, now) - now && dur >= 0
      ensures calls == old(calls) + [now]
    {
      var q := fifo;
      AdmitCases(q, limit, duration, now);
      if limit == |q| {
        var next := q[0] + duration;
        if next > now {
          fifo := q[1..] + [next];
          dur := next - now;
        } else {
          fifo := q[1..] + [now];
          dur := 0;
        }
      } else {
        fifo := q + [now];
        dur := 0;
      }
      assert (calls + [now])[..|calls|] == calls;
      calls := calls + [now];
    }
  }

  /** What the throttle promises its callers: if every call passed a clock reading no earlier
      than the previous one, no window of length `duration` contains more than `limit` of the
      instants handed out. */
  lemma RateBound(th: TThrottle, lo: int)
    requires th.Valid() && th.initialized && Sorted(th.calls)
    ensures WindowCount(th.Reserved(), lo, lo + th.duration) <= th.limit
  {
    ScheduleFollowsRecurrence(th.calls, th.limit, th.duration);
    ScheduleRateBound(th.Reserved(), th.calls, th.limit, th.duration, lo);
  }

  /** With a clock that never goes back, the queue is in ascending order. */
  lemma QueueSorted(th: TThrottle)
    requires th.Valid() && th.initialized && Sorted(th.calls)
    ensures Sorted(th.fifo)
  {
    var r := th.Reserved();
    QueueIsRecent(th.calls, th.limit, th.duration);
    ScheduleFollowsRecurrence(th.calls, th.limit, th.duration);
    ScheduleSorted(r, th.calls, th.limit, th.duration);
    SuffixSorted(r, |r| - |th.fifo|);
  }

  lemma SuffixSorted(s: seq<int>, k: nat)
    requires Sorted(s) && k <= |s|
    ensures Sorted(s[k..])
  {
    forall i, j | 0 <= i <= j < |s| - k ensures s[k..][i] <= s[k..][j] {
      assert s[k..][i] == s[k + i] && s[k..][j] == s[k + j];
    }
  }

  /** Three calls per ten seconds: three calls at once go straight through, a fourth must wait
      the full ten seconds, and a call ten seconds later goes straight through again. */
  method ThreePerTenSeconds() {
    var th := new TThrottle();
    th.Init(3, 10);
    var d1 := th.GetSleepDuration(0);
    var d2 := th.GetSleepDuration(0);
    var d3 := th.GetSleepDuration(0);
    assert d1 == d2 == d3 == 0;
    var d4 := th.GetSleepDuration(0);
    assert d4 == 10 * Second;
    var d5 := th.GetSleepDuration(10 * Second);
    assert d5 == 0;
  }
}
