/** Frame pacing: the deadline arithmetic at the head of `Capture::next`. */
module Pacing {

  /** The deadline after a call entered at `now` with deadline `due`. */
  function NextDeadline(due: int, now: int, frame: nat): int {
    if due + frame < now then now + frame else due + frame
  }

  /** The deadline call `k` finds, when the calls before it entered at `nows`. */
  function Deadline(due: int, frame: nat, nows: seq<int>, k: nat): int
    requires k <= |nows|
  {
    if k == 0 then due else NextDeadline(Deadline(due, frame, nows, k - 1), nows[k - 1], frame)
  }

  /** A run of calls: each enters no earlier than the previous one sampled, and, having
      slept, samples no earlier than its entry and its deadline. */
  ghost predicate Run(due: int, frame: nat, nows: seq<int>, samples: seq<int>) {
    && |nows| == |samples|
    && (forall k | 0 <= k < |nows| :: samples[k] >= nows[k] && samples[k] >= Deadline(due, frame, nows, k))
    && (forall k | 0 < k < |nows| :: nows[k] >= samples[k - 1])
  }

  lemma {:induction false} DeadlinePrefix(due: int, frame: nat, nows: seq<int>, more: seq<int>, k: nat)
    requires k <= |nows|
    ensures Deadline(due, frame, nows + more, k) == Deadline(due, frame, nows, k)
  {
    if k > 0 {
      DeadlinePrefix(due, frame, nows, more, k - 1);
    }
  }

  lemma NoCalls(due: int, frame: nat)
    ensures Run(due, frame, [], []) && Deadline(due, frame, [], 0) == due
  {
  }

  /** One more call of a run. */
  lemma RunSnoc(due: int, frame: nat, nows: seq<int>, samples: seq<int>, now: int, sample: int)
    requires Run(due, frame, nows, samples)
    requires sample >= now && sample >= Deadline(due, frame, nows, |nows|)
    requires samples != [] ==> now >= samples[|samples| - 1]
    ensures Run(due, frame, nows + [now], samples + [sample])
    ensures |nows| == |samples|
    ensures Deadline(due, frame, nows + [now], |nows| + 1)
         == NextDeadline(Deadline(due, frame, nows, |nows|), now, frame)
  {
    hide NextDeadline;
    forall k: nat | k <= |nows| ensures Deadline(due, frame, nows + [now], k) == Deadline(due, frame, nows, k) {
      DeadlinePrefix(due, frame, nows, [now], k);
    }
  }

  /** However long call `i` was delayed, the calls after it are spaced: the k-th call
      after it finds a deadline no earlier than its entry plus k-1 intervals. */
  lemma {:induction false} DeadlinesSpaced(due: int, frame: nat, nows: seq<int>, i: nat, j: nat)
    requires i < j <= |nows|
    ensures Deadline(due, frame, nows, j) >= nows[i] + (j - i - 1) * frame
    decreases j
  {
    if j == i + 1 {
      assert (j - i - 1) * frame == 0;
    } else {
      DeadlinesSpaced(due, frame, nows, i, j - 1);
      assert (j - i - 1) * frame == (j - 1 - i - 1) * frame + frame;
    }
  }

  /** A stall costs at most one frame of catch-up: the k-th call after one entered at
      time t samples no earlier than t plus k-1 intervals. */
  lemma NoBurst(due: int, frame: nat, nows: seq<int>, samples: seq<int>, i: nat, k: nat)
    requires Run(due, frame, nows, samples)
    requires 0 < k && i + k < |nows|
    ensures samples[i + k] >= nows[i] + (k - 1) * frame
  {
    DeadlinesSpaced(due, frame, nows, i, i + k);
    hide Deadline;
    assert (i + k) - i - 1 == k - 1;
  }

  /** No deadline is set far off: each is past the one before by an interval or more, not
      before the call's entry by more than it, and at most one interval past the later of
      the two. */
  lemma DeadlineStaysNear(due: int, frame: nat, nows: seq<int>, k: nat)
    requires k < |nows|
    ensures var was, now, next := Deadline(due, frame, nows, k), nows[k], Deadline(due, frame, nows, k + 1);
            && was + frame <= next && now <= next
            && next <= (if was < now then now else was) + frame
            && (next == was + frame || next == now + frame)
  {
  }

  predicate InSlot(due: int, frame: nat, nows: seq<int>, j: nat)
    requires j < |nows|
  {
    nows[j] <= Deadline(due, frame, nows, j) + frame
  }

  /** The other bound: deadlines advance by at least one interval a call, and by exactly
      one while no call enters later than the end of its own slot. */
  lemma {:induction false} DeadlinesAdvance(due: int, frame: nat, nows: seq<int>, i: nat, k: nat)
    requires i + k <= |nows|
    ensures Deadline(due, frame, nows, i + k) >= Deadline(due, frame, nows, i) + k * frame
    ensures Deadline(due, frame, nows, i + k) == Deadline(due, frame, nows, i) + k * frame
       <==> forall j | i <= j < i + k :: InSlot(due, frame, nows, j)
    decreases k
  {
    if k > 0 {
      DeadlinesAdvance(due, frame, nows, i, k - 1);
      var last := i + k - 1;
      assert InSlot(due, frame, nows, last)
        <==> Deadline(due, frame, nows, last + 1) == Deadline(due, frame, nows, last) + frame;
      assert k * frame == (k - 1) * frame + frame;
    }
  }
}
