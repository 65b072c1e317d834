/**
  The worker loop of the program, read serially: workers run one after the
  other, sharing the counters frameIndex and normalizedFrameIndex. Each call
  of prepareFrame the loop makes is recorded as a Job: the worker that makes
  it, the output slot it fills and the source frame it reads.
 */
module Scheduler {

  datatype Job = Job(worker: nat, slot: nat, source: nat)

  /** framesPerThread: a per-worker budget of `count / threads + 1` slots. */
  function Budget(count: nat, threads: nat): (budget: nat)
    requires threads >= 1
    ensures budget >= 1
    ensures threads * budget > count
  {
    var q := count / threads;
    assert count == threads * q + count % threads;
    assert threads * (q + 1) == threads * q + threads;
    q + 1
  }

  /** A positive multiple of n is at least n. */
  lemma MulAtLeast(a: int, n: int)
    requires a >= 1 && n >= 1
    ensures a * n >= n
  {
  }

  /** Euclidean division is unique: a quotient and remainder in range are the ones `/` and `%` give. */
  lemma DivModUnique(x: int, n: int, q: int, r: int)
    requires n >= 1 && 0 <= r < n && x == q * n + r
    ensures x / n == q && x % n == r
  {
    var q', r' := x / n, x % n;
    assert x == q' * n + r';
    assert (q - q') * n == r' - r;
    if q > q' {
      MulAtLeast(q - q', n);
      assert false;
    } else if q < q' {
      MulAtLeast(q' - q, n);
      assert false;
    }
  }

  /** Advancing a counter by one advances its remainder by one, wrapping at n. */
  lemma ModSucc(x: nat, n: nat)
    requires n >= 1
    ensures (x + 1) % n == if x % n + 1 == n then 0 else x % n + 1
  {
    var q := x / n;
    assert x == q * n + x % n;
    if x % n + 1 == n {
      DivModUnique(x + 1, n, q + 1, 0);
    } else {
      DivModUnique(x + 1, n, q, x % n + 1);
    }
  }

  /**
    The wrapped counter at the top of a loop iteration: at most n, congruent
    to frameIndex modulo n (it equals n only just before it wraps to 0).
   */
  ghost predicate Normalized(normalizedFrameIndex: nat, frameIndex: nat, n: nat)
    requires n >= 1
  {
    && normalizedFrameIndex <= n
    && (normalizedFrameIndex < n ==> normalizedFrameIndex == frameIndex % n)
    && (normalizedFrameIndex == n ==> frameIndex % n == 0)
  }

  /**
    The loop exactly as the program has it: `processed` is never
    incremented, so the budget never ends a worker's run; the first worker
    processes every slot and the others find nothing left. Slot i reads
    source frame i mod sourceCount, and no slot is processed twice.
   */
  method ScheduleAsWritten(frameCount: nat, sourceCount: nat, threads: nat) returns (jobs: seq<Job>)
    requires sourceCount >= 1 && threads >= 1
    ensures |jobs| == frameCount
    ensures forall i :: 0 <= i < |jobs| ==> jobs[i] == Job(0, i, i % sourceCount)
  {
    var framesPerThread := Budget(sourceCount, threads);
    var frameIndex, normalizedFrameIndex := 0, 0;
    jobs := [];
    for w := 0 to threads
      invariant frameIndex == |jobs| <= frameCount
      invariant w > 0 ==> frameIndex == frameCount
      invariant Normalized(normalizedFrameIndex, frameIndex, sourceCount)
      invariant forall i :: 0 <= i < |jobs| ==> jobs[i] == Job(0, i, i % sourceCount)
    {
      var processed := 0;
      while processed < framesPerThread
        invariant processed == 0
        invariant frameIndex == |jobs| <= frameCount
        invariant w > 0 ==> frameIndex == frameCount
        invariant Normalized(normalizedFrameIndex, frameIndex, sourceCount)
        invariant forall i :: 0 <= i < |jobs| ==> jobs[i] == Job(0, i, i % sourceCount)
        decreases frameCount - frameIndex
      {
        if frameIndex >= frameCount {
          break;
        }
        if normalizedFrameIndex >= sourceCount {
          normalizedFrameIndex := 0;
        }
        jobs := jobs + [Job(w, frameIndex, normalizedFrameIndex)];
        ModSucc(frameIndex, sourceCount);
        frameIndex := frameIndex + 1;
        normalizedFrameIndex := normalizedFrameIndex + 1;
      }
    }
  }

  /**
    A concrete run of the loop as written: three source frames, a loop count
    of two (six output slots) and two workers. The budget is 3 / 2 + 1 = 2
    slots per worker, yet the first worker processes all six.
   */
  method AsWrittenBudgetOverrun() returns (jobs: seq<Job>, framesPerThread: nat)
    ensures framesPerThread == 2
    ensures |jobs| == 6
    ensures forall j :: j in jobs ==> j.worker == 0
  {
    framesPerThread := Budget(3, 2);
    jobs := ScheduleAsWritten(3 * 2, 3, 2);
  }

  /**
    The loop as intended: each worker counts the slots it processes and
    stops at its budget, which is taken from the number of output slots.
    Every slot is processed exactly once, slot i reads source frame
    i mod sourceCount, and worker w processes only slots in
    [w * budget, w * budget + budget), so at most `budget` of them.
   */
  method Schedule(frameCount: nat, sourceCount: nat, threads: nat) returns (jobs: seq<Job>)
    requires sourceCount >= 1 && threads >= 1
    ensures |jobs| == frameCount
    ensures forall i :: 0 <= i < |jobs| ==> jobs[i].slot == i && jobs[i].source == i % sourceCount
    ensures forall i :: 0 <= i < |jobs| ==> jobs[i].worker < threads
    ensures forall i :: 0 <= i < |jobs| ==>
      jobs[i].worker * Budget(frameCount, threads) <= i < jobs[i].worker * Budget(frameCount, threads) + Budget(frameCount, threads)
  {
    var framesPerThread := Budget(frameCount, threads);
    var frameIndex, normalizedFrameIndex := 0, 0;
    jobs := [];
    for w := 0 to threads
      invariant frameIndex == |jobs| <= frameCount
      invariant frameIndex <= w * framesPerThread
      invariant frameIndex < frameCount ==> frameIndex == w * framesPerThread
      invariant Normalized(normalizedFrameIndex, frameIndex, sourceCount)
      invariant forall i :: 0 <= i < |jobs| ==> jobs[i].slot == i && jobs[i].source == i % sourceCount
      invariant forall i :: 0 <= i < |jobs| ==> jobs[i].worker < w
      invariant forall i :: 0 <= i < |jobs| ==>
        jobs[i].worker * framesPerThread <= i < jobs[i].worker * framesPerThread + framesPerThread
    {
      var processed := 0;
      while processed < framesPerThread
        invariant 0 <= processed <= framesPerThread
        invariant frameIndex == |jobs| <= frameCount
        invariant frameIndex <= w * framesPerThread + processed
        invariant frameIndex < frameCount ==> frameIndex == w * framesPerThread + processed
        invariant Normalized(normalizedFrameIndex, frameIndex, sourceCount)
        invariant forall i :: 0 <= i < |jobs| ==> jobs[i].slot == i && jobs[i].source == i % sourceCount
        invariant forall i :: 0 <= i < |jobs| ==> jobs[i].worker <= w
        invariant forall i :: 0 <= i < |jobs| ==>
          jobs[i].worker * framesPerThread <= i < jobs[i].worker * framesPerThread + framesPerThread
      {
        if frameIndex >= frameCount {
          break;
        }
        if normalizedFrameIndex >= sourceCount {
          normalizedFrameIndex := 0;
        }
        jobs := jobs + [Job(w, frameIndex, normalizedFrameIndex)];
        ModSucc(frameIndex, sourceCount);
        frameIndex := frameIndex + 1;
        normalizedFrameIndex := normalizedFrameIndex + 1;
        processed := processed + 1;
      }
      assert (w + 1) * framesPerThread == w * framesPerThread + framesPerThread;
    }
  }
}
