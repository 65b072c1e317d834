/**
  The processing part of the program's main function: it allocates one
  output frame per slot of the looped animation, tints each from its source
  frame with that slot's overlay colour, and rebuilds the per-frame delays
  and disposal codes for the new frame count.
 */
module Animation {
  import opened Colors
  import opened Frames
  import opened Scheduler

  /** A decoded animated GIF: its frames and, per frame, a delay and a disposal code. */
  class Gif {
    var image: seq<Paletted>
    var delay: seq<int>
    var disposal: seq<byte>

    /** The decoder's guarantees: at least one frame, one delay and one disposal code per frame. */
    ghost predicate Valid()
      reads this
    {
      |image| >= 1 && |delay| == |image| && |disposal| == |image|
    }
  }

  /** `s` repeated `k` times, one copy after the other. */
  function Repeat<T>(s: seq<T>, k: nat): (r: seq<T>) {
    if k == 0 then [] else s + Repeat(s, k - 1)
  }

  /** Entry i of `s` repeated k times is entry i mod |s| of `s`. */
  lemma {:induction false} RepeatAt<T>(s: seq<T>, k: nat, i: nat)
    requires |s| >= 1 && i < |s| * k
    ensures |Repeat(s, k)| == |s| * k
    ensures Repeat(s, k)[i] == s[i % |s|]
  {
    RepeatLength(s, k);
    if k >= 1 {
      assert |s| * k == |s| + |s| * (k - 1);
      if i < |s| {
        DivModUnique(i, |s|, 0, i);
      } else {
        RepeatAt(s, k - 1, i - |s|);
        DivModUnique(i, |s|, (i - |s|) / |s| + 1, (i - |s|) % |s|);
      }
    }
  }

  /** `s` repeated k times has k times its length. */
  lemma {:induction false} RepeatLength<T>(s: seq<T>, k: nat)
    ensures |Repeat(s, k)| == |s| * k
  {
    if k >= 1 {
      RepeatLength(s, k - 1);
      assert |s| * k == |s| + |s| * (k - 1);
    }
  }

  /**
    Cycling `s` to `count` entries with period |s| repeats it: when count is
    a multiple k of |s|, the cycled sequence is `s` repeated k times.
   */
  lemma {:induction false} CycledIsRepeated<T>(s: seq<T>, k: nat, r: seq<T>)
    requires |s| >= 1 && |r| == |s| * k
    requires forall i :: 0 <= i < |r| ==> r[i] == s[i % |s|]
    ensures r == Repeat(s, k)
  {
    RepeatLength(s, k);
    forall i | 0 <= i < |r|
      ensures r[i] == Repeat(s, k)[i]
    {
      RepeatAt(s, k, i);
    }
  }

  /**
    The delay and disposal rebuild: a new slice of `count` entries whose
    entry i is entry i mod |s| of the old one.
   */
  method Cycle<T(0)>(s: seq<T>, count: nat) returns (r: seq<T>)
    requires |s| >= 1 || count == 0
    ensures |r| == count
    ensures forall i :: 0 <= i < count ==> r[i] == s[i % |s|]
  {
    var a := new T[count];
    for i := 0 to count
      invariant forall j :: 0 <= j < i ==> a[j] == s[j % |s|]
    {
      a[i] := s[i % |s|];
    }
    r := a[..];
  }

  /** make([]*image.Paletted, count), each entry then set to new(image.Paletted). */
  method NewFrames(count: nat) returns (frames: seq<Paletted>)
    ensures |frames| == count
    ensures forall i :: 0 <= i < count ==> fresh(frames[i])
    ensures forall i, j :: 0 <= i < j < count ==> frames[i] != frames[j]
  {
    frames := [];
    for i := 0 to count
      invariant |frames| == i
      invariant forall j :: 0 <= j < i ==> fresh(frames[j])
      invariant forall j, k :: 0 <= j < k < i ==> frames[j] != frames[k]
    {
      var frame := new Paletted();
      frames := frames + [frame];
    }
  }

  /**
    The worker loop, read serially: the jobs of the corrected schedule, each
    a prepareFrame call. Afterwards output slot i holds source frame
    i mod |frames| tinted with overlay colour i.
   */
  method PrepareAll(lib: ColorLib, frames: seq<Paletted>, newFrames: seq<Paletted>,
                    overlayColors: seq<FloatColor>, threads: nat)
    requires |frames| >= 1 && threads >= 1 && |overlayColors| == |newFrames|
    requires forall i, j :: 0 <= i < j < |newFrames| ==> newFrames[i] != newFrames[j]
    requires forall i, j :: 0 <= i < |newFrames| && 0 <= j < |frames| ==> newFrames[i] != frames[j]
    modifies set i | 0 <= i < |newFrames| :: newFrames[i]
    ensures forall i :: 0 <= i < |newFrames| ==>
      Prepared(lib, newFrames[i], frames[i % |frames|], overlayColors[i])
  {
    var n := |frames|;
    var jobs := Schedule(|newFrames|, n, threads);
    for k := 0 to |newFrames|
      invariant forall j :: 0 <= j < k ==>
        Prepared(lib, newFrames[j], frames[j % n], overlayColors[j])
    {
      var job := jobs[k];
      PrepareFrame(lib, frames[job.source], newFrames[job.slot], overlayColors[job.slot]);
    }
  }

  /** The range of Go's `int` (64 bits): [-2^63, 2^63). */
  const IntMin: int := -0x8000_0000_0000_0000
  const IntMax: int := 0x7fff_ffff_ffff_ffff

  /**
    Go's `int` arithmetic: a mathematical result wrapped modulo 2^64 into the
    64-bit range. A result already in range is kept as it is.
   */
  function WrapInt(x: int): (r: int)
    ensures IntMin <= r <= IntMax
    ensures (x - r) % 0x1_0000_0000_0000_0000 == 0
    ensures IntMin <= x <= IntMax ==> r == x
  {
    var m := x % 0x1_0000_0000_0000_0000;
    if m > IntMax then m - 0x1_0000_0000_0000_0000 else m
  }

  /**
    The frame count wraps for large loop counts: 4 frames looped 2^62 + 1
    times give 4 output slots, and 3 frames looped 2^62 times give a
    negative count.
   */
  lemma FrameCountWraps()
    ensures WrapInt(4 * (0x4000_0000_0000_0000 + 1)) == 4
    ensures WrapInt(3 * 0x4000_0000_0000_0000) < 0
  {
  }

  /**
    The processing in main, read serially. The frame count is
    len(frames) * loopCount in Go's `int`, so it wraps. A negative count
    makes `make` fail: the result is then false and nothing is changed.
    Otherwise the animation ends up with that many frames, each freshly
    allocated and distinct; the frame in slot i is source frame
    i mod |frames| tinted with overlay colour i of the gradient; entry i of
    the delays and of the disposal codes is old entry i mod |frames|. When
    the product does not wrap, that is |frames| * loopCount frames and the
    old metadata repeated loopCount times. The source frames are not
    modified.
   */
  method Transform(img: Gif, lib: ColorLib, colors: seq<FloatColor>,
                   gradient: (seq<FloatColor>, nat) -> seq<FloatColor>,
                   threads: nat, loopCount: nat) returns (ok: bool)
    requires img.Valid() && threads >= 1 && 1 <= loopCount <= IntMax
    requires WrapInt(|img.image| * loopCount) >= 0 ==>
      |gradient(colors, WrapInt(|img.image| * loopCount))| == WrapInt(|img.image| * loopCount)
    modifies img
    ensures ok <==> WrapInt(|old(img.image)| * loopCount) >= 0
    ensures !ok ==> unchanged(img)
    ensures ok ==> |img.image| == WrapInt(|old(img.image)| * loopCount)
    ensures ok ==> (img.Valid() <==> |img.image| >= 1)
    ensures ok ==> forall i :: 0 <= i < |img.image| ==> fresh(img.image[i])
    ensures ok ==> forall i, j :: 0 <= i < j < |img.image| ==> img.image[i] != img.image[j]
    ensures ok ==> forall i :: 0 <= i < |img.image| ==>
      Prepared(lib, img.image[i], old(img.image)[i % |old(img.image)|], gradient(colors, |img.image|)[i])
    ensures ok ==> |img.delay| == |img.image| && |img.disposal| == |img.image|
    ensures ok ==> forall i :: 0 <= i < |img.image| ==>
      img.delay[i] == old(img.delay)[i % |old(img.delay)|] &&
      img.disposal[i] == old(img.disposal)[i % |old(img.disposal)|]
    ensures |old(img.image)| * loopCount <= IntMax ==>
      && ok
      && |img.image| == |old(img.image)| * loopCount
      && img.delay == Repeat(old(img.delay), loopCount)
      && img.disposal == Repeat(old(img.disposal), loopCount)
  {
    var frames, delays, disposals := img.image, img.delay, img.disposal;
    var n := |frames|;
    var count := WrapInt(n * loopCount);
    if count < 0 {
      return false;
    }
    var frameCount: nat := count;

    var newFrames := NewFrames(frameCount);
    var overlayColors := gradient(colors, frameCount);

    PrepareAll(lib, frames, newFrames, overlayColors, threads);

    var newDelay := Cycle(delays, frameCount);
    var newDisposal := Cycle(disposals, frameCount);
    if n * loopCount <= IntMax {
      CycledIsRepeated(delays, loopCount, newDelay);
      CycledIsRepeated(disposals, loopCount, newDisposal);
    }

    img.image := newFrames;
    img.delay := newDelay;
    img.disposal := newDisposal;
    ok := true;
  }
}
