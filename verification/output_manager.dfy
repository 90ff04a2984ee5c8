/** One pass of `OutputManager.pollAndOutput` over a drained batch of
    frames: each frame is printed, preceded by a time-gap separator when it
    is far enough from the previously printed one. */
module OutputManager {
  import opened Results
  import TDS = TimeDiffSeparator

  /** What gets printed, in order: a separator (its time text) or a frame. */
  datatype Printed<F> = SeparatorOut(timeDiff: string) | FrameOut(frame: F)

  /** The configuration the separator reads: the configured threshold, if
      any, and the unit symbols. */
  datatype SeparatorConfig = SeparatorConfig(threshold: Option<nat>, symbols: TDS.Symbols)

  /** `TimeDiffSeparator.create` under a configuration: the separator's
      time text for a frame at `current`, given the last printed time. */
  function SeparatorFor(config: SeparatorConfig): (Option<int>, int) -> Option<string>
  {
    (last: Option<int>, current: int) => TDS.Create(last, current, config.threshold, config.symbols)
  }

  /** The lines printed for one frame, given the last printed timestamp;
      `separator` decides the separator. */
  function FrameOutput<F>(last: Option<int>, frame: F, time: F -> int,
                          separator: (Option<int>, int) -> Option<string>): seq<Printed<F>>
  {
    match separator(last, time(frame))
    case Some(text) => [SeparatorOut(text), FrameOut(frame)]
    case None => [FrameOut(frame)]
  }

  /** The frame-by-frame fold: the output, and the last timestamp after the
      batch. */
  function Fold<F>(last: Option<int>, frames: seq<F>, time: F -> int, separator: (Option<int>, int) -> Option<string>)
    : (r: (seq<Printed<F>>, Option<int>))
    ensures |frames| == 0 ==> r == ([], last)
    ensures |frames| > 0 ==> r.1 == Some(time(frames[|frames| - 1]))
    decreases |frames|
  {
    if |frames| == 0 then ([], last)
    else
      var rest := Fold(Some(time(frames[0])), frames[1..], time, separator);
      (FrameOutput(last, frames[0], time, separator) + rest.0, rest.1)
  }

  /** The frames of an output, in order. */
  function FramesOf<F>(out: seq<Printed<F>>): seq<F>
  {
    if |out| == 0 then []
    else if out[0].FrameOut? then [out[0].frame] + FramesOf(out[1..])
    else FramesOf(out[1..])
  }

  lemma {:induction false} FramesOfAppend<F>(a: seq<Printed<F>>, b: seq<Printed<F>>)
    ensures FramesOf(a + b) == FramesOf(a) + FramesOf(b)
    decreases |a|
  {
    if |a| == 0 {
      assert a + b == b;
    } else {
      assert (a + b)[1..] == a[1..] + b;
      FramesOfAppend(a[1..], b);
    }
  }

  /** Every drained frame is printed exactly once, in drain order. */
  lemma {:induction false} FoldPrintsEachFrameOnce<F>(last: Option<int>, frames: seq<F>, time: F -> int, separator: (Option<int>, int) -> Option<string>)
    ensures FramesOf(Fold(last, frames, time, separator).0) == frames
    decreases |frames|
  {
    if |frames| > 0 {
      var head := FrameOutput(last, frames[0], time, separator);
      var rest := Fold(Some(time(frames[0])), frames[1..], time, separator);
      FoldPrintsEachFrameOnce(Some(time(frames[0])), frames[1..], time, separator);
      FramesOfAppend(head, rest.0);
      assert FramesOf(head) == [frames[0]] by {
        if |head| == 2 {
          assert head[1..] == [FrameOut(frames[0])];
          assert FramesOf(head[1..][1..]) == [];
        } else {
          assert FramesOf(head[1..]) == [];
        }
      }
      assert [frames[0]] + frames[1..] == frames;
    }
  }

  /** A separator is always immediately followed by a frame, and the output
      ends with a frame when the batch is not empty. */
  predicate SeparatorsPrecedeFrames<F>(out: seq<Printed<F>>)
  {
    forall i :: 0 <= i < |out| && out[i].SeparatorOut? ==> i + 1 < |out| && out[i + 1].FrameOut?
  }

  lemma {:induction false} FoldSeparatorsPrecedeFrames<F>(last: Option<int>, frames: seq<F>, time: F -> int, separator: (Option<int>, int) -> Option<string>)
    ensures SeparatorsPrecedeFrames(Fold(last, frames, time, separator).0)
    ensures |frames| > 0 ==> |Fold(last, frames, time, separator).0| > 0
    decreases |frames|
  {
    if |frames| > 0 {
      var head := FrameOutput(last, frames[0], time, separator);
      var rest := Fold(Some(time(frames[0])), frames[1..], time, separator).0;
      FoldSeparatorsPrecedeFrames(Some(time(frames[0])), frames[1..], time, separator);
      var out := head + rest;
      forall i | 0 <= i < |out| && out[i].SeparatorOut?
        ensures i + 1 < |out| && out[i + 1].FrameOut?
      {
        if i >= |head| {
          assert out[i] == rest[i - |head|];
          assert out[i + 1] == rest[i - |head| + 1];
        } else {
          assert i == 0 && |head| == 2;
        }
      }
    }
  }

  /** No separator comes before the very first frame: with no previous
      timestamp the output starts with the frame itself. */
  lemma FirstFrameHasNoSeparator<F>(frames: seq<F>, time: F -> int, config: SeparatorConfig)
    requires |frames| > 0
    ensures Fold(None, frames, time, SeparatorFor(config)).0[0] == FrameOut(frames[0])
  {
    assert SeparatorFor(config)(None, time(frames[0])).None?;
  }

  /** A frame is preceded by a separator exactly when there is a previous
      timestamp and the frame is more than the threshold after it. */
  lemma FrameOutputSeparator<F>(previous: Option<int>, frame: F, time: F -> int, config: SeparatorConfig)
    ensures var out := FrameOutput(previous, frame, time, SeparatorFor(config));
      && out[|out| - 1] == FrameOut(frame)
      && (out[0].SeparatorOut? <==>
          previous.Some? && time(frame) - previous.value > config.threshold.GetOr(TDS.DefaultTimeDiffSepMinVal))
  {
    var sep := TDS.Create(previous, time(frame), config.threshold, config.symbols);
    assert SeparatorFor(config)(previous, time(frame)) == sep;
  }

  /** Within a batch, the output for frame `k` is decided by frame `k - 1`
      (or, for the first frame, by the last timestamp of earlier batches). */
  lemma SeparatorBeforeFrame<F>(last: Option<int>, frames: seq<F>, k: nat, time: F -> int,
                                separator: (Option<int>, int) -> Option<string>)
    requires k < |frames|
    ensures var before := Fold(last, frames[..k], time, separator);
      var previous := if k == 0 then last else Some(time(frames[k - 1]));
      && before.1 == previous
      && Fold(last, frames, time, separator).0
         == before.0 + FrameOutput(previous, frames[k], time, separator)
            + Fold(Some(time(frames[k])), frames[k + 1..], time, separator).0
  {
    FoldSplit(last, frames, k, time, separator);
    if k > 0 {
      assert frames[..k][k - 1] == frames[k - 1];
    } else {
      assert frames[..k] == [];
    }
  }

  /** The separator before a frame is decided by the previous frame of the
      batch (or the last timestamp before it, for the first frame): the
      output for frame `k` is exactly `FrameOutput` from that timestamp. */
  lemma {:induction false} FoldSplit<F>(last: Option<int>, frames: seq<F>, k: nat, time: F -> int, separator: (Option<int>, int) -> Option<string>)
    requires k < |frames|
    ensures var before := Fold(last, frames[..k], time, separator);
      Fold(last, frames, time, separator).0
        == before.0 + FrameOutput(before.1, frames[k], time, separator)
           + Fold(Some(time(frames[k])), frames[k + 1..], time, separator).0
    decreases k
  {
    if k == 0 {
      assert frames[..0] == [];
    } else {
      var first := Some(time(frames[0]));
      var head := FrameOutput(last, frames[0], time, separator);
      var after := Fold(Some(time(frames[k])), frames[k + 1..], time, separator).0;
      var inner := Fold(first, frames[..k][1..], time, separator);
      FoldSplit(first, frames[1..], k - 1, time, separator);
      assert frames[1..][..k - 1] == frames[..k][1..];
      assert frames[1..][k - 1] == frames[k];
      assert frames[1..][k - 1 + 1..] == frames[k + 1..];
      assert Fold(first, frames[1..], time, separator).0
        == inner.0 + FrameOutput(inner.1, frames[k], time, separator) + after;
      var before := Fold(last, frames[..k], time, separator);
      assert before == (head + inner.0, inner.1);
      assert Fold(last, frames, time, separator).0 == head + Fold(first, frames[1..], time, separator).0;
      Regroup(head, inner.0, FrameOutput(inner.1, frames[k], time, separator), after);
    }
  }

  lemma Regroup<T>(a: seq<T>, b: seq<T>, c: seq<T>, d: seq<T>)
    ensures a + (b + c + d) == (a + b) + c + d
  {
  }

  /** The loop of `pollAndOutput` over one drained batch. */
  method ProcessBatch<F>(last: Option<int>, frames: seq<F>, time: F -> int, separator: (Option<int>, int) -> Option<string>)
    returns (out: seq<Printed<F>>, newLast: Option<int>)
    ensures (out, newLast) == Fold(last, frames, time, separator)
    ensures FramesOf(out) == frames
    ensures SeparatorsPrecedeFrames(out)
    ensures |frames| == 0 ==> newLast == last
    ensures |frames| > 0 ==> newLast == Some(time(frames[|frames| - 1]))
  {
    out := [];
    newLast := last;
    var i := 0;
    while i < |frames|
      invariant 0 <= i <= |frames|
      invariant (out, newLast) == Fold(last, frames[..i], time, separator)
    {
      FoldSnoc(last, frames[..i + 1], time, separator);
      assert frames[..i + 1][..i] == frames[..i];
      out := out + FrameOutput(newLast, frames[i], time, separator);
      newLast := Some(time(frames[i]));
      i := i + 1;
    }
    assert frames[..i] == frames;
    FoldPrintsEachFrameOnce(last, frames, time, separator);
    FoldSeparatorsPrecedeFrames(last, frames, time, separator);
  }

  /** Adding a frame at the end of a batch adds its output at the end. */
  lemma {:induction false} FoldSnoc<F>(last: Option<int>, frames: seq<F>, time: F -> int, separator: (Option<int>, int) -> Option<string>)
    requires |frames| > 0
    ensures var n := |frames| - 1;
      var before := Fold(last, frames[..n], time, separator);
      Fold(last, frames, time, separator)
        == (before.0 + FrameOutput(before.1, frames[n], time, separator), Some(time(frames[n])))
  {
    var n := |frames| - 1;
    FoldSplit(last, frames, n, time, separator);
    assert frames[n + 1..] == [];
    assert Fold(Some(time(frames[n])), frames[n + 1..], time, separator).0 == [];
    var before := Fold(last, frames[..n], time, separator);
    assert before.0 + FrameOutput(before.1, frames[n], time, separator) + []
      == before.0 + FrameOutput(before.1, frames[n], time, separator);
  }
}
