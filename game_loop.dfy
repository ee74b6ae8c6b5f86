/** The frame loop of the ostrich game (src/hooks/useGameLoop.ts): a handler for
    display-refresh frames that hands the elapsed time to a callback, skipping the
    first frame and any delta outside (0, 100) milliseconds. The browser's frame
    scheduler is represented by the handles it has given out and cancelled; the
    callback by the log of deltas it has received. */
module GameLoop {

  datatype Option<T> = None | Some(value: T)

  /** The delta a frame at `time` hands to the callback, given the time of the
      previous frame (0 when no frame has been recorded yet). */
  function FrameDelta(previousTime: real, time: real): (r: Option<real>)
    ensures r.Some? ==> 0.0 < r.value < 100.0 && r.value == time - previousTime
    ensures r.None? <==> previousTime == 0.0 || time - previousTime <= 0.0 || time - previousTime >= 100.0
  {
    if previousTime == 0.0 then None
    else
      var deltaTime := time - previousTime;
      if 0.0 < deltaTime < 100.0 then Some(deltaTime) else None
  }

  /** The deltas delivered to the callback by a running loop that sees frames at
      `times`, starting with `previousTime` as the recorded time. */
  function Deliveries(previousTime: real, times: seq<real>): (r: seq<real>)
    ensures |r| <= |times|
    ensures forall d | d in r :: 0.0 < d < 100.0
    decreases |times|
  {
    if times == [] then []
    else
      match FrameDelta(previousTime, times[0])
      case Some(d) => [d] + Deliveries(times[0], times[1..])
      case None => Deliveries(times[0], times[1..])
  }

  /** One frame, then the rest. */
  lemma DeliveriesCons(previousTime: real, time: real, rest: seq<real>)
    ensures Deliveries(previousTime, [time] + rest)
         == (match FrameDelta(previousTime, time) case Some(d) => [d] case None => [])
            + Deliveries(time, rest)
  {
    assert ([time] + rest)[1..] == rest;
  }

  function Sum(s: seq<real>): real {
    if s == [] then 0.0 else s[0] + Sum(s[1..])
  }

  predicate NonDecreasing(times: seq<real>) {
    forall i, j | 0 <= i < j < |times| :: times[i] <= times[j]
  }

  lemma {:induction false} DeliveriesFromRecordedTime(previousTime: real, times: seq<real>)
    requires times != [] && NonDecreasing(times)
    requires 0.0 < previousTime <= times[0]
    ensures |Deliveries(previousTime, times)| <= |times|
    ensures Sum(Deliveries(previousTime, times)) <= times[|times| - 1] - previousTime
    decreases |times|
  {
    if |times| == 1 {
      assert times[1..] == [];
    } else {
      var rest := times[1..];
      assert NonDecreasing(rest);
      assert times[0] <= rest[0];
      DeliveriesFromRecordedTime(times[0], rest);
      assert rest[|rest| - 1] == times[|times| - 1];
    }
  }

  /** On a clock that never goes back and starts at or after 0, a freshly started
      loop delivers fewer deltas than it sees frames (the first frame only records
      its time) and never delivers more time in total than elapsed between the
      first and the last frame. */
  lemma {:induction false} FreshLoopDeliveries(times: seq<real>)
    requires times != [] && NonDecreasing(times) && 0.0 <= times[0]
    ensures |Deliveries(0.0, times)| < |times|
    ensures Sum(Deliveries(0.0, times)) <= times[|times| - 1] - times[0]
    decreases |times|
  {
    var rest := times[1..];
    if rest == [] {
    } else {
      assert NonDecreasing(rest);
      assert rest[|rest| - 1] == times[|times| - 1];
      if times[0] == 0.0 {
        FreshLoopDeliveries(rest);
      } else {
        DeliveriesFromRecordedTime(times[0], rest);
      }
    }
  }

  /** The refs of one mounted use of the hook. */
  class FrameLoop {
    var previousTime: real       // previousTimeRef
    var isRunning: bool          // isRunningRef
    var request: Option<nat>     // requestRef: the last frame requested, if any
    var issued: nat              // frame handles the scheduler has handed out
    var cancelled: set<nat>      // handles passed to cancelAnimationFrame
    ghost var Delivered: seq<real>  // every delta handed to the callback so far

    ghost predicate Valid()
      reads this
    {
      && (forall d | d in Delivered :: 0.0 < d < 100.0)
      && (request.Some? ==> 1 <= request.value <= issued)
      && (forall h | h in cancelled :: 1 <= h <= issued)
    }

    /** The refs as the hook first creates them. */
    constructor ()
      ensures Valid()
      ensures previousTime == 0.0 && isRunning && request == None
      ensures issued == 0 && cancelled == {} && Delivered == []
    {
      previousTime := 0.0;
      isRunning := true;
      request := None;
      issued := 0;
      cancelled := {};
      Delivered := [];
    }

    /** requestAnimationFrame(loop): the scheduler hands out a fresh handle. */
    method RequestFrame()
      requires Valid()
      modifies this`request, this`issued
      ensures Valid()
      ensures issued == old(issued) + 1 && request == Some(issued)
    {
      issued := issued + 1;
      request := Some(issued);
    }

    /** The effect body: mark the loop running and request the first frame. The
        recorded time is kept from any earlier run. */
    method Start()
      requires Valid()
      modifies this
      ensures Valid()
      ensures isRunning && issued == old(issued) + 1 && request == Some(issued)
      ensures previousTime == old(previousTime) && cancelled == old(cancelled)
      ensures Delivered == old(Delivered)
    {
      isRunning := true;
      RequestFrame();
    }

    /** loop(time): handle one display frame. The result is the delta handed to
        the callback, if it is invoked. */
    method Frame(time: real) returns (delta: Option<real>)
      requires Valid()
      modifies this
      ensures Valid()
      ensures !old(isRunning) ==> delta == None && unchanged(this)
      ensures old(isRunning) ==>
        && delta == FrameDelta(old(previousTime), time)
        && previousTime == time
        && issued == old(issued) + 1 && request == Some(issued)
        && isRunning && cancelled == old(cancelled)
        && Delivered == old(Delivered) + (if delta.Some? then [delta.value] else [])
    {
      if !isRunning {
        return None;
      }
      if previousTime == 0.0 {
        previousTime := time;
        RequestFrame();
        return None;
      }
      var deltaTime := time - previousTime;
      previousTime := time;
      if 0.0 < deltaTime && deltaTime < 100.0 {
        delta := Some(deltaTime);
        Delivered := Delivered + [deltaTime];
      } else {
        delta := None;
      }
      RequestFrame();
    }

    /** The effect's cleanup: stop the loop and cancel the pending frame if one
        was ever requested. Running it again changes nothing. */
    method Cleanup()
      requires Valid()
      modifies this
      ensures Valid()
      ensures !isRunning
      ensures cancelled == old(cancelled) + (if request.Some? then {request.value} else {})
      ensures previousTime == old(previousTime) && request == old(request) && issued == old(issued)
      ensures Delivered == old(Delivered)
      ensures !old(isRunning) && (old(request).Some? ==> old(request).value in old(cancelled)) ==> unchanged(this)
    {
      isRunning := false;
      if request.Some? {
        cancelled := cancelled + {request.value};
        assert old(request.value in cancelled) ==> cancelled == old(cancelled);
      }
    }
  }

  /** Cleanup twice is cleanup once, and a frame after cleanup does nothing. */
  method CleanupIsFinal(loop: FrameLoop, time: real)
    requires loop.Valid()
    modifies loop
    ensures loop.Valid() && !loop.isRunning
    ensures loop.request == old(loop.request)
    ensures loop.cancelled == old(loop.cancelled) + (if old(loop.request).Some? then {old(loop.request).value} else {})
    ensures loop.previousTime == old(loop.previousTime) && loop.issued == old(loop.issued)
    ensures loop.Delivered == old(loop.Delivered)
  {
    loop.Cleanup();
    loop.Cleanup();
    var delta := loop.Frame(time);
    assert delta == None;
  }

  /** A running loop fed display frames at `times` hands the callback exactly
      the deltas `Deliveries` gives, and records the last time. */
  method RunFrames(loop: FrameLoop, times: seq<real>)
    requires loop.Valid() && loop.isRunning
    modifies loop
    ensures loop.Valid() && loop.isRunning
    ensures loop.Delivered == old(loop.Delivered) + Deliveries(old(loop.previousTime), times)
    ensures loop.previousTime == if times == [] then old(loop.previousTime) else times[|times| - 1]
    ensures loop.issued == old(loop.issued) + |times| && loop.cancelled == old(loop.cancelled)
    decreases |times|
  {
    if times == [] {
      return;
    }
    ghost var before, previous := loop.Delivered, loop.previousTime;
    var delta := loop.Frame(times[0]);
    ghost var afterFirst := loop.Delivered;
    RunFrames(loop, times[1..]);
    if |times| > 1 {
      assert times[1..][|times| - 2] == times[|times| - 1];
    }
    assert loop.Delivered == before + Deliveries(previous, times) by {
      var extra := if delta.Some? then [delta.value] else [];
      var rest := Deliveries(times[0], times[1..]);
      assert times == [times[0]] + times[1..];
      DeliveriesCons(previous, times[0], times[1..]);
      assert afterFirst == before + extra;
      assert (before + extra) + rest == before + (extra + rest);
    }
  }
}
