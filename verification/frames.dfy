/** The frame-lockstep between the game's update callback and the script
    (examples/issue_sample/game.go, type Game and the frame counter). The two
    unbuffered channels and the cancellation context are modelled as events
    appended to a trace, in the order one side performs them; the shared frame
    counter is threaded through explicitly. */
module Frames {

  import opened Wrappers
  import opened Objects

  /** The frame number at which the script's context is cancelled. */
  const CancelFrame: nat := 2000

  /** The fixed logical screen size. */
  const ScreenWidth: int := 320
  const ScreenHeight: int := 240

  /** One channel or context operation. */
  datatype Event =
    | SendStart(frame: nat)   // host sends the frame number on the start channel
    | AwaitDone               // host blocks receiving from the done channel
    | SendDone(frame: nat)    // script sends the frame number on the done channel
    | Cancel                  // script-side call of the context's cancel function
    | AwaitStart              // script blocks receiving from the start channel

  /** The frame counter after some calls, the events they performed in order,
      and what the last native call returned to the script (`None` before
      any call has returned). */
  datatype Step = Step(frameNum: nat, events: seq<Event>, result: Option<CallResult>)

  /** The frame numbers sent on the done channel, in order. */
  function DoneFrames(t: seq<Event>): seq<nat>
  {
    if |t| == 0 then []
    else (if t[0].SendDone? then [t[0].frame] else []) + DoneFrames(t[1..])
  }

  /** The frame numbers sent on the start channel, in order. */
  function StartFrames(t: seq<Event>): seq<nat>
  {
    if |t| == 0 then []
    else (if t[0].SendStart? then [t[0].frame] else []) + StartFrames(t[1..])
  }

  /** How many times an event occurs in a trace. */
  function Count(t: seq<Event>, e: Event): nat
  {
    if |t| == 0 then 0
    else (if t[0] == e then 1 else 0) + Count(t[1..], e)
  }

  /** The frame numbers 1, 2, ..., n. */
  function Upto(n: nat): seq<nat>
  {
    if n == 0 then [] else Upto(n - 1) + [n]
  }

  /** Every start the host sends is followed at once by its own wait for done
      and then by the script's done: for the frame the host started, or, when
      `exact` does not hold, possibly for the one after it. */
  predicate Alternates(t: seq<Event>, exact: bool)
  {
    forall i :: 0 <= i < |t| && t[i].SendStart? ==>
      && i + 2 < |t| && t[i + 1] == AwaitDone && t[i + 2].SendDone?
      && (t[i + 2].frame == t[i].frame || (!exact && t[i + 2].frame == t[i].frame + 1))
  }

  lemma UptoStep(j: nat)
    ensures Upto(j + 1) == Upto(j) + [j + 1]
  {
  }

  lemma {:induction false} DoneFramesConcat(a: seq<Event>, b: seq<Event>)
    ensures DoneFrames(a + b) == DoneFrames(a) + DoneFrames(b)
    decreases |a|
  {
    if |a| == 0 {
      assert a + b == b;
    } else {
      assert (a + b)[0] == a[0];
      assert (a + b)[1..] == a[1..] + b;
      DoneFramesConcat(a[1..], b);
    }
  }

  lemma {:induction false} CountConcat(a: seq<Event>, b: seq<Event>, e: Event)
    ensures Count(a + b, e) == Count(a, e) + Count(b, e)
    decreases |a|
  {
    if |a| == 0 {
      assert a + b == b;
    } else {
      assert (a + b)[0] == a[0];
      assert (a + b)[1..] == a[1..] + b;
      CountConcat(a[1..], b, e);
    }
  }

  lemma {:induction false} StartFramesConcat(a: seq<Event>, b: seq<Event>)
    ensures StartFrames(a + b) == StartFrames(a) + StartFrames(b)
    decreases |a|
  {
    if |a| == 0 {
      assert a + b == b;
    } else {
      assert (a + b)[0] == a[0];
      assert (a + b)[1..] == a[1..] + b;
      StartFramesConcat(a[1..], b);
    }
  }

  /** The script's native frame wait. Past the first frame it first reports
      the previous frame as done; then it advances the counter, cancels the
      script's context when the counter reaches the bound, and finally blocks
      until the host starts the next frame. */
  function WaitForNextFrame(frameNum: nat): (r: Step)
    ensures r.frameNum == frameNum + 1
    ensures r.result == Some(Ok(Undefined))
    ensures |r.events| > 0 && r.events[|r.events| - 1] == AwaitStart
    ensures frameNum > 0 ==> r.events[0] == SendDone(frameNum)
    ensures Cancel in r.events <==> r.frameNum == CancelFrame
  {
    var done := if frameNum > 0 then [SendDone(frameNum)] else [];
    var next := frameNum + 1;
    var cancel := if next == CancelFrame then [Cancel] else [];
    Step(next, done + cancel + [AwaitStart], Some(Ok(Undefined)))
  }

  /** What a single event contributes to the trace's summaries. */
  lemma OfOne(e: Event, x: Event)
    ensures StartFrames([e]) == if e.SendStart? then [e.frame] else []
    ensures DoneFrames([e]) == if e.SendDone? then [e.frame] else []
    ensures Count([e], x) == if e == x then 1 else 0
  {
    assert [e][1..] == [];
  }

  /** The frames one frame wait sends: only a done for the previous frame,
      none on the first call, and never a start. */
  lemma WaitForNextFrameFrames(frameNum: nat)
    ensures var t := WaitForNextFrame(frameNum).events;
      && (forall e <- t :: e.SendDone? || e == Cancel || e == AwaitStart)
      && StartFrames(t) == []
      && DoneFrames(t) == (if frameNum > 0 then [frameNum] else [])
  {
    var done := if frameNum > 0 then [SendDone(frameNum)] else [];
    var cancel := if frameNum + 1 == CancelFrame then [Cancel] else [];
    assert WaitForNextFrame(frameNum).events == done + (cancel + [AwaitStart]);
    OfOne(AwaitStart, AwaitStart);
    OfOne(Cancel, AwaitStart);
    OfOne(SendDone(frameNum), AwaitStart);
    StartFramesConcat(done, cancel + [AwaitStart]);
    StartFramesConcat(cancel, [AwaitStart]);
    DoneFramesConcat(done, cancel + [AwaitStart]);
    DoneFramesConcat(cancel, [AwaitStart]);
  }

  /** The waits and cancellations of one frame wait: the script waits for a
      start exactly once, never waits for done, and cancels once exactly when
      the counter reaches the bound. */
  lemma WaitForNextFrameCounts(frameNum: nat)
    ensures var t := WaitForNextFrame(frameNum).events;
      && Count(t, AwaitStart) == 1
      && Count(t, AwaitDone) == 0
      && Count(t, Cancel) == (if frameNum + 1 == CancelFrame then 1 else 0)
  {
    var done := if frameNum > 0 then [SendDone(frameNum)] else [];
    var cancel := if frameNum + 1 == CancelFrame then [Cancel] else [];
    assert WaitForNextFrame(frameNum).events == done + (cancel + [AwaitStart]);
    forall x: Event
      ensures Count(WaitForNextFrame(frameNum).events, x)
              == Count(done, x) + Count(cancel, x) + Count([AwaitStart], x)
    {
      CountConcat(done, cancel + [AwaitStart], x);
      CountConcat(cancel, [AwaitStart], x);
    }
    OfOne(AwaitStart, AwaitStart);
    OfOne(AwaitStart, AwaitDone);
    OfOne(AwaitStart, Cancel);
    OfOne(Cancel, AwaitStart);
    OfOne(Cancel, AwaitDone);
    OfOne(Cancel, Cancel);
    OfOne(SendDone(frameNum), AwaitStart);
    OfOne(SendDone(frameNum), AwaitDone);
    OfOne(SendDone(frameNum), Cancel);
  }

  /** The host's update callback: send the counter value it read on the start
      channel, then block until the script reports a frame done. It always
      returns no error. */
  function Update(frameNum: nat): (events: seq<Event>)
    ensures StartFrames(events) == [frameNum]
    ensures DoneFrames(events) == []
    ensures |events| == 2 && events[0].SendStart? && events[|events| - 1] == AwaitDone
  {
    var events := [SendStart(frameNum), AwaitDone];
    assert events[1..] == [AwaitDone] && events[1..][1..] == [];
    assert StartFrames(events[1..][1..]) == [] && DoneFrames(events[1..][1..]) == [];
    assert StartFrames(events[1..]) == [] && DoneFrames(events[1..]) == [];
    events
  }

  /** The host's layout callback: the logical screen size, whatever the window's. */
  function Layout(outsideWidth: int, outsideHeight: int): (r: (int, int))
    ensures r.0 == ScreenWidth && r.1 == ScreenHeight
  {
    (320, 240)
  }

  /** The script alone, calling the frame wait `n` times from frame 0. */
  function ScriptRun(n: nat): (r: Step)
    ensures r.frameNum == n
    ensures r.result == if n == 0 then None else Some(Ok(Undefined))
  {
    if n == 0 then Step(0, [], None)
    else
      var p := ScriptRun(n - 1);
      var w := WaitForNextFrame(p.frameNum);
      Step(w.frameNum, p.events + w.events, w.result)
  }

  /** One more frame wait of the script's run. */
  lemma ScriptRunUnfold(j: nat)
    ensures ScriptRun(j + 1).events == ScriptRun(j).events + WaitForNextFrame(j).events
  {
  }

  /** Along the script's run from frame 0, the done channel carries 1, 2, ...
      in order, with none on the first call. */
  lemma {:induction false} ScriptRunDone(n: nat)
    ensures DoneFrames(ScriptRun(n + 1).events) == Upto(n)
  {
    if n != 0 {
      var j: nat := n - 1;
      ScriptRunDone(j);
      WaitForNextFrameFrames(n);
      DoneFramesConcat(ScriptRun(n).events, WaitForNextFrame(n).events);
      UptoStep(j);
    } else {
      WaitForNextFrameFrames(0);
    }
  }

  /** Along the script's run from frame 0 the script blocks once per call. */
  lemma {:induction false} ScriptRunAwaits(n: nat)
    ensures Count(ScriptRun(n).events, AwaitStart) == n
  {
    if n != 0 {
      var j: nat := n - 1;
      var p, w := ScriptRun(j).events, WaitForNextFrame(j).events;
      ScriptRunAwaits(j);
      WaitForNextFrameCounts(j);
      CountConcat(p, w, AwaitStart);
      ScriptRunUnfold(j);
    }
  }

  /** Along the script's run from frame 0 the context is cancelled at most
      once: exactly once when the run reaches the bound. */
  lemma {:induction false} ScriptRunCancels(n: nat)
    ensures Count(ScriptRun(n).events, Cancel) == if n >= CancelFrame then 1 else 0
  {
    if n != 0 {
      var j: nat := n - 1;
      var p, w := ScriptRun(j).events, WaitForNextFrame(j).events;
      ScriptRunCancels(j);
      WaitForNextFrameCounts(j);
      CountConcat(p, w, Cancel);
      ScriptRunUnfold(j);
    }
  }

  /** The counter value the host's update reads in round `r` of the lockstep.
      The host reads the shared counter without synchronising with the
      script's increment, so it sees either the value before that increment
      (`hostFirst(r)`) or the value after it. */
  function HostRead(r: nat, hostFirst: nat -> bool): nat
    requires r > 0
  {
    if hostFirst(r) then r - 1 else r
  }

  /** How many update/wait rounds a run of `k` rounds performs: the run ends
      with the round whose frame wait cancels the context. */
  function Rounds(k: nat): nat
  {
    if k < CancelFrame then k else CancelFrame - 1
  }

  /** The host and the script in lockstep: the script's first frame wait,
      followed by up to `k` rounds of one host update answered by one script
      frame wait. Once a frame wait has cancelled the context the run is over
      and later rounds add nothing. */
  function Lockstep(k: nat, hostFirst: nat -> bool): (r: Step)
    ensures r.frameNum == if k < CancelFrame then k + 1 else CancelFrame
  {
    if k == 0 then WaitForNextFrame(0)
    else
      var p := Lockstep(k - 1, hostFirst);
      if p.frameNum == CancelFrame then p
      else
        var w := WaitForNextFrame(p.frameNum);
        Step(w.frameNum, p.events + Update(HostRead(p.frameNum, hostFirst)) + w.events, w.result)
  }

  /** One more round of the lockstep before the cancellation. */
  lemma LockstepUnfold(j: nat, hostFirst: nat -> bool)
    requires j + 1 < CancelFrame
    ensures Lockstep(j + 1, hostFirst).events
         == Lockstep(j, hostFirst).events + Update(HostRead(j + 1, hostFirst)) + WaitForNextFrame(j + 1).events
  {
  }

  /** No round after the cancellation. */
  lemma LockstepStops(j: nat, hostFirst: nat -> bool)
    requires j + 1 >= CancelFrame
    ensures Lockstep(j + 1, hostFirst) == Lockstep(j, hostFirst)
  {
  }

  /** The lockstep before any host update: the script's first frame wait
      sends nothing on either channel and blocks once for a start. */
  lemma LockstepFirst(hostFirst: nat -> bool)
    ensures StartFrames(Lockstep(0, hostFirst).events) == [] && DoneFrames(Lockstep(0, hostFirst).events) == []
    ensures forall e <- Lockstep(0, hostFirst).events :: !e.SendStart?
    ensures Count(Lockstep(0, hostFirst).events, AwaitStart) == 1
    ensures Count(Lockstep(0, hostFirst).events, AwaitDone) == 0
    ensures Count(Lockstep(0, hostFirst).events, Cancel) == 0
  {
    WaitForNextFrameFrames(0);
    WaitForNextFrameCounts(0);
  }

  /** One lockstep round past the first frame: the host starts the frame it
      read, and the script reports its own counter done. */
  lemma RoundFrames(p: seq<Event>, s: nat, f: nat)
    requires f > 0
    ensures StartFrames(p + Update(s) + WaitForNextFrame(f).events) == StartFrames(p) + [s]
    ensures DoneFrames(p + Update(s) + WaitForNextFrame(f).events) == DoneFrames(p) + [f]
  {
    var u, w := Update(s), WaitForNextFrame(f).events;
    WaitForNextFrameFrames(f);
    StartFramesConcat(p + u, w);
    StartFramesConcat(p, u);
    DoneFramesConcat(p + u, w);
    DoneFramesConcat(p, u);
  }

  /** One lockstep round adds one wait on each side, and a cancellation only
      when the counter reaches the bound. */
  lemma RoundWaits(p: seq<Event>, s: nat, f: nat)
    ensures var t := p + Update(s) + WaitForNextFrame(f).events;
      && Count(t, AwaitStart) == Count(p, AwaitStart) + 1
      && Count(t, AwaitDone) == Count(p, AwaitDone) + 1
      && Count(t, Cancel) == Count(p, Cancel) + if f + 1 == CancelFrame then 1 else 0
  {
    var u, w := Update(s), WaitForNextFrame(f).events;
    WaitForNextFrameCounts(f);
    assert u == [SendStart(s), AwaitDone];
    forall x: Event
      ensures Count(p + u + w, x) == Count(p, x) + Count(u, x) + Count(w, x)
    {
      CountConcat(p + u, w, x);
      CountConcat(p, u, x);
    }
    CountConcat([SendStart(s)], [AwaitDone], AwaitStart);
    CountConcat([SendStart(s)], [AwaitDone], AwaitDone);
    CountConcat([SendStart(s)], [AwaitDone], Cancel);
    OfOne(SendStart(s), AwaitStart);
    OfOne(SendStart(s), AwaitDone);
    OfOne(SendStart(s), Cancel);
    OfOne(AwaitDone, AwaitStart);
    OfOne(AwaitDone, AwaitDone);
    OfOne(AwaitDone, Cancel);
  }

  /** No frame is lost or repeated on the done channel: the script reports
      frames 1, 2, ... done in order, one per round, and none after the
      cancellation. */
  lemma {:induction false} LockstepDone(k: nat, hostFirst: nat -> bool)
    ensures DoneFrames(Lockstep(k, hostFirst).events) == Upto(Rounds(k))
  {
    if k != 0 {
      var j: nat := k - 1;
      LockstepDone(j, hostFirst);
      LockstepDoneStep(j, hostFirst);
    } else {
      LockstepFirst(hostFirst);
    }
  }

  /** The inductive step of `LockstepDone`. */
  lemma LockstepDoneStep(j: nat, hostFirst: nat -> bool)
    requires DoneFrames(Lockstep(j, hostFirst).events) == Upto(Rounds(j))
    ensures DoneFrames(Lockstep(j + 1, hostFirst).events) == Upto(Rounds(j + 1))
  {
    if j + 1 < CancelFrame {
      RoundFrames(Lockstep(j, hostFirst).events, HostRead(j + 1, hostFirst), j + 1);
      LockstepUnfold(j, hostFirst);
      UptoStep(j);
    } else {
      LockstepStops(j, hostFirst);
    }
  }

  /** The host starts one frame per round: in round `r` the frame it sends is
      `r`, or `r - 1` when it read the counter before the script advanced it. */
  lemma {:induction false} LockstepStarts(k: nat, hostFirst: nat -> bool)
    ensures var s := StartFrames(Lockstep(k, hostFirst).events);
      && |s| == Rounds(k)
      && forall i :: 0 <= i < |s| ==> s[i] == if hostFirst(i + 1) then i else i + 1
  {
    if k != 0 {
      var j: nat := k - 1;
      LockstepStarts(j, hostFirst);
      LockstepStartsStep(j, hostFirst);
    } else {
      LockstepFirst(hostFirst);
    }
  }

  /** The inductive step of `LockstepStarts`. */
  lemma LockstepStartsStep(j: nat, hostFirst: nat -> bool)
    requires var s := StartFrames(Lockstep(j, hostFirst).events);
      && |s| == Rounds(j)
      && forall i :: 0 <= i < |s| ==> s[i] == if hostFirst(i + 1) then i else i + 1
    ensures var s := StartFrames(Lockstep(j + 1, hostFirst).events);
      && |s| == Rounds(j + 1)
      && forall i :: 0 <= i < |s| ==> s[i] == if hostFirst(i + 1) then i else i + 1
  {
    if j + 1 < CancelFrame {
      RoundFrames(Lockstep(j, hostFirst).events, HostRead(j + 1, hostFirst), j + 1);
      LockstepUnfold(j, hostFirst);
    } else {
      LockstepStops(j, hostFirst);
    }
  }

  /** When the host always reads the counter after the script's increment,
      frames 1..k are each started once and reported done once, in order. */
  lemma LockstepFramesInOrder(k: nat, hostFirst: nat -> bool)
    requires forall r :: !hostFirst(r)
    ensures StartFrames(Lockstep(k, hostFirst).events) == Upto(Rounds(k))
    ensures DoneFrames(Lockstep(k, hostFirst).events) == Upto(Rounds(k))
  {
    LockstepStarts(k, hostFirst);
    LockstepDone(k, hostFirst);
    UptoIndex(Rounds(k));
  }

  /** The n-th entry of 1, 2, ..., n is n. */
  lemma {:induction false} UptoIndex(n: nat)
    ensures |Upto(n)| == n && forall i :: 0 <= i < n ==> Upto(n)[i] == i + 1
  {
    if n > 0 {
      UptoIndex(n - 1);
    }
  }

  /** Each side has waited once per round, the script once more for the first
      start; the context was cancelled once if the run reached the bound, and
      never otherwise. */
  lemma {:induction false} LockstepWaits(k: nat, hostFirst: nat -> bool)
    ensures Count(Lockstep(k, hostFirst).events, AwaitStart) == Rounds(k) + 1
    ensures Count(Lockstep(k, hostFirst).events, AwaitDone) == Rounds(k)
    ensures Count(Lockstep(k, hostFirst).events, Cancel) == if k + 1 >= CancelFrame then 1 else 0
  {
    if k != 0 {
      var j: nat := k - 1;
      LockstepWaits(j, hostFirst);
      LockstepWaitsStep(j, hostFirst);
    } else {
      LockstepFirst(hostFirst);
    }
  }

  /** The inductive step of `LockstepWaits`. */
  lemma LockstepWaitsStep(j: nat, hostFirst: nat -> bool)
    requires Count(Lockstep(j, hostFirst).events, AwaitStart) == Rounds(j) + 1
    requires Count(Lockstep(j, hostFirst).events, AwaitDone) == Rounds(j)
    requires Count(Lockstep(j, hostFirst).events, Cancel) == if j + 1 >= CancelFrame then 1 else 0
    ensures Count(Lockstep(j + 1, hostFirst).events, AwaitStart) == Rounds(j + 1) + 1
    ensures Count(Lockstep(j + 1, hostFirst).events, AwaitDone) == Rounds(j + 1)
    ensures Count(Lockstep(j + 1, hostFirst).events, Cancel) == if j + 2 >= CancelFrame then 1 else 0
  {
    if j + 1 < CancelFrame {
      RoundWaits(Lockstep(j, hostFirst).events, HostRead(j + 1, hostFirst), j + 1);
      LockstepUnfold(j, hostFirst);
    } else {
      LockstepStops(j, hostFirst);
    }
  }

  /** Later rounds add nothing once the context is cancelled. */
  lemma {:induction false} LockstepStaysCancelled(k: nat, hostFirst: nat -> bool)
    ensures Lockstep(k, hostFirst) == Lockstep(Rounds(k), hostFirst)
  {
    if k != 0 {
      var j: nat := k - 1;
      LockstepStaysCancelled(j, hostFirst);
      if j + 1 >= CancelFrame {
        LockstepStops(j, hostFirst);
      }
    }
  }

  /** The last round's frame wait reports the previous frame done, cancels,
      and blocks for a start that the run no longer performs. */
  lemma LockstepLastRound(hostFirst: nat -> bool)
    ensures var t := Lockstep(CancelFrame - 1, hostFirst).events;
      |t| >= 2 && t[|t| - 2] == Cancel && t[|t| - 1] == AwaitStart
  {
    var j: nat := CancelFrame - 2;
    var w := WaitForNextFrame(j + 1).events;
    LockstepUnfold(j, hostFirst);
    assert w == [SendDone(j + 1), Cancel, AwaitStart];
  }

  /** The run ends at the cancellation: every run of at least `CancelFrame - 1`
      rounds is the same run, and its last events are the script's cancel and
      its final wait for a start. */
  lemma LockstepEndsAtCancel(k: nat, hostFirst: nat -> bool)
    ensures Lockstep(k, hostFirst) == Lockstep(Rounds(k), hostFirst)
    ensures var t := Lockstep(k, hostFirst).events;
      k + 1 >= CancelFrame ==> |t| >= 2 && t[|t| - 2] == Cancel && t[|t| - 1] == AwaitStart
  {
    LockstepStaysCancelled(k, hostFirst);
    if k + 1 >= CancelFrame {
      LockstepLastRound(hostFirst);
    }
  }

  /** Appending one lockstep round past the first frame keeps the alternation,
      provided the script's done is for the frame the host started or, when
      not `exact`, for the next one. */
  lemma AlternatesRound(p: seq<Event>, s: nat, f: nat, exact: bool)
    requires f > 0
    requires f == s || (!exact && f == s + 1)
    requires Alternates(p, exact)
    ensures Alternates(p + Update(s) + WaitForNextFrame(f).events, exact)
  {
    var u, w := Update(s), WaitForNextFrame(f).events;
    var t := p + u + w;
    WaitForNextFrameFrames(f);
    assert u == [SendStart(s), AwaitDone];
    forall i | 0 <= i < |t| && t[i].SendStart?
      ensures && i + 2 < |t| && t[i + 1] == AwaitDone && t[i + 2].SendDone?
              && (t[i + 2].frame == t[i].frame || (!exact && t[i + 2].frame == t[i].frame + 1))
    {
      if i < |p| {
        assert t[i] == p[i];
        assert p[i].SendStart?;
        assert t[i + 1] == p[i + 1] && t[i + 2] == p[i + 2];
      } else {
        assert t[|p| + 2] == w[0];
      }
    }
  }

  /** Alternation along the run, exact when the host always reads late. */
  lemma {:induction false} LockstepAlternatesIf(k: nat, hostFirst: nat -> bool, exact: bool)
    requires exact ==> forall r :: !hostFirst(r)
    ensures Alternates(Lockstep(k, hostFirst).events, exact)
  {
    if k != 0 {
      var j: nat := k - 1;
      LockstepAlternatesIf(j, hostFirst, exact);
      if j + 1 < CancelFrame {
        AlternatesRound(Lockstep(j, hostFirst).events, HostRead(j + 1, hostFirst), j + 1, exact);
        LockstepUnfold(j, hostFirst);
      } else {
        LockstepStops(j, hostFirst);
      }
    } else {
      LockstepFirst(hostFirst);
    }
  }

  /** Alternation along the whole lockstep run: every start is answered by the
      host's wait for done and then the script's done, for the started frame
      or the one after it; for exactly the started frame when the host always
      reads the counter after the script's increment. */
  lemma LockstepAlternates(k: nat, hostFirst: nat -> bool)
    ensures Alternates(Lockstep(k, hostFirst).events, false)
    ensures (forall r :: !hostFirst(r)) ==> Alternates(Lockstep(k, hostFirst).events, true)
  {
    LockstepAlternatesIf(k, hostFirst, false);
    if forall r :: !hostFirst(r) {
      LockstepAlternatesIf(k, hostFirst, true);
    }
  }
}
