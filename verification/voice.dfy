/** The voice assistant panel (components/VoiceAssistant.tsx): the bounded
    transcript, and the active and minimised flags as the session toggle and
    the live session's callbacks set them. The session itself is outside
    the model; what it reports during and after `start` is a sequence of
    events. */
module Voice {
  // ---------------------------------------------------------------------------
  // Transcript

  datatype MessageKind = Input | Output

  datatype Message = Message(text: string, kind: MessageKind)

  /** `slice(-10)` keeps this many of the earlier messages. */
  const KeptMessages: nat := 10

  /** `[...prev.slice(-10), message]`: the last ten earlier messages, then the
      new one. */
  function Append(prev: seq<Message>, m: Message): (r: seq<Message>)
    ensures |r| <= KeptMessages + 1
    ensures |r| == (if |prev| > KeptMessages then KeptMessages else |prev|) + 1
    ensures r[|r| - 1] == m
    ensures r[..|r| - 1] == prev[|prev| - (|r| - 1)..]
  {
    var kept := if |prev| > KeptMessages then prev[|prev| - KeptMessages..] else prev;
    assert (kept + [m])[..|kept|] == kept;
    kept + [m]
  }

  /** The transcript after `stream` arrives message by message into an empty one. */
  function Transcript(stream: seq<Message>): seq<Message>
    decreases |stream|
  {
    if |stream| == 0 then [] else Append(Transcript(stream[..|stream| - 1]), stream[|stream| - 1])
  }

  /** The last `n` elements of `s`, or all of them when there are fewer. */
  function LastOf(s: seq<Message>, n: nat): (r: seq<Message>)
    ensures |r| == if |s| > n then n else |s|
  {
    if |s| > n then s[|s| - n..] else s
  }

  /** Appending to the last eleven of a stream gives the last eleven of the
      longer stream. */
  lemma AppendLastEleven(front: seq<Message>, m: Message)
    ensures Append(LastOf(front, KeptMessages + 1), m) == LastOf(front + [m], KeptMessages + 1)
  {
    var t := LastOf(front, KeptMessages + 1);
    if |front| <= KeptMessages {
      assert t == front;
    } else {
      var k := |front| - KeptMessages;
      assert t[|t| - KeptMessages..] == front[k..];
      assert Append(t, m) == front[k..] + [m];
      assert (front + [m])[k..] == front[k..] + [m];
    }
  }

  /** The transcript is always the last eleven messages of the stream, in
      the order they arrived. */
  lemma {:induction false} TranscriptIsLastEleven(stream: seq<Message>)
    ensures Transcript(stream) == LastOf(stream, KeptMessages + 1)
    decreases |stream|
  {
    if |stream| > 0 {
      var front, last := TranscriptStep(stream);
      TranscriptIsLastEleven(front);
      AppendLastEleven(front, last);
    }
  }

  /** A non-empty stream is its front and its last message, and its
      transcript is the front's with that message appended. */
  lemma TranscriptStep(stream: seq<Message>) returns (front: seq<Message>, last: Message)
    requires |stream| > 0
    ensures stream == front + [last]
    ensures Transcript(stream) == Append(Transcript(front), last)
  {
    front, last := stream[..|stream| - 1], stream[|stream| - 1];
  }

  // ---------------------------------------------------------------------------
  // Panel and session

  /** The panel's state: whether a session is shown as live, the transcript,
      whether the panel is folded away, and how many tap-in requests the
      session has forwarded to the console. */
  datatype Panel = Panel(active: bool, messages: seq<Message>, minimized: bool, tapInRequests: nat)

  const InitialPanel: Panel := Panel(false, [], true, 0)

  /** What the live session reports through its callbacks. */
  datatype SessionEvent = Heard(message: Message) | AskTapIn | Closed | Failed

  predicate Ends(e: SessionEvent) {
    e.Closed? || e.Failed?
  }

  /** One callback: a message joins the transcript, a tap-in request is
      forwarded, and a close or an error marks the panel inactive. */
  function OnEvent(v: Panel, e: SessionEvent): (r: Panel)
    ensures r.minimized == v.minimized
    ensures Ends(e) ==> !r.active && r.messages == v.messages
    ensures !Ends(e) ==> r.active == v.active
    ensures e.Heard? ==> r.messages == Append(v.messages, e.message)
    ensures r.tapInRequests == v.tapInRequests + (if e.AskTapIn? then 1 else 0)
  {
    match e
    case Heard(m) => v.(messages := Append(v.messages, m))
    case AskTapIn => v.(tapInRequests := v.tapInRequests + 1)
    case Closed => v.(active := false)
    case Failed => v.(active := false)
  }

  /** The callbacks in the order they fire. */
  function Replay(v: Panel, events: seq<SessionEvent>): Panel
    decreases |events|
  {
    if |events| == 0 then v else Replay(OnEvent(v, events[0]), events[1..])
  }

  /** No callback touches the minimised flag. */
  lemma {:induction false} ReplayKeepsMinimized(v: Panel, events: seq<SessionEvent>)
    ensures Replay(v, events).minimized == v.minimized
    decreases |events|
  {
    if |events| > 0 {
      ReplayKeepsMinimized(OnEvent(v, events[0]), events[1..]);
    }
  }

  /** After the callbacks the panel is active exactly when it was before and
      neither a close nor an error came. */
  lemma {:induction false} ReplayActive(v: Panel, events: seq<SessionEvent>)
    ensures Replay(v, events).active <==> v.active && forall i :: 0 <= i < |events| ==> !Ends(events[i])
    decreases |events|
  {
    if |events| > 0 {
      ReplayActive(OnEvent(v, events[0]), events[1..]);
      assert forall i :: 1 <= i < |events| ==> events[i] == events[1..][i - 1];
    }
  }

  /** However many messages arrive, the transcript never holds more than eleven. */
  lemma {:induction false} ReplayBounded(v: Panel, events: seq<SessionEvent>)
    requires |v.messages| <= KeptMessages + 1
    ensures |Replay(v, events).messages| <= KeptMessages + 1
    decreases |events|
  {
    if |events| > 0 {
      ReplayBounded(OnEvent(v, events[0]), events[1..]);
    }
  }

  /** How many tap-in requests a run of callbacks forwards. */
  function Asks(events: seq<SessionEvent>): nat
    decreases |events|
  {
    if |events| == 0 then 0 else (if events[0].AskTapIn? then 1 else 0) + Asks(events[1..])
  }

  /** The panel forwards one request per `AskTapIn` callback. */
  lemma {:induction false} ReplayCountsRequests(v: Panel, events: seq<SessionEvent>)
    ensures Replay(v, events).tapInRequests == v.tapInRequests + Asks(events)
    decreases |events|
  {
    if |events| > 0 {
      ReplayCountsRequests(OnEvent(v, events[0]), events[1..]);
    }
  }

  /** Without a heard message the transcript stays as it was. */
  lemma {:induction false} ReplayKeepsMessages(v: Panel, events: seq<SessionEvent>)
    requires forall i :: 0 <= i < |events| ==> !events[i].Heard?
    ensures Replay(v, events).messages == v.messages
    decreases |events|
  {
    if |events| > 0 {
      assert !events[0].Heard?;
      assert forall i :: 0 <= i < |events| - 1 ==> events[1..][i] == events[i + 1];
      ReplayKeepsMessages(OnEvent(v, events[0]), events[1..]);
    }
  }

  /** `toggleSession`. With a session shown live it stops: the panel goes
      inactive and the transcript is cleared. Otherwise the panel unfolds,
      the session starts and reports `duringStart` before `start` returns,
      and then the panel is marked active. */
  function ToggleSession(v: Panel, duringStart: seq<SessionEvent>): (r: Panel)
    ensures v.active ==> !r.active && r.messages == [] && r.minimized == v.minimized
    ensures !v.active ==> r.active && !r.minimized
    ensures !v.active && duringStart == [] ==> r == v.(active := true, minimized := false)
    ensures v.active ==> r == v.(active := false, messages := [])
    ensures !v.active ==> r.tapInRequests == v.tapInRequests + Asks(duringStart)
    ensures !v.active && (forall i :: 0 <= i < |duringStart| ==> !duringStart[i].Heard?) ==> r.messages == v.messages
    ensures !v.active && (forall i :: 0 <= i < |duringStart| ==> Ends(duringStart[i])) ==>
      r == v.(active := true, minimized := false)
  {
    if v.active then v.(active := false, messages := [])
    else
      var w := v.(minimized := false);
      ReplayKeepsMinimized(w, duringStart);
      ReplayCountsRequests(w, duringStart);
      assert (forall i :: 0 <= i < |duringStart| ==> Ends(duringStart[i])) ==> Asks(duringStart) == 0 by {
        if forall i :: 0 <= i < |duringStart| ==> Ends(duringStart[i]) {
          EndsAskNothing(duringStart);
        }
      }
      assert (forall i :: 0 <= i < |duringStart| ==> !duringStart[i].Heard?) ==> Replay(w, duringStart).messages == w.messages by {
        if forall i :: 0 <= i < |duringStart| ==> !duringStart[i].Heard? {
          ReplayKeepsMessages(w, duringStart);
        }
      }
      Replay(w, duringStart).(active := true)
  }

  /** Closes and errors forward no request. */
  lemma {:induction false} EndsAskNothing(events: seq<SessionEvent>)
    requires forall i :: 0 <= i < |events| ==> Ends(events[i])
    ensures Asks(events) == 0
    decreases |events|
  {
    if |events| > 0 {
      assert forall i :: 0 <= i < |events| - 1 ==> events[1..][i] == events[i + 1];
      EndsAskNothing(events[1..]);
    }
  }

  /** As written, a session whose start fails (the microphone refused, which
      the session reports as an error before returning) is still shown live. */
  lemma RefusedMicrophoneShowsActive(v: Panel)
    requires !v.active
    ensures ToggleSession(v, [Failed]).active
    ensures !Replay(v.(minimized := false), [Failed]).active
  {
  }

  /** The toggle with the panel marked active before `start`, so that a close
      or error reported while starting is not overwritten. */
  function CorrectedToggleSession(v: Panel, duringStart: seq<SessionEvent>): (r: Panel)
    ensures v.active ==> !r.active && r.messages == [] && r.minimized == v.minimized
    ensures !v.active ==> !r.minimized
  {
    if v.active then v.(active := false, messages := [])
    else
      ReplayKeepsMinimized(v.(minimized := false, active := true), duringStart);
      Replay(v.(minimized := false, active := true), duringStart)
  }

  /** After the corrected start the panel is shown live exactly when the
      session neither closed nor failed while starting. */
  lemma CorrectedActiveMeansLive(v: Panel, duringStart: seq<SessionEvent>)
    requires !v.active
    ensures CorrectedToggleSession(v, duringStart).active <==> forall i :: 0 <= i < |duringStart| ==> !Ends(duringStart[i])
  {
    ReplayActive(v.(minimized := false, active := true), duringStart);
  }

  /** Stopping and starting again with nothing reported gives a live, unfolded
      panel with an empty transcript. */
  lemma RestartClearsTranscript(v: Panel)
    requires v.active
    ensures var r := ToggleSession(ToggleSession(v, []), []);
      r.active && !r.minimized && r.messages == []
  {
  }
}
