/**
  The line stream over a child process's output: chunks of text arrive, are cut at newlines into a queue, and
  are handed out one by one to a consumer that may have to wait.
 */
module LineStream {
  import opened Prelude

  // ---- The whole text ----

  /** What a reader of the whole text expects: its pieces, without an empty last one. */
  function WholeLines(text: string): seq<string> {
    var parts := Split('\n', text);
    if Last(parts) == "" then Init(parts) else parts
  }

  // ---- The stream object ----

  /** What next() comes back with, if it does not have to wait. */
  datatype Answer = Line(text: string) | EndOfStream | Waiting

  datatype State = State(buf: string, done: bool, queue: seq<string>, waiting: bool)

  const START := State("", false, [], false)

  /** The data handler; it wakes the consumer. */
  function OnData(s: State, chunk: string): State {
    var parts := Split('\n', s.buf + chunk);
    State(Last(parts), s.done, s.queue + Init(parts), false)
  }

  function OnEnd(s: State): State {
    State("", true, if s.buf != "" then s.queue + [s.buf] else s.queue, false)
  }

  function Answered(s: State): Answer {
    if s.queue != [] then Line(s.queue[0]) else if s.done then EndOfStream else Waiting
  }

  /** The loop of next(): it looks at the queue, and waits if there is neither a line nor the end. */
  function OnNext(s: State): State {
    if s.queue != [] then s.(queue := s.queue[1..], waiting := false)
    else if s.done then s.(waiting := false)
    else s.(waiting := true)
  }

  class KafkaStream {
    var buf: string
    var done: bool
    var lines: seq<string>
    var waiting: bool

    constructor ()
      ensures AsState() == START
    {
      buf, done, lines, waiting := "", false, [], false;
    }

    function AsState(): State
      reads this
    {
      State(buf, done, lines, waiting)
    }

    method Data(chunk: string)
      modifies this
      ensures AsState() == OnData(old(AsState()), chunk)
    {
      buf := buf + chunk;
      var parts := Split('\n', buf);
      buf := parts[|parts| - 1];
      ghost var complete := Init(parts);
      ghost var before := lines;
      for i := 0 to |parts| - 1
        invariant lines == before + complete[..i] && buf == Last(parts) && done == old(done)
      {
        lines := lines + [parts[i]];
      }
      assert complete[..|parts| - 1] == complete;
      waiting := false;
    }

    method End()
      modifies this
      ensures AsState() == OnEnd(old(AsState()))
    {
      if buf != "" {
        lines := lines + [buf];
        buf := "";
      }
      done := true;
      waiting := false;
    }

    method Next() returns (answer: Answer)
      modifies this
      ensures answer == Answered(old(AsState()))
      ensures AsState() == OnNext(old(AsState()))
    {
      if lines != [] {
        answer := Line(lines[0]);
        lines := lines[1..];
        waiting := false;
      } else if done {
        answer := EndOfStream;
        waiting := false;
      } else {
        answer := Waiting;
        waiting := true;
      }
    }
  }

  /** Only a call that finds nothing leaves the consumer waiting, and any output wakes it. */
  lemma {:induction false} WaitingMeans(s: State, chunk: string)
    ensures OnNext(s).waiting <==> Answered(s) == Waiting
    ensures !OnData(s, chunk).waiting && !OnEnd(s).waiting && !START.waiting
    ensures Answered(s) == EndOfStream <==> s.done && s.queue == []
  {
  }

  // ---- Runs ----

  datatype Event = Data(chunk: string) | End | Next

  /** No output after the end. */
  ghost predicate IsStream(events: seq<Event>) {
    forall i, j :: 0 <= i < j < |events| && events[i].End? ==> events[j].Next?
  }

  function After(s: State, e: Event): State {
    match e
    case Data(chunk) => OnData(s, chunk)
    case End => OnEnd(s)
    case Next => OnNext(s)
  }

  function Run(events: seq<Event>): State {
    if events == [] then START else After(Run(Init(events)), Last(events))
  }

  /** The text that has arrived. */
  function Text(events: seq<Event>): string {
    if events == [] then ""
    else Text(Init(events)) + if Last(events).Data? then Last(events).chunk else ""
  }

  /** The lines that next() has handed out. */
  function Delivered(events: seq<Event>): seq<string> {
    if events == [] then []
    else
      var e, answer := Last(events), Answered(Run(Init(events)));
      Delivered(Init(events)) + if e.Next? && answer.Line? then [answer.text] else []
  }

  predicate HasEnded(events: seq<Event>) { End in events }

  /** What was delivered and what the state still holds make up the text that has arrived. */
  ghost predicate Accounted(s: State, delivered: seq<string>, text: string) {
    && (s.waiting ==> s.queue == [] && !s.done)
    && if s.done then delivered + s.queue == WholeLines(text) else delivered + s.queue + [s.buf] == Split('\n', text)
  }

  lemma {:induction false} Regroup(delivered: seq<string>, queue: seq<string>, buf: string, parts: seq<string>)
    requires parts != []
    ensures Init(delivered + queue + [buf]) == delivered + queue && Last(delivered + queue + [buf]) == buf
    ensures (delivered + queue) + parts == delivered + (queue + Init(parts)) + [Last(parts)]
  {
    assert parts == Init(parts) + [Last(parts)];
  }

  lemma {:induction false} DataAccounted(s: State, delivered: seq<string>, text: string, chunk: string)
    requires Accounted(s, delivered, text) && !s.done
    ensures Accounted(OnData(s, chunk), delivered, text + chunk)
  {
    var parts := Split('\n', s.buf + chunk);
    SplitConcat('\n', text, chunk);
    Regroup(delivered, s.queue, s.buf, parts);
    assert Split('\n', text + chunk) == (delivered + s.queue) + parts;
  }

  lemma {:induction false} EndAccounted(s: State, delivered: seq<string>, text: string)
    requires Accounted(s, delivered, text) && !s.done
    ensures Accounted(OnEnd(s), delivered, text)
  {
    assert Init(Split('\n', text)) == delivered + s.queue;
  }

  lemma {:induction false} NextAccounted(s: State, delivered: seq<string>, text: string)
    requires Accounted(s, delivered, text)
    ensures Accounted(OnNext(s), delivered + if Answered(s).Line? then [Answered(s).text] else [], text)
  {
    if s.queue != [] {
      assert delivered + s.queue == delivered + [s.queue[0]] + s.queue[1..];
    } else {
      assert delivered + [] == delivered;
    }
  }

  lemma {:induction false} NotEndedBefore(events: seq<Event>)
    requires IsStream(events) && events != [] && !Last(events).Next?
    ensures End !in Init(events)
  {
  }

  lemma {:induction false} NothingLost(events: seq<Event>)
    requires IsStream(events)
    ensures Run(events).done == HasEnded(events)
    ensures Accounted(Run(events), Delivered(events), Text(events))
  {
    if events != [] {
      var before, e := Init(events), Last(events);
      NothingLost(before);
      assert events == before + [e];
      var s, text, delivered := Run(before), Text(before), Delivered(before);
      assert text + "" == text && delivered + [] == delivered;
      if !e.Next? {
        NotEndedBefore(events);
      }
      match e
      case Data(chunk) => DataAccounted(s, delivered, text, chunk);
      case End => EndAccounted(s, delivered, text);
      case Next => NextAccounted(s, delivered, text);
    }
  }

  /**
    However the text was cut into chunks and however the events interleaved, a consumer that is told of the end
    has been given exactly the lines of the whole text, once each and in order; before that it has a prefix.
   */
  lemma {:induction false} ChunkInvariant(events: seq<Event>)
    requires IsStream(events)
    ensures Delivered(events) <= if HasEnded(events) then WholeLines(Text(events)) else Init(Split('\n', Text(events)))
    ensures Answered(Run(events)) == EndOfStream ==> Delivered(events) == WholeLines(Text(events))
  {
    NothingLost(events);
    var s := Run(events);
    if !s.done {
      assert Init(Split('\n', Text(events))) == Delivered(events) + s.queue;
    } else if s.queue == [] {
      assert Delivered(events) + s.queue == Delivered(events);
    }
  }

  /** Two runs over the same text, however cut, end with the same lines delivered. */
  lemma {:induction false} SameTextSameLines(a: seq<Event>, b: seq<Event>)
    requires IsStream(a) && IsStream(b) && Text(a) == Text(b)
    requires Answered(Run(a)) == EndOfStream && Answered(Run(b)) == EndOfStream
    ensures Delivered(a) == Delivered(b)
  {
    ChunkInvariant(a);
    ChunkInvariant(b);
  }

  /** After the end, asking often enough always gets there: each call hands out a line until none is left. */
  lemma {:induction false} EndIsReached(events: seq<Event>) returns (more: seq<Event>)
    requires IsStream(events) && HasEnded(events)
    ensures IsStream(events + more) && (forall e :: e in more ==> e == Next)
    ensures Text(events + more) == Text(events)
    ensures Answered(Run(events + more)) == EndOfStream
    decreases |Run(events).queue|
  {
    NothingLost(events);
    if Run(events).queue == [] {
      more := [];
      assert events + [] == events;
    } else {
      var next := events + [Next];
      assert Init(next) == events && Last(next) == Next;
      assert Text(next) == Text(events) + "" == Text(events);
      assert HasEnded(next) by { assert forall e :: e in events ==> e in next; }
      var rest := EndIsReached(next);
      more := [Next] + rest;
      assert events + more == next + rest;
    }
  }
}
