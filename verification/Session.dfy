/** The write side of a TCP session: one asynchronous write at a time, from a queue. */
module Sessions {

  /** A call from outside, or the completion of the outstanding write. */
  datatype Event = SendEvent(data: string) | CompletionEvent(error: bool)

  /** What a sequence of calls does: the queue, and everything sent, started and completed so far. */
  datatype Log = Log(queue: seq<string>, closed: bool, sent: seq<string>, started: seq<string>, completed: seq<string>)
  {
    /** One call; a completion only comes while a write is outstanding. */
    function After(event: Event): Log {
      match event
      case SendEvent(data) =>
        this.(queue := queue + [data], sent := sent + [data], started := if queue == [] then started + [data] else started)
      case CompletionEvent(error) =>
        if queue == [] || closed then this
        else if error then this.(closed := true)
        else
          this.(queue := queue[1..], completed := completed + [queue[0]],
                started := if |queue| == 1 then started else started + [queue[1]])
    }
  }

  function AfterAll(log: Log, events: seq<Event>): Log {
    if events == [] then log else AfterAll(log, events[..|events| - 1]).After(events[|events| - 1])
  }

  /** The data of all calls of SentData, in order. */
  function SentBy(events: seq<Event>): seq<string> {
    if events == [] then []
    else
      SentBy(events[..|events| - 1])
      + match events[|events| - 1] { case SendEvent(data) => [data] case CompletionEvent(_) => [] }
  }

  /** The write under way is the front of the queue, and completed, outstanding and queued data is all that was sent. */
  ghost predicate Consistent(log: Log) {
    && log.sent == log.completed + log.queue
    && (log.closed ==> log.queue != [])
    && log.started == log.completed + if log.queue == [] then [] else [log.queue[0]]
  }

  lemma StaysConsistent(log: Log, event: Event)
    requires Consistent(log)
    ensures Consistent(log.After(event))
    ensures log.closed ==>
      log.After(event).closed && log.After(event).started == log.started && log.After(event).completed == log.completed
  {
    if event.CompletionEvent? && log.queue != [] {
      assert log.queue == [log.queue[0]] + log.queue[1..];
    }
  }

  lemma {:induction false} EverythingIsSentInOrder(log: Log, events: seq<Event>)
    requires Consistent(log)
    ensures Consistent(AfterAll(log, events))
    ensures AfterAll(log, events).sent == log.sent + SentBy(events)
    decreases |events|
  {
    hide Consistent;
    if events != [] {
      var front := events[..|events| - 1];
      EverythingIsSentInOrder(log, front);
      StaysConsistent(AfterAll(log, front), events[|events| - 1]);
    }
  }

  /** Once a write has failed, nothing is started or completed any more, whatever is called. */
  lemma {:induction false} NothingStartsAfterFailure(log: Log, before: seq<Event>, after: seq<Event>)
    requires Consistent(log) && AfterAll(log, before).closed
    ensures var failed, end := AfterAll(log, before), AfterAll(log, before + after);
            end.closed && end.started == failed.started && end.completed == failed.completed
    decreases |after|
  {
    hide Consistent, Log.After;
    if after == [] {
      assert before + after == before;
    } else {
      var all, front := before + after, after[..|after| - 1];
      assert all[..|all| - 1] == before + front && all[|all| - 1] == after[|after| - 1];
      NothingStartsAfterFailure(log, before, front);
      EverythingIsSentInOrder(log, before + front);
      StaysConsistent(AfterAll(log, before + front), after[|after| - 1]);
    }
  }

  class Session {
    var writeQueue: seq<string>
    var closed: bool
    /** The writes started and not yet completed. */
    ghost var outstanding: seq<string>
    /** Everything passed to SentData, every write started, and every write completed without error, in order. */
    ghost var sent: seq<string>
    ghost var started: seq<string>
    ghost var completed: seq<string>

    ghost predicate Valid()
      reads this
    {
      && sent == completed + writeQueue
      && (closed ==> writeQueue != [] && outstanding == [])
      && started == completed + outstanding + (if closed then [writeQueue[0]] else [])
      && (!closed ==> outstanding == if writeQueue == [] then [] else [writeQueue[0]])
    }

    ghost function ToLog(): Log
      reads this
    {
      Log(writeQueue, closed, sent, started, completed)
    }

    constructor ()
      ensures Valid() && sent == [] && !closed
    {
      writeQueue := [];
      closed := false;
      outstanding := [];
      sent := [];
      started := [];
      completed := [];
    }

    method SentData(data: string)
      requires Valid()
      modifies this
      ensures Valid() && sent == old(sent) + [data] && completed == old(completed) && closed == old(closed)
      ensures closed ==> started == old(started)
      ensures ToLog() == old(ToLog()).After(SendEvent(data))
    {
      var writeInProgress := writeQueue != [];
      writeQueue := writeQueue + [data];
      sent := sent + [data];
      if !writeInProgress {
        DoWrite();
      }
    }

    method DoWrite()
      requires writeQueue != []
      modifies this`outstanding, this`started
      ensures outstanding == old(outstanding) + [writeQueue[0]] && started == old(started) + [writeQueue[0]]
    {
      outstanding := outstanding + [writeQueue[0]];
      started := started + [writeQueue[0]];
    }

    /** The handler of the completion of a write. */
    method AsyncWrite(error: bool)
      requires Valid() && outstanding != []
      modifies this
      ensures Valid() && sent == old(sent) && closed == error
      ensures completed == if error then old(completed) else old(completed) + [old(outstanding)[0]]
      ensures error ==> started == old(started)
      ensures ToLog() == old(ToLog()).After(CompletionEvent(error))
    {
      outstanding := outstanding[1..];
      if !error {
        completed := completed + [writeQueue[0]];
        writeQueue := writeQueue[1..];
        if writeQueue != [] {
          DoWrite();
        }
      } else {
        Close();
      }
    }

    method Close()
      modifies this`closed
      ensures closed
    {
      closed := true;
    }
  }

  /** The session after any sequence of calls, in which a completion only comes while a write is outstanding. */
  method Drive(session: Session, events: seq<Event>)
    requires session.Valid()
    modifies session
    ensures session.Valid()
    ensures session.ToLog() == AfterAll(old(session.ToLog()), events)
    ensures session.sent == old(session.sent) + SentBy(events)
    ensures |session.outstanding| <= 1
    ensures !session.closed ==> (session.outstanding != [] <==> session.writeQueue != [])
    ensures session.outstanding != [] ==> session.outstanding == [session.writeQueue[0]]
    ensures session.completed <= session.started <= session.sent
    ensures old(session.closed) ==> session.closed && session.started == old(session.started)
    ensures forall i :: 0 <= i <= |events| && AfterAll(old(session.ToLog()), events[..i]).closed ==>
              && session.closed && session.outstanding == []
              && session.started == AfterAll(old(session.ToLog()), events[..i]).started
  {
    ghost var start := session.ToLog();
    for i := 0 to |events|
      invariant session.Valid()
      invariant session.ToLog() == AfterAll(start, events[..i])
    {
      assert events[..i + 1][..i] == events[..i];
      match events[i] {
        case SendEvent(data) =>
          session.SentData(data);
        case CompletionEvent(error) =>
          if session.writeQueue != [] && !session.closed {
            session.AsyncWrite(error);
          }
      }
    }
    assert events[..|events|] == events;
    EverythingIsSentInOrder(start, events);
    assert events[..0] == [] && AfterAll(start, events[..0]) == start;
    forall i | 0 <= i <= |events| && AfterAll(start, events[..i]).closed
      ensures session.closed && session.started == AfterAll(start, events[..i]).started
    {
      assert events[..i] + events[i..] == events;
      NothingStartsAfterFailure(start, events[..i], events[i..]);
    }
  }
}
