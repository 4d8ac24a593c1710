/** logger_t: what its two threads do to it, one method a step. */
module LoggerThreads {
  import opened EventLogFormat
  import opened LoggerProtocol
  import opened Wrappers
  import EventLog

  class Logger {
    const log: EventLog.Log
    const maxWriteQueueSize: int
    var writeQueueSize: int
    var exitFlag: bool
    var queue: seq<Item>
    var nevents: nat
    var logsize: nat
    var dropped: nat
    ghost var receiver: Receiver
    ghost var writer: Writer
    ghost var received: nat
    ghost var accepted: seq<Msg>
    ghost var written: seq<Msg>
    ghost var discarded: seq<Msg>

    ghost function View(): State
      reads this, log
    {
      State(maxWriteQueueSize, writeQueueSize, exitFlag, queue, receiver, writer, log.file,
            if log.eventcount >= 0 then log.eventcount else 0,
            nevents, logsize, dropped, received, accepted, written, discarded)
    }

    ghost predicate Ok()
      reads this, log
    {
      log.pos == |log.file| && log.eventcount >= 0 && Inv(View())
    }

    constructor (max: nat)
      ensures Ok() && View() == Init(max)
    {
      log := new EventLog.Log([]);
      maxWriteQueueSize, writeQueueSize, exitFlag, queue, nevents, logsize, dropped := max, 0, false, [], 0, 0, 0;
      receiver, writer, received, accepted, written, discarded := Idle, Waiting, 0, [], [], [];
    }

    /** message_handler up to the end of its lock region; false if nothing is queued. */
    method Reserve(msg: Msg, filtered: bool) returns (ok: bool)
      requires Ok() && Enabled(View(), Arrive(msg, filtered))
      modifies this
      ensures Ok() && Next(old(View()), Arrive(msg, filtered), View())
      ensures ok <==> receiver == Reserved(msg)
      ensures ok <==> !filtered && 40 + |msg.channel| + 1 + |msg.data| + old(writeQueueSize) <= maxWriteQueueSize
    {
      hide Inv; hide Record; hide MsgsOf; hide LogBytes;
      StepKeeps(View(), Arrive(msg, filtered));
      if filtered { return false; }
      received := received + 1;
      var memSz := EVENT_STRUCT + |msg.channel| + 1 + |msg.data|;
      var memRequired := memSz + writeQueueSize;
      if memRequired > maxWriteQueueSize {
        dropped := dropped + 1;
        return false;
      }
      writeQueueSize := memRequired;
      receiver, accepted := Reserved(msg), accepted + [msg];
      return true;
    }

    method PushEvent(msg: Msg)
      requires Ok() && receiver == Reserved(msg)
      modifies this
      ensures Ok() && Next(old(View()), Push, View())
    {
      hide Inv; hide Record; hide MsgsOf; hide LogBytes;
      StepKeeps(View(), Push);
      queue := queue + [Queued(msg)];
      receiver := Idle;
    }

    method RequestExit()
      requires Ok() && Enabled(View(), SetExit)
      modifies this
      ensures Ok() && Next(old(View()), SetExit, View())
    {
      hide Inv; hide Record; hide MsgsOf; hide LogBytes;
      StepKeeps(View(), SetExit);
      exitFlag, receiver := true, ExitFlagged;
    }

    method PushExitNote()
      requires Ok() && Enabled(View(), PushExit)
      modifies this
      ensures Ok() && Next(old(View()), PushExit, View())
    {
      hide Inv; hide Record; hide MsgsOf; hide LogBytes;
      StepKeeps(View(), PushExit);
      queue, receiver := queue + [ExitNote], Finished;
    }

    method PopItem() returns (item: Item)
      requires Ok() && Enabled(View(), Pop)
      modifies this
      ensures Ok() && Next(old(View()), Pop, View()) && writer == Popped(item)
    {
      hide Inv; hide Record; hide MsgsOf; hide LogBytes;
      StepKeeps(View(), Pop);
      item := queue[0];
      queue, writer := queue[1..], Popped(item);
    }

    lemma NoNoteWithoutFlag(s: State)
      requires Inv(s) && s.writer.Popped? && !s.exitFlag
      ensures s.writer.item.Queued?
    {}

    /** The lock region of the write thread. None when it has to exit. Without the
        flag, what was popped is an event, never the exit note. */
    method AccountFor(item: Item) returns (msg: Option<Msg>)
      requires Ok() && writer == Popped(item)
      modifies this
      ensures Ok() && Next(old(View()), Account, View())
      ensures msg.Some? ==> item == Queued(msg.value) && writer == Writing(msg.value)
      ensures msg == None ==> writer == Exited
    {
      hide Inv; hide Record; hide MsgsOf; hide LogBytes;
      if !exitFlag { NoNoteWithoutFlag(View()); }
      StepKeeps(View(), Account);
      if exitFlag {
        writer, discarded := Exited, MsgsOf([item]);
        return None;
      }
      var sz := EVENT_STRUCT + |item.msg.channel| + 1 + |item.msg.data|;
      writeQueueSize := writeQueueSize - sz;
      writer := Writing(item.msg);
      return Some(item.msg);
    }

    method WriteToLog(msg: Msg)
      requires Ok() && writer == Writing(msg)
      modifies this, log
      ensures Ok() && Next(old(View()), WriteEvent, View())
    {
      hide Inv; hide Record; hide MsgsOf; hide LogBytes;
      StepKeeps(View(), WriteEvent);
      log.WriteEvent(msg.timestamp, msg.channel, msg.data);
      written, writer := written + [msg], Written(msg);
    }

    method BookkeepEvent(msg: Msg)
      requires Ok() && writer == Written(msg)
      modifies this
      ensures Ok() && Next(old(View()), Bookkeep, View())
    {
      hide Inv; hide Record; hide MsgsOf; hide LogBytes;
      StepKeeps(View(), Bookkeep);
      nevents := nevents + 1;
      logsize := logsize + 4 + 8 + 8 + 4 + |msg.channel| + 4 + |msg.data|;
      writer := Waiting;
    }
  }
}
