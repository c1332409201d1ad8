/** The connection automaton of cs/server.cc: one event at a time, with reads and
    writes that deliver as much or as little as they like. */
module Server {
  import opened Framing

  datatype Status = Cmd | Wait | Read | Write | Closed

  /** What a `read` or `write` returns: some bytes, nothing for now, or the end of the connection. */
  datatype ReadResult = Bytes(bytes: seq<byte>) | ReadAgain | ReadFailed

  datatype WriteResult = Count(n: nat) | WriteAgain | WriteFailed

  /** What became of a message: it was refused, or the action was called with it. */
  datatype Call = Refused | Acted(message: seq<byte>, ok: bool, out: seq<byte>)

  /** The reply to it. */
  function ReplyTo(c: Call): (r: seq<byte>) {
    match c
    case Refused => FLOW_INFO
    case Acted(_, ok, out) => if !ok || out == [] then ACTION_FAILED_INFO else out
  }

  function Replies(calls: seq<Call>): (r: seq<seq<byte>>)
    ensures |r| == |calls|
  {
    seq(|calls|, i requires 0 <= i < |calls| => ReplyTo(calls[i]))
  }

  const BUFFER := 4096

  lemma HandledSnoc(handled: seq<seq<byte>>, m: seq<byte>, calls: seq<Call>, c: Call)
    ensures FramedAll(handled + [m]) == FramedAll(handled) + Framed(m)
    ensures FramedAll(Replies(calls + [c])) == FramedAll(Replies(calls)) + Framed(ReplyTo(c))
  {
    assert Replies(calls + [c]) == Replies(calls) + [ReplyTo(c)];
    FramedSnoc(handled, m);
    FramedSnoc(Replies(calls), ReplyTo(c));
  }

  /** The world around a connection: any results, within the bounds of the calls.  It
      keeps a record of all it has delivered, has been sent and has been asked. */
  class World {
    ghost var received: seq<byte>
    ghost var sent: seq<byte>
    ghost var calls: seq<Call>

    constructor ()
      ensures received == [] && sent == [] && calls == []
    {
      received, sent, calls := [], [], [];
    }

    method Receive(max: nat) returns (r: ReadResult)
      requires max > 0
      modifies this`received
      ensures r.Bytes? ==> 0 < |r.bytes| <= max
      ensures received == old(received) + if r.Bytes? then r.bytes else []
    {
      r :| r.Bytes? ==> 0 < |r.bytes| <= max;
      received := received + if r.Bytes? then r.bytes else [];
    }

    method Send(bytes: seq<byte>) returns (r: WriteResult)
      requires |bytes| > 0
      modifies this`sent
      ensures r.Count? ==> 0 < r.n <= |bytes|
      ensures sent == old(sent) + if r.Count? then bytes[..r.n] else []
    {
      r :| r.Count? ==> 0 < r.n <= |bytes|;
      sent := sent + if r.Count? then bytes[..r.n] else [];
    }

    /** Whether the flow is restricted at the moment. */
    method CheckFlow() returns (restricted: bool)
      modifies this`calls
      ensures calls == if restricted then old(calls) + [Refused] else old(calls)
    {
      restricted :| restricted || !restricted;
      calls := if restricted then calls + [Refused] else calls;
    }

    /** The server's action; its output is short enough for a frame. */
    method Action(message: seq<byte>) returns (ok: bool, out: seq<byte>)
      modifies this`calls
      ensures |out| < TWO_31 - HEAD && calls == old(calls) + [Acted(message, ok, out)]
    {
      out := [];
      ok, out :| |out| < TWO_31 - HEAD;
      calls := calls + [Acted(message, ok, out)];
    }
  }

  const FLOW_INFO: seq<byte> := [78, 111, 119, 32, 102, 108, 111, 119, 32, 114, 101, 115, 116, 114, 105, 99, 116, 33]
  const ACTION_FAILED_INFO: seq<byte> :=
    [70, 97, 105, 108, 101, 100, 32, 116, 111, 32, 100, 111, 32, 117, 115, 101, 114, 32, 97, 99, 116, 105, 111, 110]

  lemma ReplyTexts()
    ensures FLOW_INFO == Ascii("Now flow restrict!") && ACTION_FAILED_INFO == Ascii("Failed to do user action")
  {
  }

  /** Not a whole message yet. */
  predicate Incomplete(partial: seq<byte>) {
    |partial| < HEAD || |partial| - HEAD < Value(partial[..HEAD])
  }

  /** Each call was made for the message at its place, and the action got that message. */
  predicate Matching(calls: seq<Call>, handled: seq<seq<byte>>) {
    && |calls| == |handled|
    && forall i :: 0 <= i < |calls| && calls[i].Acted? ==> calls[i].message == handled[i]
  }

  lemma NoneYet(partial: seq<byte>)
    requires Incomplete(partial)
    ensures Messages(partial) == []
  {
  }

  class Conn {
    var content: seq<byte>
    var leftCount: int
    var status: Status
    const world: World

    // The messages handled, what has been read behind them, and what is still to be written
    ghost var handled: seq<seq<byte>>
    ghost var partial: seq<byte>
    ghost var unsent: seq<byte>

    constructor (world: World)
      requires world.received == [] && world.sent == [] && world.calls == []
      ensures Valid() && this.world == world && handled == [] && status == Cmd
    {
      this.world := world;
      content, leftCount, status := [], 0, Cmd;
      handled, partial, unsent := [], [], [];
    }

    /** What has been received and sent, in terms of what has been handled. */
    ghost predicate Tally()
      reads this, world
    {
      && world.received == FramedAll(handled) + partial
      && world.sent + unsent == FramedAll(Replies(world.calls))
      && (forall i :: 0 <= i < |handled| ==> |handled[i]| < TWO_31)
      && Matching(world.calls, handled)
    }

    ghost predicate Valid()
      reads this, world
    {
      && Tally()
      && (status != Write && status != Closed ==> unsent == [])
      && match status
         case Cmd => partial == []
         case Wait => partial == content && |content| + leftCount == HEAD && leftCount > 0
         case Read => ReadingBody()
         case Write => partial == [] && 0 <= leftCount <= |content| && unsent == content[|content| - leftCount..]
         case Closed => Incomplete(partial)
    }

    /** The head has been read; a length of 2^31 or more leaves a negative count. */
    ghost predicate ReadingBody()
      reads this
    {
      && |partial| >= HEAD && partial[HEAD..] == content
      && var n := Value(partial[..HEAD]);
         if n < TWO_31 then 0 <= leftCount == n - |content| else content == [] && leftCount < 0
    }

    /** The length read is 2^31 or more: the count is negative, and no event does anything. */
    ghost predicate Stuck()
      reads this
    {
      status == Read && |partial| >= HEAD && Value(partial[..HEAD]) >= TWO_31
    }

    /** The first head for which that is so: the bytes 0, 0, 0, 128. */
    lemma LeastStuckHead()
      requires Valid() && status == Read && |partial| >= HEAD && partial[..HEAD] == [0, 0, 0, 128]
      ensures Stuck() && Value(partial[..HEAD]) == TWO_31
    {
    }

    /** The message that has been read completely but not handled yet. */
    ghost function Pending(): seq<seq<byte>>
      reads this
    {
      if status == Read && leftCount == 0 then [content] else []
    }

    /** The action is called with exactly the messages in the bytes received, in order,
        except those refused; the bytes sent are the beginning of the framed replies. */
    lemma HandledIsRead()
      requires Valid()
      ensures Messages(world.received) == handled + Pending() && Matching(world.calls, handled)
      ensures world.sent <= FramedAll(Replies(world.calls))
      ensures status == Cmd ==> world.sent == FramedAll(Replies(world.calls))
      ensures forall i :: 0 <= i < |world.calls| ==> match world.calls[i]
        case Refused => Replies(world.calls)[i] == Ascii("Now flow restrict!")
        case Acted(_, ok, out) =>
          Replies(world.calls)[i] == if ok && out != [] then out else Ascii("Failed to do user action")
    {
      hide FramedAll, Value, Matching, Fixed32, Ascii;
      ReplyTexts();
      MessagesOf(handled, partial);
      if Pending() != [] {
        Fixed32OfValue(partial[..HEAD]);
        assert partial == Framed(content) + [];
        MessagesFirst(content, []);
      } else {
        assert Incomplete(partial);
        NoneYet(partial);
      }
    }

    method Close()
      requires Tally() && Incomplete(partial)
      modifies this`status
      ensures Valid() && status == Closed
    {
      status := Closed;
    }

    /** Reads up to `max` bytes and appends what a `read` has delivered. */
    method Fetch(max: nat) returns (r: ReadResult)
      requires Tally() && max > 0
      modifies this`content, this`leftCount, this`partial, world`received
      ensures Tally() && (r.Bytes? ==> 0 < |r.bytes| <= max)
      ensures var bytes := if r.Bytes? then r.bytes else [];
        && content == old(content) + bytes && leftCount == old(leftCount) - |bytes|
        && partial == old(partial) + bytes && world.received == old(world.received) + bytes
    {
      hide FramedAll, Matching, Replies;
      r := world.Receive(max);
      if r.Bytes? {
        content := content + r.bytes;
        leftCount := leftCount - |r.bytes|;
        partial := partial + r.bytes;
      }
    }

    /** The four bytes of the length are there. */
    method StartBody()
      requires Tally() && unsent == [] && partial == content && |content| == HEAD
      modifies this`content, this`leftCount, this`status
      ensures Valid() && status == Read
    {
      status := Read;
      leftCount := Signed32(Value(content));
      content := [];
      assert partial[..HEAD] == partial;
    }

    /** The bytes of the length still to come are read until there are none for now. */
    method ReadHead()
      requires Tally() && unsent == [] && partial == content && 0 < leftCount && |content| + leftCount == HEAD
      requires status == Cmd || status == Wait
      modifies this`content, this`leftCount, this`status, this`partial, world`received
      ensures Valid() && status in {Wait, Read, Closed} && Grown(old(world.received), world.received)
    {
      hide FramedAll, Matching, Replies;
      while leftCount > 0
        invariant Tally() && unsent == [] && partial == content && 0 < leftCount && |content| + leftCount == HEAD
        invariant status == old(status) && Grown(old(world.received), world.received)
        decreases leftCount
      {
        var r := Fetch(leftCount);
        match r {
          case ReadFailed => Close(); break;
          case ReadAgain => status := Wait; break;
          case Bytes(bytes) =>
            if leftCount == 0 { StartBody(); break; }
        }
      }
    }

    method EventCmd()
      requires Valid() && status == Cmd
      modifies this`content, this`leftCount, this`status, this`partial, world`received
      ensures Valid() && status in {Wait, Read, Closed} && Grown(old(world.received), world.received)
    {
      content := [];
      leftCount := HEAD;
      ReadHead();
    }

    method EventWait()
      requires Valid() && status == Wait
      modifies this`content, this`leftCount, this`status, this`partial, world`received
      ensures Valid() && status in {Wait, Read, Closed} && Grown(old(world.received), world.received)
    {
      ReadHead();
    }

    lemma BodyDone()
      requires ReadingBody() && leftCount == 0
      ensures |partial| >= HEAD && partial[HEAD..] == content && Value(partial[..HEAD]) == |content| < TWO_31
    {
    }

    /** The message is complete: it is handled, and its reply is to be written. */
    method Handle()
      requires Tally() && unsent == [] && ReadingBody() && leftCount == 0
      modifies this, world`calls
      ensures Valid() && status == Write && handled == old(handled) + [old(content)]
      ensures |world.calls| == |old(world.calls)| + 1 && Grown(old(world.calls), world.calls)
      ensures leftCount == |content| && match world.calls[|old(world.calls)|]
        case Refused => content == Fixed32(18) + Ascii("Now flow restrict!")
        case Acted(message, ok, out) =>
          && message == old(content)
          && (ok && out != [] ==> content == Fixed32(|out|) + out)
          && (!ok || out == [] ==> content == Fixed32(24) + Ascii("Failed to do user action"))
    {
      hide FramedAll, Fixed32, Value, ReadingBody, Replies, Ascii;
      BodyDone();
      ReplyTexts();
      ghost var before := world.calls;
      var reply := FLOW_INFO;
      var restricted := world.CheckFlow();
      if !restricted {
        var ok;
        ok, reply := world.Action(content);
        if !ok || reply == [] { reply := ACTION_FAILED_INFO; }
      }
      ghost var c := world.calls[|before|];
      assert world.calls == before + [c] && reply == ReplyTo(c);
      HandledSnoc(handled, content, before, c);
      Fixed32OfValue(partial[..HEAD]);
      assert partial == Framed(content);
      assert world.sent + [] == world.sent;
      handled := handled + [content];
      partial := [];
      content := Framed(reply);
      leftCount := |content|;
      status := Write;
      unsent := content;
    }

    method EventRead()
      requires Valid() && status == Read
      modifies this, world`received, world`calls
      ensures Valid() && status in {Read, Write, Closed} && Grown(old(world.received), world.received)
      ensures old(Stuck()) ==>
        && Stuck() && world.received == old(world.received) && world.calls == old(world.calls)
        && handled == old(handled) && partial == old(partial)
      ensures Grown(old(world.calls), world.calls) && Grown(old(handled), handled)
      ensures status == Write <==> |handled| == |old(handled)| + 1
      ensures status != Write ==> handled == old(handled)
    {
      hide FramedAll, Matching, Replies;
      if leftCount == 0 {
        Handle();
        return;
      }
      while leftCount > 0
        invariant Tally() && unsent == [] && ReadingBody() && status == Read && leftCount != 0
        invariant handled == old(handled) && world.calls == old(world.calls)
        invariant Grown(old(world.received), world.received)
        invariant old(leftCount) < 0 ==>
          leftCount < 0 && world.received == old(world.received) && partial == old(partial)
        decreases leftCount
      {
        var wanted := if BUFFER < leftCount then BUFFER else leftCount;
        ghost var before := partial;
        var r := Fetch(wanted);
        match r {
          case ReadFailed => Close(); break;
          case ReadAgain => break;
          case Bytes(bytes) =>
            assert partial[..HEAD] == before[..HEAD] && partial[HEAD..] == before[HEAD..] + bytes;
            if leftCount == 0 { Handle(); break; }
        }
      }
    }

    method EventWrite()
      requires Valid() && status == Write
      modifies this`content, this`leftCount, this`status, this`unsent, world`sent
      ensures Valid() && status in {Write, Cmd, Closed} && Grown(old(world.sent), world.sent)
    {
      hide FramedAll, Matching, Replies, Value, ReadingBody, Fixed32;
      if leftCount == 0 {
        content := [];
        status := Cmd;
        return;
      }
      while leftCount > 0
        invariant Valid() && status == Write && leftCount > 0 && Grown(old(world.sent), world.sent)
        decreases leftCount
      {
        var rest := content[|content| - leftCount..];
        ghost var sent := world.sent;
        var r := world.Send(rest);
        match r {
          case WriteFailed => Close(); break;
          case WriteAgain => break;
          case Count(n) =>
            SentPart(content, leftCount, n, sent);
            leftCount := leftCount - n;
            unsent := rest[n..];
            if leftCount == 0 {
              content := [];
              status := Cmd;
              break;
            }
        }
      }
    }

    /** One event.  Whatever the reads and writes return, only whole messages are
        handled, in order, and nothing read, written or handled is ever taken back. */
    method ClientEvent()
      requires Valid() && status != Closed
      modifies this, world
      ensures Valid() && Grown(old(world.received), world.received) && Grown(old(world.sent), world.sent)
      ensures Grown(old(handled), handled) && Grown(old(world.calls), world.calls) && |handled| <= |old(handled)| + 1
      ensures old(Stuck()) ==>
        && Stuck() && world.received == old(world.received) && world.sent == old(world.sent)
        && world.calls == old(world.calls) && handled == old(handled)
    {
      hide FramedAll, Matching, Replies;
      match status {
        case Cmd => EventCmd();
        case Wait => EventWait();
        case Read => EventRead();
        case Write => EventWrite();
        case Closed =>
      }
    }
  }

  /** What is still to be sent once n more bytes are. */
  lemma SentPart(content: seq<byte>, left: nat, n: nat, sent: seq<byte>)
    requires n <= left <= |content|
    ensures var rest := content[|content| - left..];
      && rest[n..] == content[|content| - (left - n)..] && (sent + rest[..n]) + rest[n..] == sent + rest
  {
  }

  predicate Grown<T(==)>(a: seq<T>, b: seq<T>) { a <= b }
}
