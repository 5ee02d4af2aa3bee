/** The dispatch loop (`minigdbstubProcess`): receive a packet, switch on
    its command byte, and return to the host only after a continue or step
    request. Every handler is still a placeholder in minigdbstub.h, so
    dispatching has no effect beyond deciding whether the loop ends. */
module Dispatch {
  import opened Bytes
  import opened Receive
  import opened Transport

  /** The cases of the `switch` in `minigdbstubProcess`. */
  datatype Command =
    | ReadRegisters      // 'g'
    | WriteRegisters     // 'G'
    | ReadRegister       // 'p'
    | WriteRegister      // 'P'
    | ReadMemory         // 'm'
    | WriteMemory        // 'M'
    | WriteMemoryBinary  // 'X'
    | Continue           // 'c'
    | Step               // 's'
    | FileIo             // 'F'
    | HaltReason         // '?'
    | Unsupported        // anything else

  function Classify(c: byte): (cmd: Command)
    ensures EndsSession(cmd) <==> c == 0x63 || c == 0x73
    ensures cmd == Unsupported <==> c !in {0x67, 0x47, 0x70, 0x50, 0x6d, 0x4d, 0x58, 0x63, 0x73, 0x46, 0x3f}
  {
    match c
    case 0x67 => ReadRegisters
    case 0x47 => WriteRegisters
    case 0x70 => ReadRegister
    case 0x50 => WriteRegister
    case 0x6d => ReadMemory
    case 0x4d => WriteMemory
    case 0x58 => WriteMemoryBinary
    case 0x63 => Continue
    case 0x73 => Step
    case 0x46 => FileIo
    case 0x3f => HaltReason
    case _ => Unsupported
  }

  /** The commands after which `minigdbstubProcess` returns. */
  predicate EndsSession(cmd: Command)
  {
    cmd == Continue || cmd == Step
  }

  /** What a run of the dispatch loop does with the input from some
      position: the command bytes it receives, the replies it sends,
      where it stops reading, and whether it returned because of a
      continue or step request (rather than because the input ran out). */
  datatype Session = Session(commands: seq<byte>, log: seq<seq<byte>>, next: nat, resumed: bool)

  function Serve(s: seq<byte>, i: nat): (r: Session)
    requires i <= |s|
    ensures i <= r.next <= |s|
    decreases |s| - i
  {
    var o := Scan(s, i);
    match o.command
    case None => Session([], RecvLog(o), o.next, false)
    case Some(c) =>
      if EndsSession(Classify(c)) then Session([c], RecvLog(o), o.next, true)
      else
        var r := Serve(s, o.next);
        Session([c] + r.commands, RecvLog(o) + r.log, r.next, r.resumed)
  }

  /** `minigdbstubProcess`. Its register buffer and signal number are not
      used by the loop in minigdbstub.h, so they are not parameters here.
      `commands` (ghost) are the command bytes the loop received. */
  method Process(t: Link) returns (resumed: bool, ghost commands: seq<byte>)
    requires t.Valid()
    modifies t
    ensures t.Valid()
    ensures var r := Serve(t.input, old(t.cursor));
      && commands == r.commands && resumed == r.resumed
      && t.cursor == r.next && t.log == old(t.log) + r.log
  {
    ghost var whole := Serve(t.input, t.cursor);
    ghost var received: seq<byte> := [];
    ghost var sent: seq<seq<byte>> := [];
    while true
      invariant t.Valid()
      invariant t.log == old(t.log) + sent
      invariant whole == After(received, sent, Serve(t.input, t.cursor))
      decreases |t.input| - t.cursor
    {
      var command;
      command, received, sent := Round(t, old(t.log), received, sent);
      if command.None? {
        return false, received;
      }
      if EndsSession(Classify(command.value)) {
        return true, received;
      }
    }
  }

  /** One pass through the body of the loop in `minigdbstubProcess`:
      receive a packet and decide whether the loop ends. */
  method Round(t: Link, ghost log0: seq<seq<byte>>, ghost received: seq<byte>, ghost sent: seq<seq<byte>>)
    returns (command: Option<byte>, ghost received': seq<byte>, ghost sent': seq<seq<byte>>)
    requires t.Valid() && t.log == log0 + sent
    modifies t
    ensures t.Valid() && t.log == log0 + sent'
    ensures command.Some? ==> old(t.cursor) < t.cursor
    ensures After(received, sent, Serve(t.input, old(t.cursor))) ==
      if command.None? then Session(received', sent', t.cursor, false)
      else if EndsSession(Classify(command.value)) then Session(received', sent', t.cursor, true)
      else After(received', sent', Serve(t.input, t.cursor))
  {
    ghost var o := Scan(t.input, t.cursor);
    AfterRound(received, sent, t.input, t.cursor);
    command := Recv(t);
    sent' := sent + RecvLog(o);
    received' := if command.None? then received else received + [command.value];
  }

  /** A session `r` preceded by rounds that received `received` and sent
      `sent`. */
  function After(received: seq<byte>, sent: seq<seq<byte>>, r: Session): Session
  {
    Session(received + r.commands, sent + r.log, r.next, r.resumed)
  }

  /** One round of the loop: the session stops when the input runs out or
      a continue or step request arrives, and otherwise goes on from where
      the packet ended. */
  lemma AfterRound(received: seq<byte>, sent: seq<seq<byte>>, s: seq<byte>, i: nat)
    requires i <= |s|
    ensures var o := Scan(s, i);
      After(received, sent, Serve(s, i)) ==
        if o.command.None? then Session(received, sent + RecvLog(o), o.next, false)
        else if EndsSession(Classify(o.command.value)) then
          Session(received + [o.command.value], sent + RecvLog(o), o.next, true)
        else After(received + [o.command.value], sent + RecvLog(o), Serve(s, o.next))
  {
  }

  /** The session returns to the host exactly when the last command it
      received is a continue or step request. */
  lemma {:induction false} ServeResumes(s: seq<byte>, i: nat)
    requires i <= |s|
    ensures var r := Serve(s, i);
      r.resumed <==> |r.commands| > 0 && EndsSession(Classify(r.commands[|r.commands| - 1]))
    decreases |s| - i
  {
    var o := Scan(s, i);
    if o.command.Some? && !EndsSession(Classify(o.command.value)) {
      var rest := Serve(s, o.next);
      ServeResumes(s, o.next);
      if |rest.commands| > 0 {
        assert ([o.command.value] + rest.commands)[|rest.commands|] == rest.commands[|rest.commands| - 1];
      }
    }
  }

  /** No command before the last one of a session is a continue or step
      request. */
  lemma {:induction false} ServeNoEarlierEnd(s: seq<byte>, i: nat)
    requires i <= |s|
    ensures forall k :: 0 <= k < |Serve(s, i).commands| - 1 ==> !EndsSession(Classify(Serve(s, i).commands[k]))
    decreases |s| - i
  {
    var o := Scan(s, i);
    if o.command.Some? && !EndsSession(Classify(o.command.value)) {
      var rest := Serve(s, o.next);
      ServeNoEarlierEnd(s, o.next);
      var cs := [o.command.value] + rest.commands;
      assert Serve(s, i).commands == cs;
      forall k | 0 <= k < |cs| - 1
        ensures !EndsSession(Classify(cs[k]))
      {
        if k > 0 {
          assert cs[k] == rest.commands[k - 1];
        }
      }
    }
  }

  /** A session that does not return to the host has read the whole
      input. */
  lemma {:induction false} ServeExhausts(s: seq<byte>, i: nat)
    requires i <= |s|
    ensures !Serve(s, i).resumed ==> Serve(s, i).next == |s|
    decreases |s| - i
  {
    var o := Scan(s, i);
    if o.command.Some? && !EndsSession(Classify(o.command.value)) {
      ServeExhausts(s, o.next);
    }
  }

  /** How many acknowledgements a sequence of replies holds. */
  function Acks(log: seq<seq<byte>>): nat
  {
    if log == [] then 0
    else Acks(log[..|log| - 1]) + (if log[|log| - 1] == ACK_PACKET then 1 else 0)
  }

  lemma {:induction false} AcksAppend(a: seq<seq<byte>>, b: seq<seq<byte>>)
    ensures Acks(a + b) == Acks(a) + Acks(b)
    decreases |b|
  {
    if b != [] {
      assert (a + b)[..|a + b| - 1] == a + b[..|b| - 1];
      AcksAppend(a, b[..|b| - 1]);
    } else {
      assert a + b == a;
    }
  }

  lemma {:induction false} NoAcksInResends(n: nat)
    ensures Acks(Repeat(RESEND_PACKET, n)) == 0
  {
    if n > 0 {
      assert Repeat(RESEND_PACKET, n)[..n - 1] == Repeat(RESEND_PACKET, n - 1);
      NoAcksInResends(n - 1);
    }
  }

  /** One receive acknowledges exactly the packet it accepts. */
  lemma RecvAcks(o: Outcome)
    ensures Acks(RecvLog(o)) == if o.command.Some? then 1 else 0
  {
    NoAcksInResends(o.resends);
    AcksAppend(Repeat(RESEND_PACKET, o.resends), if o.command.Some? then [ACK_PACKET] else []);
    assert Acks([ACK_PACKET]) == 1 by {
      assert [ACK_PACKET][..0] == [];
    }
  }

  /** Every command of a session is acknowledged exactly once. */
  lemma {:induction false} ServeAcks(s: seq<byte>, i: nat)
    requires i <= |s|
    ensures Acks(Serve(s, i).log) == |Serve(s, i).commands|
    decreases |s| - i
  {
    var o := Scan(s, i);
    RecvAcks(o);
    if o.command.Some? && !EndsSession(Classify(o.command.value)) {
      var rest := Serve(s, o.next);
      ServeAcks(s, o.next);
      AcksAppend(RecvLog(o), rest.log);
    }
  }
}
