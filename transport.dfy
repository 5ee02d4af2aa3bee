/** The host's byte transport as the stub sees it: a finite input the
    receiver reads through a cursor (`minigdbstubUsrGetchar`), and a log of
    the replies handed to `minigdbstubSend`. */
module Transport {
  import opened Bytes

  class Link {
    /** Every byte the debugger will ever send. */
    const input: seq<byte>
    /** Number of input bytes consumed so far. */
    var cursor: nat
    /** The argument of every `minigdbstubSend` call, oldest first. */
    var log: seq<seq<byte>>

    ghost predicate Valid()
      reads this
    {
      cursor <= |input|
    }

    constructor (input: seq<byte>)
      ensures Valid() && this.input == input
      ensures cursor == 0 && log == []
    {
      this.input := input;
      cursor := 0;
      log := [];
    }

    /** `minigdbstubUsrGetchar`: the next input byte, or `None` once the
        input is exhausted (where the host call would block forever). */
    method GetChar() returns (c: Option<byte>)
      requires Valid()
      modifies this`cursor
      ensures Valid()
      ensures old(cursor) < |input| ==> c == Some(input[old(cursor)]) && cursor == old(cursor) + 1
      ensures old(cursor) == |input| ==> c == None && cursor == old(cursor)
    {
      if cursor < |input| {
        c := Some(input[cursor]);
        cursor := cursor + 1;
      } else {
        c := None;
      }
    }

    /** `minigdbstubSend`: in minigdbstub.h its body is empty, so nothing
        reaches the wire; the model records the request. */
    method Send(data: seq<byte>)
      modifies this`log
      ensures log == old(log) + [data]
    {
      log := log + [data];
    }
  }
}
