/**
 * The transport port StatsdClient sends through (SenderInterface: open,
 * write, close). Its socket implementation is not part of this model: the
 * sender here is a scripted stand-in that answers from a fixed script and
 * records every call it receives as an event, so that what send does can be
 * stated as a property of the recorded trace.
 */
module Transport {
  import opened Wrappers

  /** An exception object; a rethrow must hand on this very value. */
  datatype Exc = Exc(id: nat)

  /** What open gives back: a truthy handle, a falsy value, or an exception. */
  datatype OpenReply = Handle(h: nat) | Falsy | Raise(e: Exc)

  /**
   * How the scripted sender answers: the reply of every open, the exception
   * raised by the write at a given position on a connection (counted from 0
   * after each open), and the exception, if any, raised by close.
   */
  datatype Script = Script(open: OpenReply, writeFaults: map<nat, Exc>, closeFault: Option<Exc>)

  /** One call received by the sender. The errno and errstr out-parameters of open are not modelled. */
  datatype Event =
    | Open(protocol: Option<string>, host: string, port: int)
    | Write(h: nat, msg: string)
    | Close(h: nat)

  class Sender {
    const script: Script
    /** Every call received so far, oldest first. */
    var trace: seq<Event>
    /** The writes made on the connection opened last. */
    var written: nat

    constructor (script: Script)
      ensures this.script == script && trace == [] && written == 0
    {
      this.script := script;
      trace := [];
      written := 0;
    }

    method Open(protocol: Option<string>, host: string, port: int) returns (reply: OpenReply)
      modifies this
      ensures trace == old(trace) + [Event.Open(protocol, host, port)]
      ensures reply == script.open && written == 0
    {
      trace := trace + [Event.Open(protocol, host, port)];
      written := 0;
      reply := script.open;
    }

    method Write(h: nat, msg: string) returns (fault: Option<Exc>)
      modifies this
      ensures trace == old(trace) + [Event.Write(h, msg)]
      ensures written == old(written) + 1
      ensures fault == if old(written) in script.writeFaults then Some(script.writeFaults[old(written)]) else None
    {
      trace := trace + [Event.Write(h, msg)];
      fault := if written in script.writeFaults then Some(script.writeFaults[written]) else None;
      written := written + 1;
    }

    method Close(h: nat) returns (fault: Option<Exc>)
      modifies this
      ensures trace == old(trace) + [Event.Close(h)]
      ensures written == old(written) && fault == script.closeFault
    {
      trace := trace + [Event.Close(h)];
      fault := script.closeFault;
    }
  }
}
