/**
 * The StatsdClient class: its configuration (host, port, protocol, the
 * fail-silently and reduce-packet flags, the sender) with accessors, and
 * send, which normalises its argument, optionally samples and reduces it,
 * then opens a connection, writes every element in order and closes it,
 * rethrowing a sender exception only when failing silently is switched off.
 *
 * Exceptions are modelled as values: send and throwException return the
 * exception they let escape, None when they return normally.
 */
module Client {
  import opened Wrappers
  import opened PhpValues
  import opened Reducer
  import opened Sampling
  import opened Transport

  /**
   * The "check format" step of send: a string or a metric entity becomes a
   * one-element array; a non-empty array is kept; anything else (another
   * value or the empty array) means there is nothing to send.
   */
  function Normalise(data: Data): (r: Option<seq<Entry>>)
    ensures r.None? <==> data.Other? || data == Array([])
    ensures r.Some? ==> r.value != []
    ensures data.Text? || data.Metric? ==> r == Some([Entry(IntKey(0), data.text)])
    ensures data.Array? && data.entries != [] ==> r == Some(data.entries)
  {
    match data
    case Text(s) => Some([Entry(IntKey(0), s)])
    case Metric(s) => Some([Entry(IntKey(0), s)])
    case Array(es) => if es == [] then None else Some(es)
    case Other => None
  }

  /**
   * The messages send writes for `data`, or None when it returns before
   * using the sender: normalised, annotated when the rate is below one,
   * and reduced into packets when reducePacket is set.
   */
  function Batch(data: Data, rate: SampleRate, reducePacket: bool): (r: Option<seq<string>>)
    ensures r.None? <==> Normalise(data).None?
    ensures r.Some? ==> r.value != []
    ensures r.Some? && !reducePacket ==>
              var es := Normalise(data).value;
              |r.value| == |es|
              && forall i :: 0 <= i < |es| ==>
                   r.value[i] == if BelowOne(rate) then Annotate(es[i].msg, rate) else es[i].msg
    ensures r.Some? && reducePacket ==>
              r.value == Reduce(Values(AppendSampleRate(Normalise(data).value, rate)))
  {
    match Normalise(data)
    case None => None
    case Some(es) =>
      var sampled := if BelowOne(rate) then AppendSampleRate(es, rate) else es;
      Some(if reducePacket then Values(ReduceCount(Array(sampled)).entries) else Values(sampled))
  }

  /** The exchange of one send with the sender: the calls it makes and the exception it meets. */
  datatype Exchange = Exchange(events: seq<Event>, fault: Option<Exc>)

  /** The position of the first write, among the first n, that the script makes fail; n if none. */
  function FirstFault(faults: map<nat, Exc>, n: nat): (k: nat)
    ensures k <= n
    ensures forall j :: 0 <= j < k ==> j !in faults
    ensures k < n ==> k in faults
  {
    if n == 0 then 0
    else
      var k := FirstFault(faults, n - 1);
      if k < n - 1 then k else if n - 1 in faults then n - 1 else n
  }

  /** The write calls for `ms` on handle `h`, in order. */
  function Writes(h: nat, ms: seq<string>): (evs: seq<Event>)
    ensures |evs| == |ms|
    ensures forall i :: 0 <= i < |ms| ==> evs[i] == Write(h, ms[i])
  {
    seq(|ms|, i requires 0 <= i < |ms| => Write(h, ms[i]))
  }

  /**
   * The try block of send, for the messages `msgs`: open; stop quietly on a
   * falsy handle; otherwise write each message in order and close, stopping
   * at the first exception.
   */
  function Transaction(script: Script, protocol: Option<string>, host: string, port: int,
                       msgs: seq<string>): (x: Exchange)
    ensures x.events != [] && x.events[0] == Open(protocol, host, port)
  {
    var first := [Open(protocol, host, port)];
    match script.open
    case Falsy => Exchange(first, None)
    case Raise(e) => Exchange(first, Some(e))
    case Handle(h) =>
      var k := FirstFault(script.writeFaults, |msgs|);
      if k < |msgs| then Exchange(first + Writes(h, msgs[..k + 1]), Some(script.writeFaults[k]))
      else Exchange(first + Writes(h, msgs) + [Close(h)], script.closeFault)
  }

  /** throwException's rule: an exception escapes only when failing silently is off. */
  function Rethrown(failSilently: bool, fault: Option<Exc>): (r: Option<Exc>)
    ensures r.Some? <==> fault.Some? && !failSilently
    ensures r.Some? ==> r == fault
  {
    if fault.Some? && !failSilently then fault else None
  }

  // ---------------------------------------------------------------------
  // What the sender sees

  /** The messages written, in order. */
  function Written(evs: seq<Event>): seq<string>
  {
    if evs == [] then [] else (if evs[0].Write? then [evs[0].msg] else []) + Written(evs[1..])
  }

  /** The number of open calls. */
  function Opens(evs: seq<Event>): nat
  {
    if evs == [] then 0 else (if evs[0].Open? then 1 else 0) + Opens(evs[1..])
  }

  /** The number of close calls. */
  function Closes(evs: seq<Event>): nat
  {
    if evs == [] then 0 else (if evs[0].Close? then 1 else 0) + Closes(evs[1..])
  }

  lemma {:induction false} EventsAppend(a: seq<Event>, b: seq<Event>)
    ensures Written(a + b) == Written(a) + Written(b)
    ensures Opens(a + b) == Opens(a) + Opens(b)
    ensures Closes(a + b) == Closes(a) + Closes(b)
    decreases |a|
  {
    if a != [] {
      EventsAppend(a[1..], b);
      assert (a + b)[0] == a[0];
      assert (a + b)[1..] == a[1..] + b;
      var w := if a[0].Write? then [a[0].msg] else [];
      assert Written(a + b) == w + Written(a[1..] + b);
      assert Written(a + b) == w + (Written(a[1..]) + Written(b));
    } else {
      assert a + b == b;
    }
  }

  /** A run of writes writes its messages, and neither opens nor closes. */
  lemma {:induction false} WritesSeen(h: nat, ms: seq<string>)
    ensures Written(Writes(h, ms)) == ms
    ensures Opens(Writes(h, ms)) == 0 && Closes(Writes(h, ms)) == 0
    decreases |ms|
  {
    if ms != [] {
      WritesSeen(h, ms[1..]);
      assert Writes(h, ms)[1..] == Writes(h, ms[1..]);
    }
  }

  /** When open fails or returns a falsy handle, open is the only call: no write and no close. */
  lemma OpenFailureTrace(script: Script, protocol: Option<string>, host: string, port: int, msgs: seq<string>)
    requires !script.open.Handle?
    ensures var x := Transaction(script, protocol, host, port, msgs);
            x.events == [Open(protocol, host, port)]
            && Written(x.events) == [] && Closes(x.events) == 0
            && x.fault == if script.open.Raise? then Some(script.open.e) else None
  {
  }

  /**
   * When open gives a handle and no write fails: exactly one open, then one
   * write per message in order on that handle, then one close; the only
   * exception left is the one close may raise.
   */
  lemma CleanTrace(script: Script, protocol: Option<string>, host: string, port: int, msgs: seq<string>)
    requires script.open.Handle?
    requires forall j :: 0 <= j < |msgs| ==> j !in script.writeFaults
    ensures var x := Transaction(script, protocol, host, port, msgs);
            var h := script.open.h;
            x.events == [Open(protocol, host, port)] + Writes(h, msgs) + [Close(h)]
            && Opens(x.events) == 1 && Written(x.events) == msgs && Closes(x.events) == 1
            && x.fault == script.closeFault
  {
    var h := script.open.h;
    var k := FirstFault(script.writeFaults, |msgs|);
    assert k == |msgs|;
    var evs := [Open(protocol, host, port)] + Writes(h, msgs) + [Close(h)];
    WritesSeen(h, msgs);
    EventsAppend([Open(protocol, host, port)], Writes(h, msgs));
    EventsAppend([Open(protocol, host, port)] + Writes(h, msgs), [Close(h)]);
  }

  /**
   * When the write at position k is the first to fail: the messages before
   * it and the failing one are written, close is skipped, and the write's
   * exception is the one met.
   */
  lemma WriteFaultTrace(script: Script, protocol: Option<string>, host: string, port: int,
                        msgs: seq<string>, k: nat)
    requires script.open.Handle?
    requires k < |msgs| && k in script.writeFaults
    requires forall j :: 0 <= j < k ==> j !in script.writeFaults
    ensures var x := Transaction(script, protocol, host, port, msgs);
            Opens(x.events) == 1 && Written(x.events) == msgs[..k + 1] && Closes(x.events) == 0
            && x.fault == Some(script.writeFaults[k])
  {
    var h := script.open.h;
    assert FirstFault(script.writeFaults, |msgs|) == k;
    WritesSeen(h, msgs[..k + 1]);
    EventsAppend([Open(protocol, host, port)], Writes(h, msgs[..k + 1]));
  }

  // ---------------------------------------------------------------------
  // The client

  class StatsdClient {
    var host: string
    var port: int
    var protocol: Option<string>
    var failSilently: bool
    var sender: Sender
    var reducePacket: bool

    /** The protocol argument is accepted but never stored: protocol stays null until SetProtocol. */
    constructor (host: string, port: int, protocol: string, sender: Sender,
                 reducePacket: bool := false, failSilently: bool := true)
      ensures this.host == host && this.port == port && this.sender == sender
      ensures this.reducePacket == reducePacket && this.failSilently == failSilently
      ensures this.protocol == None
    {
      this.host := host;
      this.port := port;
      this.sender := sender;
      this.reducePacket := reducePacket;
      this.failSilently := failSilently;
      this.protocol := None;
    }

    function GetHost(): string reads this { host }
    function GetPort(): int reads this { port }
    function GetProtocol(): Option<string> reads this { protocol }
    function GetFailSilently(): bool reads this { failSilently }
    function GetSender(): Sender reads this { sender }
    function GetReducePacket(): bool reads this { reducePacket }

    method SetHost(host: string)
      modifies this`host
      ensures GetHost() == host
    {
      this.host := host;
    }

    method SetPort(port: int)
      modifies this`port
      ensures GetPort() == port
    {
      this.port := port;
    }

    method SetProtocol(protocol: Option<string>)
      modifies this`protocol
      ensures GetProtocol() == protocol
    {
      this.protocol := protocol;
    }

    method SetFailSilently(failSilently: bool)
      modifies this`failSilently
      ensures GetFailSilently() == failSilently
    {
      this.failSilently := failSilently;
    }

    method SetSender(sender: Sender)
      modifies this`sender
      ensures GetSender() == sender
    {
      this.sender := sender;
    }

    method SetReducePacket(reducePacket: bool)
      modifies this`reducePacket
      ensures GetReducePacket() == reducePacket
    {
      this.reducePacket := reducePacket;
    }

    /** throwException: the exception escapes only when failing silently is off. */
    method ThrowException(e: Exc) returns (thrown: Option<Exc>)
      ensures thrown == Some(e) <==> !failSilently
      ensures thrown.None? <==> failSilently
    {
      if !GetFailSilently() {
        return Some(e);
      }
      return None;
    }

    /**
     * send: the sender sees nothing when there is nothing to send, and
     * otherwise exactly the exchange Transaction describes for the batch,
     * with the host, port and protocol read from the fields; the exception
     * met escapes unchanged iff failSilently is false.
     */
    method Send(data: Data, rate: SampleRate := Unsampled) returns (thrown: Option<Exc>)
      modifies sender
      ensures Batch(data, rate, reducePacket).None? ==>
                sender.trace == old(sender.trace) && thrown == None
      ensures Batch(data, rate, reducePacket).Some? ==>
                var x := Transaction(sender.script, protocol, host, port, Batch(data, rate, reducePacket).value);
                sender.trace == old(sender.trace) + x.events && thrown == Rethrown(failSilently, x.fault)
    {
      var entries := Normalise(data);
      if entries.None? {
        return None;
      }
      var es := entries.value;
      if BelowOne(rate) {
        es := AppendSampleRate(es, rate);
      }
      var msgs := Values(es);
      if GetReducePacket() {
        msgs := Values(ReduceCount(Array(es)).entries);
      }
      assert Batch(data, rate, reducePacket) == Some(msgs);
      thrown := Transmit(msgs);
    }

    /**
     * The try block of send: open with the configured protocol, host and
     * port, return on a falsy handle, write every message in order, close,
     * and hand any exception met to throwException.
     */
    method Transmit(msgs: seq<string>) returns (thrown: Option<Exc>)
      modifies sender
      ensures var x := Transaction(sender.script, protocol, host, port, msgs);
              sender.trace == old(sender.trace) + x.events && thrown == Rethrown(failSilently, x.fault)
    {
      var h, p, pr := GetHost(), GetPort(), GetProtocol();
      ghost var x := Transaction(sender.script, pr, h, p, msgs);
      var reply := GetSender().Open(pr, h, p);
      if reply.Falsy? {
        assert x == Exchange([Open(pr, h, p)], None);
        return None;
      }
      if reply.Raise? {
        assert x == Exchange([Open(pr, h, p)], Some(reply.e));
        thrown := ThrowException(reply.e);
        return;
      }
      var handle := reply.h;
      ghost var faults := sender.script.writeFaults;
      ghost var k := FirstFault(faults, |msgs|);
      var i := 0;
      while i < |msgs|
        invariant 0 <= i <= |msgs| && i <= k
        invariant sender.written == i
        invariant sender.trace == old(sender.trace) + [Open(pr, h, p)] + Writes(handle, msgs[..i])
      {
        var fault := GetSender().Write(handle, msgs[i]);
        assert Writes(handle, msgs[..i + 1]) == Writes(handle, msgs[..i]) + [Write(handle, msgs[i])];
        if fault.Some? {
          assert k == i;
          assert x == Exchange([Open(pr, h, p)] + Writes(handle, msgs[..i + 1]), fault);
          thrown := ThrowException(fault.value);
          return;
        }
        i := i + 1;
      }
      assert msgs[..i] == msgs;
      assert k == |msgs|;
      assert x == Exchange([Open(pr, h, p)] + Writes(handle, msgs) + [Close(handle)], sender.script.closeFault);
      var fault := GetSender().Close(handle);
      if fault.Some? {
        thrown := ThrowException(fault.value);
      } else {
        thrown := None;
      }
    }
  }
}
