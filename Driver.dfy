/**
 * The CTC100 driver object: `write` and the operations built on it, over
 * the serial port it owns.  Each operation takes the poll budget `polls`
 * that stands for the 100 ms deadline of every `write` it makes.
 */
module Driver {
  import opened Wrappers
  import opened Utf8
  import opened Commands
  import opened Channels
  import opened Framing
  import opened Extraction
  import opened Decimals

  /**
   * One call of `write`, as its caller built the text: a formatted
   * parameter request, or a command line passed through as it is.
   */
  datatype Request = Typed(command: Command) | Line(text: string)

  /** The text `write` is given for a request. */
  function Text(r: Request): string
  {
    match r
    case Typed(c) => Format(c)
    case Line(t) => t
  }

  /** The `i`-th write to the port is the wire form of the `i`-th request. */
  ghost predicate Carries(writes: seq<seq<Byte>>, requests: seq<Request>, i: int)
  {
    0 <= i < |writes| && i < |requests| && writes[i] == Wire(Text(requests[i]))
  }

  /** Every write to the port is the wire form of the request at the same position. */
  ghost predicate CarriesAll(writes: seq<seq<Byte>>, requests: seq<Request>)
  {
    |writes| == |requests| && forall i :: 0 <= i < |requests| ==> Carries(writes, requests, i)
  }

  /** Writing the wire form of one more request keeps the log in step with the port. */
  lemma CarriesSnoc(writes: seq<seq<Byte>>, requests: seq<Request>, r: Request)
    requires CarriesAll(writes, requests)
    ensures CarriesAll(writes + [Wire(Text(r))], requests + [r])
  {
    forall i | 0 <= i < |requests| + 1
      ensures Carries(writes + [Wire(Text(r))], requests + [r], i)
    {
      if i < |requests| {
        assert Carries(writes, requests, i);
      }
    }
  }

  /** Four requests appended one at a time are the four appended at once. */
  lemma AppendFour(w: seq<Request>, r: seq<Request>)
    requires |r| == 4
    ensures w + [r[0]] + [r[1]] + [r[2]] + [r[3]] == w + r
  {
    assert r == [r[0], r[1], r[2], r[3]];
  }

  /** Five requests appended one at a time are the five appended at once. */
  lemma AppendFive(w: seq<Request>, r: seq<Request>)
    requires |r| == 5
    ensures w + [r[0]] + [r[1]] + [r[2]] + [r[3]] + [r[4]] == w + r
  {
    assert r == [r[0], r[1], r[2], r[3], r[4]];
  }

  /** `"Out{}".format(channel)`: the output channel that the PID operations address. */
  function Out(ch: Channel): string
  {
    "Out" + Arg(ch)
  }

  /** What `setAlarm` sends: sound, limits, then the mode that arms the alarm. */
  function AlarmRequests(ch: Channel, tmin: string, tmax: string): seq<Request>
  {
    var c := Resolve(ch);
    [ Typed(Assign(c + ".alarm.sound", "4 beeps")),
      Typed(Assign(c + ".alarm.min", tmin)),
      Typed(Assign(c + ".alarm.max", tmax)),
      Typed(Assign(c + ".alarm.mode", "Level")) ]
  }

  /** What `enablePID` sends: heater on, then PID mode on. */
  function EnablePidRequests(ch: Channel): seq<Request>
  {
    [Line("outputEnable on"), Typed(Assign(Out(ch) + ".PID.Mode", "On"))]
  }

  /** What `disablePID` sends: heater off, then PID mode off. */
  function DisablePidRequests(ch: Channel): seq<Request>
  {
    [Line("outputEnable off"), Typed(Assign(Out(ch) + ".PID.Mode", "Off"))]
  }

  /** What `tunePID` sends before it waits: tuning parameters, heater on, automatic tuning started. */
  function StartTuningRequests(ch: Channel, stepY: string, lag: string): seq<Request>
  {
    [ Typed(Assign(Out(ch) + ".Tune.StepY", stepY)),
      Typed(Assign(Out(ch) + ".Tune.Lag", lag)),
      Line("outputEnable on"),
      Typed(Assign(Out(ch) + ".Tune.Type", "Auto")),
      Typed(Assign(Out(ch) + ".Tune.Mode", "Auto")) ]
  }

  /** How tuning ended: the PID mode read back as "On\r\n", as something else, or as bytes that are not UTF-8. */
  datatype TuneOutcome = Tuned | NotTuned | ReplyNotUtf8

  /** The outcome `tunePID` reads off the reply to its PID mode query. */
  function TuneResult(reply: seq<Byte>): TuneOutcome
  {
    match Decode(reply)
    case None => ReplyNotUtf8
    case Some(t) => if t == "On\r\n" then Tuned else NotTuned
  }

  /**
   * Tuning counts as successful exactly when the reply is the bytes
   * "On\r\n"; any other decodable reply is a failure, and bytes that are
   * not UTF-8 fail with a decode error.
   */
  lemma TunedExactly(reply: seq<Byte>)
    ensures TuneResult(reply) == Tuned <==> reply == [0x4F, 0x6E, CR, LF]
    ensures TuneResult(reply) == NotTuned <==> Decode(reply).Some? && reply != [0x4F, 0x6E, CR, LF]
  {
    TuneResultOnReply();
    if Decode(reply).Some? {
      EncodeDecode(reply);
      assert Encode("On\r\n") == [0x4F, 0x6E, CR, LF];
    }
  }

  /** The reply "On\r\n" is the one that means tuning finished. */
  lemma TuneResultOnReply()
    ensures TuneResult([0x4F, 0x6E, CR, LF]) == Tuned
  {
    assert Encode("On\r\n") == [0x4F, 0x6E, CR, LF];
    DecodeEncode("On\r\n");
  }

  /**
   * A reading sent by the device arrives as `read` expects it: when what
   * the device has still to send is one decimal, behind a prefix without
   * numbers or CRs, terminated by CR LF, then however the bytes are split
   * across reads, and provided they arrive within the deadline, `read`
   * returns exactly that text and its value.
   */
  lemma ReadsBackDecimal(cs: seq<seq<Byte>>, s: nat, polls: nat, channel: string, prefix: string, d: Decimal)
    requires d.scale >= 1
    requires IsLabel(prefix) && forall x :: 0 <= x < |prefix| ==> prefix[x] != '\r'
    requires Pending(cs, s) == Encode(prefix + DecimalText(d) + "\r\n")
    requires |cs| <= s + polls + 2
    ensures Interpret(channel, Response(cs, s, polls)) == Ok(Reading(DecimalText(d), d))
  {
    var text := prefix + DecimalText(d);
    DecimalLineHasNoCR(prefix, d);
    LineReply(text);
    ChunkingIrrelevant(cs, s, polls, Encode(text + "\r\n"));
    ExtractDecimal(channel, prefix, d);
  }

  /** The only CR of a labelled decimal line is the one the device adds. */
  lemma DecimalLineHasNoCR(prefix: string, d: Decimal)
    requires d.scale >= 1
    requires forall x :: 0 <= x < |prefix| ==> prefix[x] != '\r'
    ensures forall x :: 0 <= x < |prefix + DecimalText(d)| ==> (prefix + DecimalText(d))[x] != '\r'
  {
    var lit := DecimalText(d);
    var text := prefix + lit;
    DecimalTextRoundTrip(d);
    LiteralChars(lit);
    forall x | 0 <= x < |text| ensures text[x] != '\r' {
      if x >= |prefix| {
        assert text[x] == lit[x - |prefix|];
      }
    }
  }

  class Ctc100 {
    /** The serial port, opened once for the driver's lifetime. */
    const device: Port
    /** The requests written so far, in order: what `device.writes` carries. */
    ghost var written: seq<Request>

    /** Each write to the port is the wire form of the request written at that point. */
    ghost predicate Valid()
      reads this, device
    {
      CarriesAll(device.writes, written)
    }

    /**
     * Opens the port; `chunks` is what the device's successive reads
     * will return.
     */
    constructor (chunks: seq<seq<Byte>>)
      ensures Valid() && written == []
      ensures fresh(device) && device.chunks == chunks && device.taken == 0 && device.writes == []
    {
      device := new Port(chunks);
      written := [];
    }

    /**
     * Sends `command` with its newline terminator, then polls the port
     * until the buffer is a complete response or the deadline passes.
     */
    method Write(command: string, polls: nat, ghost request: Request) returns (response: seq<Byte>)
      requires Text(request) == command
      requires Valid()
      modifies this, device
      ensures Valid() && written == old(written) + [request]
      ensures device.writes == old(device.writes) + [Wire(command)]
      ensures response == Response(device.chunks, old(device.taken), polls)
      ensures device.taken == Next(device.chunks, old(device.taken), polls)
    {
      SendCommand(command, request);
      response := AwaitResponse(polls);
    }

    /** The first step of `write`: the command and its newline go out as one write. */
    method SendCommand(command: string, ghost request: Request)
      requires Text(request) == command
      requires Valid()
      modifies this, device
      ensures Valid() && written == old(written) + [request]
      ensures device.writes == old(device.writes) + [Wire(command)]
      ensures device.taken == old(device.taken)
    {
      var bytes := Wire(command);
      device.Send(bytes);
      CarriesSnoc(old(device.writes), written, request);
      written := written + [request];
    }

    /**
     * The polling loop of `write`: one read, then more reads while the
     * buffer is not a complete response, until the deadline passes.
     */
    method AwaitResponse(polls: nat) returns (response: seq<Byte>)
      modifies device
      ensures response == Response(device.chunks, old(device.taken), polls)
      ensures device.taken == Next(device.chunks, old(device.taken), polls)
      ensures device.writes == old(device.writes)
    {
      ghost var s := device.taken;
      response := device.Read();
      var polled: nat := 0;
      while !Complete(response)
        invariant polled <= polls
        invariant response == Received(device.chunks, s, polled + 1)
        invariant device.taken == s + polled + 1
        invariant device.writes == old(device.writes)
        invariant forall m :: 1 <= m <= polled ==> !CompleteAt(device.chunks, s, m)
        decreases polls - polled
      {
        var chunk := device.Read();
        response := response + chunk;
        polled := polled + 1;
        if polled > polls {
          break;
        }
      }
      ReadCountIs(device.chunks, s, polls, polled + 1);
    }

    /** `get_variable`: queries a parameter. */
    method GetVariable(name: string, polls: nat) returns (response: seq<Byte>)
      requires Valid()
      modifies this, device
      ensures Valid() && written == old(written) + [Typed(Query(name))]
      ensures response == Response(device.chunks, old(device.taken), polls)
      ensures device.taken == Next(device.chunks, old(device.taken), polls)
    {
      response := Write(Format(Query(name)), polls, Typed(Query(name)));
    }

    /** `set_variable`: assigns a parameter. */
    method SetVariable(name: string, value: string, polls: nat) returns (response: seq<Byte>)
      requires Valid()
      modifies this, device
      ensures Valid() && written == old(written) + [Typed(Assign(name, value))]
      ensures response == Response(device.chunks, old(device.taken), polls)
      ensures device.taken == Next(device.chunks, old(device.taken), polls)
    {
      response := Write(Format(Assign(name, value)), polls, Typed(Assign(name, value)));
    }

    /** `increment_variable`: adds to a parameter. */
    method IncrementVariable(name: string, value: string, polls: nat) returns (response: seq<Byte>)
      requires Valid()
      modifies this, device
      ensures Valid() && written == old(written) + [Typed(Increment(name, value))]
      ensures response == Response(device.chunks, old(device.taken), polls)
      ensures device.taken == Next(device.chunks, old(device.taken), polls)
    {
      response := Write(Format(Increment(name, value)), polls, Typed(Increment(name, value)));
    }

    /** `read`: queries the channel's value and extracts the number in the reply. */
    method Read(channel: Channel, polls: nat) returns (r: Result<Reading, ReadError>)
      requires Valid()
      modifies this, device
      ensures Valid() && written == old(written) + [Typed(Query(Resolve(channel) + ".value"))]
      ensures r == Interpret(Resolve(channel), Response(device.chunks, old(device.taken), polls))
      ensures device.taken == Next(device.chunks, old(device.taken), polls)
    {
      var name := Resolve(channel);
      var response := GetVariable(name + ".value", polls);
      r := Interpret(name, response);
    }

    /** `read_setpoint`: reads the setpoint of an output channel by its full name. */
    method ReadSetpoint(channel: Channel, polls: nat) returns (r: Result<Reading, ReadError>)
      requires Valid()
      modifies this, device
      ensures Valid() && written == old(written) + [Typed(Query(Out(channel) + ".PID.setpoint" + ".value"))]
      ensures r == Interpret(Out(channel) + ".PID.setpoint", Response(device.chunks, old(device.taken), polls))
      ensures device.taken == Next(device.chunks, old(device.taken), polls)
    {
      r := Read(Name(Out(channel) + ".PID.setpoint"), polls);
    }

    /** `write_setpoint`: assigns the setpoint of an output channel. */
    method WriteSetpoint(channel: Channel, setpoint: string, polls: nat) returns (response: seq<Byte>)
      requires Valid()
      modifies this, device
      ensures Valid() && written == old(written) + [Typed(Assign(Out(channel) + ".PID.setpoint", setpoint))]
      ensures response == Response(device.chunks, old(device.taken), polls)
      ensures device.taken == Next(device.chunks, old(device.taken), polls)
    {
      response := SetVariable(Out(channel) + ".PID.setpoint", setpoint, polls);
    }

    /** `setAlarm`: arms an alarm on a channel; returns the reply to the last command. */
    method SetAlarm(channel: Channel, tmin: string, tmax: string, polls: nat) returns (response: seq<Byte>)
      requires Valid()
      modifies this, device
      ensures Valid() && written == old(written) + AlarmRequests(channel, tmin, tmax)
      ensures response == Reply(device.chunks, old(device.taken), polls, 3)
      ensures device.taken == After(device.chunks, old(device.taken), polls, 4)
    {
      var c := Resolve(channel);
      ghost var s, w := device.taken, written;
      AfterStep(device.chunks, s, polls, 0, device.taken);
      response := SetVariable(c + ".alarm.sound", "4 beeps", polls);
      AfterStep(device.chunks, s, polls, 1, device.taken);
      response := SetVariable(c + ".alarm.min", tmin, polls);
      AfterStep(device.chunks, s, polls, 2, device.taken);
      response := SetVariable(c + ".alarm.max", tmax, polls);
      AfterStep(device.chunks, s, polls, 3, device.taken);
      response := SetVariable(c + ".alarm.mode", "Level", polls);
      AppendFour(w, AlarmRequests(channel, tmin, tmax));
    }

    /** `disableAlarm`: turns a channel's alarm off. */
    method DisableAlarm(channel: Channel, polls: nat)
      requires Valid()
      modifies this, device
      ensures Valid() && written == old(written) + [Typed(Assign(Resolve(channel) + ".alarm.mode", "Off"))]
      ensures device.taken == Next(device.chunks, old(device.taken), polls)
    {
      var c := Resolve(channel);
      var _ := SetVariable(c + ".alarm.mode", "Off", polls);
    }

    /** `enableHeater` */
    method EnableHeater(polls: nat)
      requires Valid()
      modifies this, device
      ensures Valid() && written == old(written) + [Line("outputEnable on")]
      ensures device.taken == Next(device.chunks, old(device.taken), polls)
    {
      var _ := Write("outputEnable on", polls, Line("outputEnable on"));
    }

    /** `disableHeater` */
    method DisableHeater(polls: nat)
      requires Valid()
      modifies this, device
      ensures Valid() && written == old(written) + [Line("outputEnable off")]
      ensures device.taken == Next(device.chunks, old(device.taken), polls)
    {
      var _ := Write("outputEnable off", polls, Line("outputEnable off"));
    }

    /** `enablePID`: heater on, then the output's PID loop on. */
    method EnablePID(channel: Channel, polls: nat)
      requires Valid()
      modifies this, device
      ensures Valid() && written == old(written) + EnablePidRequests(channel)
      ensures device.taken == After(device.chunks, old(device.taken), polls, 2)
    {
      ghost var s, w := device.taken, written;
      EnableHeater(polls);
      assert device.taken == After(device.chunks, s, polls, 1);
      var _ := SetVariable(Out(channel) + ".PID.Mode", "On", polls);
      assert written == w + [EnablePidRequests(channel)[0]] + [EnablePidRequests(channel)[1]];
    }

    /** `disablePID`: heater off, then the output's PID loop off. */
    method DisablePID(channel: Channel, polls: nat)
      requires Valid()
      modifies this, device
      ensures Valid() && written == old(written) + DisablePidRequests(channel)
      ensures device.taken == After(device.chunks, old(device.taken), polls, 2)
    {
      ghost var s, w := device.taken, written;
      DisableHeater(polls);
      assert device.taken == After(device.chunks, s, polls, 1);
      var _ := SetVariable(Out(channel) + ".PID.Mode", "Off", polls);
      assert written == w + [DisablePidRequests(channel)[0]] + [DisablePidRequests(channel)[1]];
    }

    /** The first half of `tunePID`: the five writes that start automatic tuning. */
    method StartTuning(channel: Channel, stepY: string, lag: string, polls: nat)
      requires Valid()
      modifies this, device
      ensures Valid() && written == old(written) + StartTuningRequests(channel, stepY, lag)
      ensures device.taken == After(device.chunks, old(device.taken), polls, 5)
    {
      var o := Out(channel);
      ghost var s, w := device.taken, written;
      AfterStep(device.chunks, s, polls, 0, device.taken);
      var _ := SetVariable(o + ".Tune.StepY", stepY, polls);
      AfterStep(device.chunks, s, polls, 1, device.taken);
      var _ := SetVariable(o + ".Tune.Lag", lag, polls);
      AfterStep(device.chunks, s, polls, 2, device.taken);
      EnableHeater(polls);
      AfterStep(device.chunks, s, polls, 3, device.taken);
      var _ := SetVariable(o + ".Tune.Type", "Auto", polls);
      AfterStep(device.chunks, s, polls, 4, device.taken);
      var _ := SetVariable(o + ".Tune.Mode", "Auto", polls);
      AppendFive(w, StartTuningRequests(channel, stepY, lag));
    }

    /**
     * `tunePID`: writes the tuning parameters, switches the heater on,
     * starts automatic tuning and, after the caller's lag, asks whether
     * PID mode came on.  Only when it reads back exactly "On\r\n" does it
     * switch PID off again and confirm on the front panel ("menu 4").
     */
    method TunePID(channel: Channel, stepY: string, lag: string, polls: nat) returns (outcome: TuneOutcome)
      requires Valid()
      modifies this, device
      ensures outcome == TuneResult(Reply(device.chunks, old(device.taken), polls, 5))
      ensures Valid()
      ensures written == old(written) + StartTuningRequests(channel, stepY, lag)
        + [Typed(Query(Out(channel) + ".PID.Mode"))]
        + (if outcome == Tuned then DisablePidRequests(channel) + [Line("menu 4")] else [])
      ensures device.taken == After(device.chunks, old(device.taken), polls, if outcome == Tuned then 9 else 6)
    {
      ghost var s := device.taken;
      StartTuning(channel, stepY, lag, polls);
      var reply := GetVariable(Out(channel) + ".PID.Mode", polls);
      assert device.taken == After(device.chunks, s, polls, 6);
      outcome := TuneResult(reply);
      if outcome == Tuned {
        FinishTuning(channel, polls);
        AfterAfter(device.chunks, s, polls, 6, 3);
      }
    }

    /** The successful end of `tunePID`: PID off again, then "menu 4" to confirm. */
    method FinishTuning(channel: Channel, polls: nat)
      requires Valid()
      modifies this, device
      ensures Valid() && written == old(written) + DisablePidRequests(channel) + [Line("menu 4")]
      ensures device.taken == After(device.chunks, old(device.taken), polls, 3)
    {
      DisablePID(channel, polls);
      var _ := Write("menu 4", polls, Line("menu 4"));
    }
  }
}
