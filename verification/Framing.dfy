/** Cutting a switch's byte stream into messages (Connection.read in pox/openflow/of_01.py). */
module Framing {
  import opened Bytes
  import opened Sequences

  const OFP_VERSION: nat := 1
  const LAST_DEFINED: nat := 21  // the last message type of OpenFlow 1.0
  const LAST_TYPE: nat := LAST_DEFINED - 1  // the class table leaves that one out

  /** A dispatched message: its type and its own bytes. */
  datatype Message = Message(kind: nat, bytes: seq<Byte>)

  /** One turn of the loop of read: stop waiting for more bytes, refuse the version, fail on an
      unknown type, or dispatch a message and go on with the rest of the buffer. */
  datatype Turn = Wait | BadVersion | UnknownType | Dispatch(message: Message, rest: seq<Byte>)

  function LengthField(buf: seq<Byte>): nat
    requires |buf| >= 4
  {
    var high: nat, low: nat := buf[2], buf[3];
    256 * high + low
  }

  function TurnOn(buf: seq<Byte>): Turn {
    if |buf| <= 4 then Wait
    else if buf[0] != OFP_VERSION then BadVersion
    else if LengthField(buf) > |buf| then Wait
    else if buf[1] > LAST_TYPE then UnknownType
    else Dispatch(Message(buf[1], buf[..LengthField(buf)]), buf[LengthField(buf)..])
  }

  /** A whole message of this version at the front of the buffer. */
  predicate IsWhole(buf: seq<Byte>) {
    |buf| > 4 && buf[0] == OFP_VERSION && LengthField(buf) <= |buf|
  }

  /** Of the defined message types one is not dispatched when it has arrived: the last. */
  lemma LastTypeIsRefused(buf: seq<Byte>)
    requires IsWhole(buf) && buf[1] <= LAST_DEFINED
    ensures TurnOn(buf).Dispatch? <==> buf[1] != LAST_DEFINED
    ensures TurnOn(buf).UnknownType? <==> buf[1] == LAST_DEFINED
    ensures TurnOn([1, 21, 0, 8, 0, 0, 0, 0]).UnknownType?
  {
  }

  /** How the loop ends: waiting, with the connection to be closed, or not at all. */
  datatype Ending = Open | Closed(reason: Turn) | Spinning

  datatype Result = Result(messages: seq<Message>, rest: seq<Byte>, ending: Ending)

  /** The whole loop. A zero length field leaves the buffer as it was. */
  function Parse(buf: seq<Byte>): Result
    decreases |buf|
  {
    match TurnOn(buf)
    case Wait => Result([], buf, Open)
    case BadVersion => Result([], buf, Closed(BadVersion))
    case UnknownType => Result([], buf, Closed(UnknownType))
    case Dispatch(message, rest) =>
      if |rest| == |buf| then Result([], buf, Spinning)
      else
        var later := Parse(rest);
        Result([message] + later.messages, later.rest, later.ending)
  }

  // ---------------------------------------------------------------- what is dispatched

  /** Octets 2 and 3 of a header. */
  function Announced(buf: seq<Byte>): int
    requires |buf| >= 4
  {
    var high: int, low: int := buf[2], buf[3];
    256 * high + low
  }

  /** The buffer is these messages one after the other and then the rest: each begins with octet 1
      and its type, and takes as many octets as its header announces. */
  predicate CutInto(buf: seq<Byte>, messages: seq<Message>, rest: seq<Byte>)
    decreases |messages|
  {
    if messages == [] then rest == buf
    else
      && |buf| > 4 && buf[0] == 1 && 0 < Announced(buf) <= |buf|
      && messages[0].kind == buf[1] <= 20 && messages[0].bytes == buf[..Announced(buf)]
      && CutInto(buf[Announced(buf)..], messages[1..], rest)
  }

  /** What is left gives this reason to stop. */
  predicate StopsAt(rest: seq<Byte>, ending: Ending) {
    if |rest| <= 4 then ending == Open
    else if rest[0] != 1 then ending == Closed(BadVersion)
    else if Announced(rest) > |rest| then ending == Open
    else if rest[1] > 20 then ending == Closed(UnknownType)
    else Announced(rest) == 0 && ending == Spinning
  }

  /** Parsing is the one way of cutting a buffer until there is a reason to stop. */
  lemma {:induction false} ParseExactly(buf: seq<Byte>, r: Result)
    ensures r == Parse(buf) <==> CutInto(buf, r.messages, r.rest) && StopsAt(r.rest, r.ending)
    decreases |buf|
  {
    if TurnOn(buf).Dispatch? && LengthField(buf) > 0 {
      if r.messages != [] {
        ParseExactly(buf[LengthField(buf)..], Result(r.messages[1..], r.rest, r.ending));
        OneMoreMessage(buf, r);
      }
    } else {
      ParseStops(buf, r);
    }
  }

  lemma OneMoreMessage(buf: seq<Byte>, r: Result)
    requires TurnOn(buf).Dispatch? && LengthField(buf) > 0 && r.messages != []
    ensures r == Parse(buf) <==>
      && r.messages[0] == TurnOn(buf).message
      && Result(r.messages[1..], r.rest, r.ending) == Parse(buf[LengthField(buf)..])
  {
    assert r.messages == [r.messages[0]] + r.messages[1..];
  }

  lemma ParseStops(buf: seq<Byte>, r: Result)
    requires TurnOn(buf).Dispatch? ==> LengthField(buf) == 0
    ensures r == Parse(buf) <==> CutInto(buf, r.messages, r.rest) && StopsAt(r.rest, r.ending)
  {
    assert buf[0..] == buf;
  }

  /** The octets of the messages, in order. */
  function Octets(messages: seq<Message>): seq<Byte> {
    if messages == [] then [] else messages[0].bytes + Octets(messages[1..])
  }

  /** Nothing is lost, added or moved. */
  lemma {:induction false} EveryOctetIsThere(buf: seq<Byte>, messages: seq<Message>, rest: seq<Byte>)
    requires CutInto(buf, messages, rest)
    ensures buf == Octets(messages) + rest
    decreases |messages|
  {
    if messages != [] {
      var n := Announced(buf);
      EveryOctetIsThere(buf[n..], messages[1..], rest);
      assert buf == buf[..n] + buf[n..];
    }
  }

  /** A message with its whole header says what it is. */
  predicate SaysWhatItIs(m: Message) {
    |m.bytes| >= 4 ==> m.bytes[0] == 1 && m.bytes[1] == m.kind && Announced(m.bytes) == |m.bytes|
  }

  lemma {:induction false} MessagesSayWhatTheyAre(buf: seq<Byte>, messages: seq<Message>, rest: seq<Byte>, i: nat)
    requires CutInto(buf, messages, rest) && i < |messages|
    ensures messages[i].bytes != [] && messages[i].kind <= 20 && SaysWhatItIs(messages[i])
    decreases |messages|
  {
    if i > 0 {
      MessagesSayWhatTheyAre(buf[Announced(buf)..], messages[1..], rest, i - 1);
    }
  }

  /** A header that announces less than itself is dispatched all the same, as its first octets. */
  lemma ShortMessage()
    ensures Parse([1, 0, 0, 2, 1]) == Result([Message(0, [1, 0])], [0, 2, 1], Open)
  {
    var buf: seq<Byte> := [1, 0, 0, 2, 1];
    assert buf[..2] == [1, 0] && buf[2..] == [0, 2, 1];
    ParseExactly(buf, Result([Message(0, [1, 0])], [0, 2, 1], Open));
  }

  // ---------------------------------------------------------------- termination

  /** The buffer after n turns of the loop, as long as it goes on. */
  ghost function AfterTurns(buf: seq<Byte>, n: nat): seq<Byte> {
    if n == 0 || !TurnOn(buf).Dispatch? then buf else AfterTurns(TurnOn(buf).rest, n - 1)
  }

  ghost predicate Terminates(buf: seq<Byte>) {
    exists n :: !TurnOn(AfterTurns(buf, n)).Dispatch?
  }

  lemma {:induction false} SpinsForever(buf: seq<Byte>, n: nat)
    requires TurnOn(buf).Dispatch? && |TurnOn(buf).rest| == |buf|
    ensures AfterTurns(buf, n) == buf
  {
    if n > 0 {
      assert TurnOn(buf).rest == buf;
      SpinsForever(buf, n - 1);
    }
  }

  lemma OneTurnOn(buf: seq<Byte>, n: nat)
    requires TurnOn(buf).Dispatch? && n > 0
    ensures AfterTurns(buf, n) == AfterTurns(TurnOn(buf).rest, n - 1)
  {
  }

  lemma TerminatesLikeRest(buf: seq<Byte>)
    requires TurnOn(buf).Dispatch?
    ensures Terminates(buf) <==> Terminates(TurnOn(buf).rest)
  {
    var rest := TurnOn(buf).rest;
    if Terminates(rest) {
      var n: nat :| !TurnOn(AfterTurns(rest, n)).Dispatch?;
      OneTurnOn(buf, n + 1);
    }
    if Terminates(buf) {
      var n: nat :| !TurnOn(AfterTurns(buf, n)).Dispatch?;
      assert AfterTurns(buf, 0) == buf;
      OneTurnOn(buf, n);
    }
  }

  lemma SpinningNeverTerminates(buf: seq<Byte>)
    requires TurnOn(buf).Dispatch? && |TurnOn(buf).rest| == |buf|
    ensures !Terminates(buf)
  {
    forall n ensures TurnOn(AfterTurns(buf, n)).Dispatch? { SpinsForever(buf, n); }
  }

  lemma StoppedTerminates(buf: seq<Byte>)
    requires !TurnOn(buf).Dispatch?
    ensures Terminates(buf)
  {
    assert AfterTurns(buf, 0) == buf;
  }

  /** The loop ends exactly when its result says so. */
  lemma {:induction false} TerminatesUnlessSpinning(buf: seq<Byte>)
    ensures Terminates(buf) <==> !Parse(buf).ending.Spinning?
    decreases |buf|
  {
    match TurnOn(buf)
    case Dispatch(message, rest) =>
      if |rest| == |buf| {
        SpinningNeverTerminates(buf);
      } else {
        TerminatesLikeRest(buf);
        TerminatesUnlessSpinning(rest);
      }
    case _ => StoppedTerminates(buf);
  }

  /** At this offset of the buffer stands a header of this version and a known type whose
      message has arrived as far as its length field says. */
  predicate HeaderAt(buf: seq<Byte>, k: nat) {
    k + 4 < |buf| && buf[k] == OFP_VERSION && buf[k + 1] <= LAST_TYPE && LengthAt(buf, k) <= |buf| - k
  }

  function LengthAt(buf: seq<Byte>, k: nat): nat
    requires k + 4 <= |buf|
  {
    LengthField(buf[k..])
  }

  /** From these offsets on stand whole messages, the first at k, each but the last of positive
      length and right before the next; the last has length field 0. */
  predicate LeadsToZero(buf: seq<Byte>, offsets: seq<nat>, k: nat)
    decreases |offsets|
  {
    && offsets != [] && offsets[0] == k && HeaderAt(buf, k)
    && (if |offsets| == 1 then LengthAt(buf, k) == 0
        else LengthAt(buf, k) > 0 && LeadsToZero(buf, offsets[1..], k + LengthAt(buf, k)))
  }

  ghost predicate MeetsZeroLength(buf: seq<Byte>) {
    exists offsets :: LeadsToZero(buf, offsets, 0)
  }

  lemma TurnAt(buf: seq<Byte>, k: nat)
    requires k <= |buf|
    ensures TurnOn(buf[k..]).Dispatch? <==> HeaderAt(buf, k)
    ensures HeaderAt(buf, k) ==> TurnOn(buf[k..]).rest == buf[k + LengthAt(buf, k)..]
  {
  }

  predicate SpinsFrom(buf: seq<Byte>, k: nat)
    requires k <= |buf|
  {
    Parse(buf[k..]).ending.Spinning?
  }

  lemma EndingAt(buf: seq<Byte>, k: nat)
    requires k <= |buf|
    ensures SpinsFrom(buf, k) <==>
      HeaderAt(buf, k) && (LengthAt(buf, k) == 0 || SpinsFrom(buf, k + LengthAt(buf, k)))
  {
    TurnAt(buf, k);
  }

  lemma {:induction false} SpinningLeadsToZero(buf: seq<Byte>, k: nat) returns (offsets: seq<nat>)
    requires k <= |buf| && SpinsFrom(buf, k)
    ensures LeadsToZero(buf, offsets, k)
    decreases |buf| - k
  {
    EndingAt(buf, k);
    if LengthAt(buf, k) == 0 {
      offsets := [k];
    } else {
      var later := SpinningLeadsToZero(buf, k + LengthAt(buf, k));
      offsets := [k] + later;
      assert offsets[1..] == later;
    }
  }

  lemma {:induction false} LeadingToZeroSpins(buf: seq<Byte>, offsets: seq<nat>, k: nat)
    requires k <= |buf| && LeadsToZero(buf, offsets, k)
    ensures SpinsFrom(buf, k)
    decreases |offsets|
  {
    EndingAt(buf, k);
    if |offsets| > 1 {
      LeadingToZeroSpins(buf, offsets[1..], k + LengthAt(buf, k));
    }
  }

  /** The loop ends exactly when no chain of whole messages from the start of the buffer leads to
      one whose length field is 0. */
  lemma TerminatesExactly(buf: seq<Byte>)
    ensures Terminates(buf) <==> !MeetsZeroLength(buf)
    ensures Parse(buf).ending.Spinning? <==> MeetsZeroLength(buf)
  {
    TerminatesUnlessSpinning(buf);
    assert buf[0..] == buf;
    if Parse(buf).ending.Spinning? {
      var offsets := SpinningLeadsToZero(buf, 0);
    }
    if MeetsZeroLength(buf) {
      var offsets :| LeadsToZero(buf, offsets, 0);
      LeadingToZeroSpins(buf, offsets, 0);
    }
  }

  /** Five bytes on which the loop does not end. */
  lemma ZeroLengthSpins()
    ensures !Terminates([1, 0, 0, 0, 0])
  {
    var buf: seq<Byte> := [1, 0, 0, 0, 0];
    assert HeaderAt(buf, 0) && LengthAt(buf, 0) == 0;
    assert LeadsToZero(buf, [0], 0);
    TerminatesExactly(buf);
  }

  // ---------------------------------------------------------------- chunking

  /** A turn that does not wait does the same with more bytes behind. */
  lemma TurnIsStable(buf: seq<Byte>, more: seq<Byte>)
    requires !TurnOn(buf).Wait?
    ensures match TurnOn(buf)
      case Dispatch(message, rest) => TurnOn(buf + more) == Dispatch(message, rest + more)
      case _ => TurnOn(buf + more) == TurnOn(buf)
  {
  }

  /** Two results one after the other. */
  function Then(first: Result, second: Result): Result {
    Result(first.messages + second.messages, second.rest, second.ending)
  }

  function Dispatched(message: Message): Result { Result([message], [], Open) }

  lemma ParseDispatch(buf: seq<Byte>, message: Message, rest: seq<Byte>)
    requires TurnOn(buf) == Dispatch(message, rest) && |rest| < |buf|
    ensures Parse(buf) == Then(Dispatched(message), Parse(rest))
  {
  }

  /** What parsing a buffer and then its leftover with more bytes gives. */
  function ParseThenMore(buf: seq<Byte>, more: seq<Byte>): Result {
    var first := Parse(buf);
    if first.ending.Open? then Then(first, Parse(first.rest + more))
    else Result(first.messages, first.rest + more, first.ending)
  }

  lemma MoreAfterDispatch(buf: seq<Byte>, more: seq<Byte>, message: Message, rest: seq<Byte>)
    requires TurnOn(buf) == Dispatch(message, rest) && |rest| < |buf|
    ensures ParseThenMore(buf, more) == Then(Dispatched(message), ParseThenMore(rest, more))
  {
  }

  /** Parsing a buffer and then its leftover with more bytes is parsing it all at once. */
  lemma {:induction false} ParseInTwo(buf: seq<Byte>, more: seq<Byte>)
    ensures Parse(buf + more) == ParseThenMore(buf, more)
    decreases |buf|
  {
    match TurnOn(buf)
    case Wait => assert [] + Parse(buf + more).messages == Parse(buf + more).messages;
    case BadVersion => TurnIsStable(buf, more);
    case UnknownType => TurnIsStable(buf, more);
    case Dispatch(message, rest) =>
      TurnIsStable(buf, more);
      if |rest| < |buf| {
        ParseInTwo(rest, more);
        ParseDispatch(buf + more, message, rest + more);
        MoreAfterDispatch(buf, more, message, rest);
      }
  }

  /** The reads of a connection, one chunk at a time, until it is closed. */
  function ReadAll(buf: seq<Byte>, chunks: seq<seq<Byte>>): Result
    decreases |chunks|
  {
    if chunks == [] then Result([], buf, Open)
    else
      var first := Parse(buf + chunks[0]);
      if !first.ending.Open? then first
      else
        var later := ReadAll(first.rest, chunks[1..]);
        Result(first.messages + later.messages, later.rest, later.ending)
  }

  /** However the stream is cut, the same messages are dispatched and the loop ends the same
      way as in one read of the whole stream; while the connection stays open the leftover is
      the same too, and otherwise it is a prefix of what the one read leaves. */
  lemma {:induction false} ChunkingIsIrrelevant(buf: seq<Byte>, chunks: seq<seq<Byte>>)
    requires TurnOn(buf).Wait?
    ensures var whole := Parse(buf + Flatten(chunks));
      var pieces := ReadAll(buf, chunks);
      && pieces.messages == whole.messages && pieces.ending == whole.ending
      && (whole.ending.Open? ==> pieces.rest == whole.rest)
      && pieces.rest <= whole.rest
    decreases |chunks|
  {
    if chunks == [] {
      assert buf + [] == buf;
    } else {
      var first := Parse(buf + chunks[0]);
      var others := Flatten(chunks[1..]);
      assert buf + (chunks[0] + others) == (buf + chunks[0]) + others;
      ParseInTwo(buf + chunks[0], others);
      if first.ending.Open? {
        RestWaits(buf + chunks[0]);
        ChunkingIsIrrelevant(first.rest, chunks[1..]);
      }
    }
  }

  lemma {:induction false} RestWaits(buf: seq<Byte>)
    requires Parse(buf).ending.Open?
    ensures TurnOn(Parse(buf).rest).Wait?
    decreases |buf|
  {
    match TurnOn(buf)
    case Dispatch(message, rest) => if |rest| < |buf| { RestWaits(rest); }
    case _ =>
  }

  // ---------------------------------------------------------------- the connection

  /** What read returns to the main loop. */
  datatype ReadResult = KeepOpen | CloseIt | Raised

  function EndingOf(r: ReadResult): Ending {
    match r
    case KeepOpen => Open
    case CloseIt => Closed(BadVersion)
    case Raised => Closed(UnknownType)
  }

  /** The stream was cut into these messages, all of its octets are accounted for, and the loop
      ended as what is left demands. */
  predicate Cuts(stream: seq<Byte>, messages: seq<Message>, rest: seq<Byte>, r: ReadResult) {
    CutInto(stream, messages, rest) && StopsAt(rest, EndingOf(r)) && stream == Octets(messages) + rest
  }

  lemma ParseCuts(stream: seq<Byte>)
    ensures forall r :: EndingOf(r) == Parse(stream).ending ==>
      Cuts(stream, Parse(stream).messages, Parse(stream).rest, r)
  {
    ParseExactly(stream, Parse(stream));
    EveryOctetIsThere(stream, Parse(stream).messages, Parse(stream).rest);
  }

  class Connection {
    var buf: seq<Byte>
    var dispatched: seq<Message>  // the handler calls made so far

    constructor ()
      ensures buf == [] && dispatched == []
    {
      buf, dispatched := [], [];
    }

    /** Connection.read, for the bytes d that recv returned; none means end of stream. */
    method Read(d: seq<Byte>) returns (r: ReadResult)
      requires !MeetsZeroLength(buf + d)
      modifies this
      ensures d == [] ==> r.CloseIt? && buf == old(buf) && dispatched == old(dispatched)
      ensures d != [] ==>
        var p := Parse(old(buf) + d);
        && buf == p.rest && dispatched == old(dispatched) + p.messages
        && (r.KeepOpen? <==> p.ending.Open?)
        && (r.CloseIt? <==> p.ending == Closed(BadVersion)) && (r.Raised? <==> p.ending == Closed(UnknownType))
      ensures d != [] ==>
        old(dispatched) <= dispatched && Cuts(old(buf) + d, dispatched[|old(dispatched)|..], buf, r)
    {
      if |d| == 0 { return CloseIt; }
      ParseCuts(buf + d);
      buf := buf + d;
      r := DispatchAll();
    }

    /** Its loop. */
    method DispatchAll() returns (r: ReadResult)
      requires !MeetsZeroLength(buf)
      modifies this
      ensures var p := Parse(old(buf));
        && buf == p.rest && dispatched == old(dispatched) + p.messages && EndingOf(r) == p.ending
    {
      TerminatesExactly(buf);
      ghost var p := Parse(buf);
      var l := |buf|;
      while l > 4
        invariant l == |buf|
        invariant p.ending == Parse(buf).ending && p.rest == Parse(buf).rest
        invariant old(dispatched) + p.messages == dispatched + Parse(buf).messages
        decreases l
      {
        if buf[0] != OFP_VERSION {
          assert dispatched + [] == dispatched;
          return CloseIt;
        }
        var kind := buf[1];
        var length := LengthField(buf);
        if length > l { break; }
        if kind > LAST_TYPE {
          assert dispatched + [] == dispatched;
          return Raised;
        }
        var message := Message(kind, buf[..length]);
        ghost var later := Parse(buf[length..]).messages;
        assert dispatched + ([message] + later) == (dispatched + [message]) + later;
        buf := buf[length..];
        l := |buf|;
        dispatched := dispatched + [message];
      }
      assert dispatched + [] == dispatched;
      return KeepOpen;
    }

    /** The reads of a whole connection. */
    method ReadStream(chunks: seq<seq<Byte>>) returns (r: ReadResult)
      requires buf == [] && dispatched == []
      requires forall c :: c in chunks ==> c != []
      requires !MeetsZeroLength(Flatten(chunks))
      modifies this
      ensures dispatched == Parse(Flatten(chunks)).messages
      ensures r.KeepOpen? <==> Parse(Flatten(chunks)).ending.Open?
      ensures r.KeepOpen? ==> buf == Parse(Flatten(chunks)).rest
      ensures exists rest :: Cuts(Flatten(chunks), dispatched, rest, r) && (r.KeepOpen? ==> buf == rest)
    {
      ghost var all, whole := ReadAll([], chunks), Parse(Flatten(chunks));
      TerminatesExactly(Flatten(chunks));
      ParseCuts(Flatten(chunks));
      FromTheStart(chunks, all, whole);
      r := KeepOpen;
      var n := 0;
      while n < |chunks|
        invariant 0 <= n <= |chunks| && r.KeepOpen?
        invariant ReadsOn(all, dispatched, ReadAll(buf, chunks[n..]))
      {
        ReadOneChunk(all, dispatched, buf, chunks, n);
        ghost var first := Parse(buf + chunks[n]);
        assert chunks[n] in chunks;
        TerminatesExactly(buf + chunks[n]);
        r := Read(chunks[n]);
        if !r.KeepOpen? {
          assert all.messages == dispatched && all.ending == first.ending;
          return;
        }
        n := n + 1;
      }
      LastChunk(all, dispatched, buf, chunks);
      assert Cuts(Flatten(chunks), dispatched, buf, r);
    }
  }

  /** all is what was dispatched so far followed by later. */
  ghost predicate ReadsOn(all: Result, dispatched: seq<Message>, later: Result) {
    all == Result(dispatched + later.messages, later.rest, later.ending)
  }

  lemma FromTheStart(chunks: seq<seq<Byte>>, all: Result, whole: Result)
    requires all == ReadAll([], chunks) && whole == Parse(Flatten(chunks))
    ensures all.messages == whole.messages && all.ending == whole.ending
    ensures whole.ending.Open? ==> all.rest == whole.rest
    ensures ReadsOn(all, [], ReadAll([], chunks[0..]))
  {
    assert chunks[0..] == chunks && [] + Flatten(chunks) == Flatten(chunks);
    ChunkingIsIrrelevant([], chunks);
  }

  lemma LastChunk(all: Result, dispatched: seq<Message>, buf: seq<Byte>, chunks: seq<seq<Byte>>)
    requires ReadsOn(all, dispatched, ReadAll(buf, chunks[|chunks|..]))
    ensures all == Result(dispatched, buf, Open)
  {
  }

  lemma ReadOneChunk(all: Result, dispatched: seq<Message>, buf: seq<Byte>, chunks: seq<seq<Byte>>, n: nat)
    requires n < |chunks| && ReadsOn(all, dispatched, ReadAll(buf, chunks[n..]))
    ensures var first := Parse(buf + chunks[n]);
      if first.ending.Open? then ReadsOn(all, dispatched + first.messages, ReadAll(first.rest, chunks[n + 1..]))
      else ReadsOn(all, dispatched, first)
  {
  }
}
