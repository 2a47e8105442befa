/** Deferred sending (DeferredSender and Connection.send in pox/openflow/of_01.py): a caller
    writes to a socket itself unless a flag says that a second thread is draining what could
    not be written before. The flag is read without the lock. */
module DeferredSending {
  import opened Options
  import opened Bytes
  import opened Sequences

  type Con = nat

  /** PIPE_BUF as the platform defines it. */
  type Size = n: nat | n > 0 witness 1

  /** _sliceup */
  function Slices(data: seq<Byte>, size: Size): seq<seq<Byte>> {
    if |data| > size then [data[..size]] + Slices(data[size..], size)
    else if |data| > 0 then [data]
    else []
  }

  /** Slicing loses nothing, and no slice is empty or too long. */
  lemma {:induction false} SlicesAreTheData(data: seq<Byte>, size: Size)
    ensures Flatten(Slices(data, size)) == data
    ensures forall i :: 0 <= i < |Slices(data, size)| ==> 0 < |Slices(data, size)[i]| <= size
  {
    if |data| > size {
      SlicesAreTheData(data[size..], size);
      assert data == data[..size] + data[size..];
    } else if |data| > 0 {
      assert Slices(data, size)[1..] == [];
    }
  }

  // ---------------------------------------------------------------- the protocol

  /** Where the one calling thread is inside Connection.send. */
  datatype Caller =
    | Idle
    | Deciding(con: Con, data: seq<Byte>)   // about to read the flag
    | Direct(con: Con, data: seq<Byte>)     // read False, about to write to the socket
    | Deferring(con: Con, data: seq<Byte>)  // about to hand over to the deferred sender

  datatype State = State(
    pipeBuf: Size,
    submitted: map<Con, seq<Byte>>,       // every byte ever passed to send, per connection
    delivered: map<Con, seq<Byte>>,       // every byte the sockets have accepted
    pending: map<Con, seq<seq<Byte>>>,    // _dataForConnection
    sending: bool,
    caller: Caller,
    locked: bool)                         // the sender thread holds the lock

  datatype Step =
    // the caller
    | Submit(con: Con, data: seq<Byte>)
    | ReadFlag
    | DirectWrite(accepted: nat)
    | DirectAgain                         // EAGAIN
    | HandOver
    // the sender thread; a write that fails with EAGAIN changes nothing
    | Acquire
    | WriteChunk(drained: Con, taken: nat)
    | DropEmpty(emptied: Con)
    | ClearFlag
    | Release

  function Get<T>(m: map<Con, seq<T>>, con: Con): seq<T> { if con in m then m[con] else [] }

  /** The effect of a step, or None when it cannot be taken now. */
  function Apply(s: State, step: Step): Option<State> {
    match step
    case Submit(con, data) =>
      if s.caller.Idle?
      then Some(s.(caller := Deciding(con, data), submitted := s.submitted[con := Get(s.submitted, con) + data]))
      else None
    case ReadFlag =>
      if s.caller.Deciding?
      then Some(s.(caller := if s.sending then Deferring(s.caller.con, s.caller.data)
                             else Direct(s.caller.con, s.caller.data)))
      else None
    case DirectWrite(accepted) =>
      if s.caller.Direct? && accepted <= |s.caller.data| then
        var con, data := s.caller.con, s.caller.data;
        Some(s.(delivered := s.delivered[con := Get(s.delivered, con) + data[..accepted]],
                caller := if accepted == |data| then Idle else Deferring(con, data[accepted..])))
      else None
    case DirectAgain =>
      if s.caller.Direct? then Some(s.(caller := Deferring(s.caller.con, s.caller.data))) else None
    case HandOver =>
      if s.caller.Deferring? && !s.locked then
        var con := s.caller.con;
        Some(s.(sending := true, caller := Idle, pending := Enqueued(s.pending, con, s.caller.data, s.pipeBuf)))
      else None
    case Acquire => if !s.locked then Some(s.(locked := true)) else None
    case WriteChunk(con, taken) =>
      if s.locked && con in s.pending && s.pending[con] != [] && taken <= |s.pending[con][0]| then
        var chunk := s.pending[con][0];
        Some(s.(delivered := s.delivered[con := Get(s.delivered, con) + chunk[..taken]],
                pending := s.pending[con := AfterWrite(s.pending[con], taken)]))
      else None
    case DropEmpty(con) =>
      if s.locked && con in s.pending && s.pending[con] == [] then Some(s.(pending := s.pending - {con})) else None
    case ClearFlag =>
      if s.locked && s.pending == map[] then Some(s.(sending := false)) else None
    case Release => if s.locked then Some(s.(locked := false)) else None
  }

  /** DeferredSender.send on the table of pending chunks. */
  function Enqueued(pending: map<Con, seq<seq<Byte>>>, con: Con, data: seq<Byte>, size: Size)
    : map<Con, seq<seq<Byte>>>
  {
    pending[con := Get(pending, con) + Slices(data, size)]
  }

  /** The list of chunks after its first one was accepted in whole or in part. */
  function AfterWrite(chunks: seq<seq<Byte>>, taken: nat): seq<seq<Byte>>
    requires chunks != [] && taken <= |chunks[0]|
  {
    if taken == |chunks[0]| then chunks[1..] else chunks[0 := chunks[0][taken..]]
  }

  function Initial(pipeBuf: Size): State { State(pipeBuf, map[], map[], map[], false, Idle, false) }

  /** The state after a run of steps, or None when one of them cannot be taken. */
  function Run(s: State, steps: seq<Step>): Option<State>
    decreases |steps|
  {
    if steps == [] then Some(s)
    else match Apply(s, steps[0])
      case None => None
      case Some(t) => Run(t, steps[1..])
  }

  // ---------------------------------------------------------------- the invariant

  /** Bytes of a connection the caller still has in hand. */
  function InHand(caller: Caller, con: Con): seq<Byte> {
    if !caller.Idle? && caller.con == con then caller.data else []
  }

  ghost predicate InOrderAt(s: State, con: Con) {
    Get(s.submitted, con) == Get(s.delivered, con) + Flatten(Get(s.pending, con)) + InHand(s.caller, con)
  }

  /** Nothing is pending unless the flag is set; a caller that has read a clear flag still
      finds it clear; and every connection's bytes are in order. */
  ghost predicate Inv(s: State) {
    && (!s.sending ==> s.pending == map[])
    && (s.caller.Direct? ==> !s.sending)
    && forall con {:trigger InOrderAt(s, con)} :: InOrderAt(s, con)
  }

  lemma EnqueueAppends(pending: map<Con, seq<seq<Byte>>>, con: Con, data: seq<Byte>, size: Size)
    ensures Flatten(Get(Enqueued(pending, con, data, size), con)) == Flatten(Get(pending, con)) + data
  {
    SlicesAreTheData(data, size);
    FlattenAppend(Get(pending, con), Slices(data, size));
  }

  lemma WriteTakesFromFront(chunks: seq<seq<Byte>>, taken: nat)
    requires chunks != [] && taken <= |chunks[0]|
    ensures Flatten(chunks) == chunks[0][..taken] + Flatten(AfterWrite(chunks, taken))
  {
  }

  lemma SubmitKeepsOrder(s: State, c: Con, data: seq<Byte>, con: Con)
    requires Inv(s) && Apply(s, Submit(c, data)).Some?
    ensures InOrderAt(Apply(s, Submit(c, data)).value, con)
  {
    assert InOrderAt(s, con);
    var done := Get(s.delivered, con) + Flatten(Get(s.pending, con));
    assert done + [] == done;
  }

  lemma HandOverKeepsOrder(s: State, con: Con)
    requires Inv(s) && Apply(s, HandOver).Some?
    ensures InOrderAt(Apply(s, HandOver).value, con)
  {
    assert InOrderAt(s, con);
    var data := s.caller.data;
    EnqueueAppends(s.pending, s.caller.con, data, s.pipeBuf);
    if con == s.caller.con {
      Regroup(Get(s.delivered, con), Flatten(Get(s.pending, con)), data);
    }
  }

  lemma WriteChunkKeepsOrder(s: State, c: Con, taken: nat, con: Con)
    requires Inv(s) && Apply(s, WriteChunk(c, taken)).Some?
    ensures InOrderAt(Apply(s, WriteChunk(c, taken)).value, con)
  {
    assert InOrderAt(s, con);
    if con == c {
      var chunks := s.pending[c];
      WriteTakesFromFront(chunks, taken);
      Regroup(Get(s.delivered, c), chunks[0][..taken], Flatten(AfterWrite(chunks, taken)));
    }
  }

  /** Nothing is pending for any connection here, so what is written goes out in its turn. */
  lemma DirectWriteKeepsOrder(s: State, accepted: nat, con: Con)
    requires Inv(s) && Apply(s, DirectWrite(accepted)).Some?
    ensures InOrderAt(Apply(s, DirectWrite(accepted)).value, con)
  {
    assert InOrderAt(s, con);
    assert Get(s.pending, con) == [];
    if con == s.caller.con {
      var data := s.caller.data;
      assert data == data[..accepted] + data[accepted..];
      Regroup(Get(s.delivered, con), data[..accepted], data[accepted..]);
    }
  }

  lemma StepKeepsOrder(s: State, step: Step, con: Con)
    requires Inv(s) && Apply(s, step).Some?
    ensures InOrderAt(Apply(s, step).value, con)
  {
    match step
    case HandOver => HandOverKeepsOrder(s, con);
    case WriteChunk(c, taken) => WriteChunkKeepsOrder(s, c, taken, con);
    case DirectWrite(accepted) => DirectWriteKeepsOrder(s, accepted, con);
    case Submit(c, data) => SubmitKeepsOrder(s, c, data, con);
    case _ => assert InOrderAt(s, con);
  }

  lemma StepKeepsInv(s: State, step: Step)
    requires Inv(s) && Apply(s, step).Some?
    ensures Inv(Apply(s, step).value)
  {
    var t := Apply(s, step).value;
    forall con ensures InOrderAt(t, con) { StepKeepsOrder(s, step, con); }
  }

  lemma InitialInv(pipeBuf: Size)
    ensures Inv(Initial(pipeBuf))
  {
  }

  /** In every run of the caller and the sender thread, with any partial writes: what a
      socket has accepted, what is pending for it, and what the caller still holds are, in this
      order, exactly what was submitted. */
  lemma {:induction false} BytesStayInOrder(s: State, steps: seq<Step>, t: State, con: Con)
    requires Inv(s) && Run(s, steps) == Some(t)
    ensures Inv(t)
    ensures Get(t.submitted, con) == Get(t.delivered, con) + Flatten(Get(t.pending, con)) + InHand(t.caller, con)
    decreases |steps|
  {
    if steps == [] {
      assert InOrderAt(t, con);
    } else {
      StepKeepsInv(s, steps[0]);
      BytesStayInOrder(Apply(s, steps[0]).value, steps[1..], t, con);
    }
  }

  /** Once nothing is pending and the caller is idle, everything was delivered. */
  lemma QuiescentIsDelivered(pipeBuf: Size, steps: seq<Step>, t: State, con: Con)
    requires Run(Initial(pipeBuf), steps) == Some(t) && t.caller.Idle? && con !in t.pending
    ensures Get(t.delivered, con) == Get(t.submitted, con)
  {
    InitialInv(pipeBuf);
    BytesStayInOrder(Initial(pipeBuf), steps, t, con);
    assert Flatten<Byte>([]) == [];
  }

  // ---------------------------------------------------------------- draining one connection

  /** A socket's answer to one send: how many bytes it took at most, or EAGAIN. */
  datatype Answer = Took(n: nat) | Again

  /** How much of the first chunk an answer accepts. */
  function Accepted(chunks: seq<seq<Byte>>, answer: Answer): nat
    requires chunks != [] && answer.Took?
  {
    if answer.n < |chunks[0]| then answer.n else |chunks[0]|
  }

  /** The chunks left when the sender thread writes them to a socket that answers so; it
      gives up at the first answer that is short of a whole chunk. */
  function Drained(chunks: seq<seq<Byte>>, answers: seq<Answer>): seq<seq<Byte>>
    decreases |chunks|
  {
    if chunks == [] || answers == [] || answers[0].Again? then chunks
    else if Accepted(chunks, answers[0]) < |chunks[0]| then AfterWrite(chunks, Accepted(chunks, answers[0]))
    else Drained(chunks[1..], answers[1..])
  }

  /** Draining sends from the front, in whole chunks up to the first answer that is short. */
  lemma {:induction false} DrainingSends(chunks: seq<seq<Byte>>, answers: seq<Answer>, n: nat)
    requires n <= |chunks| && n <= |answers|
    requires forall i :: 0 <= i < n ==> answers[i].Took? && answers[i].n >= |chunks[i]|
    ensures n == |chunks| || n == |answers| || answers[n].Again? ==> Drained(chunks, answers) == chunks[n..]
    ensures n < |chunks| && n < |answers| && answers[n].Took? && answers[n].n < |chunks[n]| ==>
      Drained(chunks, answers) == [chunks[n][answers[n].n..]] + chunks[n + 1..]
    decreases n
  {
    if n > 0 {
      DrainingSends(chunks[1..], answers[1..], n - 1);
      assert chunks[1..][n - 1..] == chunks[n..];
      assert n < |chunks| ==> chunks[1..][n..] == chunks[n + 1..];
    } else {
      assert chunks[0..] == chunks;
      if chunks != [] && answers != [] && answers[0].Took? && answers[0].n < |chunks[0]| {
        FirstIsShort(chunks, answers[0].n);
      }
    }
  }

  lemma FirstIsShort(chunks: seq<seq<Byte>>, taken: nat)
    requires chunks != [] && taken < |chunks[0]|
    ensures AfterWrite(chunks, taken) == [chunks[0][taken..]] + chunks[1..]
  {
  }

  function DrainSteps(con: Con, chunks: seq<seq<Byte>>, answers: seq<Answer>): seq<Step>
    decreases |chunks|
  {
    if chunks == [] || answers == [] || answers[0].Again? then []
    else if Accepted(chunks, answers[0]) < |chunks[0]| then [WriteChunk(con, Accepted(chunks, answers[0]))]
    else [WriteChunk(con, |chunks[0]|)] + DrainSteps(con, chunks[1..], answers[1..])
  }

  /** What the thread does to one connection is a run of the protocol's steps. */
  lemma {:induction false} DrainIsARun(s: State, con: Con, answers: seq<Answer>)
    requires s.locked && con in s.pending
    ensures Run(s, DrainSteps(con, s.pending[con], answers)).Some?
    ensures var t := Run(s, DrainSteps(con, s.pending[con], answers)).value;
            t == s.(pending := s.pending[con := Drained(s.pending[con], answers)], delivered := t.delivered)
    decreases |s.pending[con]|
  {
    var chunks := s.pending[con];
    if chunks == [] || answers == [] || answers[0].Again? {
      assert s.pending[con := chunks] == s.pending;
    } else {
      var k := Accepted(chunks, answers[0]);
      var t := Apply(s, WriteChunk(con, k)).value;
      if k == |chunks[0]| {
        DrainIsARun(t, con, answers[1..]);
        assert DrainSteps(con, chunks, answers)[1..] == DrainSteps(con, chunks[1..], answers[1..]);
        var left := Drained(chunks[1..], answers[1..]);
        assert t.pending[con := left] == s.pending[con := left];
      } else {
        assert Run(t, []) == Some(t);
        assert DrainSteps(con, chunks, answers)[1..] == [];
      }
    }
  }

  lemma {:induction false} RunAppend(s: State, a: seq<Step>, b: seq<Step>)
    requires Run(s, a).Some?
    ensures Run(s, a + b) == Run(Run(s, a).value, b)
    decreases |a|
  {
    if a == [] {
      assert a + b == b;
    } else {
      assert (a + b)[1..] == a[1..] + b;
      RunAppend(Apply(s, a[0]).value, a[1..], b);
    }
  }

  /** Whenever the lock is free the thread can take it, drain a connection, and give it back. */
  lemma PassIsARun(s: State, con: Con, answers: seq<Answer>)
    requires !s.locked && con in s.pending
    ensures var t := Run(s, [Acquire] + DrainSteps(con, s.pending[con], answers) + [Release]);
      && t.Some? && !t.value.locked && t.value.sending == s.sending && t.value.caller == s.caller
      && t.value.pending == s.pending[con := Drained(s.pending[con], answers)]
  {
    var inside, steps := s.(locked := true), DrainSteps(con, s.pending[con], answers);
    DrainIsARun(inside, con, answers);
    var done := Run(inside, steps).value;
    assert Run(s, [Acquire] + steps) == Some(done) by { assert ([Acquire] + steps)[1..] == steps; }
    RunAppend(s, [Acquire] + steps, [Release]);
    RunOne(done, Release);
  }

  lemma RunOne(s: State, step: Step)
    ensures Run(s, [step]) == Apply(s, step)
  {
    assert [step][1..] == [];
  }

  /** What a call of send does when the flag is clear and the socket takes that much: nothing is
      left, or the rest is handed over once the lock is free. */
  lemma SendIsARun(s: State, con: Con, data: seq<Byte>, accepted: nat)
    requires s.caller.Idle? && !s.sending && !s.locked && accepted <= |data|
    ensures var steps := [Submit(con, data), ReadFlag, DirectWrite(accepted)];
      var t := Run(s, if accepted == |data| then steps else steps + [HandOver]);
      && t.Some? && t.value.caller.Idle? && t.value.sending == (accepted < |data|)
      && Get(t.value.submitted, con) == Get(s.submitted, con) + data
      && Get(t.value.delivered, con) == Get(s.delivered, con) + data[..accepted]
      && Flatten(Get(t.value.pending, con)) == Flatten(Get(s.pending, con)) + data[accepted..]
  {
    var steps := [Submit(con, data), ReadFlag, DirectWrite(accepted)];
    assert steps[1..] == [ReadFlag, DirectWrite(accepted)] && steps[1..][1..] == [DirectWrite(accepted)];
    var submitted := Apply(s, Submit(con, data)).value;
    var direct := Apply(submitted, ReadFlag).value;
    var written := Apply(direct, DirectWrite(accepted)).value;
    RunOne(direct, DirectWrite(accepted));
    assert Run(s, steps) == Some(written);
    if accepted < |data| {
      RunAppend(s, steps, [HandOver]);
      RunOne(written, HandOver);
      EnqueueAppends(s.pending, con, data[accepted..], s.pipeBuf);
    }
  }

  // ---------------------------------------------------------------- the object

  class DeferredSender {
    const pipeBuf: Size
    var dataForConnection: map<Con, seq<seq<Byte>>>
    var sending: bool

    predicate Valid()
      reads this
    {
      !sending ==> dataForConnection == map[]
    }

    constructor (pipeBuf: Size)
      ensures Valid() && dataForConnection == map[] && !sending && this.pipeBuf == pipeBuf
    {
      this.pipeBuf, dataForConnection, sending := pipeBuf, map[], false;
    }

    /** _sliceup */
    method Sliceup(all: seq<Byte>) returns (out: seq<seq<Byte>>)
      ensures out == Slices(all, pipeBuf)
    {
      var data := all;
      out := [];
      while |data| > pipeBuf
        invariant out + Slices(data, pipeBuf) == Slices(all, pipeBuf)
        decreases |data|
      {
        Regroup(out, [data[..pipeBuf]], Slices(data[pipeBuf..], pipeBuf));
        out := out + [data[..pipeBuf]];
        data := data[pipeBuf..];
      }
      if |data| > 0 {
        out := out + [data];
      }
    }

    /** send */
    method Send(con: Con, data: seq<Byte>)
      requires Valid()
      modifies this
      ensures Valid() && sending
      ensures dataForConnection == Enqueued(old(dataForConnection), con, data, pipeBuf)
    {
      sending := true;
      var slices := Sliceup(data);
      if con !in dataForConnection {
        assert [] + slices == slices;
        dataForConnection := dataForConnection[con := slices];
      } else {
        dataForConnection := dataForConnection[con := dataForConnection[con] + slices];
      }
    }

    /** What run does for one writable connection. answers are the results of the send calls;
        one that took fewer bytes than offered ends the loop. */
    method Drain(con: Con, answers: seq<Answer>) returns (sent: seq<Byte>)
      requires Valid() && con in dataForConnection
      modifies this
      ensures Valid()
      ensures Get(dataForConnection, con) == Drained(old(dataForConnection)[con], answers)
      ensures Flatten(old(dataForConnection)[con]) == sent + Flatten(Get(dataForConnection, con))
      ensures con in dataForConnection ==> dataForConnection[con] != []
      ensures forall c :: c != con ==> (c in dataForConnection <==> c in old(dataForConnection))
      ensures forall c :: c != con && c in dataForConnection ==> dataForConnection[c] == old(dataForConnection)[c]
      ensures dataForConnection == map[] ==> !sending
    {
      var alldata := dataForConnection[con];
      sent := [];
      var turn := 0;
      while |alldata| > 0
        invariant turn <= |answers|
        invariant Drained(alldata, answers[turn..]) == Drained(old(dataForConnection)[con], answers)
        invariant Flatten(old(dataForConnection)[con]) == sent + Flatten(alldata)
        invariant dataForConnection == old(dataForConnection) && sending == old(sending)
        decreases |alldata|
      {
        if turn >= |answers| || answers[turn].Again? { break; }
        var l := if answers[turn].n < |alldata[0]| then answers[turn].n else |alldata[0]|;
        turn := turn + 1;
        WriteTakesFromFront(alldata, l);
        Regroup(sent, alldata[0][..l], Flatten(AfterWrite(alldata, l)));
        sent := sent + alldata[0][..l];
        if l != |alldata[0]| {
          alldata := alldata[0 := alldata[0][l..]];
          break;
        }
        alldata := alldata[1..];
      }
      dataForConnection := dataForConnection[con := alldata];
      if |alldata| == 0 {
        assert Flatten<Byte>([]) == [];
        dataForConnection := dataForConnection - {con};
        if |dataForConnection| == 0 {
          sending := false;
        }
      }
    }
  }
}
