/** The ARP cache and its request queue (router/sr_arpcache.c, used by router/sr_router.c) as
    values: what each operation does to the entries, to the queue and to a log of what leaves
    the router. Addresses are 32-bit numbers and times whole seconds. */
module ArpQueue {
  import opened Options
  import opened Bytes

  type Ip = nat
  type Mac = seq<Byte>

  const CACHE_SIZE: nat := 100
  const TIMEOUT: int := 15
  const MAX_ASKS: nat := 5

  datatype Packet = Packet(buf: seq<Byte>, iface: string)

  datatype Entry = Entry(mac: Mac, ip: Ip, added: int, valid: bool)

  datatype Req = Req(ip: Ip, sent: int, timesSent: nat, packets: seq<Packet>)

  /** A packet is put on the queue, a request is broadcast, and a request is unlinked with all
      its packets, either because an answer came or because nobody answered. */
  datatype Event =
    | Arrived(ip: Ip, packet: Packet)
    | Asked(ip: Ip, time: int)
    | Closed(ip: Ip, packets: seq<Packet>, answered: bool)

  datatype Cache = Cache(entries: seq<Entry>, requests: seq<Req>, log: seq<Event>)

  // ---------------------------------------------------------------- operations

  /** sr_arpcache_lookup: the last valid entry for the address. */
  function LookupIn(entries: seq<Entry>, ip: Ip): (r: Option<Entry>)
    ensures r.Some? ==> r.value in entries && r.value.valid && r.value.ip == ip
    ensures r.None? ==> forall i :: 0 <= i < |entries| ==> !(entries[i].valid && entries[i].ip == ip)
  {
    if entries == [] then None
    else
      var last := entries[|entries| - 1];
      if last.valid && last.ip == ip then Some(last) else LookupIn(entries[..|entries| - 1], ip)
  }

  /** The first request for the address, or the length of the queue. */
  function FindReq(requests: seq<Req>, ip: Ip): (k: nat)
    ensures k <= |requests|
    ensures k < |requests| ==> requests[k].ip == ip
    ensures forall i :: 0 <= i < k ==> requests[i].ip != ip
  {
    if requests == [] || requests[0].ip == ip then 0 else 1 + FindReq(requests[1..], ip)
  }

  /** The first unused slot, or the length of the table. */
  function FirstFree(entries: seq<Entry>): (k: nat)
    ensures k <= |entries|
    ensures k < |entries| ==> !entries[k].valid
    ensures forall i :: 0 <= i < k ==> entries[i].valid
  {
    if entries == [] || !entries[0].valid then 0 else 1 + FirstFree(entries[1..])
  }

  function Without(requests: seq<Req>, k: nat): seq<Req>
    requires k < |requests|
  {
    requests[..k] + requests[k + 1..]
  }

  /** The queue with a request for the address: a new one goes to the front. */
  function Opened(requests: seq<Req>, ip: Ip): (r: seq<Req>)
    ensures FindReq(r, ip) < |r|
  {
    if FindReq(requests, ip) < |requests| then requests
    else
      var r := [Req(ip, 0, 0, [])] + requests;
      assert r[0].ip == ip;
      r
  }

  function WithPacket(requests: seq<Req>, k: nat, packet: Packet): seq<Req>
    requires k < |requests|
  {
    requests[k := requests[k].(packets := [packet] + requests[k].packets)]
  }

  /** sr_arpcache_queuereq */
  function Queued(c: Cache, ip: Ip, packet: Packet): Cache {
    var requests := Opened(c.requests, ip);
    c.(requests := WithPacket(requests, FindReq(requests, ip), packet), log := c.log + [Arrived(ip, packet)])
  }

  /** The request at k leaves the queue with its packets. */
  function Closing(c: Cache, k: nat, answered: bool): Cache
    requires k < |c.requests|
  {
    c.(requests := Without(c.requests, k), log := c.log + [Closed(c.requests[k].ip, c.requests[k].packets, answered)])
  }

  function WithoutRequest(c: Cache, ip: Ip): Cache {
    var k := FindReq(c.requests, ip);
    if k < |c.requests| then Closing(c, k, true) else c
  }

  function WithEntry(c: Cache, e: Entry): Cache {
    var free := FirstFree(c.entries);
    if free < |c.entries| then c.(entries := c.entries[free := e]) else c
  }

  /** sr_arpcache_insert */
  function Inserted(c: Cache, mac: Mac, ip: Ip, now: int): Cache {
    WithEntry(WithoutRequest(c, ip), Entry(mac, ip, now, true))
  }

  /** The time for a request has come: it was not asked for within the last second. */
  predicate Due(r: Req, now: int) { now - r.sent >= 1 }

  /** Broadcasting the request at k and counting that. */
  function Asking(c: Cache, k: nat, now: int): Cache
    requires k < |c.requests|
  {
    var r := c.requests[k];
    c.(requests := c.requests[k := r.(sent := now, timesSent := r.timesSent + 1)], log := c.log + [Asked(r.ip, now)])
  }

  /** What handle_arpreq does about a request once its tests have decided. */
  function Acted(c: Cache, k: nat, now: int, giveUp: bool): Cache
    requires k < |c.requests|
  {
    if giveUp then Closing(c, k, false) else Asking(c, k, now)
  }

  /** handle_arpreq on the request at position k, undivided as the sweep runs it under the lock */
  function Handled(c: Cache, k: nat, now: int): Cache
    requires k < |c.requests|
  {
    var r := c.requests[k];
    if Due(r, now) then Acted(c, k, now, r.timesSent >= MAX_ASKS) else c
  }

  /** Where the request after the one at k is once that one was handled. */
  function NextPosition(c: Cache, k: nat, now: int): (next: nat)
    requires k < |c.requests|
    ensures next <= |Handled(c, k, now).requests|
    ensures |Handled(c, k, now).requests| - next < |c.requests| - k
  {
    if |Handled(c, k, now).requests| < |c.requests| then k else k + 1
  }

  /** sr_arpcache_sweepreqs from position k on. */
  function Swept(c: Cache, k: nat, now: int): Cache
    requires k <= |c.requests|
    decreases |c.requests| - k
  {
    if k == |c.requests| then c
    else
      Swept(Handled(c, k, now), NextPosition(c, k, now), now)
  }

  function Aged(e: Entry, now: int): Entry {
    if e.valid && now - e.added > TIMEOUT then e.(valid := false) else e
  }

  function AllAged(entries: seq<Entry>, now: int): (r: seq<Entry>)
    ensures |r| == |entries|
    ensures forall i :: 0 <= i < |r| ==> r[i] == Aged(entries[i], now)
  {
    seq(|entries|, i requires 0 <= i < |entries| => Aged(entries[i], now))
  }

  /** One turn of sr_arpcache_timeout. */
  function TimedOut(c: Cache, now: int): Cache {
    Swept(c.(entries := AllAged(c.entries, now)), 0, now)
  }

  // ---------------------------------------------------------------- what the log says

  /** The packets that arrived for an address since its last request was unlinked, newest first. */
  function Waiting(log: seq<Event>, ip: Ip): seq<Packet> {
    if log == [] then [] else WaitingAfter(Waiting(log[..|log| - 1], ip), log[|log| - 1], ip)
  }

  function WaitingAfter(before: seq<Packet>, e: Event, ip: Ip): seq<Packet> {
    if e.ip != ip || e.Asked? then before else if e.Arrived? then [e.packet] + before else []
  }

  /** The times at which an address was asked for since its last request was unlinked. */
  function Asks(log: seq<Event>, ip: Ip): seq<int> {
    if log == [] then [] else AsksAfter(Asks(log[..|log| - 1], ip), log[|log| - 1], ip)
  }

  function AsksAfter(before: seq<int>, e: Event, ip: Ip): seq<int> {
    if e.ip != ip || e.Arrived? then before else if e.Asked? then before + [e.time] else []
  }

  ghost predicate OneSecondApart(times: seq<int>) {
    forall i :: 0 < i < |times| ==> times[i] - times[i - 1] >= 1
  }

  /** Whenever a request is unlinked, exactly the packets waiting for its address leave with it,
      none of them twice and none of them lost. */
  ghost predicate NothingLost(log: seq<Event>) {
    forall i {:trigger log[i]} :: 0 <= i < |log| && log[i].Closed? ==>
      log[i].packets == Waiting(log[..i], log[i].ip) && log[i].packets != []
  }

  /** At no moment had an address been asked for more than five times, or twice within a second,
      since its last request was unlinked. */
  ghost predicate AskedPolitely(log: seq<Event>) {
    forall i, ip {:trigger Asks(log[..i], ip)} :: 0 <= i <= |log| ==>
      |Asks(log[..i], ip)| <= MAX_ASKS && OneSecondApart(Asks(log[..i], ip))
  }

  /** Nobody is given up on before five requests were sent. */
  ghost predicate GivesUpLate(log: seq<Event>) {
    forall i {:trigger log[i]} :: 0 <= i < |log| && log[i].Closed? && !log[i].answered ==>
      |Asks(log[..i], log[i].ip)| >= 5
  }

  // ---------------------------------------------------------------- the invariant

  ghost predicate Mapped(c: Cache, ip: Ip) {
    exists i :: 0 <= i < |c.entries| && c.entries[i].valid && c.entries[i].ip == ip
  }

  ghost predicate OneEntryEach(entries: seq<Entry>) {
    forall i, j :: 0 <= i < j < |entries| && entries[i].valid && entries[j].valid ==> entries[i].ip != entries[j].ip
  }

  ghost predicate OneRequestEach(requests: seq<Req>) {
    forall i, j :: 0 <= i < j < |requests| ==> requests[i].ip != requests[j].ip
  }

  /** The request's list and counters are what the log says. */
  ghost predicate Recorded(r: Req, log: seq<Event>) {
    && r.packets == Waiting(log, r.ip)
    && r.packets != []
    && r.timesSent == |Asks(log, r.ip)|
    && (r.timesSent > 0 ==> r.sent == Asks(log, r.ip)[r.timesSent - 1])
  }

  ghost predicate Quiet(log: seq<Event>, ip: Ip) {
    Waiting(log, ip) == [] && Asks(log, ip) == []
  }

  ghost predicate AllRecorded(c: Cache) {
    forall i {:trigger c.requests[i]} :: 0 <= i < |c.requests| ==>
      Recorded(c.requests[i], c.log) && !Mapped(c, c.requests[i].ip)
  }

  ghost predicate QuietElsewhere(c: Cache) {
    forall ip {:trigger FindReq(c.requests, ip)} :: FindReq(c.requests, ip) == |c.requests| ==> Quiet(c.log, ip)
  }

  ghost predicate Inv(c: Cache) {
    && OneEntryEach(c.entries)
    && OneRequestEach(c.requests)
    && AllRecorded(c)
    && QuietElsewhere(c)
    && NothingLost(c.log)
    && GivesUpLate(c.log)
  }

  // ---------------------------------------------------------------- every operation keeps it

  /** An event changes what is recorded for its own address only. */
  lemma OneMoreEvent(log: seq<Event>, e: Event, ip: Ip)
    ensures Waiting(log + [e], ip) == WaitingAfter(Waiting(log, ip), e, ip)
    ensures Asks(log + [e], ip) == AsksAfter(Asks(log, ip), e, ip)
  {
  }

  lemma NothingLostGrows(log: seq<Event>, e: Event)
    requires NothingLost(log)
    requires e.Closed? ==> e.packets == Waiting(log, e.ip) && e.packets != []
    ensures NothingLost(log + [e])
  {
    var grown := log + [e];
    forall i | 0 <= i < |grown| && grown[i].Closed?
      ensures grown[i].packets == Waiting(grown[..i], grown[i].ip) && grown[i].packets != []
    {
      assert grown[..i] == log[..i];
      assert log[..|log|] == log;
    }
  }

  lemma GivesUpLateGrows(log: seq<Event>, e: Event)
    requires GivesUpLate(log)
    requires e.Closed? && !e.answered ==> |Asks(log, e.ip)| >= 5
    ensures GivesUpLate(log + [e])
  {
    var grown := log + [e];
    forall i | 0 <= i < |grown| && grown[i].Closed? && !grown[i].answered
      ensures |Asks(grown[..i], grown[i].ip)| >= 5
    {
      assert grown[..i] == log[..i];
      assert log[..|log|] == log;
    }
  }

  /** The requests with position k left out or exchanged for one of the same address. */
  lemma FindWithout(requests: seq<Req>, k: nat, ip: Ip)
    requires k < |requests| && requests[k].ip != ip
    ensures FindReq(Without(requests, k), ip) == |Without(requests, k)| ==> FindReq(requests, ip) == |requests|
  {
    var rest := Without(requests, k);
    if FindReq(rest, ip) == |rest| {
      forall i | 0 <= i < |requests|
        ensures requests[i].ip != ip
      {
        if i != k {
          assert requests[i] == rest[if i < k then i else i - 1];
        }
      }
    }
  }

  lemma FindUpdated(requests: seq<Req>, k: nat, r: Req, ip: Ip)
    requires k < |requests| && requests[k].ip == r.ip
    ensures FindReq(requests[k := r], ip) == FindReq(requests, ip)
  {
    var changed := requests[k := r];
    assert forall i :: 0 <= i < |requests| ==> changed[i].ip == requests[i].ip;
    var x, y := FindReq(changed, ip), FindReq(requests, ip);
    assert x < |requests| ==> requests[x].ip == ip;
    assert y < |requests| ==> changed[y].ip == ip;
  }

  lemma GoneFromRest(requests: seq<Req>, k: nat)
    requires OneRequestEach(requests) && k < |requests|
    ensures OneRequestEach(Without(requests, k))
    ensures FindReq(Without(requests, k), requests[k].ip) == |requests| - 1
  {
    var rest := Without(requests, k);
    forall i | 0 <= i < |rest| ensures rest[i].ip != requests[k].ip {
      assert rest[i] == requests[if i < k then i else i + 1];
    }
  }

  lemma ClosingRecords(c: Cache, k: nat, answered: bool)
    requires OneRequestEach(c.requests) && AllRecorded(c) && k < |c.requests|
    ensures AllRecorded(Closing(c, k, answered))
  {
    var d := Closing(c, k, answered);
    forall i | 0 <= i < |d.requests|
      ensures Recorded(d.requests[i], d.log) && !Mapped(d, d.requests[i].ip)
    {
      var j := if i < k then i else i + 1;
      assert d.requests[i] == c.requests[j] && Recorded(c.requests[j], c.log) && !Mapped(c, c.requests[j].ip);
      OneMoreEvent(c.log, Closed(c.requests[k].ip, c.requests[k].packets, answered), c.requests[j].ip);
    }
  }

  /** Unlinking the request at k and logging it. */
  lemma ClosingKeepsInv(c: Cache, k: nat, answered: bool)
    requires Inv(c) && k < |c.requests| && (answered || c.requests[k].timesSent >= MAX_ASKS)
    ensures Inv(Closing(c, k, answered))
    ensures FindReq(Without(c.requests, k), c.requests[k].ip) == |c.requests| - 1
  {
    var d := Closing(c, k, answered);
    var e := Closed(c.requests[k].ip, c.requests[k].packets, answered);
    ClosingRecords(c, k, answered);
    GoneFromRest(c.requests, k);
    forall ip | FindReq(d.requests, ip) == |d.requests|
      ensures Quiet(d.log, ip)
    {
      OneMoreEvent(c.log, e, ip);
      if ip != e.ip {
        FindWithout(c.requests, k, ip);
        assert Quiet(c.log, ip);
      }
    }
    assert Recorded(c.requests[k], c.log);
    NothingLostGrows(c.log, e);
    GivesUpLateGrows(c.log, e);
  }

  lemma UpdatingRecords(c: Cache, k: nat, r: Req, e: Event)
    requires OneRequestEach(c.requests) && AllRecorded(c)
    requires k < |c.requests| && r.ip == e.ip == c.requests[k].ip && Recorded(r, c.log + [e])
    ensures AllRecorded(c.(requests := c.requests[k := r], log := c.log + [e]))
    ensures OneRequestEach(c.requests[k := r])
  {
  }

  /** Replacing the request at k by one for the same address, with one event for that address. */
  lemma UpdatingKeepsInv(c: Cache, k: nat, r: Req, e: Event)
    requires Inv(c) && k < |c.requests| && r.ip == e.ip == c.requests[k].ip && !e.Closed?
    requires Recorded(r, c.log + [e])
    ensures Inv(c.(requests := c.requests[k := r], log := c.log + [e]))
  {
    UpdatingRecords(c, k, r, e);
    forall ip | FindReq(c.requests[k := r], ip) == |c.requests|
      ensures Quiet(c.log + [e], ip)
    {
      FindUpdated(c.requests, k, r, ip);
      assert Quiet(c.log, ip);
      OneMoreEvent(c.log, e, ip);
    }
    NothingLostGrows(c.log, e);
    GivesUpLateGrows(c.log, e);
  }

  /** Broadcasting, or giving up on a request that was sent often enough. */
  lemma ActingKeepsInv(c: Cache, k: nat, now: int, giveUp: bool)
    requires Inv(c) && k < |c.requests| && (giveUp ==> c.requests[k].timesSent >= MAX_ASKS)
    ensures Inv(Acted(c, k, now, giveUp)) && Acted(c, k, now, giveUp).entries == c.entries
  {
    var r := c.requests[k];
    if giveUp {
      ClosingKeepsInv(c, k, false);
    } else {
      assert Recorded(r, c.log);
      OneMoreEvent(c.log, Asked(r.ip, now), r.ip);
      UpdatingKeepsInv(c, k, r.(sent := now, timesSent := r.timesSent + 1), Asked(r.ip, now));
    }
  }

  lemma HandlingKeepsInv(c: Cache, k: nat, now: int)
    requires Inv(c) && k < |c.requests|
    ensures Inv(Handled(c, k, now)) && Handled(c, k, now).entries == c.entries
  {
    ActingKeepsInv(c, k, now, c.requests[k].timesSent >= MAX_ASKS);
  }

  lemma QueuedFirst(c: Cache, ip: Ip, packet: Packet)
    requires FindReq(c.requests, ip) == |c.requests|
    ensures Queued(c, ip, packet) ==
            c.(requests := [Req(ip, 0, 0, [packet])] + c.requests, log := c.log + [Arrived(ip, packet)])
    ensures FindReq(Queued(c, ip, packet).requests, ip) == 0
  {
    var requests := Opened(c.requests, ip);
    assert requests[0].ip == ip;
    assert [packet] + [] == [packet];
    assert WithPacket(requests, 0, packet) == [Req(ip, 0, 0, [packet])] + c.requests;
  }

  lemma QueueingKeepsInv(c: Cache, ip: Ip, packet: Packet)
    requires Inv(c) && !Mapped(c, ip)
    ensures Inv(Queued(c, ip, packet))
    ensures FindReq(Queued(c, ip, packet).requests, ip) < |Queued(c, ip, packet).requests|
  {
    var k := FindReq(c.requests, ip);
    if k < |c.requests| {
      var r := c.requests[k].(packets := [packet] + c.requests[k].packets);
      assert Recorded(c.requests[k], c.log);
      OneMoreEvent(c.log, Arrived(ip, packet), ip);
      UpdatingKeepsInv(c, k, r, Arrived(ip, packet));
      FindUpdated(c.requests, k, r, ip);
    } else {
      NewRequestKeepsInv(c, ip, packet);
      QueuedFirst(c, ip, packet);
    }
  }

  lemma NewRequestRecords(c: Cache, ip: Ip, packet: Packet)
    requires OneRequestEach(c.requests) && AllRecorded(c) && Quiet(c.log, ip)
    requires !Mapped(c, ip) && FindReq(c.requests, ip) == |c.requests|
    ensures AllRecorded(c.(requests := [Req(ip, 0, 0, [packet])] + c.requests, log := c.log + [Arrived(ip, packet)]))
    ensures OneRequestEach([Req(ip, 0, 0, [packet])] + c.requests)
  {
  }

  lemma NewRequestKeepsInv(c: Cache, ip: Ip, packet: Packet)
    requires Inv(c) && !Mapped(c, ip) && FindReq(c.requests, ip) == |c.requests|
    ensures Inv(c.(requests := [Req(ip, 0, 0, [packet])] + c.requests, log := c.log + [Arrived(ip, packet)]))
  {
    var e := Arrived(ip, packet);
    var requests := [Req(ip, 0, 0, [packet])] + c.requests;
    NewRequestRecords(c, ip, packet);
    forall other | FindReq(requests, other) == |requests|
      ensures Quiet(c.log + [e], other)
    {
      assert requests[1..] == c.requests && requests[0].ip != other;
      assert FindReq(requests, other) == 1 + FindReq(requests[1..], other);
      assert Quiet(c.log, other);
      OneMoreEvent(c.log, e, other);
    }
    OneMoreEvent(c.log, e, ip);
    NothingLostGrows(c.log, e);
    GivesUpLateGrows(c.log, e);
  }

  lemma MappingKeepsInv(c: Cache, mac: Mac, ip: Ip, now: int, free: nat)
    requires Inv(c) && !Mapped(c, ip) && FindReq(c.requests, ip) == |c.requests|
    requires free < |c.entries| && !c.entries[free].valid
    ensures Inv(c.(entries := c.entries[free := Entry(mac, ip, now, true)]))
  {
  }

  /** An answer for an address without an entry: its request goes, its entry comes if a slot is
      free, and nothing else is there for it. */
  lemma InsertingKeepsInv(c: Cache, mac: Mac, ip: Ip, now: int)
    requires Inv(c) && !Mapped(c, ip)
    ensures Inv(Inserted(c, mac, ip, now))
  {
    var k := FindReq(c.requests, ip);
    var free := FirstFree(c.entries);
    var d := WithoutRequest(c, ip);
    if k < |c.requests| {
      ClosingKeepsInv(c, k, true);
      assert !Mapped(d, ip);
    }
    if free < |c.entries| {
      MappingKeepsInv(d, mac, ip, now, free);
    }
  }

  lemma {:induction false} SweepingKeepsInv(c: Cache, k: nat, now: int)
    requires Inv(c) && k <= |c.requests|
    ensures Inv(Swept(c, k, now)) && Swept(c, k, now).entries == c.entries
    decreases |c.requests| - k
  {
    if k < |c.requests| {
      HandlingKeepsInv(c, k, now);
      SweepingKeepsInv(Handled(c, k, now), NextPosition(c, k, now), now);
    }
  }

  lemma AgeingKeepsInv(c: Cache, now: int)
    requires Inv(c)
    ensures Inv(c.(entries := AllAged(c.entries, now)))
    ensures forall ip :: Mapped(c.(entries := AllAged(c.entries, now)), ip) ==> Mapped(c, ip)
  {
    var d := c.(entries := AllAged(c.entries, now));
    forall ip | Mapped(d, ip) ensures Mapped(c, ip) {
      var j :| 0 <= j < |d.entries| && d.entries[j].valid && d.entries[j].ip == ip;
      assert c.entries[j].valid && c.entries[j].ip == ip;
    }
  }

  lemma TimingOutKeepsInv(c: Cache, now: int)
    requires Inv(c)
    ensures Inv(TimedOut(c, now))
    ensures forall ip :: Mapped(TimedOut(c, now), ip) ==> Mapped(c, ip)
  {
    AgeingKeepsInv(c, now);
    SweepingKeepsInv(c.(entries := AllAged(c.entries, now)), 0, now);
  }

  // ---------------------------------------------------------------- one address through a sweep

  function ReqOf(requests: seq<Req>, ip: Ip): Option<Req> {
    var k := FindReq(requests, ip);
    if k < |requests| then Some(requests[k]) else None
  }

  /** What handling makes of a request; one that was asked for often enough goes. */
  function HandledReq(r: Req, now: int): Option<Req> {
    if !Due(r, now) then Some(r)
    else if r.timesSent >= MAX_ASKS then None
    else Some(r.(sent := now, timesSent := r.timesSent + 1))
  }

  lemma FindIsUnique(requests: seq<Req>, k: nat)
    requires OneRequestEach(requests) && k < |requests|
    ensures FindReq(requests, requests[k].ip) == k
  {
  }

  lemma HandlingOne(c: Cache, k: nat, now: int)
    requires OneRequestEach(c.requests) && k < |c.requests|
    ensures OneRequestEach(Handled(c, k, now).requests)
    ensures ReqOf(Handled(c, k, now).requests, c.requests[k].ip) == HandledReq(c.requests[k], now)
  {
    var r := c.requests[k];
    FindIsUnique(c.requests, k);
    if r.timesSent < MAX_ASKS {
      FindUpdated(c.requests, k, r.(sent := now, timesSent := r.timesSent + 1), r.ip);
    } else {
      GoneFromRest(c.requests, k);
    }
  }

  /** Handling the request at k leaves a later one where the sweep goes on, and an earlier one
      behind it. */
  lemma HandlingOther(c: Cache, k: nat, now: int, j: nat)
    requires OneRequestEach(c.requests) && k < |c.requests| && j < |c.requests| && j != k
    ensures var j' := if j > k && |Handled(c, k, now).requests| < |c.requests| then j - 1 else j;
      && j' < |Handled(c, k, now).requests| && Handled(c, k, now).requests[j'] == c.requests[j]
      && (j' >= NextPosition(c, k, now) <==> j > k)
  {
  }

  /** A sweep handles every request from k on once and leaves the others alone. */
  lemma {:induction false} SweepingOne(c: Cache, k: nat, now: int, j: nat)
    requires OneRequestEach(c.requests) && k <= |c.requests| && j < |c.requests|
    ensures OneRequestEach(Swept(c, k, now).requests)
    ensures ReqOf(Swept(c, k, now).requests, c.requests[j].ip)
      == if j >= k then HandledReq(c.requests[j], now) else Some(c.requests[j])
    decreases |c.requests| - k
  {
    if k == |c.requests| {
      FindIsUnique(c.requests, j);
    } else {
      var next := Handled(c, k, now);
      HandlingOne(c, k, now);
      if j != k {
        HandlingOther(c, k, now, j);
        SweepingOne(next, NextPosition(c, k, now), now,
                    if j > k && |next.requests| < |c.requests| then j - 1 else j);
      } else if HandledReq(c.requests[k], now).Some? {
        FindIsUnique(next.requests, k);
        SweepingOne(next, NextPosition(c, k, now), now, k);
      } else {
        SweepingNone(next, NextPosition(c, k, now), now, c.requests[k].ip);
      }
    }
  }

  lemma {:induction false} SweepingNone(c: Cache, k: nat, now: int, ip: Ip)
    requires OneRequestEach(c.requests) && k <= |c.requests| && ReqOf(c.requests, ip).None?
    ensures OneRequestEach(Swept(c, k, now).requests) && ReqOf(Swept(c, k, now).requests, ip).None?
    decreases |c.requests| - k
  {
    if k < |c.requests| {
      var next := Handled(c, k, now);
      HandlingOne(c, k, now);
      forall i | 0 <= i < |next.requests| ensures next.requests[i].ip != ip {
        assert next.requests[i].ip == c.requests[if i < k || |next.requests| == |c.requests| then i else i + 1].ip;
      }
      SweepingNone(next, NextPosition(c, k, now), now, ip);
    }
  }

  /** One turn of the timeout thread: a request goes exactly when it is due and was sent as often
      as it may be. */
  lemma TimeoutOne(c: Cache, now: int, ip: Ip)
    requires OneRequestEach(c.requests)
    ensures OneRequestEach(TimedOut(c, now).requests)
    ensures ReqOf(TimedOut(c, now).requests, ip)
      == if ReqOf(c.requests, ip).Some? then HandledReq(ReqOf(c.requests, ip).value, now) else None
  {
    var d := c.(entries := AllAged(c.entries, now));
    var k := FindReq(c.requests, ip);
    if k < |c.requests| {
      SweepingOne(d, 0, now, k);
    } else {
      SweepingNone(d, 0, now, ip);
    }
  }

  // ---------------------------------------------------------------- what queuing does

  /** The packet waits in front of those for its address, in a request that is new if there was
      none; other requests and the entries stay as they were. */
  lemma QueuedExactly(c: Cache, ip: Ip, packet: Packet, other: Ip)
    ensures var q := Queued(c, ip, packet);
      && q.entries == c.entries && q.log == c.log + [Arrived(ip, packet)]
      && ReqOf(q.requests, ip) == Some(match ReqOf(c.requests, ip)
           case None => Req(ip, 0, 0, [packet])
           case Some(r) => Req(ip, r.sent, r.timesSent, [packet] + r.packets))
      && (other != ip ==> ReqOf(q.requests, other) == ReqOf(c.requests, other))
  {
    var requests := Opened(c.requests, ip);
    var k := FindReq(requests, ip);
    var r := requests[k].(packets := [packet] + requests[k].packets);
    FindUpdated(requests, k, r, ip);
    FindUpdated(requests, k, r, other);
    if FindReq(c.requests, ip) == |c.requests| {
      QueuedFirst(c, ip, packet);
      assert requests[1..] == c.requests && [packet] + [] == [packet];
    }
  }

  // ---------------------------------------------------------------- what an answer does

  /** Without an entry for the address before, an inserted answer is found if a slot was free, and
      what is found for other addresses does not change. */
  lemma AnswerIsFound(c: Cache, mac: Mac, ip: Ip, now: int, other: Ip)
    requires LookupIn(c.entries, ip).None?
    ensures var found := LookupIn(Inserted(c, mac, ip, now).entries, ip);
      if SlotIsFree(c.entries) then found == Some(Entry(mac, ip, now, true)) else found.None?
    ensures other != ip ==> LookupIn(Inserted(c, mac, ip, now).entries, other) == LookupIn(c.entries, other)
  {
    var free, e := FirstFree(c.entries), Entry(mac, ip, now, true);
    assert WithoutRequest(c, ip).entries == c.entries;
    if free < |c.entries| {
      StoredIsFound(c.entries, free, e);
      if other != ip { OthersAreFound(c.entries, free, e, other); }
    }
  }

  ghost predicate SlotIsFree(entries: seq<Entry>) {
    exists i :: 0 <= i < |entries| && !entries[i].valid
  }

  lemma {:induction false} StoredIsFound(entries: seq<Entry>, k: nat, e: Entry)
    requires k < |entries| && e.valid && LookupIn(entries, e.ip).None?
    ensures LookupIn(entries[k := e], e.ip) == Some(e)
  {
    var stored, found := entries[k := e], LookupIn(entries[k := e], e.ip);
    assert stored[k] == e;
    if found.Some? {
      var i :| 0 <= i < |stored| && stored[i] == found.value;
    }
  }

  lemma {:induction false} OthersAreFound(entries: seq<Entry>, k: nat, e: Entry, other: Ip)
    requires k < |entries| && !entries[k].valid && e.ip != other
    ensures LookupIn(entries[k := e], other) == LookupIn(entries, other)
    decreases |entries|
  {
    var n := |entries| - 1;
    if k < n {
      OthersAreFound(entries[..n], k, e, other);
      assert entries[k := e][..n] == entries[..n][k := e];
    } else {
      assert entries[k := e][..n] == entries[..n];
    }
  }

  /** The request of the address goes, with its packets on record as answered; the others stay. */
  lemma AnswerClosesRequest(c: Cache, mac: Mac, ip: Ip, now: int, other: Ip)
    requires OneRequestEach(c.requests)
    ensures ReqOf(Inserted(c, mac, ip, now).requests, ip).None?
    ensures other != ip ==> ReqOf(Inserted(c, mac, ip, now).requests, other) == ReqOf(c.requests, other)
    ensures Inserted(c, mac, ip, now).log == c.log +
      match ReqOf(c.requests, ip) case None => [] case Some(r) => [Closed(ip, r.packets, true)]
  {
    var k := FindReq(c.requests, ip);
    if k < |c.requests| {
      GoneFromRest(c.requests, k);
      if other != ip { FindAmongRest(c.requests, k, other); }
    }
  }

  lemma FindAmongRest(requests: seq<Req>, k: nat, ip: Ip)
    requires OneRequestEach(requests) && k < |requests| && requests[k].ip != ip
    ensures ReqOf(Without(requests, k), ip) == ReqOf(requests, ip)
  {
    var rest, j := Without(requests, k), FindReq(requests, ip);
    FindWithout(requests, k, ip);
    if j < |requests| {
      assert rest[if j < k then j else j - 1] == requests[j];
      FindIsUnique(rest, if j < k then j else j - 1);
    }
  }

  // ---------------------------------------------------------------- asking politely

  lemma AskedPolitelyGrows(log: seq<Event>, e: Event)
    requires AskedPolitely(log)
    requires |Asks(log + [e], e.ip)| <= MAX_ASKS && OneSecondApart(Asks(log + [e], e.ip))
    ensures AskedPolitely(log + [e])
  {
    var grown := log + [e];
    forall i, ip | 0 <= i <= |grown|
      ensures |Asks(grown[..i], ip)| <= MAX_ASKS && OneSecondApart(Asks(grown[..i], ip))
    {
      if i <= |log| {
        assert grown[..i] == log[..i];
      } else {
        assert grown[..i] == grown;
        OneMoreEvent(log, e, ip);
        assert log[..|log|] == log;
      }
    }
  }

  lemma PoliteNow(log: seq<Event>, ip: Ip)
    requires AskedPolitely(log)
    ensures |Asks(log, ip)| <= MAX_ASKS && OneSecondApart(Asks(log, ip))
  {
    assert log[..|log|] == log;
  }

  /** Asking for the request now is neither a sixth time nor within a second of the last. */
  predicate MayAsk(r: Req, now: int) { r.timesSent < MAX_ASKS && (r.timesSent > 0 ==> Due(r, now)) }

  lemma OneMoreTime(times: seq<int>, now: int)
    requires OneSecondApart(times)
    ensures OneSecondApart(times + [now]) <==> times == [] || now - times[|times| - 1] >= 1
  {
    var n, more := |times|, times + [now];
    assert more[n] == now && (n > 0 ==> more[n - 1] == times[n - 1]);
  }

  lemma AskingPolitely(c: Cache, k: nat, now: int)
    requires Inv(c) && AskedPolitely(c.log) && k < |c.requests|
    ensures AskedPolitely(Asking(c, k, now).log) <==> MayAsk(c.requests[k], now)
  {
    var r := c.requests[k];
    var e := Asked(r.ip, now);
    assert Recorded(r, c.log);
    OneMoreEvent(c.log, e, r.ip);
    PoliteNow(c.log, r.ip);
    OneMoreTime(Asks(c.log, r.ip), now);
    if MayAsk(r, now) {
      AskedPolitelyGrows(c.log, e);
    }
    if AskedPolitely(c.log + [e]) {
      PoliteNow(c.log + [e], r.ip);
    }
  }

  /** A packet that is queued and a request that is unlinked are no reason for complaint. */
  lemma OtherEventsArePolite(log: seq<Event>, e: Event)
    requires AskedPolitely(log) && !e.Asked?
    ensures AskedPolitely(log + [e])
  {
    OneMoreEvent(log, e, e.ip);
    PoliteNow(log, e.ip);
    AskedPolitelyGrows(log, e);
  }

  lemma ActingPolitely(c: Cache, k: nat, now: int, giveUp: bool)
    requires Inv(c) && AskedPolitely(c.log) && k < |c.requests|
    ensures AskedPolitely(Acted(c, k, now, giveUp).log) <==> giveUp || MayAsk(c.requests[k], now)
  {
    if giveUp {
      OtherEventsArePolite(c.log, Closed(c.requests[k].ip, c.requests[k].packets, false));
    } else {
      AskingPolitely(c, k, now);
    }
  }

  lemma {:induction false} SweepingPolitely(c: Cache, k: nat, now: int)
    requires Inv(c) && AskedPolitely(c.log) && k <= |c.requests|
    ensures AskedPolitely(Swept(c, k, now).log)
    decreases |c.requests| - k
  {
    if k < |c.requests| {
      HandlingKeepsInv(c, k, now);
      ActingPolitely(c, k, now, c.requests[k].timesSent >= MAX_ASKS);
      SweepingPolitely(Handled(c, k, now), NextPosition(c, k, now), now);
    }
  }

  lemma TimingOutPolitely(c: Cache, now: int)
    requires Inv(c) && AskedPolitely(c.log)
    ensures AskedPolitely(TimedOut(c, now).log)
  {
    AgeingKeepsInv(c, now);
    SweepingPolitely(c.(entries := AllAged(c.entries, now)), 0, now);
  }

  // ---------------------------------------------------------------- the two threads

  /** Where the thread that handles packets is: between its look-up and what it does about a
      miss, between queuing and testing the request it was given, or between the tests and what
      they decided. It holds no lock there, so the timeout thread may run at all of these
      places. */
  datatype Main =
    | Idle
    | ToQueue(qip: Ip, packet: Packet)
    | ToTest(tip: Ip)
    | ToAct(aip: Ip, tested: int, giveUp: bool)
    | ToInsert(mac: Mac, iip: Ip)

  /** dangling: the main thread used a request that had been freed; what happens then is not
      defined, and nothing more is said about the run. */
  datatype Router = Router(cache: Cache, main: Main, dangling: bool)

  datatype Step =
    | Forward(ip: Ip, packet: Packet)
    | Queue
    | Test(now: int)
    | Act
    | Reply(mac: Mac, ip: Ip)
    | Insert(now: int)
    | Timeout(now: int)

  const UNUSED := Entry([], 0, 0, false)
  const EMPTY := Cache(seq(CACHE_SIZE, i => UNUSED), [], [])
  const INITIAL := Router(EMPTY, Idle, false)

  /** The tests of handle_arpreq on the request of the address. */
  function Tested(r: Router, ip: Ip, now: int): Router {
    match ReqOf(r.cache.requests, ip)
    case None => r.(main := Idle, dangling := true)
    case Some(q) => r.(main := if Due(q, now) then ToAct(ip, now, q.timesSent >= MAX_ASKS) else Idle)
  }

  /** What it then does; the tests are not repeated. */
  function ActedOn(r: Router, ip: Ip, now: int, giveUp: bool): Router {
    var k := FindReq(r.cache.requests, ip);
    if k < |r.cache.requests| then Router(Acted(r.cache, k, now, giveUp), Idle, r.dangling)
    else r.(main := Idle, dangling := true)
  }

  /** The effect of a step; one that cannot be taken now changes nothing. */
  function Apply(r: Router, step: Step): Router {
    if r.dangling then r
    else
      match step
      case Forward(ip, packet) =>
        if r.main.Idle? && LookupIn(r.cache.entries, ip).None? then r.(main := ToQueue(ip, packet)) else r
      case Queue =>
        if r.main.ToQueue?
        then r.(cache := Queued(r.cache, r.main.qip, r.main.packet), main := ToTest(r.main.qip))
        else r
      case Test(now) => if r.main.ToTest? then Tested(r, r.main.tip, now) else r
      case Act => if r.main.ToAct? then ActedOn(r, r.main.aip, r.main.tested, r.main.giveUp) else r
      case Reply(mac, ip) =>
        if r.main.Idle? && LookupIn(r.cache.entries, ip).None? then r.(main := ToInsert(mac, ip)) else r
      case Insert(now) =>
        if r.main.ToInsert? then r.(cache := Inserted(r.cache, r.main.mac, r.main.iip, now), main := Idle) else r
      case Timeout(now) => r.(cache := TimedOut(r.cache, now))
  }

  function Run(r: Router, steps: seq<Step>): Router
    decreases |steps|
  {
    if steps == [] then r else Run(Apply(r, steps[0]), steps[1..])
  }

  // ---------------------------------------------------------------- every run

  ghost predicate RouterInv(r: Router) {
    && Inv(r.cache)
    && (r.main.ToQueue? ==> !Mapped(r.cache, r.main.qip))
    && (r.main.ToInsert? ==> !Mapped(r.cache, r.main.iip))
    && GivesUpRightly(r)
  }

  /** A decision to give up stays right as long as the request is there. */
  predicate GivesUpRightly(r: Router) {
    r.main.ToAct? && r.main.giveUp ==>
      var q := ReqOf(r.cache.requests, r.main.aip);
      q.Some? ==> q.value.timesSent >= MAX_ASKS
  }

  lemma StepKeepsInv(r: Router, step: Step)
    requires RouterInv(r)
    ensures RouterInv(Apply(r, step))
  {
    match step
    case Queue =>
      if r.main.ToQueue? {
        QueueingKeepsInv(r.cache, r.main.qip, r.main.packet);
      }
    case Act =>
      if r.main.ToAct? {
        var k := FindReq(r.cache.requests, r.main.aip);
        if k < |r.cache.requests| { ActingKeepsInv(r.cache, k, r.main.tested, r.main.giveUp); }
      }
    case Insert(now) =>
      if r.main.ToInsert? {
        InsertingKeepsInv(r.cache, r.main.mac, r.main.iip, now);
      }
    case Timeout(now) =>
      TimingOutKeepsInv(r.cache, now);
      if r.main.ToAct? { TimeoutOne(r.cache, now, r.main.aip); }
    case _ =>
  }

  lemma InitialInv()
    ensures RouterInv(INITIAL) && AskedPolitely(EMPTY.log)
    ensures |EMPTY.entries| == 100 && forall ip :: LookupIn(EMPTY.entries, ip).None?
  {
  }

  /** Over every run of forwarded packets, answers and timeouts, whatever the clock reads and
      wherever the timeout thread gets in: an address has at most one valid entry and at most
      one request, never both; the packets of a request are those that arrived since its address
      was last closed, and all of them leave when it is closed; its counters are the number and
      the time of the requests sent for it; and nobody is given up on before five of them. */
  lemma {:induction false} EveryRun(r: Router, steps: seq<Step>)
    requires RouterInv(r)
    ensures RouterInv(Run(r, steps))
    decreases |steps|
  {
    if steps != [] {
      StepKeepsInv(r, steps[0]);
      EveryRun(Apply(r, steps[0]), steps[1..]);
    }
  }

  /** The same for the empty cache the router starts with, spelled out. */
  lemma FromTheStart(steps: seq<Step>)
    ensures var c := Run(INITIAL, steps).cache;
      && OneEntryEach(c.entries) && OneRequestEach(c.requests)
      && (forall i :: 0 <= i < |c.requests| ==>
            && !Mapped(c, c.requests[i].ip)
            && c.requests[i].packets == Waiting(c.log, c.requests[i].ip) != []
            && c.requests[i].timesSent == |Asks(c.log, c.requests[i].ip)|)
      && (forall ip :: FindReq(c.requests, ip) == |c.requests| ==> Waiting(c.log, ip) == [])
      && NothingLost(c.log) && GivesUpLate(c.log)
  {
    InitialInv();
    EveryRun(INITIAL, steps);
    var c := Run(INITIAL, steps).cache;
    forall i | 0 <= i < |c.requests|
      ensures !Mapped(c, c.requests[i].ip) && c.requests[i].packets == Waiting(c.log, c.requests[i].ip) != []
      ensures c.requests[i].timesSent == |Asks(c.log, c.requests[i].ip)|
    {
      assert Recorded(c.requests[i], c.log);
    }
    forall ip | FindReq(c.requests, ip) == |c.requests|
      ensures Waiting(c.log, ip) == []
    {
      assert Quiet(c.log, ip);
    }
  }

  /** Requests are closed as answered by an answer, and as given up on by nothing else. */
  lemma ClosedAsWhat(r: Router, step: Step)
    ensures var log, after := r.cache.log, Apply(r, step).cache.log;
      log <= after && forall i :: |log| <= i < |after| && after[i].Closed? ==> after[i].answered == step.Insert?
  {
    if step.Timeout? {
      SweepingLogs(r.cache.(entries := AllAged(r.cache.entries, step.now)), 0, step.now);
    }
  }

  lemma {:induction false} SweepingLogs(c: Cache, k: nat, now: int)
    requires k <= |c.requests|
    ensures c.log <= Swept(c, k, now).log
    ensures forall i {:trigger Swept(c, k, now).log[i]} :: |c.log| <= i < |Swept(c, k, now).log| ==>
      Swept(c, k, now).log[i].Closed? ==> !Swept(c, k, now).log[i].answered
    decreases |c.requests| - k
  {
    if k < |c.requests| {
      SweepingLogs(Handled(c, k, now), NextPosition(c, k, now), now);
    }
  }

  // ---------------------------------------------------------------- which runs are good

  /** What the main thread does rests on a request that is there, and that may be asked for if
      it is. */
  predicate FineStep(r: Router, step: Step) {
    match step
    case Test(_) => r.main.ToTest? ==> ReqOf(r.cache.requests, r.main.tip).Some?
    case Act =>
      r.main.ToAct? ==>
        var q := ReqOf(r.cache.requests, r.main.aip);
        q.Some? && (r.main.giveUp || MayAsk(q.value, r.main.tested))
    case _ => true
  }

  predicate Fine(r: Router, steps: seq<Step>)
    decreases |steps|
  {
    steps == [] || (FineStep(r, steps[0]) && Fine(Apply(r, steps[0]), steps[1..]))
  }

  ghost predicate Good(r: Router) { !r.dangling && AskedPolitely(r.cache.log) }

  lemma StepIsFine(r: Router, step: Step)
    requires RouterInv(r) && Good(r)
    ensures Good(Apply(r, step)) <==> FineStep(r, step)
  {
    match step
    case Queue =>
      if r.main.ToQueue? { OtherEventsArePolite(r.cache.log, Arrived(r.main.qip, r.main.packet)); }
    case Act =>
      if r.main.ToAct? {
        var k := FindReq(r.cache.requests, r.main.aip);
        if k < |r.cache.requests| { ActingPolitely(r.cache, k, r.main.tested, r.main.giveUp); }
      }
    case Insert(now) =>
      if r.main.ToInsert? {
        var k := FindReq(r.cache.requests, r.main.iip);
        if k < |r.cache.requests| {
          OtherEventsArePolite(r.cache.log, Closed(r.cache.requests[k].ip, r.cache.requests[k].packets, true));
        }
      }
    case Timeout(now) => TimingOutPolitely(r.cache, now);
    case _ =>
  }

  /** What has gone wrong stays so. */
  lemma {:induction false} BadStaysBad(r: Router, steps: seq<Step>)
    requires !Good(r)
    ensures !Good(Run(r, steps))
    decreases |steps|
  {
    if steps != [] {
      ClosedAsWhat(r, steps[0]);
      if AskedPolitely(Apply(r, steps[0]).cache.log) {
        PrefixIsPolite(r.cache.log, Apply(r, steps[0]).cache.log);
      }
      BadStaysBad(Apply(r, steps[0]), steps[1..]);
    }
  }

  lemma PrefixIsPolite(log: seq<Event>, longer: seq<Event>)
    requires log <= longer && AskedPolitely(longer)
    ensures AskedPolitely(log)
  {
    forall i, ip | 0 <= i <= |log|
      ensures |Asks(log[..i], ip)| <= MAX_ASKS && OneSecondApart(Asks(log[..i], ip))
    {
      assert log[..i] == longer[..i];
    }
  }

  /** For every run, whatever the clock reads: no freed request is used and no address is asked
      for more than five times or twice within a second, exactly when at every test the request
      is still there, and at every act it is and, if it is to be asked for, still may be. */
  lemma {:induction false} GoodExactly(r: Router, steps: seq<Step>)
    requires RouterInv(r) && Good(r)
    ensures Good(Run(r, steps)) <==> Fine(r, steps)
    decreases |steps|
  {
    if steps != [] {
      StepIsFine(r, steps[0]);
      StepKeepsInv(r, steps[0]);
      if FineStep(r, steps[0]) {
        GoodExactly(Apply(r, steps[0]), steps[1..]);
      } else {
        BadStaysBad(Apply(r, steps[0]), steps[1..]);
      }
    }
  }

  // ---------------------------------------------------------------- in terms of the sweeps

  /** A sweep between tests and act finds the request due, or one between queuing and the tests
      gives up on it. */
  predicate Disturbs(r: Router, step: Step) {
    step.Timeout? &&
    if r.main.ToAct? then
      var q := ReqOf(r.cache.requests, r.main.aip);
      q.Some? && Due(q.value, step.now)
    else if r.main.ToTest? then
      var q := ReqOf(r.cache.requests, r.main.tip);
      q.Some? && Due(q.value, step.now) && q.value.timesSent >= MAX_ASKS
    else false
  }

  predicate Undisturbed(r: Router, steps: seq<Step>)
    decreases |steps|
  {
    steps == [] || (!Disturbs(r, steps[0]) && Undisturbed(Apply(r, steps[0]), steps[1..]))
  }

  /** The clock is not set back, from now on. */
  predicate Forwards(now: int, steps: seq<Step>)
    decreases |steps|
  {
    steps == [] ||
    if steps[0].Test? || steps[0].Insert? || steps[0].Timeout?
    then steps[0].now >= now && Forwards(steps[0].now, steps[1..])
    else Forwards(now, steps[1..])
  }

  /** The main thread is not in the middle of handling a request. */
  predicate AtRest(r: Router) { !r.main.ToTest? && !r.main.ToAct? }

  /** The request that is being handled is there, as the tests found it. */
  predicate AsFound(r: Router) {
    && (r.main.ToTest? ==> ReqOf(r.cache.requests, r.main.tip).Some?)
    && (r.main.ToAct? ==>
          var q := ReqOf(r.cache.requests, r.main.aip);
          q.Some? && Due(q.value, r.main.tested) && r.main.giveUp == (q.value.timesSent >= MAX_ASKS))
  }

  /** The request that is being handled is gone, or was asked for after the tests. */
  predicate Spoiled(r: Router) {
    || (r.main.ToTest? && ReqOf(r.cache.requests, r.main.tip).None?)
    || (r.main.ToAct? &&
          match ReqOf(r.cache.requests, r.main.aip)
          case None => true
          case Some(q) => !r.main.giveUp && q.timesSent > 0 && q.sent >= r.main.tested)
  }

  predicate TestedBy(r: Router, now: int) { r.main.ToAct? ==> r.main.tested <= now }

  lemma TimeoutDisturbs(r: Router, t: int)
    requires RouterInv(r) && !r.dangling && AsFound(r) && TestedBy(r, t)
    ensures if Disturbs(r, Timeout(t)) then Spoiled(Apply(r, Timeout(t))) else AsFound(Apply(r, Timeout(t)))
  {
    if r.main.ToTest? {
      TimeoutOne(r.cache, t, r.main.tip);
    } else if r.main.ToAct? {
      TimeoutOne(r.cache, t, r.main.aip);
    }
  }

  lemma SpoiledStep(r: Router, step: Step, now: int)
    requires RouterInv(r) && !r.dangling && Spoiled(r) && TestedBy(r, now) && Forwards(now, [step])
    ensures FineStep(r, step) ==> Spoiled(Apply(r, step)) && Apply(r, step).main == r.main && !Apply(r, step).dangling
  {
    if step.Timeout? {
      TimeoutOne(r.cache, step.now, if r.main.ToTest? then r.main.tip else r.main.aip);
    }
  }

  lemma {:induction false} SpoiledIsNotFine(r: Router, steps: seq<Step>, now: int)
    requires RouterInv(r) && !r.dangling && Spoiled(r) && TestedBy(r, now) && Forwards(now, steps)
    requires AtRest(Run(r, steps))
    ensures !Fine(r, steps)
    decreases |steps|
  {
    if steps != [] && FineStep(r, steps[0]) {
      SpoiledStep(r, steps[0], now);
      StepKeepsInv(r, steps[0]);
      SpoiledIsNotFine(Apply(r, steps[0]), steps[1..], Later(now, steps[0]));
    }
  }

  function Later(now: int, step: Step): int {
    if step.Test? || step.Insert? || step.Timeout? then step.now else now
  }

  lemma FoundStep(r: Router, step: Step, now: int)
    requires RouterInv(r) && !r.dangling && AsFound(r) && TestedBy(r, now) && Forwards(now, [step])
    requires !step.Timeout?
    ensures FineStep(r, step) && !Apply(r, step).dangling
    ensures AsFound(Apply(r, step)) && TestedBy(Apply(r, step), Later(now, step))
  {
    if step.Queue? && r.main.ToQueue? {
      QueueingKeepsInv(r.cache, r.main.qip, r.main.packet);
    }
  }

  lemma {:induction false} FineIsUndisturbed(r: Router, steps: seq<Step>, now: int)
    requires RouterInv(r) && !r.dangling && AsFound(r) && TestedBy(r, now) && Forwards(now, steps)
    requires AtRest(Run(r, steps))
    ensures Fine(r, steps) <==> Undisturbed(r, steps)
    decreases |steps|
  {
    if steps != [] {
      var next := Apply(r, steps[0]);
      StepKeepsInv(r, steps[0]);
      if !steps[0].Timeout? {
        FoundStep(r, steps[0], now);
        FineIsUndisturbed(next, steps[1..], Later(now, steps[0]));
      } else {
        TimeoutDisturbs(r, steps[0].now);
        if Disturbs(r, steps[0]) {
          SpoiledIsNotFine(next, steps[1..], steps[0].now);
        } else {
          FineIsUndisturbed(next, steps[1..], steps[0].now);
        }
      }
    }
  }

  /** From the empty cache, for every run whose clock is not set back and that does not stop in
      the middle of handling a request: no freed request is used, and no address is asked for
      more than five times or twice within a second, exactly when no sweep between the tests and
      the act finds the request due and none between queuing and the tests gives up on it. */
  lemma GoodExactlyWhenUndisturbed(steps: seq<Step>, now: int)
    requires Forwards(now, steps) && AtRest(Run(INITIAL, steps))
    ensures Good(Run(INITIAL, steps)) <==> Undisturbed(INITIAL, steps)
  {
    InitialInv();
    GoodExactly(INITIAL, steps);
    FineIsUndisturbed(INITIAL, steps, now);
  }

  // ---------------------------------------------------------------- one call

  /** Turns of the timeout thread at these times. */
  function Timeouts(times: seq<int>): seq<Step> { seq(|times|, i requires 0 <= i < |times| => Timeout(times[i])) }

  function TimedOutAt(c: Cache, times: seq<int>): Cache
    decreases |times|
  {
    if times == [] then c else TimedOut(TimedOutAt(c, times[..|times| - 1]), times[|times| - 1])
  }

  lemma {:induction false} RunAppend(r: Router, a: seq<Step>, b: seq<Step>)
    ensures Run(r, a + b) == Run(Run(r, a), b)
    decreases |a|
  {
    if a == [] {
      assert a + b == b;
    } else {
      assert (a + b)[1..] == a[1..] + b;
      RunAppend(Apply(r, a[0]), a[1..], b);
    }
  }

  lemma RunOne(r: Router, step: Step)
    ensures Run(r, [step]) == Apply(r, step)
  {
    assert [step][1..] == [];
  }

  lemma {:induction false} RunTimeouts(r: Router, times: seq<int>)
    ensures Run(r, Timeouts(times)) == if r.dangling then r else r.(cache := TimedOutAt(r.cache, times))
    decreases |times|
  {
    if times != [] {
      var n := |times| - 1;
      RunTimeouts(r, times[..n]);
      assert Timeouts(times) == Timeouts(times[..n]) + [Timeout(times[n])];
      RunAppend(r, Timeouts(times[..n]), [Timeout(times[n])]);
      RunOne(Run(r, Timeouts(times[..n])), Timeout(times[n]));
    }
  }

  lemma {:induction false} TimeoutsKeepInv(c: Cache, times: seq<int>)
    requires Inv(c)
    ensures Inv(TimedOutAt(c, times))
    ensures AskedPolitely(c.log) ==> AskedPolitely(TimedOutAt(c, times).log)
    decreases |times|
  {
    if times != [] {
      var n := |times| - 1;
      TimeoutsKeepInv(c, times[..n]);
      TimingOutKeepsInv(TimedOutAt(c, times[..n]), times[n]);
      if AskedPolitely(c.log) { TimingOutPolitely(TimedOutAt(c, times[..n]), times[n]); }
    }
  }

  /** An entry is invalid after these sweeps exactly when it was before, or one of them ran more
      than 15 seconds after it was added; nothing else about it changes. */
  lemma {:induction false} EntryAfterSweeps(c: Cache, times: seq<int>, i: nat)
    requires i < |c.entries|
    ensures |TimedOutAt(c, times).entries| == |c.entries|
    ensures var e, after := c.entries[i], TimedOutAt(c, times).entries[i];
      && after == e.(valid := after.valid)
      && (after.valid <==> e.valid && forall n :: 0 <= n < |times| ==> times[n] - e.added <= 15)
    decreases |times|
  {
    if times != [] {
      var n := |times| - 1;
      EntryAfterSweeps(c, times[..n], i);
      var before := TimedOutAt(c, times[..n]);
      SweepKeepsEntries(before.(entries := AllAged(before.entries, times[n])), 0, times[n]);
      assert forall m :: 0 <= m < n ==> times[..n][m] == times[m];
    }
  }

  lemma {:induction false} AsManyAfterSweeps(c: Cache, times: seq<int>)
    ensures |TimedOutAt(c, times).entries| == |c.entries|
    decreases |times|
  {
    if times != [] {
      var n := |times| - 1;
      AsManyAfterSweeps(c, times[..n]);
      var before := TimedOutAt(c, times[..n]);
      SweepKeepsEntries(before.(entries := AllAged(before.entries, times[n])), 0, times[n]);
    }
  }

  lemma {:induction false} SweepKeepsEntries(c: Cache, k: nat, now: int)
    requires k <= |c.requests|
    ensures Swept(c, k, now).entries == c.entries
    decreases |c.requests| - k
  {
    if k < |c.requests| {
      SweepKeepsEntries(Handled(c, k, now), NextPosition(c, k, now), now);
    }
  }

  /** Of these sweeps, when the ones ran that find the request due, if it was last sent then. */
  function DueTimes(sent: int, times: seq<int>): seq<int>
    decreases |times|
  {
    if times == [] then []
    else
      var n := |times| - 1;
      var due := DueTimes(sent, times[..n]);
      if times[n] - Latest(sent, due) >= 1 then due + [times[n]] else due
  }

  function Latest(sent: int, due: seq<int>): int { if due == [] then sent else due[|due| - 1] }

  /** The request after sweeps that do not give up on it, and whether one of them does: when it
      was sent five times already and is due once more. */
  function After(r: Req, times: seq<int>): Req {
    var due := DueTimes(r.sent, times);
    r.(sent := Latest(r.sent, due), timesSent := r.timesSent + |due|)
  }

  predicate GivenUp(r: Req, times: seq<int>) {
    var due := DueTimes(r.sent, times);
    due != [] && r.timesSent + |due| > MAX_ASKS
  }

  /** What any number of sweeps make of a request. */
  lemma {:induction false} SweptReq(c: Cache, times: seq<int>, ip: Ip)
    requires OneRequestEach(c.requests) && ReqOf(c.requests, ip).Some?
    ensures OneRequestEach(TimedOutAt(c, times).requests)
    ensures var r := ReqOf(c.requests, ip).value;
      ReqOf(TimedOutAt(c, times).requests, ip) == if GivenUp(r, times) then None else Some(After(r, times))
    decreases |times|
  {
    if times != [] {
      var n := |times| - 1;
      SweptReq(c, times[..n], ip);
      TimeoutOne(TimedOutAt(c, times[..n]), times[n], ip);
    }
  }

  /** handle_arpreq on the main thread, with the timeout thread running inside it. */
  function CallSteps(now: int, inside: seq<int>): seq<Step> {
    [Test(now)] + (Timeouts(inside) + [Act])
  }

  lemma CallRun(c: Cache, ip: Ip, now: int, inside: seq<int>)
    ensures var tested := Tested(Router(c, ToTest(ip), false), ip, now);
      Run(Router(c, ToTest(ip), false), CallSteps(now, inside))
      == if tested.dangling then tested else Apply(tested.(cache := TimedOutAt(c, inside)), Act)
  {
    var start := Router(c, ToTest(ip), false);
    var tested := Tested(start, ip, now);
    RunAppend(start, [Test(now)], Timeouts(inside) + [Act]);
    RunOne(start, Test(now));
    RunAppend(tested, Timeouts(inside), [Act]);
    RunTimeouts(tested, inside);
    RunOne(Run(tested, Timeouts(inside)), Act);
  }

  /** Without a sweep inside, the call is what the sweep does itself. */
  lemma UninterruptedCall(c: Cache, ip: Ip, now: int)
    requires ReqOf(c.requests, ip).Some?
    ensures Run(Router(c, ToTest(ip), false), CallSteps(now, []))
      == Router(Handled(c, FindReq(c.requests, ip), now), Idle, false)
  {
    CallRun(c, ip, now, []);
  }

  lemma CallWhenDue(c: Cache, ip: Ip, now: int, inside: seq<int>)
    requires ReqOf(c.requests, ip).Some? && Due(ReqOf(c.requests, ip).value, now)
    ensures Run(Router(c, ToTest(ip), false), CallSteps(now, inside))
      == ActedLate(TimedOutAt(c, inside), ip, now, ReqOf(c.requests, ip).value.timesSent >= MAX_ASKS)
  {
    CallRun(c, ip, now, inside);
  }

  function ActedLate(c: Cache, ip: Ip, now: int, giveUp: bool): Router {
    ActedOn(Router(c, ToAct(ip, now, giveUp), false), ip, now, giveUp)
  }

  /** The call on a request that is due: whether the freed request is used, and whether asking is
      polite, by the sweeps inside and whatever the clock reads. */
  lemma CallExactly(c: Cache, ip: Ip, now: int, inside: seq<int>)
    requires Inv(c) && AskedPolitely(c.log) && ReqOf(c.requests, ip).Some? && Due(ReqOf(c.requests, ip).value, now)
    ensures var r := ReqOf(c.requests, ip).value;
      var due := DueTimes(r.sent, inside);
      var end := Run(Router(c, ToTest(ip), false), CallSteps(now, inside));
      && (end.dangling <==> GivenUp(r, inside))
      && (Good(end) <==> due == [] || (r.timesSent + |due| < MAX_ASKS && now - due[|due| - 1] >= 1))
  {
    var r := ReqOf(c.requests, ip).value;
    CallWhenDue(c, ip, now, inside);
    SweptReq(c, inside, ip);
    AskedAtMostFive(c, ip);
    TimeoutsKeepInv(c, inside);
    LateAct(TimedOutAt(c, inside), ip, now, r.timesSent >= MAX_ASKS);
  }

  lemma LateAct(c: Cache, ip: Ip, now: int, giveUp: bool)
    requires Inv(c) && AskedPolitely(c.log)
    ensures var q, end := ReqOf(c.requests, ip), ActedLate(c, ip, now, giveUp);
      && end.dangling == q.None?
      && (Good(end) <==> q.Some? && (giveUp || MayAsk(q.value, now)))
  {
    if ReqOf(c.requests, ip).Some? {
      ActingPolitely(c, FindReq(c.requests, ip), now, giveUp);
    }
  }

  lemma AskedAtMostFive(c: Cache, ip: Ip)
    requires Inv(c) && AskedPolitely(c.log) && ReqOf(c.requests, ip).Some?
    ensures ReqOf(c.requests, ip).value.timesSent <= MAX_ASKS
  {
    var k := FindReq(c.requests, ip);
    assert Recorded(c.requests[k], c.log);
    PoliteNow(c.log, ip);
  }

  /** Unless the clock is set back, a single sweep inside the call does harm. */
  lemma AnySweepInsideHarms(c: Cache, ip: Ip, now: int, inside: seq<int>)
    requires Inv(c) && AskedPolitely(c.log) && ReqOf(c.requests, ip).Some? && Due(ReqOf(c.requests, ip).value, now)
    requires forall i :: 0 <= i < |inside| ==> inside[i] >= now
    ensures Good(Run(Router(c, ToTest(ip), false), CallSteps(now, inside))) <==> inside == []
  {
    CallExactly(c, ip, now, inside);
    DueInside(ReqOf(c.requests, ip).value.sent, now, inside);
  }

  lemma {:induction false} DueInside(sent: int, now: int, times: seq<int>)
    requires now - sent >= 1 && forall i :: 0 <= i < |times| ==> times[i] >= now
    ensures var due := DueTimes(sent, times); (due == [] <==> times == []) && (due != [] ==> due[|due| - 1] >= now)
    decreases |times|
  {
    if times != [] { DueInside(sent, now, times[..|times| - 1]); }
  }

  /** What the main thread does for a packet, with the timeout thread running after the failed
      look-up, after the packet was queued, and inside handle_arpreq. */
  function ForwardSteps(ip: Ip, packet: Packet, missed: seq<int>, queued: seq<int>, now: int, inside: seq<int>)
    : seq<Step>
  {
    [Forward(ip, packet)] + (Timeouts(missed) + QueueSteps(queued, now, inside))
  }

  function QueueSteps(queued: seq<int>, now: int, inside: seq<int>): seq<Step> {
    [Queue] + (Timeouts(queued) + CallSteps(now, inside))
  }

  function ReplySteps(mac: Mac, ip: Ip, between: seq<int>, now: int): seq<Step> {
    [Reply(mac, ip)] + (Timeouts(between) + [Insert(now)])
  }

  lemma QueueRun(c: Cache, ip: Ip, packet: Packet, queued: seq<int>, now: int, inside: seq<int>)
    ensures Run(Router(c, ToQueue(ip, packet), false), QueueSteps(queued, now, inside))
      == Run(Router(TimedOutAt(Queued(c, ip, packet), queued), ToTest(ip), false), CallSteps(now, inside))
  {
    var start, next := Router(c, ToQueue(ip, packet), false), Router(Queued(c, ip, packet), ToTest(ip), false);
    RunAppend(start, [Queue], Timeouts(queued) + CallSteps(now, inside));
    RunOne(start, Queue);
    RunAppend(next, Timeouts(queued), CallSteps(now, inside));
    RunTimeouts(next, queued);
  }

  lemma ForwardRun(c: Cache, ip: Ip, packet: Packet, missed: seq<int>, queued: seq<int>, now: int, inside: seq<int>)
    requires LookupIn(c.entries, ip).None?
    ensures Run(Router(c, Idle, false), ForwardSteps(ip, packet, missed, queued, now, inside))
      == Run(Router(TimedOutAt(c, missed), ToQueue(ip, packet), false), QueueSteps(queued, now, inside))
  {
    var last := QueueSteps(queued, now, inside);
    var start, next := Router(c, Idle, false), Router(c, ToQueue(ip, packet), false);
    RunAppend(start, [Forward(ip, packet)], Timeouts(missed) + last);
    RunOne(start, Forward(ip, packet));
    RunAppend(next, Timeouts(missed), last);
    RunTimeouts(next, missed);
  }

  lemma ReplyRun(c: Cache, mac: Mac, ip: Ip, between: seq<int>, now: int)
    requires LookupIn(c.entries, ip).None?
    ensures Run(Router(c, Idle, false), ReplySteps(mac, ip, between, now))
      == Router(Inserted(TimedOutAt(c, between), mac, ip, now), Idle, false)
  {
    var missed := Router(c, ToInsert(mac, ip), false);
    RunAppend(Router(c, Idle, false), [Reply(mac, ip)], Timeouts(between) + [Insert(now)]);
    RunOne(Router(c, Idle, false), Reply(mac, ip));
    RunAppend(missed, Timeouts(between), [Insert(now)]);
    RunTimeouts(missed, between);
    RunOne(missed.(cache := TimedOutAt(c, between)), Insert(now));
  }

  /** A packet is queued and its request handled, with sweeps after queuing and inside the call:
      a freed request is used exactly when a sweep after queuing gives up on it, or the tests
      find it due and a sweep inside gives up on it. */
  lemma DanglingExactly(c: Cache, ip: Ip, packet: Packet, queued: seq<int>, now: int, inside: seq<int>)
    requires Inv(c) && !Mapped(c, ip)
    ensures FindReq(Queued(c, ip, packet).requests, ip) < |Queued(c, ip, packet).requests|
    ensures var r := Queued(c, ip, packet).requests[FindReq(Queued(c, ip, packet).requests, ip)];
      Run(Router(c, ToQueue(ip, packet), false), QueueSteps(queued, now, inside)).dangling
      <==> GivenUp(r, queued) || (Due(After(r, queued), now) && GivenUp(After(r, queued), inside))
  {
    var late := TimedOutAt(Queued(c, ip, packet), queued);
    QueueingKeepsInv(c, ip, packet);
    QueueRun(c, ip, packet, queued, now, inside);
    SweptReq(Queued(c, ip, packet), queued, ip);
    CallRun(late, ip, now, inside);
    if ReqOf(late.requests, ip).Some? {
      SweptReq(late, inside, ip);
    }
  }

  /** With one sweep, after queuing or inside: the request must have been sent five times before. */
  lemma DanglingRun(c: Cache, ip: Ip, packet: Packet, sweep: int, now: int)
    requires Inv(c) && !Mapped(c, ip) && ReqOf(c.requests, ip).Some?
    ensures var r := ReqOf(c.requests, ip).value;
      var start := Router(c, ToQueue(ip, packet), false);
      && (Run(start, QueueSteps([sweep], now, [])).dangling <==> Due(r, sweep) && r.timesSent >= MAX_ASKS)
      && (Run(start, QueueSteps([], now, [sweep])).dangling <==>
          Due(r, now) && Due(r, sweep) && r.timesSent >= MAX_ASKS)
  {
    DanglingExactly(c, ip, packet, [sweep], now, []);
    DanglingExactly(c, ip, packet, [], now, [sweep]);
    var queued, k := Queued(c, ip, packet), FindReq(c.requests, ip);
    FindUpdated(c.requests, k, queued.requests[k], ip);
    OneSweep(c.requests[k].sent, sweep);
  }

  lemma OneSweep(sent: int, sweep: int)
    ensures DueTimes(sent, [sweep]) == if sweep - sent >= 1 then [sweep] else []
  {
    assert [sweep][..0] == [];
  }

  // ---------------------------------------------------------------- runs that go wrong

  /** A call on a request that becomes due, with a sweep inside it in the same second: it asks
      twice, or the sweep frees the request. */
  lemma SweepInside(c: Cache, ip: Ip, now: int)
    requires Inv(c) && AskedPolitely(c.log)
    requires ReqOf(c.requests, ip).Some? && ReqOf(c.requests, ip).value.sent == now - 1
    ensures var r := ReqOf(c.requests, ip).value;
      var end := Run(Router(c, ToTest(ip), false), CallSteps(now, [now]));
      if r.timesSent >= MAX_ASKS then end.dangling
      else !end.dangling && AskedTwice(end.cache.log, ip, r.timesSent, now) && !AskedPolitely(end.cache.log)
  {
    var r := ReqOf(c.requests, ip).value;
    EverySecond(now - 1, [now]);
    CallExactly(c, ip, now, [now]);
    if r.timesSent < MAX_ASKS {
      TwoAsks(c, ip, now, [now]);
    }
  }

  /** Asked for so often before, and twice at this time. */
  ghost predicate AskedTwice(log: seq<Event>, ip: Ip, before: nat, now: int) {
    var asks := Asks(log, ip);
    |asks| == before + 2 && asks[before] == asks[before + 1] == now
  }

  lemma OneMoreAsk(c: Cache, ip: Ip, now: int)
    requires Inv(c) && ReqOf(c.requests, ip).Some?
    ensures var r, asks := ReqOf(c.requests, ip).value, Asks(c.log, ip);
      && |asks| == r.timesSent && (r.timesSent > 0 ==> asks[r.timesSent - 1] == r.sent)
      && Asks(ActedLate(c, ip, now, false).cache.log, ip) == asks + [now]
  {
    assert Recorded(c.requests[FindReq(c.requests, ip)], c.log);
    OneMoreEvent(c.log, Asked(ip, now), ip);
  }

  lemma TwoAsks(c: Cache, ip: Ip, now: int, inside: seq<int>)
    requires Inv(c) && ReqOf(c.requests, ip).Some? && inside == [now]
    requires ReqOf(c.requests, ip).value.sent == now - 1 && ReqOf(c.requests, ip).value.timesSent < MAX_ASKS
    ensures var end := Run(Router(c, ToTest(ip), false), CallSteps(now, inside));
      AskedTwice(end.cache.log, ip, ReqOf(c.requests, ip).value.timesSent, now)
  {
    EverySecond(now - 1, inside);
    CallWhenDue(c, ip, now, inside);
    SweptReq(c, inside, ip);
    TimeoutsKeepInv(c, inside);
    OneMoreAsk(TimedOutAt(c, inside), ip, now);
  }

  /** The main thread forwards a packet for the address at second 1, then there is a sweep every
      second. */
  function AskingSteps(ip: Ip, p: Packet, sweeps: seq<int>): seq<Step> {
    ForwardSteps(ip, p, [], [], 1, []) + Timeouts(sweeps)
  }

  /** A new request is asked for at second 1 by the main thread, and by a sweep inside its call. */
  lemma TwiceInASecond(ip: Ip, p: Packet)
    ensures var end := Run(INITIAL, ForwardSteps(ip, p, [], [], 1, [1]));
      !end.dangling && Asks(end.cache.log, ip) == [1, 1] && !AskedPolitely(end.cache.log)
  {
    FirstPacket(ip, p, [1]);
    SweepInside(Queued(EMPTY, ip, p), ip, 1);
  }

  /** A request asked for at seconds 1 to 4 is asked for at second 5 by both threads. */
  lemma SixTimes(ip: Ip, p: Packet, q: Packet)
    ensures var end := Run(INITIAL, AskingSteps(ip, p, [2, 3, 4]) + ForwardSteps(ip, q, [], [], 5, [5]));
      !end.dangling && |Asks(end.cache.log, ip)| == 6 && !AskedPolitely(end.cache.log)
  {
    NextPacket(ip, p, [2, 3, 4], q, [], 5, [5]);
    SweepInside(Queued(Run(INITIAL, AskingSteps(ip, p, [2, 3, 4])).cache, ip, q), ip, 5);
  }

  /** A request asked for at seconds 1 to 5 is freed by a sweep inside the call of second 6. */
  lemma FreedInside(ip: Ip, p: Packet, q: Packet)
    ensures Run(INITIAL, AskingSteps(ip, p, [2, 3, 4, 5]) + ForwardSteps(ip, q, [], [], 6, [6])).dangling
  {
    NextPacket(ip, p, [2, 3, 4, 5], q, [], 6, [6]);
    SweepInside(Queued(Run(INITIAL, AskingSteps(ip, p, [2, 3, 4, 5])).cache, ip, q), ip, 6);
  }

  /** The same with the sweep between queuing and the tests. */
  lemma FreedAfterQueuing(ip: Ip, p: Packet, q: Packet)
    ensures Run(INITIAL, AskingSteps(ip, p, [2, 3, 4, 5]) + ForwardSteps(ip, q, [], [6], 6, [])).dangling
  {
    var c := Run(INITIAL, AskingSteps(ip, p, [2, 3, 4, 5])).cache;
    NextPacket(ip, p, [2, 3, 4, 5], q, [6], 6, []);
    EverySecond(5, [6]);
    SweptReq(Queued(c, ip, q), [6], ip);
    CallRun(TimedOutAt(Queued(c, ip, q), [6]), ip, 6, []);
  }

  lemma {:induction false} EverySecond(sent: int, times: seq<int>)
    requires forall i :: 0 <= i < |times| ==> times[i] == sent + 1 + i
    ensures DueTimes(sent, times) == times
    decreases |times|
  {
    if times != [] { EverySecond(sent, times[..|times| - 1]); }
  }

  lemma FirstPacket(ip: Ip, p: Packet, inside: seq<int>)
    ensures Inv(Queued(EMPTY, ip, p)) && AskedPolitely(Queued(EMPTY, ip, p).log)
    ensures ReqOf(Queued(EMPTY, ip, p).requests, ip) == Some(Req(ip, 0, 0, [p]))
    ensures Run(INITIAL, ForwardSteps(ip, p, [], [], 1, inside))
      == Run(Router(Queued(EMPTY, ip, p), ToTest(ip), false), CallSteps(1, inside))
  {
    InitialInv();
    assert !Mapped(EMPTY, ip) && LookupIn(EMPTY.entries, ip).None?;
    QueuedFirst(EMPTY, ip, p);
    QueueingKeepsInv(EMPTY, ip, p);
    OtherEventsArePolite([], Arrived(ip, p));
    ForwardRun(EMPTY, ip, p, [], [], 1, inside);
    QueueRun(EMPTY, ip, p, [], 1, inside);
  }

  lemma FirstCall(ip: Ip, p: Packet)
    ensures var r := Run(INITIAL, ForwardSteps(ip, p, [], [], 1, []));
      && Inv(r.cache) && Good(r) && r.main == Idle
      && ReqOf(r.cache.requests, ip) == Some(Req(ip, 1, 1, [p]))
  {
    var queued := Queued(EMPTY, ip, p);
    FirstPacket(ip, p, []);
    UninterruptedCall(queued, ip, 1);
    HandlingOne(queued, FindReq(queued.requests, ip), 1);
    HandlingKeepsInv(queued, FindReq(queued.requests, ip), 1);
    ActingPolitely(queued, FindReq(queued.requests, ip), 1, false);
  }

  lemma AskedEverySecond(ip: Ip, p: Packet, sweeps: seq<int>)
    requires |sweeps| < MAX_ASKS && forall i :: 0 <= i < |sweeps| ==> sweeps[i] == 2 + i
    ensures var r := Run(INITIAL, AskingSteps(ip, p, sweeps));
      var n := |sweeps| + 1;
      && Inv(r.cache) && Good(r) && r.main == Idle
      && ReqOf(r.cache.requests, ip) == Some(Req(ip, n, n, [p]))
  {
    var first := ForwardSteps(ip, p, [], [], 1, []);
    var c := Run(INITIAL, first).cache;
    FirstCall(ip, p);
    RunAppend(INITIAL, first, Timeouts(sweeps));
    RunTimeouts(Run(INITIAL, first), sweeps);
    TimeoutsKeepInv(c, sweeps);
    EverySecond(1, sweeps);
    SweptReq(c, sweeps, ip);
  }

  lemma QueuedMore(c: Cache, ip: Ip, q: Packet)
    requires Inv(c) && AskedPolitely(c.log) && ReqOf(c.requests, ip).Some?
    ensures Inv(Queued(c, ip, q)) && AskedPolitely(Queued(c, ip, q).log) && LookupIn(c.entries, ip).None?
    ensures var r := ReqOf(c.requests, ip).value;
      ReqOf(Queued(c, ip, q).requests, ip) == Some(r.(packets := [q] + r.packets))
  {
    var k := FindReq(c.requests, ip);
    assert !Mapped(c, c.requests[k].ip);
    QueueingKeepsInv(c, ip, q);
    OtherEventsArePolite(c.log, Arrived(ip, q));
    FindUpdated(c.requests, k, c.requests[k].(packets := [q] + c.requests[k].packets), ip);
  }

  /** Another packet after that. */
  lemma NextPacket(ip: Ip, p: Packet, sweeps: seq<int>, q: Packet, queued: seq<int>, now: int, inside: seq<int>)
    requires |sweeps| < MAX_ASKS && forall i :: 0 <= i < |sweeps| ==> sweeps[i] == 2 + i
    ensures var c := Queued(Run(INITIAL, AskingSteps(ip, p, sweeps)).cache, ip, q);
      var n := |sweeps| + 1;
      && Inv(c) && AskedPolitely(c.log) && ReqOf(c.requests, ip) == Some(Req(ip, n, n, [q] + [p]))
      && Run(INITIAL, AskingSteps(ip, p, sweeps) + ForwardSteps(ip, q, [], queued, now, inside))
        == Run(Router(TimedOutAt(c, queued), ToTest(ip), false), CallSteps(now, inside))
  {
    var c := Run(INITIAL, AskingSteps(ip, p, sweeps)).cache;
    AskedEverySecond(ip, p, sweeps);
    RunAppend(INITIAL, AskingSteps(ip, p, sweeps), ForwardSteps(ip, q, [], queued, now, inside));
    QueuedMore(c, ip, q);
    ForwardRun(c, ip, q, [], queued, now, inside);
    QueueRun(c, ip, q, queued, now, inside);
  }

  // ---------------------------------------------------------------- conservation

  function Arrivals(log: seq<Event>, ip: Ip): multiset<Packet> {
    if log == [] then multiset{}
    else
      var e := log[|log| - 1];
      Arrivals(log[..|log| - 1], ip) + (if e.ip == ip && e.Arrived? then multiset{e.packet} else multiset{})
  }

  function Departures(log: seq<Event>, ip: Ip): multiset<Packet> {
    if log == [] then multiset{}
    else
      var e := log[|log| - 1];
      Departures(log[..|log| - 1], ip) + (if e.ip == ip && e.Closed? then multiset(e.packets) else multiset{})
  }

  /** A packet that was put on the queue is either still waiting or has left, exactly once. */
  lemma {:induction false} PacketsAreConserved(log: seq<Event>, ip: Ip)
    requires NothingLost(log)
    ensures Arrivals(log, ip) == Departures(log, ip) + multiset(Waiting(log, ip))
  {
    if log != [] {
      var n := |log| - 1;
      var e, before := log[n], log[..n];
      assert forall i :: 0 <= i <= n ==> before[..i] == log[..i];
      PacketsAreConserved(before, ip);
      if e.ip == ip && e.Closed? {
        assert log[n].Closed?;
      }
    }
  }
}
