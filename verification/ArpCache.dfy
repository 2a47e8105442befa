/** The ARP cache as the C structure (router/sr_arpcache.c): a fixed array of entries and a
    singly linked list of requests, changed in place. A field holds the log of what the router
    sends and releases. */
module ArpCaches {
  import opened Options
  import opened ArpQueue

  class ArpReq {
    const ip: Ip
    var sent: int
    var timesSent: nat
    var packets: seq<Packet>
    var next: ArpReq?

    constructor (ip: Ip, next: ArpReq?)
      ensures this.ip == ip && this.next == next && sent == 0 && timesSent == 0 && packets == []
    {
      this.ip, this.next, sent, timesSent, packets := ip, next, 0, 0, [];
    }

    function Value(): Req
      reads this
    {
      Req(ip, sent, timesSent, packets)
    }
  }

  function NodeAt(queue: seq<ArpReq>, k: nat): (r: ArpReq?)
    ensures r == null <==> k >= |queue|
  {
    if k < |queue| then queue[k] else null
  }

  /** No two nodes are for the same address; so no node occurs twice. */
  ghost predicate Distinct(queue: seq<ArpReq>) {
    forall i, j :: 0 <= i < j < |queue| ==> queue[i].ip != queue[j].ip
  }

  /** Each node points to the one after it. */
  ghost predicate Linked(queue: seq<ArpReq>)
    reads queue
  {
    forall i {:trigger queue[i].next} :: 0 <= i < |queue| ==> queue[i].next == NodeAt(queue, i + 1)
  }

  ghost predicate Shows(queue: seq<ArpReq>, values: seq<Req>)
    reads queue
  {
    |values| == |queue| && forall i :: 0 <= i < |queue| ==> values[i] == queue[i].Value()
  }

  function Dropped(queue: seq<ArpReq>, k: nat): seq<ArpReq>
    requires k < |queue|
  {
    queue[..k] + queue[k + 1..]
  }

  /** The nodes that stay are the old ones in their order. */
  lemma DroppedNodes(queue: seq<ArpReq>, k: nat)
    requires k < |queue|
    ensures |Dropped(queue, k)| == |queue| - 1
    ensures forall i :: 0 <= i < |queue| - 1 ==> Dropped(queue, k)[i] == queue[if i < k then i else i + 1]
    ensures forall i :: 0 <= i < |queue| - 1 ==> Dropped(queue, k)[i] in queue
    ensures NodeAt(Dropped(queue, k), k) == NodeAt(queue, k + 1)
    ensures k > 0 ==> NodeAt(Dropped(queue, k), 0) == NodeAt(queue, 0)
  {
  }

  lemma DroppedIsDistinct(queue: seq<ArpReq>, k: nat)
    requires k < |queue| && Distinct(queue)
    ensures Distinct(Dropped(queue, k))
  {
    DroppedNodes(queue, k);
  }

  /** Once the node before k points behind k, dropping k leaves a linked list. */
  lemma DroppedIsLinked(queue: seq<ArpReq>, k: nat)
    requires k < |queue|
    requires forall i {:trigger queue[i].next} :: 0 <= i < |queue| && i != k ==>
      queue[i].next == NodeAt(queue, if i == k - 1 then k + 1 else i + 1)
    ensures Linked(Dropped(queue, k))
  {
    var rest := Dropped(queue, k);
    DroppedNodes(queue, k);
    forall i | 0 <= i < |rest| ensures rest[i].next == NodeAt(rest, i + 1) {
      var j := if i < k then i else i + 1;
      assert rest[i] == queue[j];
      assert queue[j].next == NodeAt(queue, if j == k - 1 then k + 1 else j + 1);
    }
  }

  lemma DroppedShows(queue: seq<ArpReq>, values: seq<Req>, k: nat)
    requires k < |queue| && Shows(queue, values)
    ensures Shows(Dropped(queue, k), Without(values, k))
  {
    DroppedNodes(queue, k);
  }

  /** What an answer for an address without an entry makes of the cache. */
  ghost predicate Answered(before: Cache, after: Cache, mac: Mac, ip: Ip, now: int) {
    && (var found := LookupIn(after.entries, ip);
        if SlotIsFree(before.entries) then found == Some(Entry(mac, ip, now, true)) else found.None?)
    && (forall other :: other != ip ==> LookupIn(after.entries, other) == LookupIn(before.entries, other))
    && ReqOf(after.requests, ip).None?
    && (forall other :: other != ip ==> ReqOf(after.requests, other) == ReqOf(before.requests, other))
  }

  lemma AnswerStored(c: Cache, mac: Mac, ip: Ip, now: int)
    requires OneRequestEach(c.requests)
    ensures LookupIn(c.entries, ip).None? ==> Answered(c, Inserted(c, mac, ip, now), mac, ip, now)
  {
    if LookupIn(c.entries, ip).None? {
      AnswerIsFound(c, mac, ip, now, ip);
      AnswerClosesRequest(c, mac, ip, now, ip);
      forall other | other != ip
        ensures LookupIn(Inserted(c, mac, ip, now).entries, other) == LookupIn(c.entries, other)
        ensures ReqOf(Inserted(c, mac, ip, now).requests, other) == ReqOf(c.requests, other)
      {
        AnswerIsFound(c, mac, ip, now, other);
        AnswerClosesRequest(c, mac, ip, now, other);
      }
    }
  }

  /** Sweeps add no entry. */
  lemma StillNotFound(c: Cache, ip: Ip, times: seq<int>)
    requires LookupIn(c.entries, ip).None?
    ensures LookupIn(TimedOutAt(c, times).entries, ip).None?
  {
    AsManyAfterSweeps(c, times);
    var after := TimedOutAt(c, times).entries;
    forall i | 0 <= i < |after| ensures !(after[i].valid && after[i].ip == ip) {
      EntryAfterSweeps(c, times, i);
    }
  }

  class ArpCache {
    const entries: array<Entry>
    var requests: ArpReq?
    ghost var queue: seq<ArpReq>    // the nodes of the list
    ghost var values: seq<Req>      // what they hold
    var log: seq<Event>

    ghost predicate Valid()
      reads this, queue
    {
      && entries.Length == CACHE_SIZE
      && requests == NodeAt(queue, 0)
      && Distinct(queue)
      && Linked(queue)
      && Shows(queue, values)
    }

    ghost function Contents(): Cache
      reads this, entries
    {
      Cache(entries[..], values, log)
    }

    /** sr_arpcache_init */
    constructor ()
      ensures Valid() && fresh(entries)
      ensures Contents() == EMPTY
    {
      entries := new Entry[CACHE_SIZE](i => UNUSED);
      requests, queue, values, log := null, [], [], [];
      new;
      assert entries[..] == EMPTY.entries;
    }

    /** sr_arpcache_lookup */
    method Lookup(ip: Ip) returns (copy: Option<Entry>)
      requires Valid()
      ensures copy == LookupIn(entries[..], ip)
    {
      copy := None;
      var i := 0;
      while i < entries.Length
        invariant 0 <= i <= entries.Length
        invariant copy == LookupIn(entries[..i], ip)
      {
        assert entries[..i + 1][..i] == entries[..i];
        if entries[i].valid && entries[i].ip == ip {
          copy := Some(entries[i]);
        }
        i := i + 1;
      }
      assert entries[..i] == entries[..];
    }

    /** The search by which queuing and insertion begin. */
    method FindNode(ip: Ip) returns (prev: ArpReq?, req: ArpReq?, ghost k: nat)
      requires Valid()
      ensures k == FindReq(values, ip) && req == NodeAt(queue, k)
      ensures prev == if k == 0 then null else queue[k - 1]
      ensures req != null ==> req.ip == ip
    {
      prev, req, k := null, requests, 0;
      while req != null && req.ip != ip
        invariant k <= |queue| && req == NodeAt(queue, k)
        invariant prev == if k == 0 then null else queue[k - 1]
        invariant forall i :: 0 <= i < k ==> queue[i].ip != ip
        decreases |queue| - k
      {
        prev, req, k := req, req.next, k + 1;
      }
    }

    /** sr_arpcache_queuereq */
    method QueueReq(ip: Ip, packet: Packet) returns (req: ArpReq)
      requires Valid()
      modifies this, queue
      ensures Valid() && Contents() == Queued(old(Contents()), ip, packet)
      ensures forall i :: 0 <= i < |queue| ==> queue[i] in old(queue) || fresh(queue[i])
      ensures var k := FindReq(values, ip); k < |queue| && req == queue[k]
    {
      log := log + [Arrived(ip, packet)];
      ghost var k;
      req, k := FindOrAdd(ip);
      AddPacket(req, packet, k);
      FindUpdated(Opened(old(values), ip), k, values[k], ip);
    }

    method FindOrAdd(ip: Ip) returns (req: ArpReq, ghost k: nat)
      requires Valid()
      modifies this`requests, this`queue, this`values
      ensures Valid() && values == Opened(old(values), ip) && k == FindReq(values, ip) && req == queue[k]
      ensures forall i :: 0 <= i < |queue| ==> queue[i] in old(queue) || fresh(queue[i])
    {
      var _, walker, i := FindNode(ip);
      k := i;
      if walker == null {
        req := PushRequest(ip);
        k := 0;
      } else {
        req := walker;
      }
    }

    method PushRequest(ip: Ip) returns (req: ArpReq)
      requires Valid() && FindReq(values, ip) == |values|
      modifies this`requests, this`queue, this`values
      ensures Valid() && fresh(req) && queue == [req] + old(queue) && req.Value() == Req(ip, 0, 0, [])
      ensures values == [Req(ip, 0, 0, [])] + old(values)
    {
      req := new ArpReq(ip, requests);
      requests, queue, values := req, [req] + queue, [req.Value()] + values;
    }

    method AddPacket(req: ArpReq, packet: Packet, ghost k: nat)
      requires Valid() && k < |queue| && req == queue[k]
      modifies req`packets, this`values
      ensures Valid()
      ensures values == WithPacket(old(values), k, packet)
    {
      req.packets := [packet] + req.packets;
      values := values[k := req.Value()];
    }

    /** sr_arpcache_insert; the request that was unlinked is returned with its packets. */
    method Insert(mac: Mac, ip: Ip, now: int) returns (req: ArpReq?)
      requires Valid()
      modifies this, entries, queue
      ensures Valid() && Contents() == Inserted(old(Contents()), mac, ip, now)
      ensures req == NodeAt(old(queue), FindReq(old(values), ip))
      ensures forall i :: 0 <= i < |queue| ==> queue[i] in old(queue)
      ensures LookupIn(old(entries[..]), ip).None? ==> Answered(old(Contents()), Contents(), mac, ip, now)
    {
      AnswerStored(Contents(), mac, ip, now);
      req := TakeRequest(ip);
      StoreEntry(Entry(mac, ip, now, true));
    }

    method TakeRequest(ip: Ip) returns (req: ArpReq?)
      requires Valid()
      modifies this`requests, this`queue, this`values, this`log, queue
      ensures Valid()
      ensures req == NodeAt(old(queue), FindReq(old(values), ip))
      ensures Contents() == WithoutRequest(old(Contents()), ip)
      ensures forall i :: 0 <= i < |queue| ==> queue[i] in old(queue)
    {
      var prev;
      ghost var k;
      prev, req, k := FindNode(ip);
      if req != null {
        Unlink(prev, req, k);
        log := log + [Closed(ip, req.packets, true)];
      }
    }

    method StoreEntry(e: Entry)
      modifies entries
      ensures Contents() == WithEntry(old(Contents()), e)
    {
      var i := 0;
      while i < entries.Length && entries[i].valid
        invariant i <= entries.Length
        invariant forall j :: 0 <= j < i ==> entries[j].valid
        invariant entries[..] == old(entries[..])
      {
        i := i + 1;
      }
      assert i == FirstFree(entries[..]);
      if i != entries.Length {
        entries[i] := e;
      }
    }

    /** The list surgery shared by insertion and destruction. */
    method Unlink(prev: ArpReq?, req: ArpReq, ghost k: nat)
      requires Valid() && k < |queue| && req == queue[k]
      requires prev == if k == 0 then null else queue[k - 1]
      modifies this`requests, this`queue, this`values, queue
      ensures Valid() && queue == Dropped(old(queue), k)
      ensures values == Without(old(values), k)
      ensures forall i :: 0 <= i < |queue| ==> queue[i] in old(queue)
      ensures req.Value() == old(req.Value())
    {
      DroppedNodes(queue, k);
      DroppedIsDistinct(queue, k);
      if prev != null {
        prev.next := req.next;
      } else {
        requests := req.next;
      }
      DroppedIsLinked(queue, k);
      DroppedShows(queue, values, k);
      queue, values := Dropped(queue, k), Without(values, k);
    }

    /** sr_arpreq_destroy */
    method Destroy(entry: ArpReq, ghost k: nat)
      requires Valid() && k < |queue| && entry == queue[k]
      modifies this`requests, this`queue, this`values, queue
      ensures Valid() && queue == Dropped(old(queue), k)
      ensures values == Without(old(values), k)
      ensures forall i :: 0 <= i < |queue| ==> queue[i] in old(queue)
    {
      var req := requests;
      var prev: ArpReq? := null;
      ghost var j: nat := 0;
      while req != entry
        invariant j <= k && req == queue[j]
        invariant prev == if j == 0 then null else queue[j - 1]
        decreases k - j
      {
        prev, req, j := req, req.next, j + 1;
      }
      Unlink(prev, entry, j);
    }

    /** handle_arpreq, in the form the header gives it, on the list's k-th node. */
    method HandleArpReq(req: ArpReq, now: int, ghost k: nat)
      requires Valid() && k < |queue| && req == queue[k]
      modifies this`requests, this`queue, this`values, this`log, queue
      ensures Valid() && Contents() == Handled(old(Contents()), k, now)
      ensures forall i :: 0 <= i < |queue| ==> queue[i] in old(queue)
      ensures NodeAt(queue, NextPosition(old(Contents()), k, now)) == NodeAt(old(queue), k + 1)
    {
      if now - req.sent >= 1 {
        ActOn(req, now, req.timesSent >= MAX_ASKS, k);
      }
    }

    /** What it does once its tests have decided. */
    method ActOn(req: ArpReq, now: int, giveUp: bool, ghost k: nat)
      requires Valid() && k < |queue| && req == queue[k]
      modifies this`requests, this`queue, this`values, this`log, queue
      ensures Valid() && Contents() == Acted(old(Contents()), k, now, giveUp)
      ensures forall i :: 0 <= i < |queue| ==> queue[i] in old(queue)
      ensures queue == if giveUp then Dropped(old(queue), k) else old(queue)
    {
      if giveUp {
        log := log + [Closed(req.ip, req.packets, false)];
        DroppedNodes(queue, k);
        Destroy(req, k);
      } else {
        log := log + [Asked(req.ip, now)];
        AskAgain(req, now, k);
      }
    }

    method AskAgain(req: ArpReq, now: int, ghost k: nat)
      requires Valid() && k < |queue| && req == queue[k]
      modifies req`sent, req`timesSent, this`values
      ensures Valid()
      ensures values == old(values)[k := old(values)[k].(sent := now, timesSent := old(values)[k].timesSent + 1)]
    {
      req.sent := now;
      req.timesSent := req.timesSent + 1;
      values := values[k := req.Value()];
    }

    /** sr_arpcache_sweepreqs; the next request is read before the current one is handled. */
    method SweepReqs(now: int)
      requires Valid()
      modifies this`requests, this`queue, this`values, this`log, queue
      ensures Valid() && Contents() == Swept(old(Contents()), 0, now)
      ensures forall i :: 0 <= i < |queue| ==> queue[i] in old(queue)
    {
      var walker := requests;
      ghost var k: nat := 0;
      while walker != null
        invariant Valid() && k <= |queue| && walker == NodeAt(queue, k)
        invariant forall i :: 0 <= i < |queue| ==> queue[i] in old(queue)
        invariant Swept(Contents(), k, now) == Swept(old(Contents()), 0, now)
        decreases |queue| - k
      {
        var next := walker.next;
        ghost var before := Contents();
        HandleArpReq(walker, now, k);
        walker, k := next, NextPosition(before, k, now);
      }
    }

    /** One turn of sr_arpcache_timeout. */
    method Timeout(now: int)
      requires Valid()
      modifies this`requests, this`queue, this`values, this`log, entries, queue
      ensures Valid() && Contents() == TimedOut(old(Contents()), now)
      ensures forall i :: 0 <= i < |queue| ==> queue[i] in old(queue)
    {
      var i := 0;
      while i < entries.Length
        modifies entries
        invariant 0 <= i <= entries.Length
        invariant forall j :: 0 <= j < i ==> entries[j] == Aged(old(entries[j]), now)
        invariant forall j :: i <= j < entries.Length ==> entries[j] == old(entries[j])
      {
        if entries[i].valid && now - entries[i].added > TIMEOUT {
          entries[i] := entries[i].(valid := false);
        }
        i := i + 1;
      }
      assert entries[..] == AllAged(old(entries[..]), now);
      SweepReqs(now);
    }

    /** The timeout thread running at these times. */
    method TimeoutTurns(times: seq<int>)
      requires Valid()
      modifies this`requests, this`queue, this`values, this`log, entries, queue
      ensures Valid() && Contents() == TimedOutAt(old(Contents()), times)
      ensures forall i :: 0 <= i < |queue| ==> queue[i] in old(queue)
    {
      for n := 0 to |times|
        invariant Valid() && Contents() == TimedOutAt(old(Contents()), times[..n])
        invariant forall i :: 0 <= i < |queue| ==> queue[i] in old(queue)
      {
        assert times[..n + 1][..n] == times[..n];
        Timeout(times[n]);
      }
      assert times[..|times|] == times;
    }

    /** The part of forward_ip_packet that needs the cache: an entry, or the packet is queued and
        its request handled. The lock is not held throughout: the timeout thread runs at the
        times missed after a failed look-up, at the times queued after the packet was queued, and
        at the times inside between the tests of handle_arpreq and what they decided. dangling: the
        request, known by the pointer queuing returned, was freed before it was used. */
    method Forward(ip: Ip, packet: Packet, missed: seq<int>, queued: seq<int>, now: int, inside: seq<int>)
      returns (found: Option<Entry>, dangling: bool)
      requires Valid()
      modifies this, entries, queue
      ensures Valid() && found == LookupIn(old(entries[..]), ip)
      ensures found.Some? ==> Contents() == old(Contents()) && !dangling
      ensures found.None? ==>
        var r := Run(Router(old(Contents()), Idle, false), ForwardSteps(ip, packet, missed, queued, now, inside));
        Contents() == r.cache && dangling == r.dangling
    {
      dangling := false;
      found := Lookup(ip);
      if found.None? {
        ForwardRun(Contents(), ip, packet, missed, queued, now, inside);
        TimeoutTurns(missed);
        dangling := QueueAndHandle(ip, packet, queued, now, inside);
      }
    }

    method QueueAndHandle(ip: Ip, packet: Packet, queued: seq<int>, now: int, inside: seq<int>)
      returns (dangling: bool)
      requires Valid()
      modifies this, entries, queue
      ensures Valid()
      ensures var r := Run(Router(old(Contents()), ToQueue(ip, packet), false), QueueSteps(queued, now, inside));
        Contents() == r.cache && dangling == r.dangling
    {
      QueueRun(Contents(), ip, packet, queued, now, inside);
      var req := QueueReq(ip, packet);
      TimeoutTurns(queued);
      dangling := HandleInterrupted(req, now, inside);
    }

    /** The node is the only one in the list for its address, if it is in the list. */
    ghost predicate Sole(req: ArpReq)
      reads this, queue
    {
      forall i :: 0 <= i < |queue| && queue[i].ip == req.ip ==> queue[i] == req
    }

    /** handle_arpreq on the main thread: the tests, the timeout thread, and the act. */
    method HandleInterrupted(req: ArpReq, now: int, inside: seq<int>) returns (dangling: bool)
      requires Valid() && Sole(req)
      modifies this`requests, this`queue, this`values, this`log, entries, queue
      ensures Valid()
      ensures var r := Run(Router(old(Contents()), ToTest(req.ip), false), CallSteps(now, inside));
        Contents() == r.cache && dangling == r.dangling
    {
      CallRun(Contents(), req.ip, now, inside);
      var there := StillQueued(req);
      if !there { return true; }
      var due, giveUp := now - req.sent >= 1, req.timesSent >= MAX_ASKS;
      TimeoutTurns(inside);
      if !due { return false; }
      dangling := ActIfThere(req, now, giveUp);
    }

    method ActIfThere(req: ArpReq, now: int, giveUp: bool) returns (dangling: bool)
      requires Valid() && Sole(req)
      modifies this`requests, this`queue, this`values, this`log, queue
      ensures Valid()
      ensures var r := ActedLate(old(Contents()), req.ip, now, giveUp);
        Contents() == r.cache && dangling == r.dangling
    {
      var there := StillQueued(req);
      if !there { return true; }
      ActOn(req, now, giveUp, FindReq(values, req.ip));
      return false;
    }

    /** Whether the node has not been freed: it is then where its address is found, and else its
        address has no request. */
    method StillQueued(req: ArpReq) returns (there: bool)
      requires Valid() && Sole(req)
      ensures var k := FindReq(values, req.ip);
        there == (k < |values|) && (there ==> queue[k] == req)
    {
      var walker := requests;
      ghost var k: nat := 0;
      while walker != null && walker != req
        invariant k <= |queue| && walker == NodeAt(queue, k)
        invariant forall i :: 0 <= i < k ==> queue[i] != req
        decreases |queue| - k
      {
        walker, k := walker.next, k + 1;
      }
      there := walker != null;
    }

    /** The part of deal_arp that handles an answer, with the timeout thread running between
        look-up and insertion. */
    method DealReply(mac: Mac, ip: Ip, between: seq<int>, now: int) returns (req: ArpReq?)
      requires Valid()
      modifies this, entries, queue
      ensures Valid()
      ensures if LookupIn(old(entries[..]), ip).Some? then Contents() == old(Contents())
        else
          && Contents() == Run(Router(old(Contents()), Idle, false), ReplySteps(mac, ip, between, now)).cache
          && Answered(TimedOutAt(old(Contents()), between), Contents(), mac, ip, now)
    {
      req := null;
      var found := Lookup(ip);
      if found.None? {
        ReplyRun(Contents(), mac, ip, between, now);
        StillNotFound(Contents(), ip, between);
        TimeoutTurns(between);
        req := Insert(mac, ip, now);
      }
    }
  }
}
