/** The switch flow table (pox/openflow/flow_table.py). */
module FlowTables {
  import opened Options
  import opened Sequences
  import opened Matches
  import P = Packets
  import opened Actions
  import opened FlowMods

  const ADD: nat := 0
  const MODIFY: nat := 1
  const MODIFY_STRICT: nat := 2
  const DELETE: nat := 3
  const DELETE_STRICT: nat := 4
  const PORT_NONE: nat := 0xFFFF

  class TableEntry {
    const priority: nat
    const cookie: nat
    const idleTimeout: nat
    const hardTimeout: nat
    const fmMatch: Match
    const created: real
    var lastTouched: real
    var actions: seq<Action>

    ghost predicate BuiltFrom(fm: FlowMod, now: real)
      reads this
    {
      Describes(fm, now) && lastTouched == now && actions == fm.actions
    }

    /** The part of it that never changes. */
    predicate Describes(fm: FlowMod, now: real) {
      && priority == fm.priority && fmMatch == fm.fmMatch && cookie == fm.cookie
      && idleTimeout == fm.idleTimeout && hardTimeout == fm.hardTimeout && created == now
    }

    /** TableEntry.from_flow_mod */
    constructor (fm: FlowMod, now: real)
      ensures BuiltFrom(fm, now)
    {
      priority, cookie, idleTimeout, hardTimeout := fm.priority, fm.cookie, fm.idleTimeout, fm.hardTimeout;
      fmMatch, actions := fm.fmMatch, fm.actions;
      created, lastTouched := now, now;
    }

    /** is_matched_by, without the output port filter */
    predicate IsMatchedBy(m: Match, prio: nat, strict: bool) {
      if strict then Same(fmMatch, m) && priority == prio else Encompasses(m, fmMatch)
    }

    /** The body of the modify loop of process_flow_mod. */
    method TakeActions(fm: FlowMod, strict: bool) returns (hit: bool)
      modifies this`actions
      ensures hit == IsMatchedBy(fm.fmMatch, fm.priority, strict)
      ensures actions == if hit then fm.actions else old(actions)
    {
      hit := IsMatchedBy(fm.fmMatch, fm.priority, strict);
      if hit {
        actions := fm.actions;
      }
    }

    /** is_expired */
    predicate IsExpired(now: real)
      reads this
    {
      WouldExpire(now, lastTouched)
    }

    predicate WouldExpire(now: real, touched: real) {
      || (hardTimeout > 0 && now - created > hardTimeout as real)
      || (idleTimeout > 0 && now - touched > idleTimeout as real)
    }

    /** It stays until the hard timeout has passed since its creation, or the idle timeout since its
        last hit; a timeout of 0 never passes. */
    lemma ExpiresExactly(now: real, touched: real)
      ensures !WouldExpire(now, touched) <==>
        && (hardTimeout == 0 || now <= created + hardTimeout as real)
        && (idleTimeout == 0 || now <= touched + idleTimeout as real)
    {
    }

    /** touch_packet */
    method TouchPacket(now: real)
      modifies this`lastTouched
      ensures lastTouched == now
    {
      lastTouched := now;
    }
  }

  /** is_wildcarded: some bit of OFPFW_ALL is set. */
  predicate IsWildcarded(m: Match) {
    m.wildcards.bits * ALL.bits != {} || m.wildcards.srcCount > 0 || m.wildcards.dstCount > 0
  }

  /** The sort key: exact matches go before every priority. */
  function Key(e: TableEntry): nat {
    if IsWildcarded(e.fmMatch) then e.priority else 0x1_0001
  }

  /** The match asks for every field, and for whole addresses. */
  ghost predicate IsExact(m: Match) {
    forall f: Field :: Get(m, f).Some? && (IsNetwork(f) ==> GetNetwork(m, f) == Net(Get(m, f).value, 0))
  }

  lemma WildcardedExactly(m: Match)
    ensures IsWildcarded(m) <==> !IsExact(m)
  {
    if m.wildcards.bits * ALL.bits != {} {
      var i := Member(m.wildcards.bits * ALL.bits);
      assert Get(m, P.FieldAt(i)).None?;
    } else {
      forall f: Field | !IsNetwork(f) ensures Get(m, f).Some? {
        assert Bit(f) in ALL.bits && Bit(f) !in m.wildcards.bits * ALL.bits;
      }
      if IsExact(m) {
        assert Get(m, NwSrc).Some? && GetNetwork(m, NwSrc) == Net(Get(m, NwSrc).value, 0);
        assert Get(m, NwDst).Some? && GetNetwork(m, NwDst) == Net(Get(m, NwDst).value, 0);
      }
    }
  }

  /** a is to be asked before b, whichever came first: a is exact and b is not, or both are
      wildcarded and a has the greater priority. Only a priority beyond the 16 bits of the
      protocol puts a wildcarded entry before an exact one. */
  predicate Outranks(a: TableEntry, b: TableEntry) {
    if IsWildcarded(a.fmMatch) then
      if IsWildcarded(b.fmMatch) then a.priority > b.priority else a.priority > 0x1_0001
    else IsWildcarded(b.fmMatch) && b.priority < 0x1_0001
  }

  /** Sorting by the key is sorting by rank. */
  lemma KeyRanks(a: TableEntry, b: TableEntry)
    ensures Key(a) > Key(b) <==> Outranks(a, b)
  {
  }

  // ---------------------------------------------------------------- list.sort(reverse=True)

  ghost predicate Sorted(t: seq<TableEntry>) {
    forall i, j :: 0 <= i < j < |t| ==> Key(t[i]) >= Key(t[j])
  }

  /** e goes behind every entry whose key is at least its own. */
  function Insert(t: seq<TableEntry>, e: TableEntry): (r: seq<TableEntry>)
    ensures |r| == |t| + 1
  {
    if t == [] || Key(t[|t| - 1]) >= Key(e) then t + [e]
    else Insert(t[..|t| - 1], e) + [t[|t| - 1]]
  }

  function StableSort(s: seq<TableEntry>): (r: seq<TableEntry>)
    ensures |r| == |s|
  {
    if s == [] then [] else Insert(StableSort(s[..|s| - 1]), s[|s| - 1])
  }

  /** The entries of one key, in order. */
  ghost function OfKey(t: seq<TableEntry>, k: nat): seq<TableEntry> {
    if t == [] then [] else OfKey(t[..|t| - 1], k) + if Key(t[|t| - 1]) == k then [t[|t| - 1]] else []
  }

  lemma {:induction false} InsertAt(t: seq<TableEntry>, e: TableEntry) returns (k: nat)
    requires Sorted(t)
    ensures k <= |t| && Insert(t, e) == t[..k] + [e] + t[k..]
    ensures forall i :: 0 <= i < k ==> Key(t[i]) >= Key(e)
    ensures forall i :: k <= i < |t| ==> Key(t[i]) < Key(e)
  {
    if t == [] || Key(t[|t| - 1]) >= Key(e) {
      k := |t|;
    } else {
      var n := |t| - 1;
      k := InsertAt(t[..n], e);
      LastBehind(t, e, k);
    }
  }

  lemma LastBehind(t: seq<TableEntry>, e: TableEntry, k: nat)
    requires k < |t|
    ensures var front := t[..|t| - 1]; (front[..k] + [e] + front[k..]) + [t[|t| - 1]] == t[..k] + [e] + t[k..]
  {
  }

  lemma InsertSorts(t: seq<TableEntry>, e: TableEntry)
    requires Sorted(t)
    ensures Sorted(Insert(t, e))
  {
    var k := InsertAt(t, e);
  }

  /** The part of a one-entry list that has the key. */
  ghost function Only(e: TableEntry, k: nat): seq<TableEntry> {
    if Key(e) == k then [e] else []
  }

  lemma {:induction false} InsertIsStable(t: seq<TableEntry>, e: TableEntry, k: nat)
    requires Sorted(t)
    ensures OfKey(Insert(t, e), k) == OfKey(t, k) + Only(e, k)
  {
    if t == [] || Key(t[|t| - 1]) >= Key(e) {
      OfKeyAppend(t, e, k);
    } else {
      var front, last := t[..|t| - 1], t[|t| - 1];
      InsertIsStable(front, e, k);
      OfKeyAppend(Insert(front, e), last, k);
      OfKeyAppend(front, last, k);
      assert t == front + [last];
      Swap(OfKey(front, k), Only(e, k), Only(last, k));
    }
  }

  lemma Swap(s: seq<TableEntry>, x: seq<TableEntry>, y: seq<TableEntry>)
    requires x == [] || y == []
    ensures (s + x) + y == (s + y) + x
  {
  }

  lemma OfKeyAppend(t: seq<TableEntry>, e: TableEntry, k: nat)
    ensures OfKey(t + [e], k) == OfKey(t, k) + Only(e, k)
  {
  }

  lemma {:induction false} InsertKeepsEntries(t: seq<TableEntry>, e: TableEntry)
    ensures multiset(Insert(t, e)) == multiset(t) + multiset{e}
  {
    if t != [] && Key(t[|t| - 1]) < Key(e) {
      var front, last := t[..|t| - 1], t[|t| - 1];
      InsertKeepsEntries(front, e);
      assert t == front + [last];
    }
  }

  lemma {:induction false} StableSortSorts(s: seq<TableEntry>)
    ensures Sorted(StableSort(s)) && multiset(StableSort(s)) == multiset(s)
  {
    if s != [] {
      var front, last := s[..|s| - 1], s[|s| - 1];
      StableSortSorts(front);
      InsertSorts(StableSort(front), last);
      InsertKeepsEntries(StableSort(front), last);
      assert s == front + [last];
    }
  }

  /** sort(reverse=True) orders by descending key, loses nothing, and keeps the order of
      entries with equal keys. */
  lemma {:induction false} StableSortIsStable(s: seq<TableEntry>, k: nat)
    ensures Sorted(StableSort(s)) && multiset(StableSort(s)) == multiset(s)
    ensures OfKey(StableSort(s), k) == OfKey(s, k)
  {
    StableSortSorts(s);
    if s != [] {
      var front, last := s[..|s| - 1], s[|s| - 1];
      StableSortSorts(front);
      StableSortIsStable(front, k);
      InsertIsStable(StableSort(front), last, k);
    }
  }

  /** A sorted table is left alone, so appending and sorting is inserting. */
  lemma {:induction false} SortingSorted(t: seq<TableEntry>)
    requires Sorted(t)
    ensures StableSort(t) == t
  {
    if t != [] {
      var n := |t| - 1;
      SortingSorted(t[..n]);
      assert t == t[..n] + [t[n]];
      if n > 0 { assert Key(t[n - 1]) >= Key(t[n]); }
    }
  }

  // ---------------------------------------------------------------- removal

  /** The table without the given entries. */
  function Without(t: seq<TableEntry>, gone: set<TableEntry>): seq<TableEntry> {
    if t == [] then []
    else if t[0] in gone then Without(t[1..], gone)
    else [t[0]] + Without(t[1..], gone)
  }

  lemma {:induction false} WithoutMembers(t: seq<TableEntry>, gone: set<TableEntry>)
    ensures forall e :: e in Without(t, gone) <==> e in t && e !in gone
  {
    if t != [] { WithoutMembers(t[1..], gone); }
  }

  lemma RemainingAreOld(t: seq<TableEntry>, gone: set<TableEntry>)
    ensures forall i :: 0 <= i < |Without(t, gone)| ==> Without(t, gone)[i] in t && Without(t, gone)[i] !in gone
  {
    WithoutMembers(t, gone);
    forall i | 0 <= i < |Without(t, gone)|
      ensures Without(t, gone)[i] in t && Without(t, gone)[i] !in gone
    {
      assert Without(t, gone)[i] in Without(t, gone);
    }
  }

  lemma {:induction false} WithoutTwice(t: seq<TableEntry>, a: set<TableEntry>, b: set<TableEntry>)
    ensures Without(Without(t, a), b) == Without(t, a + b)
  {
    if t != [] {
      WithoutTwice(t[1..], a, b);
      if t[0] !in a {
        assert Without(t, a)[1..] == Without(t[1..], a);
      }
    }
  }

  lemma {:induction false} WithoutNone(t: seq<TableEntry>, gone: set<TableEntry>)
    requires forall j :: 0 <= j < |t| ==> t[j] !in gone
    ensures Without(t, gone) == t
  {
    if t != [] { WithoutNone(t[1..], gone); }
  }

  lemma {:induction false} WithoutAt(t: seq<TableEntry>, i: nat)
    requires Distinct(t) && i < |t|
    ensures Without(t, {t[i]}) == t[..i] + t[i + 1..]
  {
    if i == 0 {
      WithoutNone(t[1..], {t[0]});
      assert t[..0] + t[1..] == t[1..];
    } else {
      WithoutAt(t[1..], i - 1);
      assert t[1..][i - 1] == t[i];
      DropSecond(t, i);
    }
  }

  lemma DropSecond(t: seq<TableEntry>, i: nat)
    requires 0 < i < |t|
    ensures [t[0]] + (t[1..][..i - 1] + t[1..][i..]) == t[..i] + t[i + 1..]
  {
  }

  /** The matching entries, in table order. */
  function Matching(t: seq<TableEntry>, m: Match, prio: nat, strict: bool): seq<TableEntry> {
    if t == [] then []
    else IfMatched(t[0], m, prio, strict) + Matching(t[1..], m, prio, strict)
  }

  lemma {:induction false} MatchingMembers(t: seq<TableEntry>, m: Match, prio: nat, strict: bool)
    ensures forall e :: e in Matching(t, m, prio, strict) <==> e in t && e.IsMatchedBy(m, prio, strict)
  {
    if t != [] { MatchingMembers(t[1..], m, prio, strict); }
  }

  lemma MatchingIsFromTable(t: seq<TableEntry>, m: Match, prio: nat, strict: bool)
    ensures forall i :: 0 <= i < |Matching(t, m, prio, strict)| ==> Matching(t, m, prio, strict)[i] in t
  {
    MatchingMembers(t, m, prio, strict);
    var r := Matching(t, m, prio, strict);
    forall i | 0 <= i < |r| ensures r[i] in t {
      assert r[i] in r;
    }
  }

  // ---------------------------------------------------------------- the invariant

  /** a may stand somewhere before b: b does not outrank it; if it does not outrank b either, it
      was added earlier; and the two differ in match or priority. */
  ghost predicate MayPrecede(a: TableEntry, b: TableEntry, addedAt: map<TableEntry, nat>) {
    && a != b && a in addedAt && b in addedAt
    && !Outranks(b, a)
    && (!Outranks(a, b) ==> addedAt[a] < addedAt[b])
    && !(Same(a.fmMatch, b.fmMatch) && a.priority == b.priority)
  }

  ghost predicate Ordered(t: seq<TableEntry>, addedAt: map<TableEntry, nat>) {
    forall i, j :: 0 <= i < j < |t| ==> MayPrecede(t[i], t[j], addedAt)
  }

  /** In an ordered table an exact entry stands before every wildcarded one, of wildcarded entries
      the one of greater priority first, and of others the older one. */
  lemma StandsBefore(t: seq<TableEntry>, addedAt: map<TableEntry, nat>, i: nat, j: nat)
    requires Ordered(t, addedAt) && i < |t| && j < |t| && i != j
    requires t[i].priority < 0x1_0000 && t[j].priority < 0x1_0000
    ensures var a, b := t[i], t[j];
      i < j <==> if IsExact(a.fmMatch) != IsExact(b.fmMatch) then IsExact(a.fmMatch)
                 else if !IsExact(a.fmMatch) && a.priority != b.priority then a.priority > b.priority
                 else a in addedAt && b in addedAt && addedAt[a] < addedAt[b]
  {
    WildcardedExactly(t[i].fmMatch);
    WildcardedExactly(t[j].fmMatch);
    assert if i < j then MayPrecede(t[i], t[j], addedAt) else MayPrecede(t[j], t[i], addedAt);
  }

  lemma {:induction false} RemovingKeepsOrder(t: seq<TableEntry>, gone: set<TableEntry>, addedAt: map<TableEntry, nat>)
    requires Ordered(t, addedAt)
    ensures Ordered(Without(t, gone), addedAt)
  {
    if t != [] {
      RemovingKeepsOrder(t[1..], gone, addedAt);
      var r := Without(t[1..], gone);
      RemainingAreOld(t[1..], gone);
      if t[0] !in gone {
        forall j | 0 <= j < |r| ensures MayPrecede(t[0], r[j], addedAt) {
          assert r[j] in t[1..];
        }
      }
    }
  }

  /** What makes e admissible next to x: a different match or priority. */
  ghost predicate Differs(x: TableEntry, e: TableEntry) {
    x != e && !(Same(x.fmMatch, e.fmMatch) && x.priority == e.priority)
  }

  lemma OldAndNew(x: TableEntry, e: TableEntry, addedAt: map<TableEntry, nat>, now: nat)
    requires x in addedAt && addedAt[x] < now && Differs(x, e)
    ensures Key(x) >= Key(e) ==> MayPrecede(x, e, addedAt[e := now])
    ensures Key(x) < Key(e) ==> MayPrecede(e, x, addedAt[e := now])
  {
  }

  /** Adding a new entry with the latest stamp, when no entry has its match and priority. */
  lemma InsertingKeepsOrder(t: seq<TableEntry>, e: TableEntry, addedAt: map<TableEntry, nat>, now: nat)
    requires Ordered(t, addedAt)
    requires forall i :: 0 <= i < |t| ==> t[i] in addedAt && addedAt[t[i]] < now && Differs(t[i], e)
    ensures Ordered(Insert(t, e), addedAt[e := now])
  {
    OrderedIsSorted(t, addedAt);
    var k := InsertAt(t, e);
    var r := t[..k] + [e] + t[k..];
    forall i, j | 0 <= i < j < |r| ensures MayPrecede(r[i], r[j], addedAt[e := now]) {
      if j == k {
        OldAndNew(t[i], e, addedAt, now);
      } else if i == k {
        OldAndNew(t[j - 1], e, addedAt, now);
      } else {
        var x, y := if i < k then i else i - 1, if j < k then j else j - 1;
        assert r[i] == t[x] && r[j] == t[y] && MayPrecede(t[x], t[y], addedAt);
      }
    }
  }

  ghost predicate Distinct(t: seq<TableEntry>) {
    forall a, b :: 0 <= a < b < |t| ==> t[a] != t[b]
  }

  lemma OrderedIsSorted(t: seq<TableEntry>, addedAt: map<TableEntry, nat>)
    requires Ordered(t, addedAt)
    ensures Sorted(t) && Distinct(t)
  {
  }

  // ---------------------------------------------------------------- the table

  datatype Outcome = Added(entry: TableEntry) | Modified(entries: seq<TableEntry>) | Removed(entries: seq<TableEntry>)
                   | NotImplemented | UnknownCommand | Found(entry: TableEntry) | NoEntry

  /** What may happen to a table, in any order. */
  datatype TableEvent =
    | Mod(fm: FlowMod, now: real)
    | ExpireAt(now: real)
    | RemoveIf(m: Match, prio: nat, strict: bool)
    | Hit(p: P.Packet, inPort: nat, now: real)

  /** e is the right entry for a packet: it admits it, no admitting entry outranks it, and every
      other admitting entry that it does not outrank was added later. */
  ghost predicate BestFor(e: TableEntry, t: seq<TableEntry>, addedAt: map<TableEntry, nat>, p: P.Packet, inPort: nat) {
    && e in t && e in addedAt && P.Admits(e.fmMatch, p, inPort)
    && forall i :: 0 <= i < |t| && P.Admits(t[i].fmMatch, p, inPort) && t[i] != e ==>
         t[i] in addedAt && !Outranks(t[i], e) && (!Outranks(e, t[i]) ==> addedAt[e] < addedAt[t[i]])
  }

  lemma FirstHitIsBest(t: seq<TableEntry>, n: nat, addedAt: map<TableEntry, nat>, p: P.Packet, inPort: nat)
    requires n < |t| && Ordered(t, addedAt) && t[n] in addedAt && P.Admits(t[n].fmMatch, p, inPort)
    requires forall i :: 0 <= i < n ==> !P.Admits(t[i].fmMatch, p, inPort)
    ensures BestFor(t[n], t, addedAt, p, inPort)
  {
  }

  /** CHECK_OVERLAP is bit 1 of the flags. */
  predicate Unsupported(fm: FlowMod) {
    fm.flags / 2 % 2 == 1 || fm.outPort != PORT_NONE
  }

  /** What a flow mod does to the list of entries. Both delete commands remove strictly, as
      the code does. */
  ghost predicate ModStep(fm: FlowMod, now: real, before: seq<TableEntry>, after: seq<TableEntry>, r: Outcome) {
    var same := Matching(before, fm.fmMatch, fm.priority, true);
    var hits := Matching(before, fm.fmMatch, fm.priority, fm.command == MODIFY_STRICT);
    if Unsupported(fm) then r.NotImplemented? && after == before
    else if fm.command == ADD then
      r.Added? && r.entry.Describes(fm, now) && after == Insert(Without(before, SwitchFlowTable.Set(same)), r.entry)
    else if fm.command == MODIFY || fm.command == MODIFY_STRICT then
      if hits == [] then r.Added? && r.entry.Describes(fm, now) && after == Insert(before, r.entry)
      else r == Modified(hits) && after == before
    else if fm.command == DELETE || fm.command == DELETE_STRICT then
      r == Removed(same) && after == Without(before, SwitchFlowTable.Set(same))
    else r.UnknownCommand? && after == before
  }

  /** The overlap check is asked for (flag 2), or an output port is named. */
  predicate IsRefused(fm: FlowMod) { fm.flags % 4 >= 2 || fm.outPort != 0xFFFF }

  /** The entry has the match and the priority of the flow mod. */
  predicate IsSameRule(x: TableEntry, fm: FlowMod) { Same(x.fmMatch, fm.fmMatch) && x.priority == fm.priority }

  /** What command 1 modifies: entries whose match is encompassed; and command 2: the same rule. */
  predicate IsModified(x: TableEntry, fm: FlowMod) {
    if fm.command == 1 then Encompasses(fm.fmMatch, x.fmMatch) else IsSameRule(x, fm)
  }

  predicate IsMadeFrom(x: TableEntry, fm: FlowMod, now: real) {
    && x.created == now && x.fmMatch == fm.fmMatch && x.priority == fm.priority && x.cookie == fm.cookie
    && x.idleTimeout == fm.idleTimeout && x.hardTimeout == fm.hardTimeout
  }

  /** The outcome of a flow mod by its command number: 0 replaces the entry of the same match and
      priority, 1 and 2 modify or else add, 3 and 4 remove that entry; any other changes nothing. */
  lemma ModOutcome(fm: FlowMod, now: real, before: seq<TableEntry>, after: seq<TableEntry>, r: Outcome, x: TableEntry)
    requires ModStep(fm, now, before, after, r) && !(r.Added? && x == r.entry)
    ensures r.NotImplemented? <==> IsRefused(fm)
    ensures r.UnknownCommand? <==> !IsRefused(fm) && fm.command > 4
    ensures r.NotImplemented? || r.UnknownCommand? ==> after == before
    ensures !IsRefused(fm) && fm.command in {0, 3, 4} ==> (x in after <==> x in before && !IsSameRule(x, fm))
    ensures !IsRefused(fm) && fm.command in {1, 2} ==> (x in after <==> x in before)
    ensures r.Added? <==>
      !IsRefused(fm) && (fm.command == 0 || (fm.command in {1, 2} && forall e :: e in before ==> !IsModified(e, fm)))
    ensures r.Added? ==> r.entry in after && IsMadeFrom(r.entry, fm, now)
    ensures r.Modified? ==> (x in r.entries <==> x in before && IsModified(x, fm))
    ensures r.Removed? <==> !IsRefused(fm) && fm.command in {3, 4}
  {
    var same := SwitchFlowTable.Set(Matching(before, fm.fmMatch, fm.priority, true));
    var strict := fm.command == MODIFY_STRICT;
    MatchingMembers(before, fm.fmMatch, fm.priority, true);
    MatchingMembers(before, fm.fmMatch, fm.priority, strict);
    WithoutMembers(before, same);
    if r.Added? {
      InsertedMember(before, r.entry, x);
      InsertedMember(Without(before, same), r.entry, x);
    }
    NoneMatching(before, fm.fmMatch, fm.priority, strict);
  }

  lemma InsertedMember(t: seq<TableEntry>, e: TableEntry, x: TableEntry)
    ensures e in Insert(t, e) && (x in Insert(t, e) <==> x in t || x == e)
  {
    InsertKeepsEntries(t, e);
    assert x in Insert(t, e) <==> x in multiset(Insert(t, e));
    assert e in multiset(Insert(t, e)) && (x in t <==> x in multiset(t));
  }

  lemma NoneMatching(t: seq<TableEntry>, m: Match, prio: nat, strict: bool)
    ensures Matching(t, m, prio, strict) == [] <==> forall i :: 0 <= i < |t| ==> !t[i].IsMatchedBy(m, prio, strict)
  {
    MatchingMembers(t, m, prio, strict);
    var r := Matching(t, m, prio, strict);
    if r != [] {
      assert r[0] in r;
    }
    if i: nat :| i < |t| && t[i].IsMatchedBy(m, prio, strict) {
      assert t[i] in r;
    }
  }

  /** A table with what its entries held at some moment. */
  datatype Snapshot = Snapshot(table: seq<TableEntry>, actions: map<TableEntry, seq<Action>>,
                               touched: map<TableEntry, real>)

  /** One event in the history of a table. */
  datatype Change = Change(before: Snapshot, after: Snapshot, r: Outcome)

  /** Entries that stay keep their actions and the time of their last hit. */
  ghost predicate Kept(c: Change) {
    && (forall x {:trigger c.after.actions[x]} :: x in c.after.table && x in c.before.table ==>
          x in c.after.actions && x in c.before.actions && c.after.actions[x] == c.before.actions[x])
    && KeptTouched(c)
  }

  ghost predicate KeptTouched(c: Change) {
    forall x {:trigger c.after.touched[x]} :: x in c.after.table && x in c.before.table ==>
      x in c.after.touched && x in c.before.touched && c.after.touched[x] == c.before.touched[x]
  }

  /** An added entry has the actions of the flow mod and counts as hit now; a modify gives the
      new actions to the matching entries and to no other. */
  ghost predicate ModContents(fm: FlowMod, now: real, c: Change) {
    match c.r
    case Added(e) =>
      && Kept(c) && e in c.after.actions && c.after.actions[e] == fm.actions
      && e in c.after.touched && c.after.touched[e] == now
    case Modified(_) =>
      && KeptTouched(c)
      && (forall x {:trigger c.after.actions[x]} :: x in c.after.table ==>
            && x in c.after.actions && x in c.before.actions
            && c.after.actions[x] == (if x.IsMatchedBy(fm.fmMatch, fm.priority, fm.command == MODIFY_STRICT)
                                      then fm.actions else c.before.actions[x]))
    case _ => Kept(c)
  }

  /** The entries that go are those whose timeouts have passed. */
  ghost predicate ExpiryFits(now: real, c: Change) {
    && c.r.Removed? && c.after.table == Without(c.before.table, SwitchFlowTable.Set(c.r.entries))
    && (forall x {:trigger x in c.r.entries} :: x in c.r.entries ==> x in c.before.table)
    && (forall x {:trigger c.before.touched[x]} :: x in c.before.table ==>
          x in c.before.touched && (x in c.r.entries <==> x.WouldExpire(now, c.before.touched[x])))
  }

  /** Each change starts from the table the one before it left. */
  ghost predicate Chained(start: Snapshot, history: seq<Change>, end: Snapshot)
    decreases |history|
  {
    if history == [] then start == end
    else
      var last := history[|history| - 1];
      last.after == end && Chained(start, history[..|history| - 1], last.before)
  }

  ghost predicate ChangeFits(e: TableEvent, c: Change) {
    match e
    case Mod(fm, now) => ModStep(fm, now, c.before.table, c.after.table, c.r) && ModContents(fm, now, c)
    case ExpireAt(now) => ExpiryFits(now, c) && Kept(c)
    case RemoveIf(m, prio, strict) =>
      && c.r == Removed(Matching(c.before.table, m, prio, strict))
      && c.after.table == Without(c.before.table, SwitchFlowTable.Set(c.r.entries)) && Kept(c)
    case Hit(p, inPort, now) =>
      c.after.table == c.before.table && HitFits(c.before.table, p, inPort, c.r) && HitContents(now, c)
  }

  /** Every change is what its event asks for. */
  ghost predicate AllFit(events: seq<TableEvent>, history: seq<Change>) {
    && |history| <= |events|
    && forall i {:trigger history[i]} :: 0 <= i < |history| ==> ChangeFits(events[i], history[i])
  }

  ghost predicate Stamped(t: seq<TableEntry>, addedAt: map<TableEntry, nat>) {
    Ordered(t, addedAt) && forall i :: 0 <= i < |t| ==> t[i] in addedAt
  }

  /** The event met an ordered table, and a hit was the best entry of it. */
  ghost predicate MetInOrder(e: TableEvent, c: Change, addedAt: map<TableEntry, nat>) {
    && Stamped(c.before.table, addedAt)
    && (e.Hit? && c.r.Found? ==> BestFor(c.r.entry, c.before.table, addedAt, e.p, e.inPort))
  }

  ghost predicate AllInOrder(events: seq<TableEvent>, history: seq<Change>, addedAt: map<TableEntry, nat>) {
    && |history| <= |events|
    && forall i {:trigger history[i]} :: 0 <= i < |history| ==> MetInOrder(events[i], history[i], addedAt)
  }

  /** No stamp is lost or changed. */
  ghost predicate Grows(a: map<TableEntry, nat>, b: map<TableEntry, nat>) {
    forall e :: e in a ==> e in b && a[e] == b[e]
  }

  /** The hit counts as such, and nothing else changes. */
  ghost predicate HitContents(now: real, c: Change) {
    && (forall x {:trigger c.after.actions[x]} :: x in c.after.table ==>
          x in c.after.actions && x in c.before.actions && c.after.actions[x] == c.before.actions[x])
    && (forall x {:trigger c.after.touched[x]} :: x in c.after.table ==>
          && x in c.after.touched && x in c.before.touched
          && c.after.touched[x] == (if c.r == Found(x) then now else c.before.touched[x]))
  }

  /** The hit is the first entry that admits the packet. */
  ghost predicate HitFits(t: seq<TableEntry>, p: P.Packet, inPort: nat, r: Outcome) {
    match r
    case Found(e) => exists n :: 0 <= n < |t| && t[n] == e && P.Admits(e.fmMatch, p, inPort)
                       && forall i :: 0 <= i < n ==> !P.Admits(t[i].fmMatch, p, inPort)
    case NoEntry => forall i :: 0 <= i < |t| ==> !P.Admits(t[i].fmMatch, p, inPort)
    case _ => false
  }

  class SwitchFlowTable {
    var table: seq<TableEntry>
    ghost var addedAt: map<TableEntry, nat>  // when each entry was added
    ghost var clock: nat

    ghost predicate Valid()
      reads this
    {
      && Ordered(table, addedAt)
      && forall i :: 0 <= i < |table| ==> table[i] in addedAt && addedAt[table[i]] < clock
    }

    constructor ()
      ensures Valid() && table == []
    {
      table, addedAt, clock := [], map[], 0;
    }

    /** add_entry */
    method AddEntry(e: TableEntry)
      requires Valid()
      requires forall i :: 0 <= i < |table| ==> Differs(table[i], e)
      modifies this
      ensures Valid() && table == Insert(old(table), e)
      ensures addedAt == old(addedAt)[e := old(clock)]
    {
      AppendAndSort(table, e, addedAt);
      InsertingKeepsOrder(table, e, addedAt, clock);
      InsertMembers(table, e);
      table := StableSort(table + [e]);
      addedAt := addedAt[e := clock];
      clock := clock + 1;
    }

    /** list.remove: the first identical entry goes. */
    method RemoveEntry(e: TableEntry)
      requires Valid() && e in table
      modifies this`table
      ensures Valid() && table == Without(old(table), {e})
    {
      var i := 0;
      while table[i] != e
        invariant 0 <= i < |table| && forall j :: 0 <= j < i ==> table[j] != e
        decreases |table| - i
      {
        i := i + 1;
      }
      OrderedIsSorted(table, addedAt);
      WithoutAt(table, i);
      RemovingKeepsOrder(table, {e}, addedAt);
      table := table[..i] + table[i + 1..];
    }

    /** The loops that remove a list of entries one by one. */
    method RemoveAll(entries: seq<TableEntry>)
      requires Valid()
      requires forall i :: 0 <= i < |entries| ==> entries[i] in table
      requires Distinct(entries)
      modifies this`table
      ensures Valid() && table == Without(old(table), Set(entries))
    {
      WithoutNone(table, {});
      assert Set(entries[..0]) == {};
      for n := 0 to |entries|
        invariant Valid() && table == Without(old(table), Set(entries[..n]))
      {
        NextToRemove(old(table), entries, n);
        RemoveEntry(entries[n]);
      }
      assert entries[..|entries|] == entries;
    }

    static function Set(entries: seq<TableEntry>): set<TableEntry> {
      set e | e in entries
    }

    /** remove_matching_entries */
    method RemoveMatchingEntries(m: Match, prio: nat, strict: bool) returns (removed: seq<TableEntry>)
      requires Valid()
      modifies this`table
      ensures Valid() && removed == Matching(old(table), m, prio, strict)
      ensures table == Without(old(table), Set(removed))
      ensures forall i :: 0 <= i < |table| ==> table[i] in old(table) && !table[i].IsMatchedBy(m, prio, strict)
    {
      removed := Matching(table, m, prio, strict);
      OrderedIsSorted(table, addedAt);
      MatchingIsDistinct(table, m, prio, strict);
      MatchingMembers(table, m, prio, strict);
      MatchingIsFromTable(table, m, prio, strict);
      RemoveAll(removed);
      WithoutMembers(old(table), Set(removed));
      forall i | 0 <= i < |table| ensures table[i] in old(table) && !table[i].IsMatchedBy(m, prio, strict) {
        var e := table[i];
        assert e in old(table) && e !in Set(removed);
        var j :| 0 <= j < |old(table)| && old(table)[j] == e;
      }
    }

    /** remove_expired_entries */
    method RemoveExpiredEntries(now: real) returns (removed: seq<TableEntry>)
      requires Valid()
      modifies this`table
      ensures Valid() && table == Without(old(table), Set(removed))
      ensures forall i :: 0 <= i < |old(table)| ==> (old(table)[i] in removed <==> old(table)[i].IsExpired(now))
      ensures forall e :: e in removed ==> e in old(table)
      ensures forall i :: 0 <= i < |table| ==> table[i] in old(table)
    {
      removed := ExpiredEntries(now);
      RemoveAll(removed);
      RemainingAreOld(old(table), Set(removed));
    }

    /** expired_entries */
    method ExpiredEntries(now: real) returns (expired: seq<TableEntry>)
      requires Valid()
      ensures Distinct(expired)
      ensures forall i :: 0 <= i < |expired| ==> expired[i] in table
      ensures forall i :: 0 <= i < |table| ==> (table[i] in expired <==> table[i].IsExpired(now))
    {
      expired := [];
      OrderedIsSorted(table, addedAt);
      for n := 0 to |table|
        invariant forall i :: 0 <= i < |expired| ==> expired[i] in table[..n] && expired[i].IsExpired(now)
        invariant forall i :: 0 <= i < n && table[i].IsExpired(now) ==> table[i] in expired
        invariant Distinct(expired)
      {
        assert table[n] !in table[..n];
        assert table[..n + 1] == table[..n] + [table[n]];
        if table[n].IsExpired(now) {
          expired := expired + [table[n]];
        }
      }
    }

    /** entry_for_packet: the first hit is the best entry. */
    method EntryForPacket(p: P.Packet, inPort: nat) returns (e: Option<TableEntry>)
      requires Valid()
      ensures HitFits(table, p, inPort, if e.Some? then Found(e.value) else NoEntry)
      ensures e.Some? ==> BestFor(e.value, table, addedAt, p, inPort)
    {
      for n := 0 to |table|
        invariant forall i :: 0 <= i < n ==> !P.Admits(table[i].fmMatch, p, inPort)
      {
        if P.Admits(table[n].fmMatch, p, inPort) {
          FirstHitIsBest(table, n, addedAt, p, inPort);
          return Some(table[n]);
        }
      }
      return None;
    }

    /** The modify loop of process_flow_mod: every matching entry gets the new actions. */
    method ModifyEntries(fm: FlowMod, strict: bool) returns (modified: seq<TableEntry>)
      requires Valid()
      modifies table
      ensures modified == Matching(table, fm.fmMatch, fm.priority, strict)
      ensures forall i :: 0 <= i < |table| ==>
        table[i].actions == if table[i].IsMatchedBy(fm.fmMatch, fm.priority, strict) then fm.actions
                            else old(table[i].actions)
      ensures forall i :: 0 <= i < |table| ==> table[i].lastTouched == old(table[i].lastTouched)
    {
      OrderedIsSorted(table, addedAt);
      modified := ModifyAll(fm, strict);
    }

    /** The loop, which needs of the order only that no entry occurs twice. */
    method ModifyAll(fm: FlowMod, strict: bool) returns (modified: seq<TableEntry>)
      requires Distinct(table)
      modifies table
      ensures modified == Matching(table, fm.fmMatch, fm.priority, strict)
      ensures forall i :: 0 <= i < |table| ==>
        table[i].actions == if table[i].IsMatchedBy(fm.fmMatch, fm.priority, strict) then fm.actions
                            else old(table[i].actions)
      ensures forall i :: 0 <= i < |table| ==> table[i].lastTouched == old(table[i].lastTouched)
    {
      modified := [];
      assert table[..0] == [];
      for n := 0 to |table|
        invariant modified == Matching(table[..n], fm.fmMatch, fm.priority, strict)
        invariant forall i :: 0 <= i < n ==>
          table[i].actions == if table[i].IsMatchedBy(fm.fmMatch, fm.priority, strict) then fm.actions
                              else old(table[i].actions)
        invariant forall i :: n <= i < |table| ==> table[i].actions == old(table[i].actions)
        invariant forall i :: 0 <= i < |table| ==> table[i].lastTouched == old(table[i].lastTouched)
      {
        modified := ModifyEntry(table[n], fm, strict, modified, n);
      }
      assert table[..|table|] == table;
    }

    /** Its body. */
    method ModifyEntry(entry: TableEntry, fm: FlowMod, strict: bool, modified: seq<TableEntry>, ghost n: nat)
      returns (more: seq<TableEntry>)
      requires n < |table| && entry == table[n] && modified == Matching(table[..n], fm.fmMatch, fm.priority, strict)
      modifies entry`actions
      ensures more == Matching(table[..n + 1], fm.fmMatch, fm.priority, strict)
      ensures entry.actions == if entry.IsMatchedBy(fm.fmMatch, fm.priority, strict) then fm.actions
                               else old(entry.actions)
    {
      MatchingOneMore(table, n, fm.fmMatch, fm.priority, strict);
      var hit := entry.TakeActions(fm, strict);
      more := if hit then modified + [entry] else modified;
    }

    /** process_flow_mod */
    method ProcessFlowMod(fm: FlowMod, now: real) returns (r: Outcome)
      requires Valid()
      modifies this, table
      ensures Valid() && ModStep(fm, now, old(table), table, r) && Grows(old(addedAt), addedAt)
      ensures r.Added? ==> fresh(r.entry) && r.entry.BuiltFrom(fm, now)
      ensures forall e :: e in old(table) ==> e.lastTouched == old(e.lastTouched)
      ensures !r.Modified? ==> forall e :: e in old(table) ==> e.actions == old(e.actions)
      ensures r.Modified? ==> forall i :: 0 <= i < |table| ==>
        var hit := table[i].IsMatchedBy(fm.fmMatch, fm.priority, fm.command == MODIFY_STRICT);
        table[i].actions == if hit then fm.actions else old(table[i].actions)
    {
      if fm.flags / 2 % 2 == 1 { return NotImplemented; }
      if fm.outPort != PORT_NONE { return NotImplemented; }
      if fm.command == ADD {
        var removed := RemoveMatchingEntries(fm.fmMatch, fm.priority, true);
        var e := new TableEntry(fm, now);
        AddEntry(e);
        return Added(e);
      } else if fm.command == MODIFY || fm.command == MODIFY_STRICT {
        var strict := fm.command == MODIFY_STRICT;
        var modified := ModifyEntries(fm, strict);
        if |modified| == 0 {
          var e := new TableEntry(fm, now);
          NothingMatched(table, fm, strict, e);
          AddEntry(e);
          return Added(e);
        }
        return Modified(modified);
      } else if fm.command == DELETE || fm.command == DELETE_STRICT {
        var removed := RemoveMatchingEntries(fm.fmMatch, fm.priority, true);
        return Removed(removed);
      }
      return UnknownCommand;
    }

    function View(): (s: Snapshot)
      reads this, table
      ensures s.table == table
      ensures forall e :: e in table ==> e in s.actions && s.actions[e] == e.actions
      ensures forall e :: e in table ==> e in s.touched && s.touched[e] == e.lastTouched
    {
      Snapshot(table, map e | e in table :: e.actions, map e | e in table :: e.lastTouched)
    }

    /** A flow mod as an event. */
    method HandleMod(fm: FlowMod, now: real) returns (r: Outcome)
      requires Valid()
      modifies this, table
      ensures Valid() && ChangeFits(Mod(fm, now), Change(old(View()), View(), r)) && Grows(old(addedAt), addedAt)
      ensures forall i :: 0 <= i < |table| ==> table[i] in old(table) || fresh(table[i])
    {
      ghost var t0 := table;
      r := ProcessFlowMod(fm, now);
      MembersAfterMod(fm, now, t0, table, r);
      if r.Added? { AddedIsThere(fm, now, t0, table, r); }
    }

    /** A packet as an event. */
    method HandleHit(p: P.Packet, inPort: nat, now: real) returns (r: Outcome)
      requires Valid()
      modifies table
      ensures Valid() && ChangeFits(Hit(p, inPort, now), Change(old(View()), View(), r))
    {
      var hit := EntryForPacket(p, inPort);
      if hit.Some? {
        hit.value.TouchPacket(now);
        r := Found(hit.value);
      } else {
        r := NoEntry;
      }
    }

    /** The expiry timer as an event. */
    method HandleExpiry(now: real) returns (r: Outcome)
      requires Valid()
      modifies this`table
      ensures Valid() && ChangeFits(ExpireAt(now), Change(old(View()), View(), r))
      ensures forall i :: 0 <= i < |table| ==> table[i] in old(table)
    {
      var removed := RemoveExpiredEntries(now);
      r := Removed(removed);
    }

    /** A removal as an event. */
    method HandleRemoval(m: Match, prio: nat, strict: bool) returns (r: Outcome)
      requires Valid()
      modifies this`table
      ensures Valid() && ChangeFits(RemoveIf(m, prio, strict), Change(old(View()), View(), r))
      ensures forall i :: 0 <= i < |table| ==> table[i] in old(table)
    {
      var removed := RemoveMatchingEntries(m, prio, strict);
      r := Removed(removed);
    }

    /** One event. */
    method Handle(e: TableEvent) returns (c: Change)
      requires Valid()
      modifies this, table
      ensures Valid() && c.before == old(View()) && c.after == View() && ChangeFits(e, c)
      ensures Grows(old(addedAt), addedAt)
      ensures forall i :: 0 <= i < |table| ==> table[i] in old(table) || fresh(table[i])
    {
      var before := View();
      var r: Outcome;
      match e {
        case Mod(fm, now) =>
          r := HandleMod(fm, now);
        case ExpireAt(now) =>
          r := HandleExpiry(now);
        case RemoveIf(m, prio, strict) =>
          r := HandleRemoval(m, prio, strict);
        case Hit(p, inPort, now) =>
          r := HandleHit(p, inPort, now);
      }
      c := Change(before, View(), r);
    }

    /** Any run of flow mods, removals, expiries and packets: every event changes the table and
        its entries as it should; before every event and at the end the table is ordered: exact
        matches first, then by priority, ties by age, and no two entries with the same match and
        priority; and every hit is the best entry that admits the packet. */
    method Run(events: seq<TableEvent>) returns (history: seq<Change>)
      requires Valid()
      modifies this, table
      ensures Valid() && |history| == |events|
      ensures AllFit(events, history) && Chained(old(View()), history, View())
      ensures AllInOrder(events, history, addedAt) && Stamped(table, addedAt)
    {
      history := [];
      ghost var start, current := View(), View();
      for n := 0 to |events|
        invariant Valid() && |history| == n && current == View()
        invariant forall i :: 0 <= i < |table| ==> table[i] in old(table) || fresh(table[i])
        invariant AllFit(events, history)
        invariant Chained(start, history, current)
        invariant AllInOrder(events, history, addedAt)
      {
        ghost var stamps := addedAt;
        var c := Handle(events[n]);
        OneMoreChange(start, events, history, c);
        HitIsBest(events[n], c, stamps);
        OneMoreInOrder(events, history, c, stamps, addedAt);
        history, current := history + [c], c.after;
      }
    }
  }

  lemma OneMoreChange(start: Snapshot, events: seq<TableEvent>, history: seq<Change>, c: Change)
    requires Chained(start, history, c.before) && AllFit(events, history)
    requires |history| < |events| && ChangeFits(events[|history|], c)
    ensures Chained(start, history + [c], c.after) && AllFit(events, history + [c])
  {
    assert (history + [c])[..|history|] == history;
  }

  /** Stamps given later change nothing about what was met before. */
  lemma OneMoreInOrder(events: seq<TableEvent>, history: seq<Change>, c: Change,
                       before: map<TableEntry, nat>, after: map<TableEntry, nat>)
    requires AllInOrder(events, history, before) && Grows(before, after)
    requires |history| < |events| && MetInOrder(events[|history|], c, before)
    ensures AllInOrder(events, history + [c], after)
  {
    var more := history + [c];
    forall i | 0 <= i < |more| ensures MetInOrder(events[i], more[i], after) {
      assert MetInOrder(events[i], if i < |history| then history[i] else c, before);
      StillInOrder(events[i], more[i], before, after);
    }
  }

  lemma HitIsBest(e: TableEvent, c: Change, addedAt: map<TableEntry, nat>)
    requires ChangeFits(e, c) && Stamped(c.before.table, addedAt)
    ensures MetInOrder(e, c, addedAt)
  {
    if e.Hit? && c.r.Found? {
      var t := c.before.table;
      var n :| 0 <= n < |t| && t[n] == c.r.entry && P.Admits(c.r.entry.fmMatch, e.p, e.inPort)
        && forall i :: 0 <= i < n ==> !P.Admits(t[i].fmMatch, e.p, e.inPort);
      FirstHitIsBest(t, n, addedAt, e.p, e.inPort);
    }
  }

  lemma StillInOrder(e: TableEvent, c: Change, before: map<TableEntry, nat>, after: map<TableEntry, nat>)
    requires MetInOrder(e, c, before) && Grows(before, after)
    ensures MetInOrder(e, c, after)
  {
    var t := c.before.table;
    forall i, j | 0 <= i < j < |t| ensures MayPrecede(t[i], t[j], after) {
      assert MayPrecede(t[i], t[j], before);
    }
  }

  lemma NextToRemove(t: seq<TableEntry>, entries: seq<TableEntry>, n: nat)
    requires n < |entries| && Distinct(entries) && entries[n] in t
    ensures entries[n] in Without(t, SwitchFlowTable.Set(entries[..n]))
    ensures Without(Without(t, SwitchFlowTable.Set(entries[..n])), {entries[n]})
      == Without(t, SwitchFlowTable.Set(entries[..n + 1]))
  {
    var gone := SwitchFlowTable.Set(entries[..n]);
    assert entries[n] !in gone;
    WithoutMembers(t, gone);
    WithoutTwice(t, gone, {entries[n]});
    assert SwitchFlowTable.Set(entries[..n + 1]) == gone + {entries[n]};
  }

  lemma AddedIsThere(fm: FlowMod, now: real, before: seq<TableEntry>, after: seq<TableEntry>, r: Outcome)
    requires ModStep(fm, now, before, after, r) && r.Added?
    ensures r.entry in after
  {
    InsertKeepsEntries(before, r.entry);
    InsertKeepsEntries(Without(before, SwitchFlowTable.Set(Matching(before, fm.fmMatch, fm.priority, true))), r.entry);
    assert r.entry in multiset(after);
  }

  /** Every entry of the new table is an old one or the added one. */
  lemma MembersAfterMod(fm: FlowMod, now: real, before: seq<TableEntry>, after: seq<TableEntry>, r: Outcome)
    requires ModStep(fm, now, before, after, r)
    ensures forall i :: 0 <= i < |after| ==> after[i] in before || (r.Added? && after[i] == r.entry)
  {
    var gone := SwitchFlowTable.Set(Matching(before, fm.fmMatch, fm.priority, true));
    WithoutMembers(before, gone);
    if r.Added? {
      InsertMembers(before, r.entry);
      InsertMembers(Without(before, SwitchFlowTable.Set(Matching(before, fm.fmMatch, fm.priority, true))), r.entry);
    }
  }

  lemma AppendAndSort(t: seq<TableEntry>, e: TableEntry, addedAt: map<TableEntry, nat>)
    requires Ordered(t, addedAt)
    ensures StableSort(t + [e]) == Insert(t, e)
  {
    OrderedIsSorted(t, addedAt);
    SortingSorted(t);
    assert (t + [e])[..|t|] == t;
  }

  lemma MatchingOneMore(t: seq<TableEntry>, n: nat, m: Match, prio: nat, strict: bool)
    requires n < |t|
    ensures Matching(t[..n + 1], m, prio, strict) ==
      Matching(t[..n], m, prio, strict) + IfMatched(t[n], m, prio, strict)
  {
    MatchingAppend(t[..n], t[n], m, prio, strict);
    assert t[..n + 1] == t[..n] + [t[n]];
  }

  function IfMatched(e: TableEntry, m: Match, prio: nat, strict: bool): seq<TableEntry> {
    if e.IsMatchedBy(m, prio, strict) then [e] else []
  }

  lemma {:induction false} MatchingAppend(t: seq<TableEntry>, e: TableEntry, m: Match, prio: nat, strict: bool)
    ensures Matching(t + [e], m, prio, strict) == Matching(t, m, prio, strict) + IfMatched(e, m, prio, strict)
  {
    if t == [] {
      assert [] + [e] == [e] && [e][1..] == [];
    } else {
      MatchingAppend(t[1..], e, m, prio, strict);
      assert (t + [e])[1..] == t[1..] + [e] && (t + [e])[0] == t[0];
      Regroup(IfMatched(t[0], m, prio, strict), Matching(t[1..], m, prio, strict), IfMatched(e, m, prio, strict));
    }
  }

  lemma {:induction false} InsertMembers(t: seq<TableEntry>, e: TableEntry)
    ensures forall i :: 0 <= i < |Insert(t, e)| ==> Insert(t, e)[i] == e || Insert(t, e)[i] in t
  {
    if t != [] && Key(t[|t| - 1]) < Key(e) {
      InsertMembers(t[..|t| - 1], e);
    }
  }

  lemma {:induction false} MatchingIsDistinct(t: seq<TableEntry>, m: Match, prio: nat, strict: bool)
    requires Distinct(t)
    ensures Distinct(Matching(t, m, prio, strict))
  {
    if t != [] {
      var r := Matching(t[1..], m, prio, strict);
      MatchingIsDistinct(t[1..], m, prio, strict);
      MatchingIsFromTable(t[1..], m, prio, strict);
      forall i | 0 <= i < |r| ensures r[i] != t[0] {
        assert r[i] in t[1..];
      }
      DistinctInFront(t[0], r);
    }
  }

  lemma DistinctInFront(e: TableEntry, r: seq<TableEntry>)
    requires Distinct(r) && forall i :: 0 <= i < |r| ==> r[i] != e
    ensures Distinct([e] + r) && Distinct([] + r)
  {
  }

  /** When a modify matched nothing, no entry has the match and priority of the new one: even
      the non-strict test would have matched an equal entry. */
  lemma NothingMatched(t: seq<TableEntry>, fm: FlowMod, strict: bool, e: TableEntry)
    requires Matching(t, fm.fmMatch, fm.priority, strict) == []
    requires e.fmMatch == fm.fmMatch && e.priority == fm.priority && e !in t
    ensures forall i :: 0 <= i < |t| ==> Differs(t[i], e) && !t[i].IsMatchedBy(fm.fmMatch, fm.priority, strict)
  {
    MatchingMembers(t, fm.fmMatch, fm.priority, strict);
    forall i | 0 <= i < |t|
      ensures Differs(t[i], e) && !t[i].IsMatchedBy(fm.fmMatch, fm.priority, strict)
    {
      assert t[i] !in Matching(t, fm.fmMatch, fm.priority, strict);
    }
  }
}
