/** select emulated on top of epoll (pox/lib/epoll_select.py): what the kernel watches is
    updated from the difference between the lists of this call and those of the last one. */
module EpollSelects {
  import opened Sequences

  type Fd = nat
  type Mask = bv8

  const READ: Mask := 3     // EPOLLIN | EPOLLPRI
  const WRITE: Mask := 4    // EPOLLOUT

  /** A file object, or a bare descriptor. */
  datatype Obj = Obj(name: nat, fd: Fd)

  /** A Python list of them: an object that its owner may change between two calls. */
  class ObjList {
    var objs: seq<Obj>

    constructor (objs: seq<Obj>)
      ensures this.objs == objs
    {
      this.objs := objs;
    }
  }

  function Fds(objs: seq<Obj>): set<Fd> { set i | 0 <= i < |objs| :: objs[i].fd }

  function Bits(on: bool, op: Mask): Mask { if on then op else 0 }

  /** The events that two sets of descriptors ask for. */
  function Want(fd: Fd, reading: set<Fd>, writing: set<Fd>): Mask {
    Bits(fd in reading, READ) | Bits(fd in writing, WRITE)
  }

  function Wanted(reading: set<Fd>, writing: set<Fd>): map<Fd, Mask> {
    map fd | fd in reading + writing :: Want(fd, reading, writing)
  }

  lemma MaskLaws(r: bool, w: bool)
    ensures (Bits(r, READ) | Bits(w, WRITE)) | READ == READ | Bits(w, WRITE)
    ensures (Bits(r, READ) | Bits(w, WRITE)) | WRITE == Bits(r, READ) | WRITE
    ensures (Bits(r, READ) | Bits(w, WRITE)) & !READ == Bits(w, WRITE)
    ensures (Bits(r, READ) | Bits(w, WRITE)) & !WRITE == Bits(r, READ)
    ensures 0 | Bits(w, WRITE) == Bits(w, WRITE) && Bits(r, READ) | 0 == Bits(r, READ)
    ensures Bits(r, READ) | Bits(w, WRITE) == 0 <==> !r && !w
  {
  }

  lemma MasksDiffer(r: bool, w: bool, r': bool, w': bool)
    ensures Bits(r, READ) | Bits(w, WRITE) == Bits(r', READ) | Bits(w', WRITE) <==> r == r' && w == w'
  {
  }

  /** A descriptor is watched exactly when one of the sets has it: for input and priority data
      (1 and 2) if it is read from, for output (4) if it is written to. */
  lemma WantedExactly(reading: set<Fd>, writing: set<Fd>, fd: Fd)
    ensures fd in Wanted(reading, writing) <==> fd in reading || fd in writing
    ensures fd in Wanted(reading, writing) ==>
      Wanted(reading, writing)[fd] == if fd !in writing then 3 else if fd !in reading then 4 else 7
  {
  }

  /** The masks determine the two sets. */
  lemma WantedIsInjective(r: set<Fd>, w: set<Fd>, r': set<Fd>, w': set<Fd>)
    ensures Wanted(r, w) == Wanted(r', w') <==> r == r' && w == w'
  {
    if Wanted(r, w) == Wanted(r', w') {
      forall fd: Fd
        ensures fd in r <==> fd in r'
        ensures fd in w <==> fd in w'
      {
        MasksDiffer(fd in r, fd in w, fd in r', fd in w');
        MaskLaws(fd in r, fd in w);
        assert fd in Wanted(r, w) <==> fd in Wanted(r', w');
      }
    }
  }

  // ---------------------------------------------------------------- the table of changes

  /** The mask a descriptor is going to have. */
  function Planned(changes: map<Fd, Mask>, registered: map<Fd, Mask>, fd: Fd): Mask {
    if fd in changes then changes[fd] else if fd in registered then registered[fd] else 0
  }

  function Merged(mask: Mask, on: bool, op: Mask): Mask { if on then mask | op else mask }

  function Cleared(mask: Mask, on: bool, op: Mask): Mask { if on then mask & !op else mask }

  /** A mask after its descriptor joined or left the set for op. */
  function Changed(mask: Mask, was: bool, isNow: bool, op: Mask): Mask {
    Cleared(Merged(mask, isNow && !was, op), was && !isNow, op)
  }

  ghost predicate AllJoined(table: map<Fd, Mask>, changes: map<Fd, Mask>, registered: map<Fd, Mask>,
                            done: set<Fd>, op: Mask)
  {
    && (forall fd {:trigger Planned(changes, registered, fd)} ::
      Planned(changes, registered, fd) == Merged(Planned(table, registered, fd), fd in done, op))
    && (forall fd {:trigger fd in changes} :: fd in changes <==> fd in table || fd in done)
  }

  lemma JoinOneMore(table: map<Fd, Mask>, changes: map<Fd, Mask>, registered: map<Fd, Mask>, done: set<Fd>, op: Mask,
                    fd: Fd, mask: Mask)
    requires AllJoined(table, changes, registered, done, op) && fd !in done
    requires mask == Merged(Planned(changes, registered, fd), true, op)
    ensures AllJoined(table, changes[fd := mask], registered, done + {fd}, op)
  {
    var next := changes[fd := mask];
    forall other
      ensures Planned(next, registered, other) == Merged(Planned(table, registered, other), other in done + {fd}, op)
    {
      assert Planned(changes, registered, other) == Merged(Planned(table, registered, other), other in done, op);
    }
  }

  ghost predicate AllExpired(table: map<Fd, Mask>, changes: map<Fd, Mask>, registered: map<Fd, Mask>,
                             done: set<Fd>, op: Mask)
  {
    && (forall fd {:trigger Planned(changes, registered, fd)} ::
      Planned(changes, registered, fd) == Cleared(Planned(table, registered, fd), fd in done, op))
    && (forall fd {:trigger fd in changes} :: fd in changes <==> fd in table || fd in done)
  }

  lemma ExpireOneMore(table: map<Fd, Mask>, changes: map<Fd, Mask>, registered: map<Fd, Mask>, done: set<Fd>, op: Mask,
                    fd: Fd, mask: Mask)
    requires AllExpired(table, changes, registered, done, op) && fd !in done
    requires mask == Cleared(Planned(changes, registered, fd), true, op)
    ensures AllExpired(table, changes[fd := mask], registered, done + {fd}, op)
  {
    var next := changes[fd := mask];
    forall other
      ensures Planned(next, registered, other) == Cleared(Planned(table, registered, other), other in done + {fd}, op)
    {
      assert Planned(changes, registered, other) == Cleared(Planned(table, registered, other), other in done, op);
    }
  }

  /** Every planned mask is the wanted one, and only descriptors that joined or left a set are
      in the table. */
  ghost predicate Plan(changes: map<Fd, Mask>, registered: map<Fd, Mask>,
                       r0: set<Fd>, w0: set<Fd>, r: set<Fd>, w: set<Fd>) {
    && (forall fd {:trigger Planned(changes, registered, fd)} :: Planned(changes, registered, fd) == Want(fd, r, w))
    && (forall fd {:trigger fd in changes} :: fd in changes ==> (fd in r) != (fd in r0) || (fd in w) != (fd in w0))
  }

  /** The branch that raises "this should never happen" is not taken. */
  lemma NeverHappens(changes: map<Fd, Mask>, registered: map<Fd, Mask>,
                     r0: set<Fd>, w0: set<Fd>, r: set<Fd>, w: set<Fd>, fd: Fd)
    requires registered == Wanted(r0, w0) && Plan(changes, registered, r0, w0, r, w)
    requires fd in changes && changes[fd] == 0
    ensures fd in registered
  {
    assert Planned(changes, registered, fd) == 0;
    MaskLaws(fd in r, fd in w);
  }

  class EpollSelect {
    var fdToObj: map<Fd, Obj>
    var registered: map<Fd, Mask>
    var lastrl: ObjList
    var lastwl: ObjList
    var lastrlSet: set<Fd>
    var lastwlSet: set<Fd>
    var kernel: map<Fd, Mask>       // what the epoll object watches

    ghost predicate Valid()
      reads this
    {
      && registered == Wanted(lastrlSet, lastwlSet)
      && kernel == registered
      && forall fd :: fd in registered ==> fd in fdToObj && fdToObj[fd].fd == fd
    }

    /** The lists given last have not been changed by their owner since. */
    ghost predicate Unchanged()
      reads this, lastrl, lastwl
    {
      Fds(lastrl.objs) == lastrlSet && Fds(lastwl.objs) == lastwlSet
    }

    constructor ()
      ensures Valid() && Unchanged() && registered == map[]
      ensures fresh(lastrl) && fresh(lastwl) && lastrl.objs == lastwl.objs == []
    {
      fdToObj, registered, kernel, lastrlSet, lastwlSet := map[], map[], map[], {}, {};
      lastrl := new ObjList([]);
      lastwl := new ObjList([]);
    }

    // The three calls on the epoll object; each fails unless its precondition holds.

    method Register(fd: Fd, mask: Mask)
      requires fd !in kernel && mask != 0
      modifies this`kernel
      ensures kernel == old(kernel)[fd := mask]
    {
      kernel := kernel[fd := mask];
    }

    method Modify(fd: Fd, mask: Mask)
      requires fd in kernel && mask != 0
      modifies this`kernel
      ensures kernel == old(kernel)[fd := mask]
    {
      kernel := kernel[fd := mask];
    }

    method Unregister(fd: Fd)
      requires fd in kernel
      modifies this`kernel
      ensures kernel == old(kernel) - {fd}
    {
      kernel := kernel - {fd};
    }

    /** modify_table */
    method ModifyTable(objs: seq<Obj>, oldSet: set<Fd>, op: Mask, table: map<Fd, Mask>)
      returns (currentSet: set<Fd>, changes: map<Fd, Mask>)
      modifies this`fdToObj
      ensures currentSet == Fds(objs)
      ensures forall fd {:trigger Planned(changes, registered, fd)} ::
        Planned(changes, registered, fd) == Changed(Planned(table, registered, fd), fd in oldSet, fd in currentSet, op)
      ensures forall fd {:trigger fd in changes} ::
        fd in changes <==> fd in table || (fd in oldSet) != (fd in currentSet)
      ensures forall fd :: fd in fdToObj <==> fd in old(fdToObj) || fd in currentSet
      ensures forall fd :: fd in currentSet ==> fdToObj[fd].fd == fd
      ensures forall fd :: fd in old(fdToObj) && fd !in currentSet ==> fdToObj[fd] == old(fdToObj)[fd]
    {
      currentSet := NoteObjects(objs);
      var joined := Join(currentSet - oldSet, op, table);
      changes := Expire(oldSet - currentSet, op, joined);
      forall fd
        ensures Planned(changes, registered, fd)
             == Changed(Planned(table, registered, fd), fd in oldSet, fd in currentSet, op)
      {
        var merged := Planned(joined, registered, fd);
        assert Planned(changes, registered, fd) == Cleared(merged, fd in oldSet - currentSet, op);
      }
    }

    /** Its loop over the new descriptors. */
    method Join(fds: set<Fd>, op: Mask, table: map<Fd, Mask>) returns (changes: map<Fd, Mask>)
      ensures AllJoined(table, changes, registered, fds, op)
    {
      changes := table;
      var todo := fds;
      while todo != {}
        invariant todo <= fds && AllJoined(table, changes, registered, fds - todo, op)
        decreases |todo|
      {
        ghost var member := Member(todo);
        var fd :| fd in todo;
        var mask := Planned(changes, registered, fd) | op;
        JoinOneMore(table, changes, registered, fds - todo, op, fd, mask);
        assert fds - (todo - {fd}) == fds - todo + {fd};
        changes := changes[fd := mask];
        todo := todo - {fd};
      }
      assert fds - {} == fds;
    }

    /** Its loop over the expired descriptors. */
    method Expire(fds: set<Fd>, op: Mask, table: map<Fd, Mask>) returns (changes: map<Fd, Mask>)
      ensures AllExpired(table, changes, registered, fds, op)
    {
      changes := table;
      var todo := fds;
      while todo != {}
        invariant todo <= fds && AllExpired(table, changes, registered, fds - todo, op)
        decreases |todo|
      {
        ghost var member := Member(todo);
        var fd :| fd in todo;
        var mask := Planned(changes, registered, fd) & !op;
        ExpireOneMore(table, changes, registered, fds - todo, op, fd, mask);
        assert fds - (todo - {fd}) == fds - todo + {fd};
        changes := changes[fd := mask];
        todo := todo - {fd};
      }
      assert fds - {} == fds;
    }

    /** Its first loop. */
    method NoteObjects(objs: seq<Obj>) returns (currentSet: set<Fd>)
      modifies this`fdToObj
      ensures currentSet == Fds(objs)
      ensures forall fd :: fd in fdToObj <==> fd in old(fdToObj) || fd in currentSet
      ensures forall fd :: fd in currentSet ==> fdToObj[fd].fd == fd
      ensures forall fd :: fd in old(fdToObj) && fd !in currentSet ==> fdToObj[fd] == old(fdToObj)[fd]
    {
      currentSet := {};
      for i := 0 to |objs|
        invariant currentSet == Fds(objs[..i])
        invariant forall fd :: fd in fdToObj <==> fd in old(fdToObj) || fd in currentSet
        invariant forall fd :: fd in currentSet ==> fdToObj[fd].fd == fd
        invariant forall fd :: fd in old(fdToObj) && fd !in currentSet ==> fdToObj[fd] == old(fdToObj)[fd]
      {
        OneMore(objs[..i], objs[i]);
        assert objs[..i + 1] == objs[..i] + [objs[i]];
        fdToObj := fdToObj[objs[i].fd := objs[i]];
        currentSet := currentSet + {objs[i].fd};
      }
      assert objs[..|objs|] == objs;
    }

    /** The loop that makes the planned calls. */
    method ApplyChanges(changes: map<Fd, Mask>, ghost r0: set<Fd>, ghost w0: set<Fd>,
                        ghost r: set<Fd>, ghost w: set<Fd>)
      requires registered == kernel == Wanted(r0, w0)
      requires Plan(changes, registered, r0, w0, r, w)
      modifies this`registered, this`kernel
      ensures registered == kernel == Wanted(r, w)
    {
      ghost var was := registered;
      var todo := changes.Keys;
      while todo != {}
        invariant todo <= changes.Keys && kernel == registered
        invariant forall fd {:trigger fd in registered} :: fd in registered <==>
          if fd in changes && fd !in todo then changes[fd] != 0 else fd in was
        invariant forall fd {:trigger registered[fd]} :: fd in registered ==>
          registered[fd] == if fd in changes && fd !in todo then changes[fd] else was[fd]
        decreases |todo|
      {
        ghost var member := Member(todo);
        var fd :| fd in todo;
        todo := todo - {fd};
        var mask := changes[fd];
        if fd in registered {
          if mask == 0 {
            Unregister(fd);
            registered := registered - {fd};
          } else {
            Modify(fd, mask);
            registered := registered[fd := mask];
          }
        } else {
          if mask == 0 {
            NeverHappens(changes, was, r0, w0, r, w, fd);
            assert false;
          } else {
            Register(fd, mask);
            registered := registered[fd := mask];
          }
        }
      }
      PlanCarriedOut(changes, was, r0, w0, r, w, registered);
    }

    /** select, up to the poll call. A list is looked at only if it differs from the last one. */
    method Select(rl: ObjList, wl: ObjList)
      requires Valid()
      modifies this
      ensures Valid() && lastrl == rl && lastwl == wl
      ensures lastrlSet == if rl.objs == old(lastrl.objs) then old(lastrlSet) else Fds(rl.objs)
      ensures lastwlSet == if wl.objs == old(lastwl.objs) then old(lastwlSet) else Fds(wl.objs)
      ensures old(Unchanged()) ==> Unchanged() && kernel == Wanted(Fds(rl.objs), Fds(wl.objs))
      ensures kernel == Wanted(Fds(rl.objs), Fds(wl.objs)) <==>
        !(rl.objs == old(lastrl.objs) && Fds(rl.objs) != old(lastrlSet)) &&
        !(wl.objs == old(lastwl.objs) && Fds(wl.objs) != old(lastwlSet))
    {
      ghost var r0, w0 := lastrlSet, lastwlSet;
      var changes := PlanChanges(rl, wl);
      ApplyChanges(changes, r0, w0, lastrlSet, lastwlSet);
      WantedIsInjective(lastrlSet, lastwlSet, Fds(rl.objs), Fds(wl.objs));
    }

    /** The comparison of both lists with the last ones. */
    method PlanChanges(rl: ObjList, wl: ObjList) returns (changes: map<Fd, Mask>)
      requires Valid()
      modifies this`fdToObj, this`lastrl, this`lastwl, this`lastrlSet, this`lastwlSet
      ensures lastrl == rl && lastwl == wl
      ensures lastrlSet == if rl.objs == old(lastrl.objs) then old(lastrlSet) else Fds(rl.objs)
      ensures lastwlSet == if wl.objs == old(lastwl.objs) then old(lastwlSet) else Fds(wl.objs)
      ensures Plan(changes, registered, old(lastrlSet), old(lastwlSet), lastrlSet, lastwlSet)
      ensures forall fd :: fd in old(fdToObj) || fd in lastrlSet + lastwlSet ==> fd in fdToObj
      ensures forall fd :: fd in lastrlSet + lastwlSet ==> fdToObj[fd].fd == fd
    {
      changes := map[];
      ghost var r0, w0 := lastrlSet, lastwlSet;
      NothingPlanned(registered, r0, w0);
      if rl.objs != lastrl.objs {
        var before := changes;
        lastrlSet, changes := ModifyTable(rl.objs, lastrlSet, READ, changes);
        PlanReads(before, changes, registered, r0, w0, lastrlSet);
      }
      lastrl := rl;
      if wl.objs != lastwl.objs {
        var before := changes;
        lastwlSet, changes := ModifyTable(wl.objs, lastwlSet, WRITE, changes);
        PlanWrites(before, changes, registered, r0, w0, lastrlSet, lastwlSet);
      }
      lastwl := wl;
    }

    /** Any number of calls, each with lists of its own, as the scheduler makes them: after every
        call the kernel watches exactly what that call asked for. */
    method RunSelects(calls: seq<(seq<Obj>, seq<Obj>)>) returns (watched: seq<map<Fd, Mask>>)
      requires Valid() && Unchanged()
      modifies this
      ensures Valid() && |watched| == |calls|
      ensures forall i :: 0 <= i < |calls| ==> watched[i] == Wanted(Fds(calls[i].0), Fds(calls[i].1))
    {
      watched := [];
      for i := 0 to |calls|
        invariant Valid() && Unchanged() && |watched| == i
        invariant forall j :: 0 <= j < i ==> watched[j] == Wanted(Fds(calls[j].0), Fds(calls[j].1))
      {
        var rl := new ObjList(calls[i].0);
        var wl := new ObjList(calls[i].1);
        Select(rl, wl);
        watched := watched + [kernel];
      }
    }
  }

  /** A caller that adds to the list it passed last and passes it again: the new descriptor is
      not watched. */
  method MissedChange(a: Obj, b: Obj) returns (watched: map<Fd, Mask>)
    requires a.fd != b.fd
    ensures b.fd !in watched && watched != Wanted(Fds([a, b]), {})
  {
    var epoll := new EpollSelect();
    var rl := new ObjList([a]);
    var wl := new ObjList([]);
    assert rl.objs != [] && epoll.lastrl.objs == [];
    epoll.Select(rl, wl);
    assert epoll.lastrlSet == Fds([a]) && epoll.lastwlSet == {};
    rl.objs := [a, b];
    epoll.Select(rl, wl);
    assert epoll.lastrlSet == Fds([a]) && epoll.lastwlSet == {};
    watched := epoll.kernel;
    assert watched == Wanted(Fds([a]), {});
    assert b.fd !in Fds([a]) && [a, b][1].fd in Fds([a, b]);
  }

  lemma NothingPlanned(registered: map<Fd, Mask>, r: set<Fd>, w: set<Fd>)
    requires registered == Wanted(r, w)
    ensures Plan(map[], registered, r, w, r, w)
  {
  }

  lemma PlanReads(before: map<Fd, Mask>, changes: map<Fd, Mask>, registered: map<Fd, Mask>,
                  r0: set<Fd>, w0: set<Fd>, r: set<Fd>)
    requires Plan(before, registered, r0, w0, r0, w0)
    requires forall fd {:trigger Planned(changes, registered, fd)} ::
      Planned(changes, registered, fd) == Changed(Planned(before, registered, fd), fd in r0, fd in r, READ)
    requires forall fd {:trigger fd in changes} :: fd in changes <==> fd in before || (fd in r0) != (fd in r)
    ensures Plan(changes, registered, r0, w0, r, w0)
  {
  }

  lemma PlanWrites(before: map<Fd, Mask>, changes: map<Fd, Mask>, registered: map<Fd, Mask>,
                   r0: set<Fd>, w0: set<Fd>, r: set<Fd>, w: set<Fd>)
    requires Plan(before, registered, r0, w0, r, w0)
    requires forall fd {:trigger Planned(changes, registered, fd)} ::
      Planned(changes, registered, fd) == Changed(Planned(before, registered, fd), fd in w0, fd in w, WRITE)
    requires forall fd {:trigger fd in changes} :: fd in changes <==> fd in before || (fd in w0) != (fd in w)
    ensures Plan(changes, registered, r0, w0, r, w)
  {
  }

  lemma PlanCarriedOut(changes: map<Fd, Mask>, was: map<Fd, Mask>, r0: set<Fd>, w0: set<Fd>, r: set<Fd>, w: set<Fd>,
                       now: map<Fd, Mask>)
    requires Plan(changes, was, r0, w0, r, w) && was == Wanted(r0, w0)
    requires forall fd {:trigger fd in now} :: fd in now <==> if fd in changes then changes[fd] != 0 else fd in was
    requires forall fd {:trigger now[fd]} :: fd in now ==> now[fd] == if fd in changes then changes[fd] else was[fd]
    ensures now == Wanted(r, w)
  {
    forall fd: Fd
      ensures fd in now <==> fd in r + w
      ensures fd in now ==> now[fd] == Want(fd, r, w)
    {
      assert Planned(changes, was, fd) == Want(fd, r, w);
      MaskLaws(fd in r, fd in w);
      MaskLaws(fd in r0, fd in w0);
    }
  }

  lemma OneMore(objs: seq<Obj>, o: Obj)
    ensures Fds(objs + [o]) == Fds(objs) + {o.fd}
  {
    var all := objs + [o];
    forall fd | fd in Fds(objs) + {o.fd} ensures fd in Fds(all) {
      if fd == o.fd {
        assert all[|objs|].fd == fd;
      } else {
        var i :| 0 <= i < |objs| && objs[i].fd == fd;
        assert all[i].fd == fd;
      }
    }
  }
}
