/**
 The management connections: the poll slots of the event loop (libvdeplug_wirefilter.c:296-307,
 393-422) and the parallel arrays of includes/wf_management.c:66-104.
 */
module Connections {

  datatype PollFd = PollFd(fd: int, pollIn: bool, hup: bool)

  /** A session: a connection and its debug level. */
  datatype Session = Session(fd: int, debug: int)

  const POLL_MNGM: nat := 5

  /** What is left of the sessions when those with `hup` set are removed. */
  function Survivors(ss: seq<Session>, hup: seq<bool>): (r: seq<Session>)
    requires |ss| == |hup|
  {
    if ss == [] then []
    else (if hup[0] then [] else [ss[0]]) + Survivors(ss[1..], hup[1..])
  }

  lemma {:induction false} SurvivorsAppend(a: seq<Session>, ha: seq<bool>, b: seq<Session>, hb: seq<bool>)
    requires |a| == |ha| && |b| == |hb|
    ensures Survivors(a + b, ha + hb) == Survivors(a, ha) + Survivors(b, hb)
  {
    if a == [] {
      assert a + b == b && ha + hb == hb;
    } else {
      assert (a + b)[1..] == a[1..] + b && (ha + hb)[1..] == ha[1..] + hb;
      SurvivorsAppend(a[1..], ha[1..], b, hb);
    }
  }

  /** A session survives exactly when its connection did not hang up. */
  lemma {:induction false} SurvivorsAreTheConnected(ss: seq<Session>, hup: seq<bool>, s: Session)
    requires |ss| == |hup|
    ensures s in Survivors(ss, hup) <==> exists i :: 0 <= i < |ss| && ss[i] == s && !hup[i]
  {
    if ss != [] {
      SurvivorsAreTheConnected(ss[1..], hup[1..], s);
      if i :| 0 <= i < |ss| && ss[i] == s && !hup[i] {
        assert i > 0 ==> ss[1..][i - 1] == s && !hup[1..][i - 1];
      }
      if i :| 0 <= i < |ss[1..]| && ss[1..][i] == s && !hup[1..][i] {
        assert ss[i + 1] == s && !hup[i + 1];
      }
    }
  }

  function RemoveAt<T>(s: seq<T>, i: nat): seq<T>
    requires i < |s|
  {
    s[..i] + s[i + 1..]
  }

  function Zip(fds: seq<int>, debugs: seq<int>): (r: seq<Session>)
    requires |fds| == |debugs|
  {
    seq(|fds|, i requires 0 <= i < |fds| => Session(fds[i], debugs[i]))
  }

  function Flags(slots: seq<PollFd>): seq<bool> {
    seq(|slots|, i requires 0 <= i < |slots| => slots[i].hup)
  }

  /** The first slots watch the connections in order, the others nothing. */
  ghost predicate Watches(slots: seq<PollFd>, fds: seq<int>) {
    && |fds| <= |slots|
    && (forall i :: 0 <= i < |fds| ==> slots[i].fd == fds[i])
    && (forall i :: |fds| <= i < |slots| ==> slots[i].fd == -1)
  }

  ghost predicate Distinct(fds: seq<int>) {
    forall i, j :: 0 <= i < j < |fds| ==> fds[i] != fds[j]
  }

  /** memmove of the slots behind slot i, and -1 into the last of them. */
  function Shifted(slots: seq<PollFd>, i: nat, n: nat): seq<PollFd>
    requires i < n <= |slots|
  {
    slots[..i] + slots[i + 1..n] + [slots[n - 1].(fd := -1)] + slots[n..]
  }

  lemma ShiftedWatches(slots: seq<PollFd>, fds: seq<int>, i: nat)
    requires Watches(slots, fds) && Distinct(fds) && i < |fds|
    ensures Watches(Shifted(slots, i, |fds|), RemoveAt(fds, i)) && Distinct(RemoveAt(fds, i))
    ensures Flags(Shifted(slots, i, |fds|)[..|fds| - 1]) == RemoveAt(Flags(slots[..|fds|]), i)
  {
  }

  lemma ZipRemoveAt(fds: seq<int>, debugs: seq<int>, i: nat)
    requires |fds| == |debugs| && i < |fds|
    ensures Zip(RemoveAt(fds, i), RemoveAt(debugs, i)) == RemoveAt(Zip(fds, debugs), i)
  {
  }

  lemma SurvivorsNext(ss: seq<Session>, hs: seq<bool>, k: nat)
    requires |ss| == |hs| && k < |ss|
    ensures Survivors(ss[..k + 1], hs[..k + 1]) == Survivors(ss[..k], hs[..k]) + (if hs[k] then [] else [ss[k]])
  {
    assert ss[..k + 1] == ss[..k] + [ss[k]] && hs[..k + 1] == hs[..k] + [hs[k]];
    SurvivorsAppend(ss[..k], hs[..k], [ss[k]], [hs[k]]);
  }

  /** The pass has dealt with the first k of the sessions; `left` and `flags` are what the arrays hold. */
  ghost predicate DealtWith(ss: seq<Session>, hs: seq<bool>, k: nat, left: seq<Session>, flags: seq<bool>) {
    && |ss| == |hs| && k <= |ss|
    && left == Survivors(ss[..k], hs[..k]) + ss[k..]
    && |flags| == |left| && flags[|left| - (|ss| - k)..] == hs[k..]
  }

  lemma PassStart(ss: seq<Session>, hs: seq<bool>)
    requires |ss| == |hs|
    ensures DealtWith(ss, hs, 0, ss, hs)
  {
    assert ss[..0] == [] && hs[..0] == [] && ss[0..] == ss && hs[0..] == hs && hs[|ss| - |ss|..] == hs;
  }

  lemma PassHungUp(ss: seq<Session>, hs: seq<bool>, k: nat, left: seq<Session>, flags: seq<bool>, i: nat)
    requires DealtWith(ss, hs, k, left, flags) && k < |ss| && i == |left| - (|ss| - k) && flags[i]
    ensures DealtWith(ss, hs, k + 1, RemoveAt(left, i), RemoveAt(flags, i))
  {
    SurvivorsNext(ss, hs, k);
    assert flags[i..][0] == hs[k..][0];
    assert RemoveAt(flags, i)[i..] == flags[i..][1..];
  }

  lemma PassConnected(ss: seq<Session>, hs: seq<bool>, k: nat, left: seq<Session>, flags: seq<bool>, i: nat)
    requires DealtWith(ss, hs, k, left, flags) && k < |ss| && i == |left| - (|ss| - k) && !flags[i]
    ensures DealtWith(ss, hs, k + 1, left, flags)
  {
    SurvivorsNext(ss, hs, k);
    assert flags[i..][0] == hs[k..][0];
    assert flags[i + 1..] == flags[i..][1..];
  }

  lemma PassDone(ss: seq<Session>, hs: seq<bool>, left: seq<Session>, flags: seq<bool>)
    requires DealtWith(ss, hs, |ss|, left, flags)
    ensures left == Survivors(ss, hs)
  {
    assert ss[..|ss|] == ss && hs[..|ss|] == hs;
  }

  class Management {
    const maxConn: nat  // MNGM_MAX_CONN
    var connectionsCount: nat
    const connections: array<int>
    const debugLevel: array<int>
    const pollFd: array<PollFd>

    ghost predicate Shaped()
      reads this`connectionsCount
    {
      && connections.Length == debugLevel.Length == maxConn && pollFd.Length == POLL_MNGM + 1 + maxConn
      && connections != debugLevel && connectionsCount <= maxConn
    }

    ghost function Fds(): seq<int>
      requires Shaped()
      reads this`connectionsCount, connections
    {
      connections[..connectionsCount]
    }

    ghost function Debugs(): seq<int>
      requires Shaped()
      reads this`connectionsCount, debugLevel
    {
      debugLevel[..connectionsCount]
    }

    /** Poll slots POLL_MNGM + 1 .. POLL_MNGM + maxConn. */
    ghost function Slots(): seq<PollFd>
      requires Shaped()
      reads this`connectionsCount, pollFd
    {
      pollFd[POLL_MNGM + 1..]
    }

    ghost function Sessions(): seq<Session>
      requires Shaped()
      reads this`connectionsCount, connections, debugLevel
    {
      Zip(Fds(), Debugs())
    }

    /** The hang-up flags poll left in the slots of the connections. */
    ghost function Hups(): seq<bool>
      requires Shaped()
      reads this`connectionsCount, pollFd
    {
      Flags(Slots()[..connectionsCount])
    }

    ghost predicate Valid()
      reads this`connectionsCount, connections, debugLevel, pollFd
    {
      Shaped() && Watches(Slots(), Fds()) && Distinct(Fds())
    }

    constructor (maxConn: nat)
      ensures Valid() && Sessions() == [] && this.maxConn == maxConn
      ensures fresh(connections) && fresh(debugLevel) && fresh(pollFd)
    {
      this.maxConn := maxConn;
      connectionsCount := 0;
      connections := new int[maxConn];
      debugLevel := new int[maxConn];
      pollFd := new PollFd[POLL_MNGM + 1 + maxConn](_ => PollFd(-1, false, false));
    }

    /**
     The accept branch: `fd` is what accept(2) returned, so no open connection has it; `greeted` says
     whether header and prompt could be written.
     */
    method Accept(fd: int, greeted: bool)
      requires Valid() && fd !in Fds()
      modifies this, connections, debugLevel, pollFd
      ensures Shaped() && Distinct(Fds())
      ensures Sessions() == if fd >= 0 && greeted && old(connectionsCount) < maxConn then old(Sessions()) + [Session(fd, 0)] else old(Sessions())
      ensures forall i :: 0 <= i < maxConn ==> Slots()[i].hup == old(Slots()[i].hup)
      // `new_conn > 0` leaves descriptor 0 without a poll slot
      ensures Valid() <==> fd != 0 || !greeted || old(connectionsCount) == maxConn
    {
      if fd < 0 || connectionsCount >= maxConn || !greeted {
        return;
      }
      ghost var slots := Slots();
      connections[connectionsCount] := fd;
      debugLevel[connectionsCount] := 0;
      connectionsCount := connectionsCount + 1;
      assert Fds() == old(Fds()) + [fd] && Debugs() == old(Debugs()) + [0];
      if fd > 0 {
        pollFd[POLL_MNGM + connectionsCount] := pollFd[POLL_MNGM + connectionsCount].(fd := fd);
        assert Slots() == slots[connectionsCount - 1 := slots[connectionsCount - 1].(fd := fd)];
      } else {
        assert Slots() == slots;
        assert slots[connectionsCount - 1].fd != Fds()[connectionsCount - 1];
      }
    }

    /** `closeManagementConnection`: closes the gap in both arrays, but leaves the count to its caller. */
    method CloseConnection(fd: int, ghost index: nat)
      requires Shaped() && Distinct(Fds()) && index < connectionsCount && Fds()[index] == fd
      modifies connections, debugLevel
      ensures connections[..connectionsCount - 1] == RemoveAt(old(Fds()), index)
      ensures debugLevel[..connectionsCount - 1] == RemoveAt(old(Debugs()), index)
    {
      var i := 0;
      while i < connectionsCount && connections[i] != fd
        invariant 0 <= i <= index
      {
        i := i + 1;
      }
      assert i == index by {
        assert Fds()[i] == fd;
      }
      CloseGap(connections, i, connectionsCount);
      CloseGap(debugLevel, i, connectionsCount);
    }

    /** memmove of the entries behind entry i. */
    static method CloseGap(a: array<int>, i: nat, n: nat)
      requires i < n <= a.Length
      modifies a
      ensures a[..n - 1] == RemoveAt(old(a[..n]), i)
    {
      ghost var before := a[..n];
      forall j | i <= j < n - 1 {
        a[j] := a[j + 1];
      }
      forall j | 0 <= j < n - 1 ensures a[j] == RemoveAt(before, i)[j] {
        assert a[j] == before[if j < i then j else j + 1];
      }
    }

    /** One hang-up: the arrays, the poll slots and the count all lose entry i - 1. */
    method Remove(i: nat)
      requires Valid() && 1 <= i <= connectionsCount
      modifies this, connections, debugLevel, pollFd
      ensures Valid() && connectionsCount == old(connectionsCount) - 1
      ensures Sessions() == RemoveAt(old(Sessions()), i - 1) && Hups() == RemoveAt(old(Hups()), i - 1)
    {
      ghost var fds, debugs, slots := Fds(), Debugs(), Slots();
      ShiftedWatches(slots, fds, i - 1);
      ZipRemoveAt(fds, debugs, i - 1);
      var n := connectionsCount;
      assert pollFd[POLL_MNGM + i] == slots[i - 1];
      CloseConnection(pollFd[POLL_MNGM + i].fd, i - 1);
      ShiftSlots(i, n);
      connectionsCount := n - 1;
      assert Slots() == Shifted(slots, i - 1, n);
      assert Fds() == RemoveAt(fds, i - 1) && |Fds()| == n - 1;
      assert Debugs() == RemoveAt(debugs, i - 1);
    }

    method ShiftSlots(i: nat, n: nat)
      requires Shaped() && 1 <= i <= n <= maxConn
      modifies pollFd
      ensures Slots() == Shifted(old(Slots()), i - 1, n)
    {
      ghost var slots := Slots();
      forall j | POLL_MNGM + i <= j < POLL_MNGM + n {
        pollFd[j] := pollFd[j + 1];
      }
      assert pollFd[POLL_MNGM + n] == slots[n - 1];
      pollFd[POLL_MNGM + n] := pollFd[POLL_MNGM + n].(fd := -1);
      forall x | 0 <= x < maxConn ensures Slots()[x] == Shifted(slots, i - 1, n)[x] {
        assert Slots()[x] == pollFd[POLL_MNGM + 1 + x];
      }
    }

    /** The pass is about to look at slot POLL_MNGM + i, having dealt with the first k of the sessions. */
    ghost predicate Passing(ss: seq<Session>, hs: seq<bool>, k: nat, i: nat)
      reads this`connectionsCount, connections, debugLevel, pollFd
    {
      Valid() && DealtWith(ss, hs, k, Sessions(), Hups()) && i == connectionsCount - (|ss| - k) + 1
    }

    /** The hang-up pass: whichever connections hung up together, exactly the others keep their session and slot. */
    method HangUpPass()
      requires Valid()
      modifies this, connections, debugLevel, pollFd
      ensures Valid() && Sessions() == Survivors(old(Sessions()), old(Hups()))
    {
      ghost var ss, hs := Sessions(), Hups();
      PassStart(ss, hs);
      ghost var k := 0;
      var i: nat := 1;
      while i <= connectionsCount
        invariant Passing(ss, hs, k, i)
        decreases |ss| - k
      {
        i := Visit(i, ss, hs, k);
        k := k + 1;
      }
      assert k == |ss|;
      PassDone(ss, hs, Sessions(), Hups());
    }

    method Visit(i: nat, ghost ss: seq<Session>, ghost hs: seq<bool>, ghost k: nat) returns (next: nat)
      requires Passing(ss, hs, k, i) && i <= connectionsCount
      modifies this, connections, debugLevel, pollFd
      ensures Passing(ss, hs, k + 1, next)
    {
      assert pollFd[POLL_MNGM + i] == Slots()[i - 1];
      next := i;
      if pollFd[POLL_MNGM + i].hup {
        PassHungUp(ss, hs, k, Sessions(), Hups(), i - 1);
        Remove(i);
        next := next - 1;
      } else {
        PassConnected(ss, hs, k, Sessions(), Hups(), i - 1);
      }
      next := next + 1;
    }
  }
}
