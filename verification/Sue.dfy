/**
 The event selector: the table of descriptor handlers, indexed by descriptor, and the list of timeouts,
 which is sorted with the latest first.
 */
module Sue {

  const MAX_USEC := 1000000

  /** Microseconds within a second, as gettimeofday gives them. */
  type Micros = u: nat | u < MAX_USEC

  /** A time in microseconds. */
  function Time(sec: int, usec: int): int {
    sec * MAX_USEC + usec
  }

  class FdHandler {
    const fd: nat
    var wantRead: bool
    var wantWrite: bool

    constructor (fd: nat)
      ensures this.fd == fd && !wantRead && !wantWrite
    {
      this.fd, wantRead, wantWrite := fd, false, false;
    }
  }

  class TimeoutHandler {
    var sec: int
    var usec: Micros

    constructor ()
    {
      sec, usec := 0, 0;
    }

    ghost function Deadline(): int
      reads this
    {
      Time(sec, usec)
    }

    /** sue_timeout_handler_set_from_now */
    method SetFromNow(nowSec: int, nowUsec: nat, aSec: int, aUsec: nat)
      modifies this
      ensures Deadline() == Time(nowSec, nowUsec) + Time(aSec, aUsec)
    {
      sec := nowSec + aSec;
      var all := nowUsec + aUsec;
      if all >= MAX_USEC {
        sec := sec + all / MAX_USEC;
        all := all % MAX_USEC;
      }
      usec := all;
    }
  }

  /** sth_earlier_than: seconds are compared before microseconds, and that compares the times. */
  predicate EarlierThan(h: TimeoutHandler, sec: int, usec: Micros): (r: bool)
    reads h
    ensures r <==> h.Deadline() < Time(sec, usec)
  {
    h.sec < sec || (h.sec == sec && h.usec < usec)
  }

  /** The latest deadline comes first. */
  ghost predicate Sorted(ts: seq<TimeoutHandler>)
    reads ts
  {
    forall i, j :: 0 <= i < j < |ts| ==> ts[i].Deadline() >= ts[j].Deadline()
  }

  const FD_HANDLERS_STEP := 16

  class Selector {
    var timeouts: seq<TimeoutHandler>
    /** Its length is fdhandlerssize. */
    var fdHandlers: array<FdHandler?>
    var maxFd: int

    ghost predicate Valid()
      reads this, fdHandlers, timeouts
    {
      && -1 <= maxFd < fdHandlers.Length
      && (forall i :: 0 <= i < fdHandlers.Length && fdHandlers[i] != null ==> fdHandlers[i].fd == i <= maxFd)
      && Sorted(timeouts)
    }

    /** The handler registered for a descriptor. */
    function At(fd: nat): FdHandler?
      reads this`fdHandlers, fdHandlers
    {
      if fd < fdHandlers.Length then fdHandlers[fd] else null
    }

    constructor ()
      ensures Valid() && fresh(fdHandlers) && timeouts == [] && maxFd == -1 && forall fd: nat :: At(fd) == null
    {
      timeouts, fdHandlers, maxFd := [], new FdHandler?[0], -1;
    }

    /** The table grows by a fixed step, and only once: the descriptor must fit after that. */
    method RegisterFdHandler(h: FdHandler)
      requires Valid() && h.fd < fdHandlers.Length + FD_HANDLERS_STEP
      modifies `maxFd, `fdHandlers, fdHandlers
      ensures Valid() && timeouts == old(timeouts)
      ensures fdHandlers == old(fdHandlers) || fresh(fdHandlers)
      ensures forall fd: nat :: At(fd) == if fd == h.fd then h else old(At(fd))
      ensures maxFd == if h.fd > old(maxFd) then h.fd else old(maxFd)
      ensures old(fdHandlers.Length) <= fdHandlers.Length
    {
      if fdHandlers.Length <= h.fd {
        var tmp := new FdHandler?[fdHandlers.Length + FD_HANDLERS_STEP](_ => null);
        for i := 0 to tmp.Length
          invariant forall k :: 0 <= k < tmp.Length ==>
                      tmp[k] == if k < i && k < fdHandlers.Length then fdHandlers[k] else null
          invariant fresh(tmp) && unchanged(this) && unchanged(fdHandlers)
        {
          tmp[i] := if i < fdHandlers.Length then fdHandlers[i] else null;
        }
        fdHandlers := tmp;
      }
      fdHandlers[h.fd] := h;
      if h.fd > maxFd {
        maxFd := h.fd;
      }
    }

    /**
     The handler must be the one registered; that is what SUE_ASSERT checks.  The loop that is meant to
     lower max_fd looks for registered handlers instead of free slots, and so never does.
     */
    method RemoveFdHandler(h: FdHandler)
      requires Valid() && At(h.fd) == h
      modifies `maxFd, fdHandlers
      ensures Valid() && timeouts == old(timeouts) && fdHandlers == old(fdHandlers)
      ensures forall fd: nat :: At(fd) == if fd == h.fd then null else old(At(fd))
      ensures maxFd == old(maxFd)
    {
      fdHandlers[h.fd] := null;
      if h.fd == maxFd {
        maxFd := BelowUsed(maxFd);
      }
    }

    /** Steps down over the slots that are in use. */
    method BelowUsed(from: int) returns (m: int)
      requires -1 <= from < fdHandlers.Length
      ensures -1 <= m <= from && (m >= 0 ==> fdHandlers[m] == null)
      ensures forall k :: m < k <= from ==> fdHandlers[k] != null
    {
      m := from;
      while m >= 0 && fdHandlers[m] != null
        invariant -1 <= m <= from && forall k :: m < k <= from ==> fdHandlers[k] != null
      {
        m := m - 1;
      }
    }

    /** What select is asked to watch: exactly what the registered handlers want. */
    method FillSelectSets() returns (rd: set<nat>, wr: set<nat>)
      requires Valid()
      ensures forall fd: nat :: fd in rd <==> At(fd) != null && At(fd).wantRead
      ensures forall fd: nat :: fd in wr <==> At(fd) != null && At(fd).wantWrite
    {
      rd, wr := {}, {};
      for i := 0 to maxFd + 1
        invariant forall fd: nat :: fd in rd <==> fd < i && At(fd) != null && At(fd).wantRead
        invariant forall fd: nat :: fd in wr <==> fd < i && At(fd) != null && At(fd).wantWrite
      {
        if fdHandlers[i] != null {
          if fdHandlers[i].wantRead {
            rd := rd + {i};
          }
          if fdHandlers[i].wantWrite {
            wr := wr + {i};
          }
        }
      }
    }

    /** Inserts h before the first entry that is not later. */
    method RegisterTimeoutHandler(h: TimeoutHandler)
      requires Valid()
      modifies this`timeouts
      ensures Valid()
      ensures exists p :: 0 <= p <= |old(timeouts)| && timeouts == old(timeouts)[..p] + [h] + old(timeouts)[p..]
                          && (forall t :: t in old(timeouts)[..p] ==> t.Deadline() > h.Deadline())
                          && (forall t :: t in old(timeouts)[p..] ==> t.Deadline() <= h.Deadline())
    {
      var p := 0;
      while p < |timeouts| && EarlierThan(h, timeouts[p].sec, timeouts[p].usec)
        invariant p <= |timeouts| && forall k :: 0 <= k < p ==> timeouts[k].Deadline() > h.Deadline()
      {
        p := p + 1;
      }
      timeouts := timeouts[..p] + [h] + timeouts[p..];
    }

    /**
     Removes the first entry that is h, if there is one.  The order of the list lets the search give up early, and
     it never gives up too early.
     */
    method RemoveTimeoutHandler(h: TimeoutHandler)
      requires Valid()
      modifies this`timeouts
      ensures Valid()
      ensures if h in old(timeouts) then
                exists p :: 0 <= p < |old(timeouts)| && old(timeouts)[p] == h && h !in old(timeouts)[..p]
                            && timeouts == old(timeouts)[..p] + old(timeouts)[p + 1..]
              else timeouts == old(timeouts)
    {
      var p := 0;
      while p < |timeouts| && timeouts[p] != h
        invariant p <= |timeouts| && h !in timeouts[..p]
      {
        if EarlierThan(timeouts[p], h.sec, h.usec) {
          return;
        }
        p := p + 1;
      }
      if p < |timeouts| {
        timeouts := timeouts[..p] + timeouts[p + 1..];
      }
    }
  }
}
