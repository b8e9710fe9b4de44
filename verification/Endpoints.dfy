/** The two ends of a transport, as adversaries.

    Whenever it is polled an endpoint may be not ready, may fail, or may move as few bytes as it
    likes. `patience` bounds how many times it still will be not ready (or, for a sink, accept
    nothing); it starts at an arbitrary number, so it restricts no run that ever ends. A `reliable`
    endpoint never fails, and an `eager` sink, when it is ready, never accepts nothing; both are
    settled when the endpoint is made. */
module Endpoints {
  import opened Bytes
  import opened Results
  import opened BodyErrors

  /** The read half: `unread` is everything the peer has yet to be read from, up to its close. */
  class Source {
    var unread: Bytes
    var patience: nat
    const reliable: bool

    constructor (stream: Bytes, patience: nat, reliable: bool)
      ensures unread == stream && this.patience == patience && this.reliable == reliable
    {
      unread, this.patience, this.reliable := stream, patience, reliable;
    }

    /** Reads at most `len` bytes. Reading nothing means that none were asked for, or that the
        peer has closed. */
    method PollRead(len: nat) returns (r: Poll<Result<Bytes, IoError>>)
      modifies this
      ensures r.Pending? ==> unread == old(unread) && patience < old(patience)
      ensures r.Ready? ==> patience == old(patience)
      ensures r.Ready? && r.value.Err? ==> unread == old(unread)
      ensures reliable && r.Ready? ==> r.value.Ok?
      ensures r.Ready? && r.value.Ok? ==>
        var b := r.value.value;
        |b| <= len && old(unread) == b + unread && (b == [] ==> len == 0 || old(unread) == [])
    {
      var stalls: bool := *;
      if patience > 0 && stalls {
        patience := patience - 1;
        return Pending;
      }
      var fails: bool := *;
      if fails && !reliable {
        var code: int := *;
        return Ready(Err(Transport(code)));
      }
      var most := if |unread| < len then |unread| else len;
      var n: int := *;
      n := if 0 <= n < most then n else most;
      n := if n == 0 && most > 0 then 1 else n;
      r := Ready(Ok(unread[..n]));
      unread := unread[n..];
    }
  }

  /** The write half: `wire` is everything the sink has accepted, and `flushed` how much of it is
      known to have left. */
  class Sink {
    var wire: Bytes
    var flushed: nat
    var patience: nat
    const reliable: bool
    const eager: bool

    constructor (patience: nat, reliable: bool, eager: bool)
      ensures wire == [] && flushed == 0 && this.patience == patience
      ensures this.reliable == reliable && this.eager == eager
    {
      wire, flushed, this.patience, this.reliable, this.eager := [], 0, patience, reliable, eager;
    }

    predicate Sound() {
      reliable && eager
    }

    /** Accepts a prefix of `buf`, possibly none of it. */
    method PollWrite(buf: Bytes) returns (r: Poll<Result<nat, IoError>>)
      modifies this
      ensures reliable && r.Ready? ==> r.value.Ok?
      ensures eager && r.Ready? && r.value.Ok? && buf != [] ==> r.value.value > 0
      ensures flushed == old(flushed)
      ensures r.Pending? ==> wire == old(wire) && patience < old(patience)
      ensures r.Ready? && r.value.Err? ==> wire == old(wire) && patience == old(patience)
      ensures r.Ready? && r.value.Ok? ==>
        var n := r.value.value;
        && n <= |buf| && wire == old(wire) + buf[..n]
        && patience <= old(patience) && (n == 0 && buf != [] ==> patience < old(patience))
    {
      var stalls: bool := *;
      if patience > 0 && stalls {
        patience := patience - 1;
        return Pending;
      }
      var fails: bool := *;
      if fails && !reliable {
        var code: int := *;
        return Ready(Err(Transport(code)));
      }
      var n: int := *;
      n := if 0 <= n < |buf| then n else |buf|;
      if n == 0 && buf != [] {
        if patience > 0 && !eager {
          patience := patience - 1;
        } else {
          n := 1;
        }
      }
      wire := wire + buf[..n];
      r := Ready(Ok(n));
    }

    method PollFlush() returns (r: Poll<Result<Unit, IoError>>)
      modifies this
      ensures wire == old(wire) && (reliable && r.Ready? ==> r.value.Ok?)
      ensures r.Pending? ==> flushed == old(flushed) && patience < old(patience)
      ensures r.Ready? ==> patience == old(patience)
      ensures r.Ready? ==> flushed == if r.value.Ok? then |wire| else old(flushed)
    {
      var stalls: bool := *;
      if patience > 0 && stalls {
        patience := patience - 1;
        return Pending;
      }
      var fails: bool := *;
      if fails && !reliable {
        var code: int := *;
        return Ready(Err(Transport(code)));
      }
      flushed := |wire|;
      r := Ready(Ok(Unit.Unit));
    }
  }
}
