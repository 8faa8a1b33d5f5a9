/** write, flush and the write callbacks of event_proc and client_socket, which have the first two in common. */
module EventProc {
  import opened Outgoing

  class Channel {
    /** buf_; a null pointer counts as empty. */
    var buf: Bytes
    /** The bytes the kernel has taken. */
    ghost var sent: Bytes
    /** The descriptor is registered for writing. */
    var watched: bool

    ghost function Stream(): Outgoing.Stream
      reads this
    {
      Outgoing.Stream.Stream(buf, sent)
    }

    constructor ()
      ensures buf == sent == [] && !watched
    {
      buf, sent, watched := [], [], false;
    }

    /** `before` is the byte in memory in front of the data, and `watch` the outcome of write_await. */
    method Write(data: Bytes, before: bv8, o: Outcome, watch: bool) returns (r: int)
      requires Allowed(Stream(), Outgoing.Write(data, before, o, watch))
      modifies this
      ensures Stream() == Step(old(Stream()), Outgoing.Write(data, before, o, watch))
      ensures r == Returned(old(buf), data, o, watch)
      ensures r != -1 ==> |sent| == |old(sent)| + r
      ensures watched == (old(watched) || (watch && old(buf) == [] && !o.Failed? && o != Sent(|data|)))
    {
      if buf != [] {
        buf := buf + data;
        return 0;
      }
      var ret := Ret(o);
      if o.Sent? {
        sent := sent + data[..o.n];
      }
      if ret == |data| {
        return ret;
      }
      if ret == -1 && o != Again {
        return -1;
      }
      buf := buf + From(data, before, ret);
      if !watch {
        return -1;
      }
      watched := true;
      return ret;
    }

    method Flush(o: Outcome) returns (r: int)
      requires Allowed(Stream(), Ready(o))
      modifies `buf, `sent
      ensures Stream() == Step(old(Stream()), Ready(o))
      ensures r == Flushed(old(buf), o)
      ensures r != -1 ==> |sent| == |old(sent)| + r
    {
      if buf == [] {
        return 0;
      }
      var ret := Ret(o);
      if o.Sent? {
        sent := sent + buf[..o.n];
      }
      if ret == |buf| {
        buf := [];
        return ret;
      }
      if ret == -1 {
        if o != Again {
          return -1;
        }
        return 0;
      }
      buf := buf[ret..];
      return ret;
    }

    /** event_proc::write_proc: on_write runs exactly when nothing waits any more. */
    method WriteProc(o: Outcome) returns (call: Callback)
      requires Allowed(Stream(), Ready(o))
      modifies `buf, `sent
      ensures Stream() == Step(old(Stream()), Ready(o))
      ensures call == OnWrite <==> buf == []
      ensures call == OnError <==> old(buf) != [] && o.Failed?
    {
      if buf != [] {
        var ret := Flush(o);
        if ret == -1 {
          return OnError;
        }
        if ret == 0 || buf != [] {
          return None;
        }
      }
      return OnWrite;
    }

    /** client_socket::write_callback, whose test for an empty buffer is the other way round: behind a flush, on_write
        runs exactly when the kernel took a part of the bytes, and bytes still wait. */
    method WriteCallback(o: Outcome) returns (call: Callback)
      requires Allowed(Stream(), Ready(o))
      modifies `buf, `sent
      ensures Stream() == Step(old(Stream()), Ready(o))
      ensures call == OnWrite <==> old(buf) == [] || (o.Sent? && 0 < o.n < |old(buf)|)
      ensures old(buf) != [] && call == OnWrite ==> buf != []
      ensures call == OnError <==> old(buf) != [] && o.Failed?
    {
      if buf != [] {
        var ret := Flush(o);
        if ret == -1 {
          return OnError;
        }
        if ret == 0 || buf == [] {
          return None;
        }
      }
      return OnWrite;
    }
  }
}
