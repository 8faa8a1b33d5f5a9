/** The contract of every resumable `update` and of its state handlers, in terms of `Parse`. */
module Updates {
  import opened Bytes
  import opened Fields

  /** A state handler that fails: the whole input is an error. */
  ghost predicate Refused(f: Field, part: bytes, data: bytes, left: int)
    requires Typed(f)
  {
    left == -1 && Parse(f, part + data) == Bad
  }

  /** A state handler that goes on: what it has read and what is left mean the same as before. */
  ghost predicate Advanced(f: Field, part: bytes, data: bytes, left: int, g: Field, part': bytes)
    requires Typed(f) && Typed(g)
  {
    0 <= left <= |data| && Parse(f, part + data) == Parse(g, part' + data[|data| - left..])
  }

  /** What `update` returns and leaves behind for the outcome `o` of the reference parser: -1 on an
      error, 0 when the message is still incomplete, the number of bytes behind it otherwise. */
  ghost predicate Reads(o: Outcome, data: bytes, left: int, f: Field, part: bytes) {
    match o
    case Bad => left == -1
    case Pending(g, q) => left == 0 && f == g && part == q
    case Finished(g, rest) => 0 <= left <= |data| && f == g && part == [] && rest == data[|data| - left..]
  }

  /** A field that has not got all its bytes. */
  predicate Waits(f: Field, part: bytes) {
    !Stops(f) && if Need(f) == 0 then part == [] else |part| < Need(f)
  }

  /** All the input, before the first handler. */
  lemma AdvanceStart(f: Field, part: bytes, data: bytes)
    requires Typed(f)
    ensures Advanced(f, part, data, |data|, f, part)
  {
    assert data[0..] == data;
  }

  /** One handler after the other. */
  lemma AdvanceNext(f: Field, part: bytes, data: bytes, left: int, g: Field, part': bytes,
                    ret: int, h: Field, part'': bytes)
    requires Typed(f) && Typed(g) && Typed(h)
    requires Advanced(f, part, data, left, g, part')
    requires Advanced(g, part', data[|data| - left..], ret, h, part'')
    ensures Advanced(f, part, data, ret, h, part'')
  {
    hide Parse;
    assert data[|data| - left..][left - ret..] == data[|data| - ret..];
  }

  lemma RefuseNext(f: Field, part: bytes, data: bytes, left: int, g: Field, part': bytes, ret: int)
    requires Typed(f) && Typed(g)
    requires Advanced(f, part, data, left, g, part')
    requires Refused(g, part', data[|data| - left..], ret)
    ensures Refused(f, part, data, ret)
  {
    hide Parse;
  }

  /** The last handler. */
  lemma AdvanceEnd(f: Field, part: bytes, data: bytes, left: int, g: Field, part': bytes)
    requires Typed(f) && Typed(g) && Advanced(f, part, data, left, g, part')
    requires if Stops(g) then part' == [] else left == 0 && Waits(g, part')
    ensures Reads(Parse(f, part + data), data, left, g, part')
  {
    hide Take, Need;
    assert part' + data[|data| - left..] == if Stops(g) then data[|data| - left..] else part';
  }

  /** A handler that completes a field: `x` are its last bytes. */
  lemma AdvanceField(f: Field, part: bytes, data: bytes, k: nat)
    requires Typed(f) && !Stops(f) && k <= |data| && |part| + k == Need(f) > 0
    ensures match Take(f, part + data[..k])
            case Reject => Refused(f, part, data, -1)
            case Go(g) => Typed(g) && Advanced(f, part, data, |data| - k, g, [])
  {
    hide Take, Need;
    var x := part + data[..k];
    if Take(f, x).Go? { TakeTyped(f, x); }
    assert (part + data)[..Need(f)] == x && (part + data)[Need(f)..] == data[k..];
    assert [] + data[k..] == data[k..];
  }

  /** A handler that takes all the input without completing its field. */
  lemma AdvancePart(f: Field, part: bytes, data: bytes)
    requires Typed(f)
    ensures Advanced(f, part, data, 0, f, part + data)
  {
    assert part + data + data[|data|..] == part + data;
  }
}
