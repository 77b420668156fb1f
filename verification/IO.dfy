/** The reader and the writer at the two ends of a pipeline. */
module IO {
  import opened Bytes

  /** How data is split: the most that one read delivers, by the number of bytes that are left. */
  type Pace = nat -> nat

  /** A read delivers something, whatever the pace. */
  function AtMost(pace: Pace, left: nat): (k: nat)
    ensures k >= 1
  {
    if pace(left) == 0 then 1 else pace(left)
  }

  /** What a paced read into `size` bytes delivers of `left`. */
  function Step(pace: Pace, left: nat, size: nat): nat {
    Min(Min(size, left), AtMost(pace, left))
  }

  /** An io.Reader over a fixed byte string. `Read` delivers any non-zero number of the bytes that
      are left, so whatever is proved about its callers holds for every split of the data; with a pace
      given, it is one certain split. When nothing is left it reports `end`, again at every call. */
  class Source {
    var rest: bytes
    const end: Err
    const pace: Option<Pace>

    constructor (data: bytes, end: Err, pace: Option<Pace>)
      requires end == EOF || end.Failed?
      ensures rest == data && this.end == end && this.pace == pace
    {
      this.rest, this.end, this.pace := data, end, pace;
    }

    ghost predicate Valid() {
      end == EOF || end.Failed?
    }

    method Read(out: array<byte>, lo: nat, hi: nat) returns (n: nat, err: Err)
      requires Valid() && lo <= hi <= out.Length
      modifies this`rest, out
      ensures n <= hi - lo && n <= |old(rest)|
      ensures out[lo..lo + n] == old(rest)[..n] && rest == old(rest)[n..]
      ensures forall i :: 0 <= i < out.Length && !(lo <= i < lo + n) ==> out[i] == old(out[i])
      ensures err == None ==> (lo < hi ==> n > 0)
      ensures err != None ==> err == end && old(rest) == []
      ensures old(rest) != [] && lo < hi && pace.Present? ==> n == Step(pace.value, |old(rest)|, hi - lo)
    {
      if rest == [] {
        return 0, end;
      }
      err := None;
      n := 0;
      if lo < hi {
        if pace.Present? {
          n := Step(pace.value, |rest|, hi - lo);
        } else {
          var most := Min(hi - lo, |rest|);
          assert 1 <= most;
          var k: nat :| 1 <= k <= most;
          n := k;
        }
      }
      forall i | 0 <= i < n {
        out[lo + i] := rest[i];
      }
      rest := rest[n..];
    }
  }

  /** An in-memory buffer: written at the back (io.Writer), drained from the front (bytes.Buffer). */
  class Buffer {
    var data: bytes
    ghost var drained: bytes

    /** Everything written so far, drained or not. */
    ghost function Written(): bytes
      reads this
    {
      drained + data
    }

    constructor ()
      ensures data == drained == []
    {
      data, drained := [], [];
    }

    method Write(p: bytes)
      modifies this
      ensures data == old(data) + p && drained == old(drained) && Written() == old(Written()) + p
    {
      data := data + p;
    }

    method Next(n: nat) returns (p: bytes)
      modifies this
      ensures p == old(data)[..Min(n, |old(data)|)] && data == old(data)[|p|..]
      ensures drained == old(drained) + p && Written() == old(Written())
    {
      var k := Min(n, |data|);
      assert data == data[..k] + data[k..];
      p, data, drained := data[..k], data[k..], drained + data[..k];
    }
  }
}
