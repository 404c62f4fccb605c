/**
 Reading someone else's archive within bounds (`archive.rs`): past its bound the reader reports an
 error instead of an end, and the copy stops within its limit. Reads may be short and may fail.
 */
module BoundedRead {
  import opened Outcomes

  datatype ReadError = Broken | PastBound

  // A stream of bytes. A read returns at least one byte and at most what was wanted; nothing only
  // at the end, or when nothing was wanted. Only a source that is not `reliable` may fail.
  class Source {
    const data: Bytes
    const reliable: bool
    var pos: nat

    ghost predicate Valid()
      reads this
    {
      pos <= |data|
    }

    constructor (data: Bytes, reliable: bool)
      ensures Valid() && this.data == data && this.reliable == reliable && pos == 0
    {
      this.data, this.reliable := data, reliable;
      pos := 0;
    }

    method Read(want: nat) returns (r: Result<Bytes, ReadError>)
      requires Valid()
      modifies this`pos
      ensures Valid() && pos >= old(pos)
      ensures r.Err? ==> r.error == Broken && pos == old(pos) && !reliable
      ensures r.Ok? ==> |r.value| <= want && r.value == data[old(pos)..pos]
      ensures r.Ok? ==> (r.value == [] <==> want == 0 || old(pos) == |data|)
    {
      var fails := Fault(reliable);
      if fails {
        return Err(Broken);
      }
      if want == 0 || pos == |data| {
        return Ok([]);
      }
      var n: nat :| 1 <= n <= want && pos + n <= |data|;
      r := Ok(data[pos..pos + n]);
      pos := pos + n;
    }
  }

  // Passes on at most `left` bytes. `passed` is what it has delivered; `tripped` that it has failed
  // because more followed.
  class ReadWithin {
    const inner: Source
    var left: nat
    ghost const bound: nat
    ghost var passed: Bytes
    ghost var tripped: bool

    ghost predicate Valid()
      reads this, inner
    {
      && inner.Valid()
      && left + |passed| == bound
      && (!tripped ==> passed == inner.data[..inner.pos])
    }

    constructor (inner: Source, left: nat)
      requires inner.Valid() && inner.pos == 0
      ensures Valid() && !tripped && passed == [] && bound == left && this.inner == inner
    {
      this.inner := inner;
      this.left := left;
      bound := left;
      passed := [];
      tripped := false;
    }

    // A clean end means the whole inner stream was passed on; past the bound there is an error.
    method Read(want: nat) returns (r: Result<Bytes, ReadError>)
      requires Valid() && !tripped
      modifies this, inner`pos
      ensures Valid()
      ensures r.Ok? ==> !tripped && |r.value| <= want && passed == old(passed) + r.value
      ensures r == Ok([]) && want > 0 ==> passed == inner.data
      ensures r.Err? ==> passed == old(passed)
      ensures r == Err(Broken) ==> !tripped && !inner.reliable
      ensures r == Err(PastBound) ==> tripped && |passed| == bound < |inner.data|
    {
      if want == 0 {
        return Ok([]);
      }
      if left == 0 {
        var probe := inner.Read(1);
        if probe.Ok? && probe.value != [] {
          tripped := true;
          return Err(PastBound);
        }
        return probe;
      }
      var wanted := if left < want then left else want;
      r := inner.Read(wanted);
      if r.Ok? {
        left := left - |r.value|;
        passed := passed + r.value;
      }
    }
  }

  // Reads a bounded reader until it ends or fails, in pieces of any size. A stream that fits comes
  // out whole; one that does not comes out cut at exactly the bound, with an error — never as a
  // shorter stream that ended.
  method ReadToEnd(reader: ReadWithin) returns (r: Result<(), ReadError>, out: Bytes)
    requires reader.Valid() && !reader.tripped && reader.passed == []
    modifies reader, reader.inner`pos
    ensures r.Ok? ==> out == reader.inner.data && |out| <= reader.bound
    ensures r == Err(PastBound) ==> |reader.inner.data| > reader.bound && out == reader.inner.data[..reader.bound]
    ensures r == Err(Broken) ==> out <= reader.inner.data && |out| <= reader.bound && !reader.inner.reliable
  {
    out := [];
    while true
      invariant reader.Valid() && !reader.tripped && out == reader.passed
      decreases |reader.inner.data| - |reader.passed|
    {
      var want: nat :| want > 0;
      var piece := reader.Read(want);
      if piece.Err? {
        return Err(piece.error), out;
      }
      if piece.value == [] {
        return Ok(()), out;
      }
      out := out + piece.value;
    }
  }

  datatype CopyError = Unreadable | TooLarge | Unwritable

  const BUFFER := 64 * 1024

  // Copies a source to a file and stops short of the first byte past `limit`: `out` is what the file
  // holds afterwards, on every path. `reliable` is about the file.
  method CopyWithin(source: Source, limit: nat, reliable: bool) returns (r: Result<nat, CopyError>, out: Bytes)
    requires source.Valid() && source.pos == 0
    modifies source`pos
    ensures |out| <= limit && out <= source.data
    ensures r.Ok? ==> out == source.data && r.value == |out|
    ensures r == Err(TooLarge) ==> |source.data| > limit
    ensures r.Err? && r != Err(TooLarge) ==> !source.reliable || !reliable
  {
    var written, fails := 0, false;
    out := [];
    while true
      invariant source.Valid() && written == source.pos == |out| <= limit
      invariant out == source.data[..source.pos]
      decreases |source.data| - source.pos
    {
      var piece := source.Read(BUFFER);
      if piece.Err? {
        return Err(Unreadable), out;
      }
      if piece.value == [] {
        break;
      }
      written := written + |piece.value|;
      if written > limit {
        return Err(TooLarge), out;
      }
      fails := Fault(reliable);
      if fails {
        var some: nat :| some <= |piece.value|;
        return Err(Unwritable), out + piece.value[..some];
      }
      out := out + piece.value;
    }
    fails := Fault(reliable);
    r := if fails then Err(Unwritable) else Ok(written);
  }
}
