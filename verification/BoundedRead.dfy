/** The bounded JSONL reader of rooted_files.go: a buffer that doubles up to a hard capacity, and a
    one-byte probe that tells an exactly full stream from an oversized one. */
module BoundedRead {
  import opened Common

  const INITIAL_CAPACITY: nat := 4096

  datatype ReadStatus = More | Eof | Failed

  datatype ContentError = InvalidLimit | LimitExceeded | BadCount | NoProgress | ReaderFailed

  function Min(a: nat, b: nat): nat { if a < b then a else b }

  /** rootedJSONLBufferSizeWithMax: the byte limit as a buffer size of the platform's int. */
  function BufferSize(maxBytes: int, maxInt: int): Result<nat, ContentError> {
    if maxBytes <= 0 || maxInt <= 0 || maxBytes > maxInt then Err(InvalidLimit) else Ok(maxBytes)
  }

  /** What is wrong with one read, if anything: a count that is no count, an error, or nothing at all. */
  function Misread(n: int, status: ReadStatus, room: nat): Option<ContentError> {
    if n < 0 || n > room then Some(BadCount)
    else if status == Failed then Some(ReaderFailed)
    else if n == 0 && status == More then Some(NoProgress)
    else None
  }

  /** An io.Reader. given is the number of bytes it has delivered so far and misread what was first wrong with it.
      An honest one delivers its stream in chunks of any size, makes progress, and says
      Eof only at the end (with the last bytes or after them); a dishonest one may return anything. */
  class Reader {
    const stream: Bytes
    const honest: bool
    var pos: nat
    ghost var given: nat
    ghost var misread: Option<ContentError>

    constructor (stream: Bytes, honest: bool)
      ensures this.stream == stream && this.honest == honest && pos == 0 && given == 0 && misread == None
    {
      this.stream, this.honest, pos, given, misread := stream, honest, 0, 0, None;
    }

    ghost predicate Valid()
      reads this
    {
      pos <= |stream|
    }

    ghost function Rest(): Bytes
      requires Valid()
      reads this
    {
      stream[pos..]
    }

    method Read(buf: array<Byte>, lo: nat) returns (n: int, status: ReadStatus)
      requires Valid() && lo < buf.Length
      modifies this`pos, this`given, this`misread, buf
      ensures Valid()
      ensures misread == if old(misread).Some? then old(misread) else Misread(n, status, buf.Length - lo)
      ensures given == if 0 <= n <= buf.Length - lo then old(given) + n else old(given)
      ensures forall j :: 0 <= j < lo ==> buf[j] == old(buf[j])
      ensures honest ==>
                && 0 <= n <= buf.Length - lo
                && pos == old(pos) + n
                && (forall j :: lo <= j < lo + n ==> buf[j] == stream[old(pos) + (j - lo)])
                && status != Failed
                && (status == Eof ==> pos == |stream|)
                && (n == 0 ==> status == Eof)
    {
      if honest {
        var left := |stream| - pos;
        var k: nat :| k <= left && k <= buf.Length - lo && (k == 0 ==> left == 0);
        for i := 0 to k
          invariant pos == old(pos) && given == old(given) && misread == old(misread)
          invariant forall j :: 0 <= j < lo ==> buf[j] == old(buf[j])
          invariant forall j :: lo <= j < lo + i ==> buf[j] == stream[pos + (j - lo)]
        {
          buf[lo + i] := stream[pos + i];
        }
        var early: bool := *;
        n, pos := k, pos + k;
        status := if k == 0 || (pos == |stream| && early) then Eof else More;
      } else {
        n := *;
        status := *;
      }
      given := if 0 <= n <= buf.Length - lo then given + n else given;
      misread := if misread.Some? then misread else Misread(n, status, buf.Length - lo);
    }

    /** io.ReadAll. */
    method ReadAll() returns (r: Result<Bytes, ContentError>)
      requires Valid()
      modifies this`pos, this`given, this`misread
      ensures Valid()
      ensures honest ==> r == Ok(old(Rest()))
      ensures r.Ok? ==> given == old(given) + |r.value| && misread == old(misread)
      ensures r.Err? ==> misread.Some? && (old(misread) == None ==> misread == Some(r.error))
    {
      r := if honest then Ok(stream[pos..]) else Err(ReaderFailed);
      given := if r.Ok? then given + |r.value| else given;
      misread := if misread.Some? || r.Ok? then misread else Some(ReaderFailed);
      pos := |stream|;
    }
  }

  /** growRootedJSONLBuffer: doubles, but never past the maximum; the sum is formed only after the
      increment was clipped, so it cannot overflow an int that holds the maximum. */
  method Grow(buf: array<Byte>, len: nat, maxCapacity: nat) returns (next: array<Byte>)
    requires len <= buf.Length <= maxCapacity
    ensures fresh(next)
    ensures next.Length == Min(2 * buf.Length, maxCapacity)
    ensures len <= next.Length && forall j :: 0 <= j < len ==> next[j] == buf[j]
  {
    var growth := buf.Length;
    if growth > maxCapacity - buf.Length {
      growth := maxCapacity - buf.Length;
    }
    next := new Byte[buf.Length + growth](_ => 0);
    for i := 0 to len
      invariant forall j :: 0 <= j < i ==> next[j] == buf[j]
    {
      next[i] := buf[i];
    }
  }

  /** A successful result is as long as what the reader gave meanwhile, and nothing was wrong; an error other than the limit is
      what was wrong with a read. */
  ghost predicate Faithful(given: nat, misread: Option<ContentError>, given': nat, misread': Option<ContentError>,
                           r: Result<Bytes, ContentError>)
  {
    && (r.Ok? ==> given' == given + |r.value| && misread' == misread)
    && (r.Err? && r.error != LimitExceeded && misread == None ==> misread' == Some(r.error))
  }

  /** probeRootedJSONLOverflow, for a buffer that is full at its maximum capacity. */
  method ProbeOverflow(reader: Reader, content: Bytes) returns (r: Result<Bytes, ContentError>)
    requires reader.Valid()
    modifies reader`pos, reader`given, reader`misread
    ensures reader.Valid()
    ensures r.Ok? ==> r.value == content
    ensures r != Err(InvalidLimit)
    ensures Faithful(old(reader.given), old(reader.misread), reader.given, reader.misread, if r.Ok? then Ok([]) else r)
    ensures r == Err(LimitExceeded) ==> reader.given > old(reader.given)
    ensures reader.honest ==>
              r == if old(reader.Rest()) == [] then Ok(content) else Err(LimitExceeded)
  {
    var extra := new Byte[1](_ => 0);
    var n, status := reader.Read(extra, 0);
    if n < 0 || n > 1 {
      return Err(BadCount);
    }
    if n > 0 {
      return Err(LimitExceeded);
    }
    if status == More {
      return Err(NoProgress);
    }
    if status != Eof {
      return Err(ReaderFailed);
    }
    return Ok(content);
  }

  /** The reading loop of readJSONLContent, for a limit that is a valid buffer size. For every honest
      reader the outcome depends only on the length of the stream; for every reader whatsoever the loop
      terminates, the capacity stays within the limit, and it is never more than the first allocation
      or twice the bytes delivered. */
  method ReadUpTo(reader: Reader, maxCapacity: nat)
    returns (r: Result<Bytes, ContentError>, capacity: nat)
    requires reader.Valid() && 0 < maxCapacity
    modifies reader`pos, reader`given, reader`misread
    ensures reader.Valid() && r != Err(InvalidLimit)
    ensures capacity <= maxCapacity
    ensures r.Ok? ==> |r.value| <= capacity
    ensures Faithful(old(reader.given), old(reader.misread), reader.given, reader.misread, r)
    ensures r == Err(LimitExceeded) ==> reader.given > old(reader.given) + maxCapacity
    ensures r.Ok? ==> capacity <= INITIAL_CAPACITY || capacity <= 2 * |r.value|
    ensures reader.honest ==>
              r == if |old(reader.Rest())| <= maxCapacity then Ok(old(reader.Rest()))
                   else Err(LimitExceeded)
  {
    ghost var start := reader.pos;
    var buf := new Byte[Min(maxCapacity, INITIAL_CAPACITY)](_ => 0);
    var len := 0;
    while true
      invariant fresh(buf) && reader.Valid()
      invariant 0 < buf.Length <= maxCapacity && len <= buf.Length
      invariant reader.given == old(reader.given) + len && reader.misread == old(reader.misread)
      invariant buf.Length <= INITIAL_CAPACITY || buf.Length <= 2 * len
      invariant reader.honest ==> reader.pos == start + len
      invariant reader.honest ==> forall j :: 0 <= j < len ==> buf[j] == reader.stream[start + j]
      decreases maxCapacity - len
    {
      if len == buf.Length {
        if buf.Length == maxCapacity {
          assert reader.honest && reader.pos == |reader.stream| ==> buf[..] == reader.stream[start..];
          r := ProbeOverflow(reader, buf[..]);
          return r, buf.Length;
        }
        buf := Grow(buf, len, maxCapacity);
      }
      var n, status := reader.Read(buf, len);
      if n < 0 || n > buf.Length - len {
        return Err(BadCount), buf.Length;
      }
      len := len + n;
      if status == Eof {
        assert reader.honest ==> buf[..len] == reader.stream[start..];
        return Ok(buf[..len]), buf.Length;
      }
      if status == Failed {
        return Err(ReaderFailed), buf.Length;
      }
      if n == 0 {
        return Err(NoProgress), buf.Length;
      }
    }
  }

  /** readJSONLContent. */
  method ReadContent(reader: Reader, maxBytes: int, maxInt: int)
    returns (r: Result<Bytes, ContentError>, capacity: nat)
    requires reader.Valid()
    modifies reader`pos, reader`given, reader`misread
    ensures reader.Valid()
    ensures maxBytes >= 0 ==> capacity <= maxBytes
    ensures maxBytes >= 0 && r.Ok? ==>
              |r.value| <= capacity <= maxInt
              && (capacity <= INITIAL_CAPACITY || capacity <= 2 * |r.value|)
    ensures r == Err(InvalidLimit) || Faithful(old(reader.given), old(reader.misread), reader.given, reader.misread, r)
    ensures maxBytes >= 0 && r == Err(LimitExceeded) ==> reader.given > old(reader.given) + maxBytes
    ensures maxBytes >= 0 ==> (r == Err(InvalidLimit) <==> BufferSize(maxBytes, maxInt).Err?)
    ensures reader.honest && maxBytes < 0 ==> r == Ok(old(reader.Rest()))
    ensures reader.honest && 0 < maxBytes <= maxInt ==>
              r == if |old(reader.Rest())| <= maxBytes then Ok(old(reader.Rest()))
                   else Err(LimitExceeded)
  {
    if maxBytes < 0 {
      r := reader.ReadAll();
      return r, 0;
    }
    var size := BufferSize(maxBytes, maxInt);
    if size.Err? {
      return Err(size.error), 0;
    }
    r, capacity := ReadUpTo(reader, size.value);
  }
}
