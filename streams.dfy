/**
 * Streams (AbstractStream and ResourceStream): a stream over one resource,
 * modelled as an in-memory byte buffer with a position and an open flag
 * (the resource id is truthy exactly while the resource is open). The text
 * or binary mode decides whether `read` reads a line or a chunk.
 */
module Streams {
  import opened Core

  /** `Stream::DEFAULT_CHUNK_SIZE` and `Stream::DEFAULT_LINE_LENGTH`. */
  const DefaultChunkSize: int := 8192
  const DefaultLineLength: int := 1024

  /** What a read hands back: a string, PHP `false` (a failed call) or `null` (no resource, or end of a text stream). */
  datatype ReadResult = RStr(s: string) | RFalse | RNull

  /** PHP truthiness of a read result. */
  predicate ReadTruthy(r: ReadResult)
  {
    r.RStr? && r.s != "" && r.s != "0"
  }

  /** `$length ? (int)$length : default`, with a null length as None. */
  function EffectiveLength(length: Option<int>, default: int): (n: int)
    ensures (length.None? || length.value == 0) ==> n == default
    ensures length.Some? && length.value != 0 ==> n == length.value
  {
    if length.Some? && length.value != 0 then length.value else default
  }

  /** `fwrite` at position `pos`: `d` overwrites the bytes there and may extend the buffer. */
  function WriteAt(data: string, pos: nat, d: string): (r: string)
    requires pos <= |data|
    ensures |r| == if pos + |d| > |data| then pos + |d| else |data|
    ensures r[..pos] == data[..pos] && r[pos..pos + |d|] == d
    ensures pos + |d| < |data| ==> r[pos + |d|..] == data[pos + |d|..]
  {
    data[..pos] + d + (if pos + |d| < |data| then data[pos + |d|..] else "")
  }

  /**
   * Where `fgets` with room for `limit` bytes stops: after the first newline,
   * after `limit` bytes or at the end of the buffer, whichever comes first.
   */
  function LineEnd(data: string, pos: nat, limit: nat): (e: nat)
    requires pos <= |data|
    ensures pos <= e <= |data| && e <= pos + limit
    ensures forall i :: pos <= i < e - 1 ==> data[i] != '\n'
    ensures e == |data| || e == pos + limit || (e > pos && data[e - 1] == '\n')
    decreases |data| - pos
  {
    if pos == |data| || limit == 0 then pos
    else if data[pos] == '\n' then pos + 1
    else LineEnd(data, pos + 1, limit - 1)
  }

  /** The exception `__set` and `__unset` of a resource stream throw: `id` and `binary` are read-only. */
  function PropertyWriteError(name: string): (e: Error)
    ensures e.ReadOnlyProperty? <==> name == "id" || name == "binary"
    ensures e.ReadOnlyProperty? || e.MissingProperty?
    ensures e.name == name
  {
    if name == "id" || name == "binary" then ReadOnlyProperty(name) else MissingProperty(name)
  }

  /** `__isset` of a resource stream. */
  function PropertyIsSet(name: string): (r: bool)
    ensures r <==> PropertyWriteError(name).ReadOnlyProperty?
  {
    name == "id" || name == "binary"
  }

  class ResourceStream {
    /** The resource id is truthy. */
    var open: bool
    var data: string
    var pos: nat
    /** The raw value given to `binary()`, or the boolean `text()` stores. */
    var binary: Value

    ghost predicate Valid()
      reads this
    {
      pos <= |data|
    }

    /** `new ResourceStream($id)` over a resource holding `content`, positioned at its start. */
    constructor (content: string, isOpen: bool)
      ensures Valid()
      ensures open == isOpen && data == content && pos == 0
      ensures binary == Bool(false)
    {
      open := isOpen;
      data := content;
      pos := 0;
      binary := Bool(false);
    }

    /** `eof()`: a stream without a resource is always at its end. */
    predicate Eof()
      reads this
      ensures !open ==> Eof()
      ensures Valid() ==> (Eof() <==> LineOutcome(open, data, pos, None).0 == RNull)
    {
      !open || pos >= |data|
    }

    /** `binary(b)`: stores `b` and returns the stream. */
    method SetBinary(b: Value)
      modifies this
      ensures binary == b
      ensures open == old(open) && data == old(data) && pos == old(pos)
    {
      binary := b;
    }

    /** `text(t)`: stores the negation of `t`. */
    method SetText(t: Value)
      modifies this
      ensures binary == Bool(!Truthy(t))
      ensures open == old(open) && data == old(data) && pos == old(pos)
    {
      binary := Bool(!Truthy(t));
    }

    /** `write(d)`: writes at the position and moves past; without a resource nothing happens. */
    method Write(d: string)
      requires Valid()
      modifies this
      ensures Valid()
      ensures old(open) ==> data == WriteAt(old(data), old(pos), d) && pos == old(pos) + |d|
      ensures !old(open) ==> data == old(data) && pos == old(pos)
      ensures open == old(open) && binary == old(binary)
    {
      if open {
        data := WriteAt(data, pos, d);
        pos := pos + |d|;
      }
    }

    /** `write_line(d)`: writes `d` followed by a newline. */
    method WriteLine(d: string)
      requires Valid()
      modifies this
      ensures Valid()
      ensures old(open) ==> data == WriteAt(old(data), old(pos), d + "\n") && pos == old(pos) + |d| + 1
      ensures !old(open) ==> data == old(data) && pos == old(pos)
      ensures open == old(open) && binary == old(binary)
    {
      Write(d + "\n");
    }

    /** `line(d)`: the same as `write_line(d)`. */
    method Line(d: string)
      requires Valid()
      modifies this
      ensures Valid()
      ensures old(open) ==> data == WriteAt(old(data), old(pos), d + "\n") && pos == old(pos) + |d| + 1
      ensures !old(open) ==> data == old(data) && pos == old(pos)
      ensures open == old(open) && binary == old(binary)
    {
      WriteLine(d);
    }

    /**
     * `read_chunk(length)`: `fread` of the effective length (8192 for a falsy
     * one); a non-positive length fails, and without a resource the call answers null.
     */
    method ReadChunk(length: Option<int>) returns (r: ReadResult)
      requires Valid()
      modifies this
      ensures Valid()
      ensures data == old(data) && open == old(open) && binary == old(binary)
      ensures (r, pos) == ChunkOutcome(old(open), data, old(pos), length)
      ensures !old(open) ==> r == RNull && pos == old(pos)
      ensures old(open) && EffectiveLength(length, DefaultChunkSize) <= 0 ==> r == RFalse && pos == old(pos)
      ensures old(open) && EffectiveLength(length, DefaultChunkSize) > 0 ==>
                r.RStr? && pos == old(pos) + |r.s| && r.s == data[old(pos)..pos] &&
                (|r.s| == EffectiveLength(length, DefaultChunkSize) || pos == |data|)
    {
      var n := EffectiveLength(length, DefaultChunkSize);
      if !open {
        r := RNull;
      } else if n <= 0 {
        r := RFalse;
      } else {
        var e := if pos + n <= |data| then pos + n else |data|;
        r := RStr(data[pos..e]);
        pos := e;
      }
    }

    /**
     * `read_line(length)`: null without a resource or at the end; otherwise
     * `fgets` with the effective length (1024 for a falsy one), which reads
     * up to length - 1 bytes and stops after a newline. A length below 2
     * leaves no room for a byte, and `fgets` then answers false.
     */
    method ReadLine(length: Option<int>) returns (r: ReadResult)
      requires Valid()
      modifies this
      ensures Valid()
      ensures data == old(data) && open == old(open) && binary == old(binary)
      ensures (r, pos) == LineOutcome(old(open), data, old(pos), length)
      ensures old(Eof()) ==> r == RNull && pos == old(pos)
      ensures !old(Eof()) && EffectiveLength(length, DefaultLineLength) <= 1 ==> r == RFalse && pos == old(pos)
      ensures !old(Eof()) && EffectiveLength(length, DefaultLineLength) > 1 ==>
                pos == LineEnd(data, old(pos), EffectiveLength(length, DefaultLineLength) - 1) &&
                r == RStr(data[old(pos)..pos])
    {
      var n := EffectiveLength(length, DefaultLineLength);
      if !open || Eof() {
        r := RNull;
      } else if n <= 1 {
        r := RFalse;
      } else {
        var e := LineEnd(data, pos, n - 1);
        r := RStr(data[pos..e]);
        pos := e;
      }
    }

    /** `read(length)`: a chunk in binary mode, a line in text mode. */
    method Read(length: Option<int>) returns (r: ReadResult)
      requires Valid()
      modifies this
      ensures Valid()
      ensures data == old(data) && open == old(open) && binary == old(binary)
      ensures Truthy(binary) ==> (r, pos) == ChunkOutcome(old(open), data, old(pos), length)
      ensures !Truthy(binary) ==> (r, pos) == LineOutcome(old(open), data, old(pos), length)
    {
      if Truthy(binary) {
        r := ReadChunk(length);
      } else {
        r := ReadLine(length);
      }
    }

    /**
     * `close()`: closes a live resource, clearing the id, or throws when
     * `fclose` fails (`closeSucceeds` stands for its outcome); a stream
     * without a resource is left alone.
     */
    method Close(closeSucceeds: bool) returns (thrown: Option<Error>)
      modifies this
      ensures old(open) && closeSucceeds ==> !open && thrown.None?
      ensures old(open) && !closeSucceeds ==> open && thrown == Some(StreamCloseFailure)
      ensures !old(open) ==> !open && thrown.None?
      ensures data == old(data) && pos == old(pos) && binary == old(binary)
    {
      thrown := None;
      if open {
        if closeSucceeds {
          open := false;
        } else {
          thrown := Some(StreamCloseFailure);
        }
      }
    }

    /** `rewind()`: back to the start (a stream without a resource stays as it is). */
    method Rewind()
      requires Valid()
      modifies this
      ensures Valid()
      ensures pos == if old(open) then 0 else old(pos)
      ensures data == old(data) && open == old(open) && binary == old(binary)
    {
      if open {
        pos := 0;
      }
    }

    /** `load()`: rewinds, then reads everything; null without a resource. */
    method Load() returns (r: ReadResult)
      requires Valid()
      modifies this
      ensures Valid()
      ensures old(open) ==> r == RStr(data) && pos == |data|
      ensures !old(open) ==> r == RNull && pos == old(pos)
      ensures data == old(data) && open == old(open) && binary == old(binary)
    {
      Rewind();
      if open {
        r := RStr(data[pos..]);
        pos := |data|;
      } else {
        r := RNull;
      }
    }
  }

  /** What `read_chunk` answers and where it leaves the position, as a function of the state. */
  function ChunkOutcome(open: bool, data: string, pos: nat, length: Option<int>): (r: (ReadResult, nat))
    requires pos <= |data|
    ensures !open ==> r == (RNull, pos)
    ensures open && r.0.RStr? ==> pos <= r.1 <= |data| && r.0.s == data[pos..r.1]
    ensures r.0 == RFalse <==> open && EffectiveLength(length, DefaultChunkSize) <= 0
  {
    var n := EffectiveLength(length, DefaultChunkSize);
    if !open then (RNull, pos)
    else if n <= 0 then (RFalse, pos)
    else
      var e := if pos + n <= |data| then pos + n else |data|;
      (RStr(data[pos..e]), e)
  }

  /** What `read_line` answers and where it leaves the position. */
  function LineOutcome(open: bool, data: string, pos: nat, length: Option<int>): (r: (ReadResult, nat))
    requires pos <= |data|
    ensures !open || pos >= |data| ==> r == (RNull, pos)
    ensures r.0.RStr? ==> pos <= r.1 <= |data| && r.0.s == data[pos..r.1]
    ensures r.0 == RFalse <==> open && pos < |data| && EffectiveLength(length, DefaultLineLength) <= 1
    ensures r.0.RStr? ==> r.1 > pos
  {
    var n := EffectiveLength(length, DefaultLineLength);
    if !open || pos >= |data| then (RNull, pos)
    else if n <= 1 then (RFalse, pos)
    else
      var e := LineEnd(data, pos, n - 1);
      (RStr(data[pos..e]), e)
  }

  /** With the default length, a line read from a live stream not at its end yields at least one byte. */
  lemma DefaultLineMakesProgress(data: string, pos: nat)
    requires pos < |data|
    ensures LineOutcome(true, data, pos, None).0.RStr?
    ensures LineOutcome(true, data, pos, None).1 > pos
  {
  }

  /** A line read in full ends with its newline or at the end of the data, and holds no other newline. */
  lemma LineShape(data: string, pos: nat, length: Option<int>)
    requires pos <= |data|
    ensures var (r, e) := LineOutcome(true, data, pos, length);
            r.RStr? ==> (forall i :: 0 <= i < |r.s| - 1 ==> r.s[i] != '\n') &&
                        (e == |data| || |r.s| == EffectiveLength(length, DefaultLineLength) - 1 || r.s[|r.s| - 1] == '\n')
  {
    var (r, e) := LineOutcome(true, data, pos, length);
    if r.RStr? {
      assert forall i :: 0 <= i < |r.s| ==> r.s[i] == data[pos + i];
    }
  }
}
