/**
 * Stream\Iterator: walks a stream read by read. The key is the number of
 * reads since the last rewind that did not fail, so keys count from 1, and
 * `valid` mixes an end-of-stream test with PHP's `!$data === false`, which
 * parses as `(!$data) === false`, i.e. "the last data is truthy".
 */
module StreamIterators {
  import opened Core
  import opened Streams

  /** The number of reads in `rs` that did not return false. */
  function CountNonFalse(rs: seq<ReadResult>): (n: nat)
    ensures n <= |rs|
  {
    if rs == [] then 0 else CountNonFalse(rs[..|rs| - 1]) + (if rs[|rs| - 1] == RFalse then 0 else 1)
  }

  /** Every read is counted exactly when none of them failed. */
  lemma {:induction false} CountNonFalseAll(rs: seq<ReadResult>)
    ensures CountNonFalse(rs) == |rs| <==> forall i :: 0 <= i < |rs| ==> rs[i] != RFalse
  {
    if rs != [] {
      var front := rs[..|rs| - 1];
      CountNonFalseAll(front);
      assert forall i :: 0 <= i < |front| ==> front[i] == rs[i];
    }
  }

  /** `valid()` as a function of the counter, the end-of-stream test and the cached data. */
  predicate ValidAfter(count: nat, eof: bool, data: ReadResult)
  {
    if count == 0 then !eof else ReadTruthy(data)
  }

  /**
   * Because of the precedence of `!`, a last line "0" (or any falsy string)
   * ends the iteration although it was read, and so does the `null` a text
   * stream answers at its end.
   */
  lemma FalsyDataEndsIteration(count: nat, eof: bool)
    requires count > 0
    ensures !ValidAfter(count, eof, RStr("0")) && !ValidAfter(count, eof, RStr(""))
    ensures !ValidAfter(count, eof, RNull) && !ValidAfter(count, eof, RFalse)
    ensures ValidAfter(count, eof, RStr("0\n"))
  {
  }

  class StreamIterator {
    const stream: ResourceStream
    /** `$data`: the last read result, null before the first read. */
    var data: ReadResult
    /** `$data_count`. */
    var count: nat
    /** The reads made since construction or the last rewind. */
    ghost var history: seq<ReadResult>

    ghost predicate Valid()
      reads this, stream
    {
      stream.Valid() && count == CountNonFalse(history)
    }

    constructor (s: ResourceStream)
      requires s.Valid()
      ensures stream == s && data == RNull && count == 0 && history == []
      ensures Valid()
    {
      stream := s;
      data := RNull;
      count := 0;
      history := [];
    }

    /** `key()`: the number of reads since the last rewind that did not answer false. */
    function Key(): (r: nat)
      reads this, stream
      ensures Valid() ==> r == CountNonFalse(history) && r <= |history|
    {
      count
    }

    /** `valid()`. */
    predicate IsValid()
      reads this, stream
      ensures count == 0 ==> (IsValid() <==> !stream.Eof())
      ensures count > 0 ==> (IsValid() <==> data.RStr? && data.s != "" && data.s != "0")
      ensures count > 0 && (data == RNull || data == RFalse) ==> !IsValid()
    {
      ValidAfter(count, stream.Eof(), data)
    }

    /** The private `read()`: one stream read, cached, counted unless it returned false. */
    method ReadOnce() returns (r: ReadResult)
      requires Valid()
      modifies this, stream
      ensures Valid()
      ensures r == data && history == old(history) + [r]
      ensures count == old(count) + (if r == RFalse then 0 else 1)
      ensures stream.data == old(stream.data) && stream.open == old(stream.open) && stream.binary == old(stream.binary)
      ensures Truthy(stream.binary) ==> (r, stream.pos) == ChunkOutcome(stream.open, stream.data, old(stream.pos), None)
      ensures !Truthy(stream.binary) ==> (r, stream.pos) == LineOutcome(stream.open, stream.data, old(stream.pos), None)
    {
      r := stream.Read(None);
      data := r;
      history := history + [r];
      if r != RFalse {
        count := count + 1;
      }
    }

    /** `current()`: the cached data, or one read when nothing is cached. */
    method Current() returns (r: ReadResult)
      requires Valid()
      modifies this, stream
      ensures Valid()
      ensures old(data) != RNull ==>
                r == old(data) && data == old(data) && history == old(history) && count == old(count) &&
                stream.pos == old(stream.pos)
      ensures old(data) == RNull ==>
                r == data && history == old(history) + [r] && count == old(count) + (if r == RFalse then 0 else 1)
      ensures stream.data == old(stream.data) && stream.open == old(stream.open) && stream.binary == old(stream.binary)
      ensures old(data) == RNull && Truthy(stream.binary) ==>
                (r, stream.pos) == ChunkOutcome(stream.open, stream.data, old(stream.pos), None)
      ensures old(data) == RNull && !Truthy(stream.binary) ==>
                (r, stream.pos) == LineOutcome(stream.open, stream.data, old(stream.pos), None)
    {
      if data == RNull {
        r := ReadOnce();
      } else {
        r := data;
      }
    }

    /** `next()`: exactly one read. */
    method Next()
      requires Valid()
      modifies this, stream
      ensures Valid()
      ensures history == old(history) + [data]
      ensures count == old(count) + (if data == RFalse then 0 else 1)
      ensures stream.data == old(stream.data) && stream.open == old(stream.open) && stream.binary == old(stream.binary)
      ensures Truthy(stream.binary) ==> (data, stream.pos) == ChunkOutcome(stream.open, stream.data, old(stream.pos), None)
      ensures !Truthy(stream.binary) ==> (data, stream.pos) == LineOutcome(stream.open, stream.data, old(stream.pos), None)
    {
      var _ := ReadOnce();
    }

    /** `rewind()`: the counter restarts and the stream rewinds; the cached data stays. */
    method Rewind()
      requires Valid()
      modifies this, stream
      ensures Valid()
      ensures count == 0 && history == [] && data == old(data)
      ensures stream.pos == if stream.open then 0 else old(stream.pos)
      ensures stream.data == old(stream.data) && stream.open == old(stream.open) && stream.binary == old(stream.binary)
    {
      count := 0;
      history := [];
      stream.Rewind();
    }
  }
}
