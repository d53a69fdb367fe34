/** The write-back cache of one open file: a prefix handed to the service and a buffer on top of it. */
module WriteBack {
  import opened ByteStrings

  /** What the service stores for the file, how much of it this handle has put there, and the
      bytes not handed over yet. */
  datatype Cached = Cached(content: Bytes, committed: nat, data: Bytes) {

    predicate WellFormed() { committed <= |content| }

    /** The file as its writer sees it. */
    function Logical(): Bytes
      requires WellFormed()
    {
      content[..committed] + data
    }

    function End(): nat { committed + |data| }

    /** The service holds nothing behind the prefix this handle has put there. */
    predicate InStep() { committed == 0 || committed == |content| }

    /** An appending write that would overfill the buffer pushes the buffer out first. */
    predicate FlushDue(threshold: nat, offset: nat, bytes: Bytes) {
      offset == End() && |data| + |bytes| > threshold
    }

    /** A write in front of the buffer does not fit its slice: the handle's code stops there. */
    predicate Panics(offset: nat, bytes: Bytes) { offset < committed && bytes != [] }

    /** The service's content after the buffer has been handed over. */
    function Handed(): Bytes { if committed == 0 then data else content + data }

    function Write(threshold: nat, offset: nat, bytes: Bytes): Cached {
      if FlushDue(threshold, offset, bytes) then
        if data == [] then this.(data := bytes) else Cached(Handed(), End(), bytes)
      else
        this.(data := Splice(data, SatSub(offset, committed), bytes))
    }

    /** A read is served from the buffer, from the service, or from both. */
    function Read(start: nat, size: nat): Bytes
      requires WellFormed()
    {
      var end := Min(start + size, End());
      if start >= end then []
      else if committed == 0 || start >= committed then
        data[SatSub(start, committed)..Min(end - committed, |data|)]
      else if end <= committed then
        content[Min(start, |content|)..Min(end, |content|)]
      else
        content[start..Min(committed, |content|)] + data[..Min(end - committed, |data|)]
    }

    /** The read has to ask the service. */
    predicate ReadsService(start: nat, size: nat) { start < committed && start < Min(start + size, End()) }

    /** The final flush keeps both the mark and the buffer. */
    function Flush(): Cached { this.(content := Handed()) }
  }

  /** All three cases return the requested slice of the logical file. */
  lemma ReadSlices(c: Cached, start: nat, size: nat)
    requires c.WellFormed()
    ensures c.Read(start, size) == Slice(c.Logical(), start, size)
  {
    SliceIs(c.Logical(), start, size);
    var end := Min(start + size, c.End());
    if start < end {
      var read := c.Read(start, size);
      if c.committed == 0 || start >= c.committed {
        ReadBuffer(c, start, end);
        assert read == c.data[start - c.committed..end - c.committed];
      } else if end <= c.committed {
        ReadPrefix(c, start, end);
        assert read == c.content[start..end];
      } else {
        ReadBoth(c, start, end);
        assert read == c.content[start..c.committed] + c.data[..end - c.committed];
      }
    }
  }

  lemma ReadPrefix(c: Cached, start: nat, end: nat)
    requires c.WellFormed() && start < end <= c.committed
    ensures c.content[start..end] == c.Logical()[start..end]
  {
    SliceOfJoined(c.content[..c.committed], c.data, start, end);
    assert c.content == c.content[..c.committed] + c.content[c.committed..];
    SliceOfJoined(c.content[..c.committed], c.content[c.committed..], start, end);
  }

  lemma ReadBuffer(c: Cached, start: nat, end: nat)
    requires c.WellFormed() && c.committed <= start < end <= c.End()
    ensures c.data[start - c.committed..end - c.committed] == c.Logical()[start..end]
  {
    SliceOfJoined(c.content[..c.committed], c.data, start, end);
  }

  lemma ReadBoth(c: Cached, start: nat, end: nat)
    requires c.WellFormed() && start < c.committed < end <= c.End()
    ensures c.content[start..c.committed] + c.data[..end - c.committed] == c.Logical()[start..end]
  {
    SliceOfJoined(c.content[..c.committed], c.data, start, end);
  }

  /** A write leaves the file in step exactly when it was in step before. */
  lemma WriteKeepsStep(c: Cached, threshold: nat, offset: nat, bytes: Bytes)
    requires c.WellFormed()
    ensures c.Write(threshold, offset, bytes).WellFormed()
    ensures c.Write(threshold, offset, bytes).InStep() <==> c.InStep()
  {
    hide Splice;
    if c.FlushDue(threshold, offset, bytes) && c.data != [] { assert c.End() <= |c.Handed()|; }
  }

  lemma StreamedWriteRefines(c: Cached, threshold: nat, bytes: Bytes)
    requires c.WellFormed() && (c.InStep() || c.data == []) && c.FlushDue(threshold, c.End(), bytes)
    ensures var d := c.Write(threshold, c.End(), bytes);
            d.WellFormed() && d.Logical() == Splice(c.Logical(), c.End(), bytes)
  {
    hide Splice;
    SpliceAtEnd(c.Logical(), bytes);
    var d := c.Write(threshold, c.End(), bytes);
    if c.data == [] {
      assert c.Logical() == c.content[..c.committed];
    } else if c.committed == 0 {
      assert c.Logical() == c.data == d.content[..d.committed];
    } else {
      assert c.content[..c.committed] == c.content && c.Logical() == d.content == d.content[..d.committed];
    }
  }

  /** One write, whichever branch it takes, is the splice on the logical file. Out of step this
      holds as long as the write stays in the buffer. */
  lemma WriteRefines(c: Cached, threshold: nat, offset: nat, bytes: Bytes)
    requires c.WellFormed() && !c.Panics(offset, bytes)
    requires c.InStep() || c.data == [] || !c.FlushDue(threshold, offset, bytes)
    ensures var d := c.Write(threshold, offset, bytes);
            && d.WellFormed() && (d.InStep() <==> c.InStep())
            && d.Logical() == Splice(c.Logical(), offset, bytes)
  {
    hide Splice;
    WriteKeepsStep(c, threshold, offset, bytes);
    if c.FlushDue(threshold, offset, bytes) {
      StreamedWriteRefines(c, threshold, bytes);
    } else if c.committed <= offset {
      SpliceBehindPrefix(c.content[..c.committed], c.data, offset, bytes);
    } else {
      SpliceNothing(c.Logical(), offset);
      SpliceNothing(c.data, 0);
    }
  }

  /** The write is a splice of the file as its writer sees it, unless a file out of step is streamed, and
      leaves the file in step exactly when it was. */
  ghost predicate Splices(c: Cached, d: Cached, threshold: nat, offset: nat, bytes: Bytes) {
    && c.WellFormed() && d.WellFormed() && (d.InStep() <==> c.InStep())
    && (c.InStep() || c.data == [] || !c.FlushDue(threshold, offset, bytes) ==>
          d.Logical() == Splice(c.Logical(), offset, bytes))
  }

  lemma WriteSplices(c: Cached, threshold: nat, offset: nat, bytes: Bytes)
    requires c.WellFormed() && !c.Panics(offset, bytes)
    ensures Splices(c, c.Write(threshold, offset, bytes), threshold, offset, bytes)
  {
    hide Splice;
    WriteKeepsStep(c, threshold, offset, bytes);
    if c.InStep() || c.data == [] || !c.FlushDue(threshold, offset, bytes) {
      WriteRefines(c, threshold, offset, bytes);
    }
  }

  /** What a write to a regular file means: no bytes change nothing, holes read as zeros. */
  function PosixWrite(file: Bytes, offset: nat, bytes: Bytes): Bytes {
    if bytes == [] then file else Splice(file, offset, bytes)
  }

  /** The handle departs from that in exactly one case: a write of no bytes past the end, which
      extends the file with zeros. */
  lemma WriteIsPosix(c: Cached, threshold: nat, offset: nat, bytes: Bytes)
    requires c.WellFormed() && c.InStep() && !c.Panics(offset, bytes)
    ensures c.Write(threshold, offset, bytes).WellFormed()
    ensures c.Write(threshold, offset, bytes).Logical() == PosixWrite(c.Logical(), offset, bytes)
      <==> bytes != [] || offset <= |c.Logical()|
  {
    WriteRefines(c, threshold, offset, bytes);
    SpliceNothing(c.Logical(), offset);
  }

  // ----- runs -----

  datatype Request = Request(offset: nat, bytes: Bytes)

  function Run(c: Cached, threshold: nat, requests: seq<Request>): Cached {
    if requests == [] then c
    else Run(c, threshold, requests[..|requests| - 1]).Write(
           threshold, requests[|requests| - 1].offset, requests[|requests| - 1].bytes)
  }

  /** No request of the run hits the prefix already handed over. */
  predicate Allowed(c: Cached, threshold: nat, requests: seq<Request>) {
    requests == [] ||
    var front, last := requests[..|requests| - 1], requests[|requests| - 1];
    Allowed(c, threshold, front) && !Run(c, threshold, front).Panics(last.offset, last.bytes)
  }

  function Applied(file: Bytes, requests: seq<Request>): Bytes {
    if requests == [] then file
    else Splice(Applied(file, requests[..|requests| - 1]),
                requests[|requests| - 1].offset, requests[|requests| - 1].bytes)
  }

  /** After any run of writes, with any mixture of buffered and streaming ones, prefix and buffer
      together are the plain file with all writes applied. */
  lemma {:induction false} RunRefines(c: Cached, threshold: nat, requests: seq<Request>)
    requires c.WellFormed() && c.InStep() && Allowed(c, threshold, requests)
    ensures var d := Run(c, threshold, requests);
            d.WellFormed() && d.InStep() && d.Logical() == Applied(c.Logical(), requests)
  {
    if requests == [] {
    } else {
      var front, last := requests[..|requests| - 1], requests[|requests| - 1];
      RunRefines(c, threshold, front);
      WriteRefines(Run(c, threshold, front), threshold, last.offset, last.bytes);
    }
  }

  // ----- the final flush -----

  /** A flush hands over the logical file, no byte lost or doubled, exactly when the service holds
      nothing behind the prefix; either way the handle still reads the same. */
  lemma FlushExact(c: Cached)
    requires c.WellFormed()
    ensures c.Flush().content == c.Logical() <==> c.InStep()
    ensures c.Flush().WellFormed() && c.Flush().Logical() == c.Logical()
  {
    if c.committed > 0 {
      assert |c.Handed()| == |c.content| + |c.data|;
      assert c.Handed()[..c.committed] == c.content[..c.committed];
      if c.committed == |c.content| { assert c.content[..c.committed] == c.content; }
    }
  }

  /** So opening, writing any number of times and flushing once stores the plain file with all
      writes applied. */
  lemma RunThenFlush(c: Cached, threshold: nat, requests: seq<Request>)
    requires c.WellFormed() && c.InStep() && Allowed(c, threshold, requests)
    ensures Run(c, threshold, requests).Flush().content == Applied(c.Logical(), requests)
  {
    RunRefines(c, threshold, requests);
    FlushExact(Run(c, threshold, requests));
  }

  /** A flush leaves the file in step exactly when it was in step and nothing was handed over behind
      a prefix. */
  lemma FlushLosesStep(c: Cached)
    requires c.WellFormed()
    ensures c.Flush().InStep() <==> c.InStep() && (c.committed == 0 || c.data == [])
  {
  }

  /** So flushing a streaming file, appending to it and flushing again stores the first buffer twice. */
  lemma SecondFlushDoubles(c: Cached, threshold: nat, bytes: Bytes)
    requires c.WellFormed() && c.InStep() && c.committed > 0 && c.data != []
    requires |c.data| + |bytes| <= threshold
    ensures var d := c.Flush().Write(threshold, c.End(), bytes);
            && d.WellFormed() && d.Logical() == c.Logical() + bytes
            && d.Flush().content == c.Logical() + c.data + bytes
            && d.Flush().content != d.Logical()
  {
    hide Splice;
    SpliceAtEnd(c.data, bytes);
    var d := c.Flush().Write(threshold, c.End(), bytes);
    var all := c.content + c.data;
    assert d == Cached(all, c.committed, c.data + bytes);
    assert all[..c.committed] == c.content[..c.committed] == c.content;
    assert d.Logical() == all + bytes && c.Logical() == all;
    assert d.Flush().content == all + (c.data + bytes) == all + c.data + bytes;
    assert |all + c.data + bytes| == |all + bytes| + |c.data|;
  }

  // ----- the cost of streaming -----

  /** Writing chunk after chunk at the end. */
  function Stream(c: Cached, threshold: nat, chunks: seq<Bytes>): Cached {
    if chunks == [] then c
    else
      var d := Stream(c, threshold, chunks[..|chunks| - 1]);
      d.Write(threshold, d.End(), chunks[|chunks| - 1])
  }

  /** How often the service was called for it. */
  function Calls(c: Cached, threshold: nat, chunks: seq<Bytes>): nat {
    if chunks == [] then 0
    else
      var d := Stream(c, threshold, chunks[..|chunks| - 1]);
      Calls(c, threshold, chunks[..|chunks| - 1])
      + if d.FlushDue(threshold, d.End(), chunks[|chunks| - 1]) && d.data != [] then 1 else 0
  }

  function Joined(chunks: seq<Bytes>): Bytes {
    if chunks == [] then [] else Joined(chunks[..|chunks| - 1]) + chunks[|chunks| - 1]
  }

  lemma {:induction false} StreamFollows(threshold: nat, chunks: seq<Bytes>)
    ensures var d := Stream(Cached([], 0, []), threshold, chunks);
            d.WellFormed() && d.InStep() && d.Logical() == Joined(chunks) && d.End() == |Joined(chunks)|
  {
    if chunks == [] {
    } else {
      StreamFollows(threshold, chunks[..|chunks| - 1]);
      var d := Stream(Cached([], 0, []), threshold, chunks[..|chunks| - 1]);
      WriteRefines(d, threshold, d.End(), chunks[|chunks| - 1]);
      SpliceAtEnd(d.Logical(), chunks[|chunks| - 1]);
    }
  }

  lemma StreamStep(d: Cached, threshold: nat, chunk: nat, last: Bytes, calls: nat)
    requires chunk <= threshold && |last| <= chunk && |d.data| <= threshold
    requires calls * (threshold - chunk + 1) <= d.committed
    ensures var e := d.Write(threshold, d.End(), last);
            var more := if d.FlushDue(threshold, d.End(), last) && d.data != [] then calls + 1 else calls;
            |e.data| <= threshold && more * (threshold - chunk + 1) <= e.committed
  {
    if d.FlushDue(threshold, d.End(), last) {
      assert (calls + 1) * (threshold - chunk + 1) == calls * (threshold - chunk + 1) + (threshold - chunk + 1);
    } else {
      SpliceAt(d.data, SatSub(d.End(), d.committed), last);
    }
  }

  /** Streaming chunks of at most `chunk` bytes into a new file never holds more than the threshold in
      the buffer and calls the service once per more than `threshold - chunk` bytes: the number of
      calls is linear in the size of the file, not in the number of writes. */
  lemma {:induction false} StreamingIsLinear(threshold: nat, chunk: nat, chunks: seq<Bytes>)
    requires chunk <= threshold && forall i :: 0 <= i < |chunks| ==> |chunks[i]| <= chunk
    ensures var c := Cached([], 0, []);
            var d := Stream(c, threshold, chunks);
            && |d.data| <= threshold
            && Calls(c, threshold, chunks) * (threshold - chunk + 1) <= d.committed <= |Joined(chunks)|
  {
    StreamFollows(threshold, chunks);
    hide Joined, Cached.Write, Cached.InStep, Cached.WellFormed, Cached.FlushDue;
    if chunks == [] {
    } else {
      var front, last := chunks[..|chunks| - 1], chunks[|chunks| - 1];
      StreamingIsLinear(threshold, chunk, front);
      var c := Cached([], 0, []);
      StreamStep(Stream(c, threshold, front), threshold, chunk, last, Calls(c, threshold, front));
    }
  }
}
