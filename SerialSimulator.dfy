/** The buffered byte-stream engine of the serial-port simulator. Bytes from the
    data source land in the intake queue `rxbuf`; each host tick drains them, one
    at a time, into the consumer buffer `buf`, from which the read operations
    take bytes. Every `synchronized` block of the engine is one atomic step here.
    The two host callbacks (`serialEvent` and `serialAvailable`) are reduced to
    "is it registered" flags, and each invocation's outcome is an argument. */
module SerialSim {
  import opened JavaBytes
  import opened Dispatch

  /** The smaller of two integers. */
  function Min(a: int, b: int): (m: int)
    ensures m <= a && m <= b && (m == a || m == b)
  {
    if a < b then a else b
  }

  class SerialSimulator {
    /** Consumer-visible buffer, oldest byte first. */
    var buf: seq<JByte>
    /** Intake queue filled by the data source, oldest byte first. */
    var rxbuf: seq<JByte>
    /** Buffering policy: a byte count when positive, delimiter mode when zero. */
    var bufferUntilSize: int
    var bufferUntilByte: JByte
    /** Edge-triggered flag: bytes have moved since `pre` last polled. */
    var invokeSerialAvailable: bool
    /** Whether the host's `serialEvent` / `serialAvailable` callbacks are
        registered (the source's non-null `Method` fields). */
    var serialEventOn: bool
    var serialAvailableOn: bool

    /** A fresh engine: both queues empty, policy "one byte", flag clear; the
        callbacks are registered when the host defines them. */
    constructor (hostHasSerialEvent: bool, hostHasSerialAvailable: bool)
      ensures buf == [] && rxbuf == []
      ensures bufferUntilSize == 1 && bufferUntilByte == 0
      ensures !invokeSerialAvailable
      ensures serialEventOn == hostHasSerialEvent && serialAvailableOn == hostHasSerialAvailable
    {
      buf, rxbuf := [], [];
      bufferUntilSize, bufferUntilByte := 1, 0;
      invokeSerialAvailable := false;
      serialEventOn, serialAvailableOn := hostHasSerialEvent, hostHasSerialAvailable;
    }

    /** The number of bytes the consumer can read. */
    function Available(): (n: nat)
      reads this
      ensures n == |buf|
    {
      |buf|
    }

    /** Whether there is anything to read. */
    predicate DataReady()
      reads this
      ensures DataReady() <==> buf != []
    {
      Available() > 0
    }

    /** `buffer(n)`: readiness becomes "at least n bytes". The delimiter byte is
        kept, so `buffer(0)` re-enters delimiter mode with the old delimiter. */
    method Buffer(size: int)
      modifies this`bufferUntilSize
      ensures bufferUntilSize == size
    {
      bufferUntilSize := size;
    }

    /** `bufferUntil(b)`: readiness becomes "the newest byte is (byte)b". */
    method BufferUntil(inByte: int)
      modifies this`bufferUntilSize, this`bufferUntilByte
      ensures bufferUntilSize == 0 && bufferUntilByte == ToByte(inByte)
    {
      bufferUntilSize := 0;
      bufferUntilByte := ToByte(inByte);
    }

    /** `clear()`: empties the consumer buffer; the intake queue is untouched. */
    method Clear()
      modifies this`buf
      ensures buf == []
    {
      buf := [];
    }

    /** `stop()`: the same as `clear()`. */
    method Stop()
      modifies this`buf
      ensures buf == []
    {
      Clear();
    }

    /** `last()`: the newest byte as 0..255, discarding the whole buffer; -1 when
        there is nothing to read. */
    method Last() returns (r: int)
      modifies this`buf
      ensures old(buf) == [] ==> r == -1 && buf == old(buf)
      ensures old(buf) != [] ==> r == Unsigned(old(buf)[|old(buf)| - 1]) && buf == []
      ensures -1 <= r < 256
    {
      if !DataReady() {
        return -1;
      }
      r := Unsigned(buf[|buf| - 1]);
      buf := [];
    }

    /** `read()`: the oldest byte as 0..255, removed from the buffer; -1 when
        there is nothing to read. */
    method Read() returns (r: int)
      modifies this`buf
      ensures old(buf) == [] ==> r == -1 && buf == old(buf)
      ensures old(buf) != [] ==> r == Unsigned(old(buf)[0]) && buf == old(buf)[1..]
      ensures -1 <= r < 256
    {
      if !DataReady() {
        return -1;
      }
      r := Unsigned(buf[0]);
      buf := buf[1..];
    }

    /** `lastChar()`: the cast `(char)` of `last()`; U+FFFF when there is
        nothing to read. */
    method LastChar() returns (c: char)
      modifies this`buf
      ensures old(buf) == [] ==> c == '\U{FFFF}' && buf == old(buf)
      ensures old(buf) != [] ==> c as int == Unsigned(old(buf)[|old(buf)| - 1]) && buf == []
    {
      var r := Last();
      c := CharOf(r);
    }

    /** `readChar()`: the cast `(char)` of `read()`; U+FFFF when there is
        nothing to read. */
    method ReadChar() returns (c: char)
      modifies this`buf
      ensures old(buf) == [] ==> c == '\U{FFFF}' && buf == old(buf)
      ensures old(buf) != [] ==> c as int == Unsigned(old(buf)[0]) && buf == old(buf)[1..]
    {
      var r := Read();
      c := CharOf(r);
    }

    /** `getArray(n, dest)`: copies the first `n` bytes into `dest`, then removes
        them from the back of that prefix towards the front. */
    method GetArray(n: int, dest: array<JByte>)
      requires 0 <= n <= |buf| && n <= dest.Length
      modifies this`buf, dest
      ensures dest[..n] == old(buf)[..n]
      ensures dest[n..] == old(dest[n..])
      ensures buf == old(buf)[n..]
    {
      var i := 0;
      while i < n
        invariant 0 <= i <= n
        invariant buf == old(buf)
        invariant dest[..i] == buf[..i]
        invariant dest[n..] == old(dest[n..])
      {
        dest[i] := buf[i];
        i := i + 1;
      }
      ghost var whole := buf;
      i := n - 1;
      while i >= 0
        invariant -1 <= i < n
        invariant buf == whole[..i + 1] + whole[n..]
        invariant dest[..n] == whole[..n] && dest[n..] == old(dest[n..])
      {
        buf := buf[..i] + buf[i + 1..];
        assert buf == whole[..i] + whole[n..];
        i := i - 1;
      }
    }

    /** `readBytes()`: the whole buffer, oldest first, leaving it empty; null when
        there is nothing to read. */
    method ReadBytes() returns (r: array?<JByte>)
      modifies this`buf
      ensures r == null <==> old(buf) == []
      ensures r == null ==> buf == old(buf)
      ensures r != null ==> fresh(r) && r[..] == old(buf) && buf == []
    {
      if !DataReady() {
        return null;
      }
      var n := |buf|;
      r := new JByte[n];
      GetArray(n, r);
      buf := [];
    }

    /** `readBytes(max)`: the first `min(available, max)` bytes, removed from the
        buffer; null when there is nothing to read. A negative `max` throws in
        the source when the buffer holds data. */
    method ReadBytesMax(max: int) returns (r: array?<JByte>)
      requires buf == [] || max >= 0
      modifies this`buf
      ensures r == null <==> old(buf) == []
      ensures r == null ==> buf == old(buf)
      ensures r != null ==> fresh(r) && r.Length == Min(|old(buf)|, max)
                            && r[..] == old(buf)[..r.Length] && buf == old(buf)[r.Length..]
    {
      if !DataReady() {
        return null;
      }
      var length := |buf|;
      if length > max {
        length := max;
      }
      r := new JByte[length];
      GetArray(length, r);
    }

    /** `readBytes(dest)`: moves the first `min(available, dest.length)` bytes
        into `dest` and returns that count (0 when there is nothing to read). */
    method ReadBytesInto(dest: array<JByte>) returns (n: int)
      modifies this`buf, dest
      ensures n == Min(|old(buf)|, dest.Length)
      ensures dest[..n] == old(buf)[..n] && dest[n..] == old(dest[n..])
      ensures buf == old(buf)[n..]
    {
      if !DataReady() {
        return 0;
      }
      var toCopy := |buf|;
      if dest.Length < toCopy {
        toCopy := dest.Length;
      }
      GetArray(toCopy, dest);
      n := toCopy;
    }

    /** `readBytesUntil(b)`: when `(byte)b` is in the buffer, removes and returns
        everything up to and including its first occurrence; otherwise (the
        buffer empty or the byte absent) null, with the buffer unchanged. */
    method ReadBytesUntil(inByte: int) returns (r: array?<JByte>)
      modifies this`buf
      ensures r == null <==> ToByte(inByte) !in old(buf)
      ensures r == null ==> buf == old(buf)
      ensures r != null ==> fresh(r) && r.Length == IndexOf(old(buf), ToByte(inByte)) + 1
                            && r[..] == old(buf)[..r.Length] && buf == old(buf)[r.Length..]
      ensures r != null ==> r[r.Length - 1] == ToByte(inByte) && ToByte(inByte) !in r[..r.Length - 1]
    {
      if !DataReady() {
        return null;
      }
      var anchor := ToByte(inByte);
      if anchor in buf {
        var idx := IndexOf(buf, anchor);
        var n := idx + 1;
        r := new JByte[n];
        GetArray(n, r);
      } else {
        r := null;
      }
    }

    /** `readBytesUntil(b, dest)`: when `(byte)b` is in the buffer and the span
        through its first occurrence fits in `dest`, moves that span into `dest`
        and returns its length; returns -1 when it does not fit and 0 when the
        buffer is empty or the byte absent, in both cases changing nothing. */
    method ReadBytesUntilInto(inByte: int, dest: array<JByte>) returns (n: int)
      modifies this`buf, dest
      ensures var idx := IndexOf(old(buf), ToByte(inByte));
              n == (if idx == -1 then 0 else if dest.Length < idx + 1 then -1 else idx + 1)
      ensures n <= 0 ==> buf == old(buf) && dest[..] == old(dest[..])
      ensures n > 0 ==> dest[..n] == old(buf)[..n] && dest[n..] == old(dest[n..])
                        && buf == old(buf)[n..]
                        && dest[n - 1] == ToByte(inByte) && ToByte(inByte) !in dest[..n - 1]
    {
      if !DataReady() {
        return 0;
      }
      var anchor := ToByte(inByte);
      if anchor !in buf {
        return 0;
      }
      var idx := IndexOf(buf, anchor);
      var toCopy := idx + 1;
      if dest.Length < toCopy {
        return -1;
      }
      GetArray(toCopy, dest);
      n := toCopy;
    }

    /** `receiveNewIncomingData()`: appends one batch from the data source to the
        intake queue, byte by byte and in order. */
    method ReceiveNewIncomingData(data: seq<JByte>)
      modifies this`rxbuf
      ensures rxbuf == old(rxbuf) + data
    {
      for c := 0 to |data|
        invariant rxbuf == old(rxbuf) + data[..c]
      {
        rxbuf := rxbuf + [data[c]];
      }
      assert data[..|data|] == data;
    }

    /** `serialEvent(s)`: drains the intake queue into the consumer buffer one
        byte per iteration (the bulk branch of the source never takes effect).
        After each move a registered handler is invoked when the policy is met;
        `handlerOk[k]` is the outcome of an invocation after the k-th move, and a
        failing handler is unregistered. `fired` lists the buffer as each
        invocation saw it. The flag is raised iff at least one byte moved. */
    method SerialEvent(handlerOk: seq<bool>) returns (fired: seq<seq<JByte>>)
      requires |handlerOk| >= |rxbuf|
      modifies this`buf, this`rxbuf, this`serialEventOn, this`invokeSerialAvailable
      ensures var t := Transfer(old(buf), old(rxbuf), old(serialEventOn), handlerOk,
                                bufferUntilSize, bufferUntilByte);
              buf == t.buf && serialEventOn == t.handlerOn && fired == t.fired
      ensures buf == old(buf) + old(rxbuf) && rxbuf == []
      ensures invokeSerialAvailable == (old(invokeSerialAvailable) || old(rxbuf) != [])
    {
      var size, delim := bufferUntilSize, bufferUntilByte;
      ghost var goal := Transfer(buf, rxbuf, serialEventOn, handlerOk, size, delim);
      fired := [];
      var k := 0;
      while 0 < |rxbuf|
        invariant 0 <= k <= |handlerOk| && k + |rxbuf| == |old(rxbuf)|
        invariant DrainsTo(buf, rxbuf, serialEventOn, handlerOk[k..], size, delim, fired, goal)
        invariant invokeSerialAvailable == (old(invokeSerialAvailable) || k > 0)
        decreases |rxbuf|
      {
        ghost var buf0, rx0, on0, fired0 := buf, rxbuf, serialEventOn, fired;
        buf := buf + [rxbuf[0]];
        rxbuf := rxbuf[1..];
        if serialEventOn {
          if Ready(size, delim, buf) {
            fired := fired + [buf];
            if !handlerOk[k] {
              serialEventOn := false;
            }
          }
        }
        invokeSerialAvailable := true;
        DrainStep(buf0, rx0, on0, handlerOk[k..], size, delim, fired0, goal, buf, serialEventOn, fired);
        assert handlerOk[k..][1..] == handlerOk[k + 1..];
        k := k + 1;
      }
    }

    /** `pre()`, called once per host frame: when `serialAvailable` is registered
        and the flag is up, the flag is lowered and the callback invoked
        (`pollOk` is its outcome; a failure unregisters it); then a drain pass. */
    method Pre(pollOk: bool, handlerOk: seq<bool>) returns (polled: bool, fired: seq<seq<JByte>>)
      requires |handlerOk| >= |rxbuf|
      modifies this`buf, this`rxbuf, this`serialEventOn, this`invokeSerialAvailable, this`serialAvailableOn
      ensures polled == (old(serialAvailableOn) && old(invokeSerialAvailable))
      ensures serialAvailableOn == (old(serialAvailableOn) && (!polled || pollOk))
      ensures var t := Transfer(old(buf), old(rxbuf), old(serialEventOn), handlerOk,
                                bufferUntilSize, bufferUntilByte);
              buf == t.buf && serialEventOn == t.handlerOn && fired == t.fired
      ensures buf == old(buf) + old(rxbuf) && rxbuf == []
      ensures invokeSerialAvailable == (old(rxbuf) != [] || (old(invokeSerialAvailable) && !polled))
    {
      polled := false;
      if serialAvailableOn && invokeSerialAvailable {
        invokeSerialAvailable := false;
        polled := true;
        if !pollOk {
          serialAvailableOn := false;
        }
      }
      fired := SerialEvent(handlerOk);
    }
  }
}
