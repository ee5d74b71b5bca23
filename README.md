# SerialSimulator: the buffered byte-stream engine, in Dafny

This project models the engine of `SerialSimulator`, a Processing library that
imitates a serial port. A data source appends bytes to an intake queue
(`rxbuf`). On every host frame, `pre` polls the `serialAvailable` callback and
then runs `serialEvent`. That drain pass moves the intake bytes one at a time
into the consumer buffer (`buf`). After each move it invokes the `serialEvent`
callback whenever the buffering policy is met. The sketch reads from `buf`
with `read`, `last`, `readBytes` and `readBytesUntil`.

Files:

- `JavaBytes.dfy`: Java's signed `byte` (`JByte`, -128..127). It holds the
  narrowing cast `(byte)x` (`ToByte`), the unsigned read `b & 0xFF`
  (`Unsigned`), the cast `(char)` of what `read` and `last` return (`CharOf`)
  and `ArrayList.indexOf` (`IndexOf`).
- `Dispatch.dfy`: the readiness rule (`Ready`) and one drain pass as a pure
  function (`Transfer`). Beside them is an independent reference for when the
  callback fires (`ReadyPrefixes`), with lemmas that connect the two.
- `SerialSimulator.dfy`: class `SerialSimulator`. Its fields are the two
  queues as `seq<JByte>`, the policy fields `bufferUntilSize` and
  `bufferUntilByte`, the flag `invokeSerialAvailable`, and one "registered"
  boolean per callback. Every public operation is a method. Each method's
  `ensures` gives the returned value and the new buffer in terms of the old
  one. The drain pass is proved against `Transfer`.
- `Scenarios.dfy`: client methods that check a line-framing session and the
  signed-byte conversions using only the contracts above.

Each `synchronized` block is one atomic step. The two callbacks are found by
reflection in the source. Here each is a registered flag. The result of each
invocation is a method argument: `handlerOk[k]` for the `serialEvent`
callback after the k-th move, and `pollOk` for `serialAvailable`. An
invocation that throws unregisters that callback for good, as in the source.
The output of the data source is the `data` argument of
`ReceiveNewIncomingData`.

Behaviour of the source the model keeps:

- `buffer(n)` sets only the size. The delimiter byte is kept, so `buffer(0)`
  returns to delimiter mode with the old byte.
- Every iteration of the drain loop moves exactly one byte. The narrowing
  `toRead = 1` has no effect on what the loop moves.
- A negative size in `buffer(n)` is never met (`NegativeSizeNeverReady`).
- `readBytesUntil(b, dest)` returns -1 and changes nothing when the span does
  not fit in `dest`.

## Model

| member | source | states |
|---|---|---|
| `JavaBytes.ToByte` | SerialSimulator.java:138-141 | `(byte)x` keeps `x` modulo 256 in -128..127 and leaves every value already in that range unchanged |
| `JavaBytes.Unsigned` | SerialSimulator.java:197 | `b & 0xFF` lies in 0..255, is congruent to `b` modulo 256, and casting it back to `byte` gives `b` |
| `JavaBytes.IndexOf` | SerialSimulator.java:302-303 | the result is -1 exactly when the byte is absent; otherwise it is a position holding the byte with no earlier occurrence |
| `JavaBytes.CharOf` | SerialSimulator.java:181 | the cast `(char)r` keeps `r` modulo 65536, so 0..255 are unchanged and -1 becomes U+FFFF |
| `Dispatch.Ready` | SerialSimulator.java:443-444 | the policy holds when `size > 0` and the buffer has at least `size` bytes, or when `size` is 0 and the newest byte equals the delimiter; it never holds for a negative size or an empty buffer |
| `Dispatch.Transfer` | SerialSimulator.java:427-463 | a drain pass leaves the buffer as the old buffer followed by all intake bytes, in order. A handler that is off stays off and is never invoked. There is at most one invocation per byte moved |
| `Dispatch.ReadyPrefixesMembers` | SerialSimulator.java:443-444 | a buffer state is listed as a firing point exactly when it is a prefix of the final buffer, is longer than the starting buffer, and meets the policy |
| `Dispatch.TransferWithSucceedingHandler` | SerialSimulator.java:442-460 | while the callback returns normally, it stays registered and is invoked exactly at every policy-meeting prefix, in order |
| `Dispatch.TransferWithFailingHandler` | SerialSimulator.java:453-459 | a callback that always throws is invoked once, at the first policy-meeting prefix, and is then unregistered; with no such prefix it is never invoked and stays registered |
| `Dispatch.TransferAppend` | SerialSimulator.java:427-463 | draining `rx1 + rx2` in one pass ends where draining `rx1` and then `rx2` ends, with the same registration, and the invocations of the two passes follow each other in order |
| `Dispatch.TransferStopsAtFirstFailure` | SerialSimulator.java:442-460 | for any callback outcomes, a pass that starts with the callback registered invokes it at the policy-meeting prefixes in order, up to and including the first invocation that throws. Every earlier invocation returned normally. The callback stays registered exactly when every policy-meeting prefix was invoked and none threw |
| `Dispatch.SecondInvocationFailsDropsHandler` | SerialSimulator.java:453-459 | with threshold 1 and outcomes "returns, throws, returns", three moves invoke the callback after the first and second moves only, and leave it unregistered |
| `Dispatch.TransferFiresOnlyWhenReady` | SerialSimulator.java:442-444 | whatever the callback does, each invocation sees a prefix of old buffer plus intake that is longer than the old buffer and meets the policy |
| `Dispatch.NegativeSizeNeverReady` | SerialSimulator.java:131-133 | after `buffer(n)` with `n < 0` no buffer state meets the policy |
| `Dispatch.ThresholdThreeFiresOnThirdMove` | SerialSimulator.java:443 | with threshold 3 and an empty buffer, three moves invoke a succeeding callback once, on the third move |
| `Dispatch.NewlineDelimiterFiresOnNewline` | SerialSimulator.java:444 | in delimiter mode, the bytes "AB\nC" invoke the callback once, when the newline arrives |
| `SerialSim.SerialSimulator.constructor` | SerialSimulator.java:74-92 | a new engine has both queues empty, threshold 1, delimiter 0, the flag clear, and a callback registered exactly when the host defines it |
| `SerialSim.SerialSimulator.Available` | SerialSimulator.java:124-126 | the number of bytes in the consumer buffer |
| `SerialSim.SerialSimulator.DataReady` | SerialSimulator.java:376-378 | true exactly when the consumer buffer is non-empty |
| `SerialSim.SerialSimulator.Buffer` | SerialSimulator.java:131-133 | sets the threshold and nothing else; the delimiter is kept |
| `SerialSim.SerialSimulator.BufferUntil` | SerialSimulator.java:138-141 | sets the threshold to 0 and the delimiter to the byte cast of the argument |
| `SerialSim.SerialSimulator.Clear` | SerialSimulator.java:146-150 | empties the consumer buffer; the intake queue and everything else are unchanged, so repeating it changes nothing |
| `SerialSim.SerialSimulator.Stop` | SerialSimulator.java:473-476 | the same effect as `Clear` |
| `SerialSim.SerialSimulator.Last` | SerialSimulator.java:165-175 | on an empty buffer returns -1 and changes nothing; otherwise returns the newest byte as 0..255 and empties the buffer |
| `SerialSim.SerialSimulator.Read` | SerialSimulator.java:191-202 | on an empty buffer returns -1 and changes nothing; otherwise returns the oldest byte as 0..255 and leaves the rest in order |
| `SerialSim.SerialSimulator.LastChar` | SerialSimulator.java:180-182 | on an empty buffer returns U+FFFF, the `(char)` cast of -1, and changes nothing; otherwise returns the character whose code is the newest byte as 0..255 and empties the buffer |
| `SerialSim.SerialSimulator.ReadChar` | SerialSimulator.java:383-385 | on an empty buffer returns U+FFFF and changes nothing; otherwise returns the character whose code is the oldest byte as 0..255 and leaves the rest in order |
| `SerialSim.SerialSimulator.GetArray` | SerialSimulator.java:358-371 | the first `n` destination slots receive the first `n` buffered bytes, the other slots are untouched, and the buffer becomes its suffix after `n` |
| `SerialSim.SerialSimulator.ReadBytes` | SerialSimulator.java:210-225 | returns null and changes nothing on an empty buffer; otherwise returns a fresh array holding the whole buffer in order and leaves the buffer empty |
| `SerialSim.SerialSimulator.ReadBytesMax` | SerialSimulator.java:238-253 | returns null on an empty buffer; otherwise a fresh array of the first `min(available, max)` bytes, which leave the buffer while the suffix stays in order |
| `SerialSim.SerialSimulator.ReadBytesInto` | SerialSimulator.java:265-280 | returns `min(available, dest.length)` (0 on an empty buffer); that many bytes move into the front of `dest`; the rest of `dest` and the buffer's suffix are unchanged |
| `SerialSim.SerialSimulator.ReadBytesUntil` | SerialSimulator.java:288-315 | returns null and changes nothing exactly when the byte-cast delimiter is absent (including on an empty buffer); otherwise returns the prefix through its first occurrence, which ends in the delimiter and holds no earlier one, and the buffer becomes the remaining suffix |
| `SerialSim.SerialSimulator.ReadBytesUntilInto` | SerialSimulator.java:325-355 | returns 0 when the delimiter is absent and -1 when the span through its first occurrence exceeds `dest`, changing nothing in both cases; otherwise it moves exactly that span into `dest` and returns its length |
| `SerialSim.SerialSimulator.ReceiveNewIncomingData` | SerialSimulator.java:524-536 | the intake queue becomes its old contents followed by the batch, in order; the consumer buffer is unchanged |
| `SerialSim.SerialSimulator.SerialEvent` | SerialSimulator.java:421-464 | the consumer buffer becomes the old buffer followed by the whole intake queue, which ends empty. Callback invocations and registration match `Transfer`. The flag is raised exactly when at least one byte moved and is otherwise left as it was |
| `SerialSim.SerialSimulator.Pre` | SerialSimulator.java:548-563 | `serialAvailable` is invoked exactly when it is registered and the flag is set. The flag is lowered first, and a failing invocation unregisters the callback. A drain pass follows. Afterwards the flag is set exactly when that pass moved bytes, or when it was already set and not consumed by the poll |

## Left out

- The producer thread (`run`, the sleep loop, `millis` timing) and `active`: timing and concurrency. Each `synchronized` block is one atomic step, and interleavings are not modelled. That `SerialSim.SerialSimulator.SerialEvent` is atomic with respect to `SerialSim.SerialSimulator.ReceiveNewIncomingData` is an assumption of the model: in the source the drain loop takes `rxbuf`'s bytes while holding `buf`'s lock (SerialSimulator.java:427-438), while `receiveNewIncomingData` appends to `rxbuf` while holding `rxbuf`'s lock (SerialSimulator.java:528-535), so the locking does not exclude the two from overlapping.
- Reflective lookup of the callbacks (`findCallback`) and `Method.invoke`: foreign calls. Each callback is a registered flag plus an outcome argument.
- `SerialSim.SerialSimulator.SerialEvent` and `SerialSim.SerialSimulator.Pre` assume the callbacks do not call back into the engine. In the source, a `serialEvent` callback may read from `buf` or change the policy during the drain pass; the model does not capture this.
- `SerialSim.SerialSimulator.ReadBytesMax` requires `max >= 0` whenever the buffer holds data. In that case the source throws `NegativeArraySizeException`, so no result is modelled.
- `SerialSim.SerialSimulator.ReadBytesInto` takes a non-null destination. In the source, `readBytes(null)` throws `NullPointerException` at SerialSimulator.java:272 when the buffer holds data, and returns 0 when it is empty.
- `SerialSim.SerialSimulator.ReadBytesUntilInto` takes a non-null destination. In the source, `readBytesUntil(b, null)` throws `NullPointerException` at SerialSimulator.java:344 only when the delimiter is in the buffer, and returns 0 otherwise.
- `SerialSim.SerialSimulator.GetArray` requires a destination of at least `n` slots. Every caller guarantees this, so the branch that replaces the local `dest` with a fresh array, and loses the copied bytes, is not modelled.
- Host plumbing: `registerMethod`/`unregisterMethod`, `dispose` (which only calls `stop` and unregisters), `setDataSource`, and all console and error logging. This is I/O.
- `readString`, `readStringUntil`: these decode bytes with the platform's default charset (`new String(byte[])`). Each only converts the result of `readBytes` or `readBytesUntil`, and passes null on from them.
- The interval `(1.0f/rate)*1000` with its `rate > 0` guard: float arithmetic and truncation.
- `UserSourceSimulator.dataGenerator`: it uses Processing's `random` and `nfs` and is not part of this model. Its output is the `data` argument of `ReceiveNewIncomingData`.
- The cost of `ArrayList.remove(0)` shifting: performance, not behaviour.
- Java `int` overflow of buffer sizes and indices: an `ArrayList` cannot hold enough bytes to reach it.
