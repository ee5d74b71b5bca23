/** The readiness rule of the serial engine and a value-level description of
    one drain pass of `serialEvent`: bytes move one at a time from the intake
    queue to the consumer buffer, and after each move the registered handler
    is invoked when the buffering policy is met. A handler that fails is
    dropped for good. */
module Dispatch {
  import opened JavaBytes

  /** The buffering policy is the pair (`size`, `delim`): `size > 0` asks for at
      least `size` bytes, `size == 0` asks for the newest byte to be `delim`, and
      a negative `size` is never met. `b` is the buffer after a move. */
  predicate Ready(size: int, delim: JByte, b: seq<JByte>)
    ensures Ready(size, delim, b) ==> 0 <= size && b != []
    ensures 0 < size <= |b| ==> Ready(size, delim, b)
    ensures size == 0 && b != [] && b[|b| - 1] == delim ==> Ready(size, delim, b)
  {
    (0 < size && size <= |b|) || (size == 0 && |b| > 0 && b[|b| - 1] == delim)
  }

  /** The outcome of one drain pass: the new consumer buffer, whether the
      handler is still registered, and the buffer as the handler saw it at each
      invocation, in order. */
  datatype Drained = Drained(buf: seq<JByte>, handlerOn: bool, fired: seq<seq<JByte>>)

  /** One drain pass over the intake bytes `rx`; `ok[k]` says whether the handler
      returns normally if it is invoked after the k-th move. */
  function Transfer(buf: seq<JByte>, rx: seq<JByte>, handlerOn: bool, ok: seq<bool>,
                    size: int, delim: JByte): (r: Drained)
    requires |ok| >= |rx|
    ensures r.buf == buf + rx
    ensures r.handlerOn ==> handlerOn
    ensures !handlerOn ==> r.fired == []
    ensures |r.fired| <= |rx|
    decreases |rx|
  {
    if rx == [] then Drained(buf, handlerOn, [])
    else
      var b := buf + [rx[0]];
      var fire := handlerOn && Ready(size, delim, b);
      var rest := Transfer(b, rx[1..], handlerOn && (!fire || ok[0]), ok[1..], size, delim);
      assert b + rx[1..] == buf + rx;
      Drained(rest.buf, rest.handlerOn, (if fire then [b] else []) + rest.fired)
  }

  /** The drain loop's invariant: having already recorded the invocations in
      `fired`, finishing the pass from (`buf`, `rx`, `handlerOn`) ends in `goal`. */
  predicate DrainsTo(buf: seq<JByte>, rx: seq<JByte>, handlerOn: bool, ok: seq<bool>,
                     size: int, delim: JByte, fired: seq<seq<JByte>>, goal: Drained)
  {
    |ok| >= |rx| &&
    var t := Transfer(buf, rx, handlerOn, ok, size, delim);
    t.buf == goal.buf && t.handlerOn == goal.handlerOn && fired + t.fired == goal.fired
  }

  /** One iteration of the drain loop keeps `DrainsTo`: `buf'`, `handlerOn'` and
      `fired'` are the state after moving the byte `rx[0]`. Stated as its own
      lemma so that the loop in `SerialEvent` need not unfold `Transfer`. */
  lemma DrainStep(buf: seq<JByte>, rx: seq<JByte>, handlerOn: bool, ok: seq<bool>,
                  size: int, delim: JByte, fired: seq<seq<JByte>>, goal: Drained,
                  buf': seq<JByte>, handlerOn': bool, fired': seq<seq<JByte>>)
    requires rx != [] && DrainsTo(buf, rx, handlerOn, ok, size, delim, fired, goal)
    requires buf' == buf + [rx[0]]
    requires handlerOn' == (handlerOn && (!Ready(size, delim, buf') || ok[0]))
    requires fired' == fired + (if handlerOn && Ready(size, delim, buf') then [buf'] else [])
    ensures DrainsTo(buf', rx[1..], handlerOn', ok[1..], size, delim, fired', goal)
  {
  }

  /** Reference definition: the prefixes `whole[..k]`, `from < k <= |whole|`,
      that meet the policy, shortest first. */
  function ReadyPrefixes(size: int, delim: JByte, whole: seq<JByte>, from: nat): seq<seq<JByte>>
    requires from <= |whole|
    decreases |whole| - from
  {
    if from == |whole| then []
    else
      (if Ready(size, delim, whole[..from + 1]) then [whole[..from + 1]] else [])
      + ReadyPrefixes(size, delim, whole, from + 1)
  }

  /** A prefix is listed by `ReadyPrefixes` exactly when it is one of the
      prefixes longer than `from` and meets the policy. */
  lemma {:induction false} ReadyPrefixesMembers(size: int, delim: JByte, whole: seq<JByte>, from: nat, s: seq<JByte>)
    requires from <= |whole|
    ensures s in ReadyPrefixes(size, delim, whole, from) <==>
            (from < |s| <= |whole| && s == whole[..|s|] && Ready(size, delim, s))
    decreases |whole| - from
  {
    if from < |whole| {
      ReadyPrefixesMembers(size, delim, whole, from + 1, s);
    }
  }

  /** While the handler keeps returning normally it stays registered and is
      invoked exactly at the policy-meeting prefixes of `buf + rx`. */
  lemma {:induction false} TransferWithSucceedingHandler(buf: seq<JByte>, rx: seq<JByte>, ok: seq<bool>,
                                                         size: int, delim: JByte)
    requires |ok| >= |rx|
    requires forall k :: 0 <= k < |rx| ==> ok[k]
    ensures Transfer(buf, rx, true, ok, size, delim)
            == Drained(buf + rx, true, ReadyPrefixes(size, delim, buf + rx, |buf|))
    decreases |rx|
  {
    if rx != [] {
      var b := buf + [rx[0]];
      assert b + rx[1..] == buf + rx;
      assert (buf + rx)[..|buf| + 1] == b;
      TransferWithSucceedingHandler(b, rx[1..], ok[1..], size, delim);
    }
  }

  /** A handler that always fails is invoked once, at the first policy-meeting
      prefix, and is then dropped; when no prefix meets the policy it is never
      invoked and stays registered. */
  lemma {:induction false} TransferWithFailingHandler(buf: seq<JByte>, rx: seq<JByte>, ok: seq<bool>,
                                                      size: int, delim: JByte)
    requires |ok| >= |rx|
    requires forall k :: 0 <= k < |rx| ==> !ok[k]
    ensures var points := ReadyPrefixes(size, delim, buf + rx, |buf|);
            var r := Transfer(buf, rx, true, ok, size, delim);
            && r.handlerOn == (points == [])
            && r.fired == (if points == [] then [] else [points[0]])
    decreases |rx|
  {
    if rx != [] {
      var b := buf + [rx[0]];
      assert b + rx[1..] == buf + rx;
      assert (buf + rx)[..|buf| + 1] == b;
      if !Ready(size, delim, b) {
        TransferWithFailingHandler(b, rx[1..], ok[1..], size, delim);
      }
    }
  }

  /** Draining `rx1 + rx2` in one pass is draining `rx1` and then, from where
      that pass ends, draining `rx2`; the invocations of the two follow each
      other. */
  lemma {:induction false} TransferAppend(buf: seq<JByte>, rx1: seq<JByte>, rx2: seq<JByte>, handlerOn: bool,
                                          ok: seq<bool>, size: int, delim: JByte)
    requires |ok| >= |rx1| + |rx2|
    ensures Transfer(buf, rx1 + rx2, handlerOn, ok, size, delim)
            == Drained(buf + rx1 + rx2,
                       Transfer(buf + rx1, rx2, Transfer(buf, rx1, handlerOn, ok, size, delim).handlerOn,
                                ok[|rx1|..], size, delim).handlerOn,
                       Transfer(buf, rx1, handlerOn, ok, size, delim).fired
                       + Transfer(buf + rx1, rx2, Transfer(buf, rx1, handlerOn, ok, size, delim).handlerOn,
                                  ok[|rx1|..], size, delim).fired)
    decreases |rx1|
  {
    if rx1 == [] {
      assert rx1 + rx2 == rx2 && buf + rx1 == buf && ok[|rx1|..] == ok;
    } else {
      var b := buf + [rx1[0]];
      var fire := handlerOn && Ready(size, delim, b);
      var on' := handlerOn && (!fire || ok[0]);
      var head := if fire then [b] else [];
      var r1 := Transfer(buf, rx1, handlerOn, ok, size, delim);
      var rest1 := Transfer(b, rx1[1..], on', ok[1..], size, delim);
      assert r1.handlerOn == rest1.handlerOn && r1.fired == head + rest1.fired;
      AppendShapes(buf, rx1, rx2, ok);
      var r2 := Transfer(buf + rx1, rx2, r1.handlerOn, ok[|rx1|..], size, delim);
      TransferAppend(b, rx1[1..], rx2, on', ok[1..], size, delim);
      var rest := Transfer(b, rx1[1..] + rx2, on', ok[1..], size, delim);
      assert rest.handlerOn == r2.handlerOn && rest.fired == rest1.fired + r2.fired;
      assert Transfer(buf, rx1 + rx2, handlerOn, ok, size, delim).fired == head + rest.fired;
      ConcatAssoc(head, rest1.fired, r2.fired);
    }
  }

  /** The sequence identities one step of `TransferAppend` rests on, kept apart
      so that the solver proves them without the rest of that lemma's context. */
  lemma AppendShapes(buf: seq<JByte>, rx1: seq<JByte>, rx2: seq<JByte>, ok: seq<bool>)
    requires rx1 != [] && |ok| >= |rx1|
    ensures (buf + [rx1[0]]) + rx1[1..] == buf + rx1
    ensures ok[1..][|rx1[1..]|..] == ok[|rx1|..]
    ensures (rx1 + rx2)[0] == rx1[0] && (rx1 + rx2)[1..] == rx1[1..] + rx2
    ensures buf + (rx1 + rx2) == buf + rx1 + rx2
  {
  }

  /** Concatenation is associative. Stated as its own lemma because the same
      assertion inside `TransferAppend` sends the solver past its resource
      bound. */
  lemma ConcatAssoc<T>(a: seq<T>, b: seq<T>, c: seq<T>)
    ensures a + (b + c) == (a + b) + c
  {
  }

  /** The handler's invocation after the move that makes the buffer `s`
      (starting from `buf`) returns normally. */
  predicate Succeeds(buf: seq<JByte>, ok: seq<bool>, s: seq<JByte>)
  {
    |buf| < |s| <= |buf| + |ok| && ok[|s| - |buf| - 1]
  }

  /** `r` invokes the handler at the firing points `points` in order, up to and
      including the first invocation that fails, and the handler stays
      registered exactly when none failed. */
  predicate StopsAtFirstFailure(buf: seq<JByte>, ok: seq<bool>, points: seq<seq<JByte>>, r: Drained)
  {
    && |r.fired| <= |points| && r.fired == points[..|r.fired|]
    && (forall i :: 0 <= i < |r.fired| - 1 ==> Succeeds(buf, ok, r.fired[i]))
    && (r.handlerOn ==> r.fired == points && (r.fired != [] ==> Succeeds(buf, ok, r.fired[|r.fired| - 1])))
    && (!r.handlerOn ==> r.fired != [] && !Succeeds(buf, ok, r.fired[|r.fired| - 1]))
  }

  /** For any outcomes, a pass that starts with the handler registered invokes
      it at the policy-meeting prefixes of `buf + rx`, in order, until the
      first invocation that fails; after that one it is dropped. */
  lemma {:induction false} TransferStopsAtFirstFailure(buf: seq<JByte>, rx: seq<JByte>, ok: seq<bool>,
                                                       size: int, delim: JByte)
    requires |ok| >= |rx|
    ensures StopsAtFirstFailure(buf, ok, ReadyPrefixes(size, delim, buf + rx, |buf|),
                                Transfer(buf, rx, true, ok, size, delim))
    decreases |rx|
  {
    if rx != [] {
      var b := buf + [rx[0]];
      assert b + rx[1..] == buf + rx;
      assert (buf + rx)[..|buf| + 1] == b;
      var points := ReadyPrefixes(size, delim, buf + rx, |buf|);
      var later := ReadyPrefixes(size, delim, b + rx[1..], |b|);
      var head := if Ready(size, delim, b) then [b] else [];
      assert points == head + later;
      if !Ready(size, delim, b) || ok[0] {
        TransferStopsAtFirstFailure(b, rx[1..], ok[1..], size, delim);
        forall s | s in later ensures |b| < |s| {
          ReadyPrefixesMembers(size, delim, b + rx[1..], |b|, s);
        }
        StopsAtFirstFailureStep(buf, b, ok, head, later, Transfer(b, rx[1..], true, ok[1..], size, delim));
      } else {
        var r := Transfer(buf, rx, true, ok, size, delim);
        assert r.fired == [b] && !r.handlerOn;
        assert r.fired == points[..1];
      }
    }
  }

  /** One move of a pass whose handler is still registered keeps
      `StopsAtFirstFailure`: the move's own invocation, if any, succeeded, and
      the outcomes of the later ones are those of `ok` shifted by one. Stated
      as its own lemma, rather than inside `TransferStopsAtFirstFailure`, to
      keep the solver's work on that lemma small. */
  lemma StopsAtFirstFailureStep(buf: seq<JByte>, b: seq<JByte>, ok: seq<bool>, head: seq<seq<JByte>>,
                                later: seq<seq<JByte>>, rest: Drained)
    requires |b| == |buf| + 1 && |ok| >= 1
    requires head == [] || (head == [b] && ok[0])
    requires forall s :: s in later ==> |b| < |s|
    requires StopsAtFirstFailure(b, ok[1..], later, rest)
    ensures StopsAtFirstFailure(buf, ok, head + later, Drained(rest.buf, rest.handlerOn, head + rest.fired))
  {
  }

  /** `s` is a buffer state the drain pass from `buf` towards `whole` passes
      through after at least one move, and it meets the policy. */
  predicate ReadyStateOf(buf: seq<JByte>, whole: seq<JByte>, size: int, delim: JByte, s: seq<JByte>)
  {
    |buf| < |s| <= |whole| && s == whole[..|s|] && Ready(size, delim, s)
  }

  /** Whatever the handler does, it is only ever invoked at a prefix of
      `buf + rx` that is longer than `buf` and meets the policy. */
  lemma {:induction false} TransferFiresOnlyWhenReady(buf: seq<JByte>, rx: seq<JByte>, handlerOn: bool,
                                                      ok: seq<bool>, size: int, delim: JByte)
    requires |ok| >= |rx|
    ensures forall i :: 0 <= i < |Transfer(buf, rx, handlerOn, ok, size, delim).fired| ==>
              ReadyStateOf(buf, buf + rx, size, delim, Transfer(buf, rx, handlerOn, ok, size, delim).fired[i])
    decreases |rx|
  {
    if rx != [] {
      var b := buf + [rx[0]];
      var fire := handlerOn && Ready(size, delim, b);
      var on' := handlerOn && (!fire || ok[0]);
      TransferFiresOnlyWhenReady(b, rx[1..], on', ok[1..], size, delim);
      var rest := Transfer(b, rx[1..], on', ok[1..], size, delim);
      var head := if fire then [b] else [];
      assert b + rx[1..] == buf + rx;
      assert (buf + rx)[..|buf| + 1] == b;
      forall i | 0 <= i < |head| + |rest.fired|
        ensures ReadyStateOf(buf, buf + rx, size, delim, (head + rest.fired)[i])
      {
        if i >= |head| {
          assert (head + rest.fired)[i] == rest.fired[i - |head|];
          assert ReadyStateOf(b, b + rx[1..], size, delim, rest.fired[i - |head|]);
        }
      }
    }
  }

  /** `buffer(n)` with a negative `n` switches readiness off: no prefix meets it. */
  lemma {:induction false} NegativeSizeNeverReady(size: int, delim: JByte, whole: seq<JByte>, from: nat)
    requires from <= |whole|
    requires size < 0
    ensures ReadyPrefixes(size, delim, whole, from) == []
    decreases |whole| - from
  {
    if from < |whole| {
      NegativeSizeNeverReady(size, delim, whole, from + 1);
    }
  }

  /** With a threshold of three and an empty buffer, three single-byte moves
      invoke a succeeding handler once, on the third move. */
  lemma ThresholdThreeFiresOnThirdMove(x: JByte, y: JByte, z: JByte, ok: seq<bool>, delim: JByte)
    requires |ok| == 3 && ok[0] && ok[1] && ok[2]
    ensures Transfer([], [x, y, z], true, ok, 3, delim) == Drained([x, y, z], true, [[x, y, z]])
  {
    var whole := [x, y, z];
    TransferWithSucceedingHandler([], whole, ok, 3, delim);
    assert whole[..1] == [x] && whole[..2] == [x, y] && whole[..3] == whole;
    assert ReadyPrefixes(3, delim, whole, 2) == [whole];
    assert ReadyPrefixes(3, delim, whole, 1) == [whole];
    assert ReadyPrefixes(3, delim, whole, 0) == [whole];
    assert [] + whole == whole;
  }

  /** With a threshold of one, a handler that fails on its second invocation
      sees the first two moves and is not invoked for the third. */
  lemma SecondInvocationFailsDropsHandler(x: JByte, y: JByte, z: JByte, delim: JByte)
    ensures Transfer([], [x, y, z], true, [true, false, true], 1, delim)
            == Drained([x, y, z], false, [[x], [x, y]])
  {
    assert [x, y, z][1..] == [y, z] && [] + [x] == [x];
    FailingInvocationThenOneMove(x, y, z, delim);
  }

  /** The last two moves of `SecondInvocationFailsDropsHandler`. */
  lemma FailingInvocationThenOneMove(x: JByte, y: JByte, z: JByte, delim: JByte)
    ensures Transfer([x], [y, z], true, [false, true], 1, delim) == Drained([x, y, z], false, [[x, y]])
  {
    assert [y, z][1..] == [z] && [x] + [y] == [x, y];
    assert Transfer([x, y], [z], false, [true], 1, delim) == Drained([x, y, z], false, []);
  }

  /** In delimiter mode a line "AB\nC" invokes a succeeding handler once, when
      the newline arrives. */
  lemma NewlineDelimiterFiresOnNewline(ok: seq<bool>)
    requires |ok| == 4 && ok[0] && ok[1] && ok[2] && ok[3]
    ensures Transfer([], [0x41, 0x42, 0x0A, 0x43], true, ok, 0, 0x0A)
            == Drained([0x41, 0x42, 0x0A, 0x43], true, [[0x41, 0x42, 0x0A]])
  {
    var whole: seq<JByte> := [0x41, 0x42, 0x0A, 0x43];
    TransferWithSucceedingHandler([], whole, ok, 0, 0x0A);
    assert whole[..1] == [0x41] && whole[..2] == [0x41, 0x42] && whole[..3] == [0x41, 0x42, 0x0A];
    assert whole[..4] == whole;
    assert ReadyPrefixes(0, 0x0A, whole, 3) == [];
    assert ReadyPrefixes(0, 0x0A, whole, 2) == [whole[..3]];
    assert ReadyPrefixes(0, 0x0A, whole, 1) == [whole[..3]];
    assert ReadyPrefixes(0, 0x0A, whole, 0) == [whole[..3]];
    assert [] + whole == whole;
  }
}
