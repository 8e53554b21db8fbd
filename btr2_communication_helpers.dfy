/**
 * The BTR2 transfer protocol over a device's characteristics: checking that
 * the required characteristics exist, connecting (with one bonding retry),
 * reading a frame through the read control point and read object, and
 * acknowledging it in 20-byte chunks through the write control point and
 * write object.
 *
 * Every routine has two forms: a method that drives a `Device` as the source
 * does, and a function that says, for a script of replies, what the routine
 * settles with, which operations it performs and which replies it leaves.
 */
module Btr2CommunicationHelpers {
  import opened Wire
  import opened Gatt
  import opened Btr2DataHelpers

  const MissingCharacteristicsError: string := "Some required characteristics weren't discovered!"
  const CouldNotConnectError: string := "Could not connect to the device"
  const DeviceOrDataNotSetError: string := "device or data not set"
  const AcknowledgeError: string := "error acknowledging data read"
  const DeviceNotSetError: string := "device not set"
  const NoDataLeftError: string := "No data left to read"
  /** The `RangeError` of `readUInt8` past the end of a buffer. */
  const BeyondBufferError: string := "Trying to access beyond buffer length"
  const CrcMismatchError: string := "CRC32 mismatch"
  /** Size of an acknowledgement chunk. */
  const ChunkSize: nat := 20

  const RequiredCharacteristics: seq<string> :=
    [ReadControlPoint, ReadObject, WriteControlPoint, WriteObject, BondingCharacteristic]

  /** A routine run against a script: how it settles, the operations it performed, the replies it left unused. */
  datatype Run<T> = Run(result: Result<T>, ops: seq<Op>, rest: seq<Reply>)

  function Prepend<T>(ops: seq<Op>, run: Run<T>): Run<T>
  {
    Run(run.result, ops + run.ops, run.rest)
  }

  lemma PrependTwice<T>(first: seq<Op>, second: seq<Op>, run: Run<T>)
    ensures Prepend(first, Prepend(second, run)) == Prepend(first + second, run)
  {
  }

  lemma AppendAssociative(a: seq<Op>, b: seq<Op>, c: seq<Op>)
    ensures a + (b + c) == a + b + c
  {
  }

  /** The script after `k` operations. */
  function Skip(script: seq<Reply>, k: nat): seq<Reply>
  {
    if k == 0 then script else Skip(Remaining(script), k - 1)
  }

  // ---------------------------------------------------------------------------
  // verifyAllCharacteristicsAreDiscovered
  // ---------------------------------------------------------------------------

  predicate Discovered(discovered: seq<BleCharacteristic>, uuid: string)
  {
    exists k :: 0 <= k < |discovered| && discovered[k].characteristicUuid == uuid
  }

  /** `required.filter((c) => !uuids.includes(c))`. */
  function Missing(required: seq<string>, uuids: seq<string>): (missing: seq<string>)
    ensures forall c :: c in missing <==> c in required && c !in uuids
  {
    if required == [] then []
    else (if required[0] in uuids then [] else [required[0]]) + Missing(required[1..], uuids)
  }

  /**
   * Whether all five required characteristics were discovered, by
   * characteristic UUID only: the service a characteristic was found under,
   * the order and repetitions do not matter.
   */
  function VerifyAllCharacteristicsAreDiscovered(discovered: seq<BleCharacteristic>): (ok: bool)
    ensures ok <==> forall c :: c in RequiredCharacteristics ==> Discovered(discovered, c)
  {
    var uuids := seq(|discovered|, k requires 0 <= k < |discovered| => discovered[k].characteristicUuid);
    assert forall c :: c in uuids <==> Discovered(discovered, c) by {
      forall c ensures c in uuids <==> Discovered(discovered, c) {
        if Discovered(discovered, c) {
          var k :| 0 <= k < |discovered| && discovered[k].characteristicUuid == c;
          assert uuids[k] == c;
        }
      }
    }
    var missing := Missing(RequiredCharacteristics, uuids);
    assert missing != [] ==> missing[0] in missing;
    missing == []
  }

  /** Discovering more characteristics never turns a successful check into a failed one. */
  lemma VerifyMonotone(discovered: seq<BleCharacteristic>, more: seq<BleCharacteristic>)
    requires forall d :: d in discovered ==> d in more
    requires VerifyAllCharacteristicsAreDiscovered(discovered)
    ensures VerifyAllCharacteristicsAreDiscovered(more)
  {
    forall c | c in RequiredCharacteristics ensures Discovered(more, c) {
      var k :| 0 <= k < |discovered| && discovered[k].characteristicUuid == c;
      var d := discovered[k];
      assert d in more;
      var j :| 0 <= j < |more| && more[j] == d;
    }
  }

  // ---------------------------------------------------------------------------
  // establishBtr2Bond and connectToBtr2Device
  // ---------------------------------------------------------------------------

  /** Reads the bonding characteristic; whatever the device answers, nothing fails. */
  method EstablishBtr2Bond(device: Device)
    modifies device
    ensures device.trace == old(device.trace) + [Read(BondingCharacteristic)]
    ensures device.script == Remaining(old(device.script))
  {
    var ignored := device.Perform(Read(BondingCharacteristic));
  }

  /**
   * `connectToBtr2Device`: connect, discover, check the characteristics;
   * then either resolve (with `skipBonding`) or probe the bond and connect
   * once more with `skipBonding` set. Connect and discovery errors, and a
   * failed retry, are caught and become "Could not connect to the device";
   * the missing-characteristics rejection is returned from inside the `try`
   * without being awaited, so it keeps its own message.
   */
  function ConnectRun(id: string, characteristics: seq<BleCharacteristic>, skipBonding: bool, script: seq<Reply>): (run: Run<()>)
    decreases if skipBonding then 0 else 1
  {
    var connected := NextReply(id, script);
    var s1 := Remaining(script);
    if connected.Failure? then Run(Err(CouldNotConnectError), [Connect], s1)
    else
      var discovered := NextReply(id, s1);
      var s2 := Remaining(s1);
      if discovered.Failure? then Run(Err(CouldNotConnectError), [Connect, Discover], s2)
      else if !VerifyAllCharacteristicsAreDiscovered(characteristics) then
        Run(Err(MissingCharacteristicsError), [Connect, Discover], s2)
      else if skipBonding then Run(Ok(()), [Connect, Discover], s2)
      else
        var retry := ConnectRun(id, characteristics, true, Remaining(s2));
        Run(if retry.result.Ok? then Ok(()) else Err(CouldNotConnectError),
            [Connect, Discover, Read(BondingCharacteristic)] + retry.ops, retry.rest)
  }

  method ConnectToBtr2Device(device: Device, skipBonding: bool) returns (r: Result<()>)
    modifies device
    ensures var run := ConnectRun(device.id, device.characteristics, skipBonding, old(device.script));
      r == run.result && device.trace == old(device.trace) + run.ops && device.script == run.rest
    decreases if skipBonding then 0 else 1
  {
    ghost var trace0 := device.trace;
    var connected := device.Perform(Connect);
    if connected.Failure? {
      return Err(CouldNotConnectError);
    }
    var discovered := device.Perform(Discover);
    assert device.trace == trace0 + [Connect, Discover];
    if discovered.Failure? {
      return Err(CouldNotConnectError);
    }
    if !VerifyAllCharacteristicsAreDiscovered(device.characteristics) {
      return Err(MissingCharacteristicsError);
    }
    if !skipBonding {
      EstablishBtr2Bond(device);
      ghost var probed := [Connect, Discover, Read(BondingCharacteristic)];
      assert device.trace == trace0 + probed;
      ghost var script1 := device.script;
      var retry := ConnectToBtr2Device(device, true);
      ghost var again := ConnectRun(device.id, device.characteristics, true, script1);
      AppendAssociative(trace0, probed, again.ops);
      if retry.Err? {
        return Err(CouldNotConnectError);
      }
      return Ok(());
    }
    return Ok(());
  }

  /**
   * The operations of a connect: at most two connect attempts, and a second
   * one only after exactly one bonding probe, which only happens without
   * `skipBonding`.
   */
  lemma ConnectAttempts(id: string, characteristics: seq<BleCharacteristic>, skipBonding: bool, script: seq<Reply>)
    ensures var ops := ConnectRun(id, characteristics, skipBonding, script).ops;
      ops == [Connect] || ops == [Connect, Discover]
      || (!skipBonding && (ops == [Connect, Discover, Read(BondingCharacteristic), Connect]
                           || ops == [Connect, Discover, Read(BondingCharacteristic), Connect, Discover]))
  {
    var s1 := Remaining(script);
    var s2 := Remaining(s1);
    if NextReply(id, script).Answer? && NextReply(id, s1).Answer?
       && VerifyAllCharacteristicsAreDiscovered(characteristics) && !skipBonding {
      var retry := ConnectRun(id, characteristics, true, Remaining(s2));
      assert retry.ops == [Connect] || retry.ops == [Connect, Discover];
    }
  }

  /**
   * How a connect settles: it resolves only when the characteristics are all
   * there; missing ones reject with their own message, every other failure
   * with "Could not connect to the device".
   */
  lemma ConnectOutcome(id: string, characteristics: seq<BleCharacteristic>, skipBonding: bool, script: seq<Reply>)
    ensures var run := ConnectRun(id, characteristics, skipBonding, script);
      (run.result.Ok? ==> VerifyAllCharacteristicsAreDiscovered(characteristics))
      && (run.result.Err? ==> run.result.message in {CouldNotConnectError, MissingCharacteristicsError})
      && (run.result.Err? && run.result.message == MissingCharacteristicsError ==> !VerifyAllCharacteristicsAreDiscovered(characteristics))
      && (NextReply(id, script).Failure? ==> run == Run(Err(CouldNotConnectError), [Connect], Remaining(script)))
  {
  }

  /**
   * What the device answers to the bonding probe changes nothing: the same
   * operations, the same outcome.
   */
  lemma BondReplyIgnored(id: string, characteristics: seq<BleCharacteristic>, first: Reply, second: Reply,
                         bond: Reply, otherBond: Reply, tail: seq<Reply>)
    ensures var run, other := ConnectRun(id, characteristics, false, [first, second, bond] + tail),
                              ConnectRun(id, characteristics, false, [first, second, otherBond] + tail);
      run.result == other.result && run.ops == other.ops
  {
    ConnectRunFront(id, characteristics, first, second, bond, tail);
    ConnectRunFront(id, characteristics, first, second, otherBond, tail);
  }

  /** A connect without `skipBonding` as it unfolds on a script of three replies and a tail. */
  lemma ConnectRunFront(id: string, characteristics: seq<BleCharacteristic>, first: Reply, second: Reply,
                        bond: Reply, tail: seq<Reply>)
    ensures var run := ConnectRun(id, characteristics, false, [first, second, bond] + tail);
      var retry := ConnectRun(id, characteristics, true, tail);
      if first.Failure? then run.result.Err? && run.ops == [Connect]
      else if second.Failure? || !VerifyAllCharacteristicsAreDiscovered(characteristics) then
        run.result.Err? && run.result.message == (if second.Failure? then CouldNotConnectError else MissingCharacteristicsError)
        && run.ops == [Connect, Discover]
      else
        run.result == (if retry.result.Ok? then Ok(()) else Err(CouldNotConnectError))
        && run.ops == [Connect, Discover, Read(BondingCharacteristic)] + retry.ops
  {
    var s := [first, second, bond] + tail;
    assert NextReply(id, s) == first;
    assert Remaining(s) == [second, bond] + tail;
    assert NextReply(id, Remaining(s)) == second;
    assert Remaining(Remaining(s)) == [bond] + tail;
    assert Remaining(Remaining(Remaining(s))) == tail;
  }

  // ---------------------------------------------------------------------------
  // acknowledgeDataRead
  // ---------------------------------------------------------------------------

  /** `Buffer.from([n])` keeps the low byte of `n`. */
  function ByteOf(n: nat): (b: Byte)
    ensures n < 256 ==> b == n
  {
    n % 256
  }

  /** The announcement of a chunk at `offset` of a frame of `length` bytes. */
  function ChunkAnnouncement(length: nat, offset: nat): Op
  {
    Write(WriteControlPoint, [ByteOf(length), ByteOf(offset)])
  }

  /** The control-write/object-write pairs for the chunks from `i` on. */
  function ChunkWrites(frame: seq<Byte>, i: nat): seq<Op>
    decreases |frame| - i
  {
    if i >= |frame| then []
    else [ChunkAnnouncement(|frame|, i), Write(WriteObject, Chunk(frame, i))]
         + ChunkWrites(frame, i + ChunkSize)
  }

  /** Every write of an acknowledgement: the chunks, then the end-of-transfer announcement [L, L]. */
  function AckWrites(frame: seq<Byte>): seq<Op>
  {
    ChunkWrites(frame, 0) + [ChunkAnnouncement(|frame|, |frame|)]
  }

  /**
   * Performs `ops` one after the other and stops at the first one that
   * fails: the operations performed are a prefix of `ops`, all of `ops`
   * exactly when every reply is an answer, and the last one performed is the
   * failing one otherwise.
   */
  function Issue(id: string, ops: seq<Op>, script: seq<Reply>): (run: Run<()>)
    ensures run.ops <= ops
    ensures run.result.Ok? ==> run.ops == ops
    ensures run.result.Err? ==> run.ops != []
  {
    if ops == [] then Run(Ok(()), [], script)
    else match NextReply(id, script)
      case Failure(m) => Run(Err(m), [ops[0]], Remaining(script))
      case Answer(_) => Prepend([ops[0]], Issue(id, ops[1..], Remaining(script)))
  }

  /** Every one of the next `n` operations is answered. */
  ghost predicate AllAnswered(id: string, script: seq<Reply>, n: nat)
  {
    forall k :: 0 <= k < n ==> NextReply(id, Skip(script, k)).Answer?
  }

  lemma AllAnsweredStep(id: string, script: seq<Reply>, n: nat)
    ensures AllAnswered(id, script, n + 1) <==> NextReply(id, script).Answer? && AllAnswered(id, Remaining(script), n)
  {
    assert Skip(script, 0) == script;
    assert forall k :: 0 <= k < n ==> Skip(script, k + 1) == Skip(Remaining(script), k);
    if NextReply(id, script).Answer? && AllAnswered(id, Remaining(script), n) {
      forall k | 0 <= k < n + 1 ensures NextReply(id, Skip(script, k)).Answer? {
        if k > 0 {
          assert Skip(script, k) == Skip(Remaining(script), k - 1);
        }
      }
    }
  }

  /**
   * `Issue` against the replies: it performs every operation exactly when
   * every reply is an answer; otherwise it stops at the first failure, whose
   * message it reports, and leaves the replies after it.
   */
  lemma {:induction false} IssueStopsAtFailure(id: string, ops: seq<Op>, script: seq<Reply>)
    ensures var run := Issue(id, ops, script);
      && (run.result.Ok? <==> AllAnswered(id, script, |ops|))
      && (run.result.Err? ==>
            && AllAnswered(id, script, |run.ops| - 1)
            && NextReply(id, Skip(script, |run.ops| - 1)) == Failure(run.result.message))
      && run.rest == Skip(script, |run.ops|)
  {
    assert Skip(script, 0) == script;
    if ops != [] {
      var next := Remaining(script);
      AllAnsweredStep(id, script, |ops| - 1);
      if NextReply(id, script).Answer? {
        IssueStopsAtFailure(id, ops[1..], next);
        var rest := Issue(id, ops[1..], next);
        assert Issue(id, ops, script) == Prepend([ops[0]], rest);
        if rest.result.Err? {
          AllAnsweredStep(id, script, |rest.ops| - 1);
          assert Skip(script, |rest.ops|) == Skip(next, |rest.ops| - 1);
        }
        assert Skip(script, |rest.ops| + 1) == Skip(next, |rest.ops|);
      } else {
        assert Skip(script, 1) == Skip(next, 0);
      }
    }
  }

  /**
   * `acknowledgeDataRead`: absent data is rejected before anything else; a
   * frame that cannot be built rejects with its own error (the builder runs
   * outside the `try`); then the writes, any failure of which is caught and
   * reported as "error acknowledging data read".
   */
  function AcknowledgeRun(data: string, now: LocalTime, crc32Calc: seq<Byte> -> Crc32, id: string, script: seq<Reply>): Run<bool>
  {
    if data == "" then Run(Err(DeviceOrDataNotSetError), [], script)
    else match ResponseFrame(data, now, crc32Calc)
      case Err(m) => Run(Err(m), [], script)
      case Ok(frame) => AcknowledgedRun(id, frame, script)
  }

  /** The `try` of `acknowledgeDataRead`: the writes of `frame`, any failure reported as one error. */
  function AcknowledgedRun(id: string, frame: seq<Byte>, script: seq<Reply>): Run<bool>
  {
    var sent := Issue(id, AckWrites(frame), script);
    Run(if sent.result.Ok? then Ok(true) else Err(AcknowledgeError), sent.ops, sent.rest)
  }

  /** The chunk at `i` of a frame: `frame.slice(i, i + 20)`. */
  function Chunk(frame: seq<Byte>, i: nat): (chunk: seq<Byte>)
    requires i < |frame|
    ensures 1 <= |chunk| <= ChunkSize
  {
    frame[i..Min(i + ChunkSize, |frame|)]
  }

  /** One chunk of `ChunkWrites` issued ahead of the remaining writes. */
  lemma ChunkStep(id: string, frame: seq<Byte>, i: nat, final: Op, script: seq<Reply>)
    requires i < |frame|
    ensures var ops := ChunkWrites(frame, i) + [final];
      var announce, chunk := ChunkAnnouncement(|frame|, i), Write(WriteObject, Chunk(frame, i));
      var next := Remaining(script);
      && (NextReply(id, script).Failure? ==> Issue(id, ops, script) == Run(Err(NextReply(id, script).message), [announce], next))
      && (NextReply(id, script).Answer? && NextReply(id, next).Failure? ==>
            Issue(id, ops, script) == Run(Err(NextReply(id, next).message), [announce, chunk], Remaining(next)))
      && (NextReply(id, script).Answer? && NextReply(id, next).Answer? ==>
            Issue(id, ops, script) == Prepend([announce, chunk], Issue(id, ChunkWrites(frame, i + ChunkSize) + [final], Remaining(next))))
  {
    var announce, chunk := ChunkAnnouncement(|frame|, i), Write(WriteObject, Chunk(frame, i));
    var tail := ChunkWrites(frame, i + ChunkSize) + [final];
    assert ChunkWrites(frame, i) + [final] == [announce, chunk] + tail;
    IssuePair(id, announce, chunk, tail, script);
  }

  /** Issuing two operations ahead of `tail`: each may fail, else the rest follows. */
  lemma IssuePair(id: string, first: Op, second: Op, tail: seq<Op>, script: seq<Reply>)
    ensures var ops, next := [first, second] + tail, Remaining(script);
      && (NextReply(id, script).Failure? ==> Issue(id, ops, script) == Run(Err(NextReply(id, script).message), [first], next))
      && (NextReply(id, script).Answer? && NextReply(id, next).Failure? ==>
            Issue(id, ops, script) == Run(Err(NextReply(id, next).message), [first, second], Remaining(next)))
      && (NextReply(id, script).Answer? && NextReply(id, next).Answer? ==>
            Issue(id, ops, script) == Prepend([first, second], Issue(id, tail, Remaining(next))))
  {
    var ops := [first, second] + tail;
    assert ops[0] == first && ops[1..] == [second] + tail;
    assert ([second] + tail)[0] == second && ([second] + tail)[1..] == tail;
  }

  /**
   * The writes from offset `i` on, chunk by chunk, as the loop of
   * `acknowledgeDataRead` performs them.
   */
  function AckFrom(id: string, frame: seq<Byte>, i: nat, script: seq<Reply>): Run<()>
    decreases |frame| - i
  {
    var next := Remaining(script);
    if i >= |frame| then
      var final := ChunkAnnouncement(|frame|, |frame|);
      match NextReply(id, script)
      case Failure(m) => Run(Err(m), [final], next)
      case Answer(_) => Run(Ok(()), [final], next)
    else
      var announce, chunk := ChunkAnnouncement(|frame|, i), Write(WriteObject, Chunk(frame, i));
      match NextReply(id, script)
      case Failure(m) => Run(Err(m), [announce], next)
      case Answer(_) =>
        match NextReply(id, next)
        case Failure(m) => Run(Err(m), [announce, chunk], Remaining(next))
        case Answer(_) => Prepend([announce, chunk], AckFrom(id, frame, i + ChunkSize, Remaining(next)))
  }

  /** The loop's writes are the acknowledgement's writes, issued in order up to the first failure. */
  lemma {:induction false} AckFromIsIssue(id: string, frame: seq<Byte>, i: nat, script: seq<Reply>)
    ensures AckFrom(id, frame, i, script) == Issue(id, ChunkWrites(frame, i) + [ChunkAnnouncement(|frame|, |frame|)], script)
    decreases |frame| - i
  {
    var final := ChunkAnnouncement(|frame|, |frame|);
    if i >= |frame| {
      assert ChunkWrites(frame, i) + [final] == [final];
      assert [final][1..] == [];
    } else {
      ChunkStep(id, frame, i, final, script);
      AckFromIsIssue(id, frame, i + ChunkSize, Remaining(Remaining(script)));
    }
  }

  /** One pass of the loop of `acknowledgeDataRead`: the announcement [L, i], then the chunk at `i`. */
  method SendChunk(device: Device, responseBuffer: seq<Byte>, i: nat) returns (r: Result<()>)
    requires i < |responseBuffer|
    modifies device
    ensures var pending := AckFrom(device.id, responseBuffer, i, old(device.script));
      var pair := [ChunkAnnouncement(|responseBuffer|, i), Write(WriteObject, Chunk(responseBuffer, i))];
      && (r.Ok? ==> device.trace == old(device.trace) + pair
                    && pending == Prepend(pair, AckFrom(device.id, responseBuffer, i + ChunkSize, device.script)))
      && (r.Err? ==> r == pending.result && device.trace == old(device.trace) + pending.ops && device.script == pending.rest)
  {
    var announced := device.Perform(ChunkAnnouncement(|responseBuffer|, i));
    if announced.Failure? {
      return Err(announced.message);
    }
    var sent := device.Perform(Write(WriteObject, Chunk(responseBuffer, i)));
    if sent.Failure? {
      return Err(sent.message);
    }
    return Ok(());
  }

  /**
   * The writes inside the `try` of `acknowledgeDataRead`: for each 20-byte
   * chunk the announcement [L, i] and the chunk, then [L, L].
   */
  method SendAcknowledgement(device: Device, responseBuffer: seq<Byte>) returns (r: Result<()>)
    modifies device
    ensures var run := AckFrom(device.id, responseBuffer, 0, old(device.script));
      r == run.result && device.trace == old(device.trace) + run.ops && device.script == run.rest
  {
    var dataLength := |responseBuffer|;
    ghost var done: seq<Op> := [];
    var i := 0;
    while i < dataLength
      invariant device.trace == old(device.trace) + done
      invariant AckFrom(device.id, responseBuffer, 0, old(device.script))
             == Prepend(done, AckFrom(device.id, responseBuffer, i, device.script))
      decreases dataLength - i
    {
      ghost var pending := AckFrom(device.id, responseBuffer, i, device.script);
      r := SendChunk(device, responseBuffer, i);
      if r.Err? {
        AppendAssociative(old(device.trace), done, pending.ops);
        return;
      }
      ghost var pair := [ChunkAnnouncement(dataLength, i), Write(WriteObject, Chunk(responseBuffer, i))];
      PrependTwice(done, pair, AckFrom(device.id, responseBuffer, i + ChunkSize, device.script));
      done := done + pair;
      i := i + ChunkSize;
    }
    var final := ChunkAnnouncement(dataLength, dataLength);
    AppendAssociative(old(device.trace), done, [final]);
    var ended := device.Perform(final);
    if ended.Failure? {
      return Err(ended.message);
    }
    return Ok(());
  }

  method AcknowledgeDataRead(device: Device?, data: string, now: LocalTime, crc32Calc: seq<Byte> -> Crc32) returns (r: Result<bool>)
    modifies device
    ensures device == null ==> r == Err(DeviceOrDataNotSetError)
    ensures device != null ==>
      var run := AcknowledgeRun(data, now, crc32Calc, device.id, old(device.script));
      r == run.result && device.trace == old(device.trace) + run.ops && device.script == run.rest
  {
    if device == null || data == "" {
      return Err(DeviceOrDataNotSetError);
    }
    var prepared := PrepareResponseBuffer(data, now, crc32Calc);
    if prepared.Err? {
      return Err(prepared.message);
    }
    var sent := SendAcknowledgement(device, prepared.value);
    AckFromIsIssue(device.id, prepared.value, 0, old(device.script));
    if sent.Err? {
      return Err(AcknowledgeError);
    }
    return Ok(true);
  }

  /** The number of chunks from offset `i` of an `n`-byte frame. */
  function ChunksFrom(n: nat, i: nat): nat
    decreases n - i
  {
    if i >= n then 0 else 1 + ChunksFrom(n, i + ChunkSize)
  }

  /** The chunk count is ceil(n / 20). */
  lemma {:induction false} ChunkCount(n: nat, i: nat)
    requires i <= n
    ensures ChunksFrom(n, i) == (n - i + ChunkSize - 1) / ChunkSize
    decreases n - i
  {
    if i < n {
      if i + ChunkSize <= n {
        ChunkCount(n, i + ChunkSize);
      }
    }
  }

  /** The writes from offset `i` on, pair by pair. */
  lemma {:induction false} ChunkWritesShape(frame: seq<Byte>, i: nat)
    ensures |ChunkWrites(frame, i)| == 2 * ChunksFrom(|frame|, i)
    ensures forall k :: 0 <= k < ChunksFrom(|frame|, i) ==>
      && i + ChunkSize * k < |frame|
      && ChunkWrites(frame, i)[2 * k] == ChunkAnnouncement(|frame|, i + ChunkSize * k)
      && ChunkWrites(frame, i)[2 * k + 1] == Write(WriteObject, Chunk(frame, i + ChunkSize * k))
    decreases |frame| - i
  {
    if i < |frame| {
      ChunkWritesShape(frame, i + ChunkSize);
      var ops, rest := ChunkWrites(frame, i), ChunkWrites(frame, i + ChunkSize);
      forall k | 1 <= k < ChunksFrom(|frame|, i)
        ensures && i + ChunkSize * k < |frame|
                && ops[2 * k] == ChunkAnnouncement(|frame|, i + ChunkSize * k)
                && ops[2 * k + 1] == Write(WriteObject, Chunk(frame, i + ChunkSize * k))
      {
        assert ops[2 * k] == rest[2 * (k - 1)] && ops[2 * k + 1] == rest[2 * (k - 1) + 1];
        assert i + ChunkSize + ChunkSize * (k - 1) == i + ChunkSize * k;
      }
    }
  }

  /**
   * The acknowledgement of an `L`-byte frame: for each offset 0, 20, 40, …
   * below `L` the announcement [L, offset] and the chunk at that offset, 20
   * bytes except for the last chunk; then the end announcement [L, L];
   * 2·ceil(L/20)+1 writes in all.
   */
  lemma AckWritesShape(frame: seq<Byte>)
    ensures var ops, chunks := AckWrites(frame), (|frame| + ChunkSize - 1) / ChunkSize;
      && |ops| == 2 * chunks + 1
      && (forall k :: 0 <= k < chunks ==>
            && ChunkSize * k < |frame|
            && ops[2 * k] == ChunkAnnouncement(|frame|, ChunkSize * k)
            && ops[2 * k + 1] == Write(WriteObject, Chunk(frame, ChunkSize * k))
            && (k < chunks - 1 ==> |Chunk(frame, ChunkSize * k)| == ChunkSize))
      && ops[2 * chunks] == ChunkAnnouncement(|frame|, |frame|)
  {
    ChunkWritesShape(frame, 0);
    ChunkCount(|frame|, 0);
    var chunks := ChunksFrom(|frame|, 0);
    forall k | 0 <= k && k + 1 < chunks ensures |Chunk(frame, ChunkSize * k)| == ChunkSize {
      assert ChunkSize * (k + 1) < |frame|;
    }
  }

  /** The bytes an acknowledgement sends through the write object, in order. */
  function ObjectPayload(ops: seq<Op>): seq<Byte>
  {
    if ops == [] then []
    else (if ops[0].Write? && ops[0].characteristic == WriteObject then ops[0].value else []) + ObjectPayload(ops[1..])
  }

  lemma {:induction false} ObjectPayloadAppend(ops: seq<Op>, more: seq<Op>)
    ensures ObjectPayload(ops + more) == ObjectPayload(ops) + ObjectPayload(more)
  {
    if ops != [] {
      assert (ops + more)[0] == ops[0] && (ops + more)[1..] == ops[1..] + more;
      ObjectPayloadAppend(ops[1..], more);
    } else {
      assert ops + more == more;
    }
  }

  lemma {:induction false} ChunksConcatenate(frame: seq<Byte>, i: nat)
    requires i <= |frame|
    ensures ObjectPayload(ChunkWrites(frame, i)) == frame[i..]
    decreases |frame| - i
  {
    if i < |frame| {
      var ops := ChunkWrites(frame, i);
      var next := Min(i + ChunkSize, |frame|);
      ChunksConcatenate(frame, next);
      if next < i + ChunkSize {
        assert ChunkWrites(frame, i + ChunkSize) == [];
      }
      assert ops[1..] == [Write(WriteObject, Chunk(frame, i))] + ChunkWrites(frame, i + ChunkSize);
      assert ops[1..][1..] == ChunkWrites(frame, i + ChunkSize);
      assert frame[i..] == frame[i..next] + frame[next..];
    }
  }

  /** The chunks of an acknowledgement put together are the frame. */
  lemma AckPayloadIsFrame(frame: seq<Byte>)
    ensures ObjectPayload(AckWrites(frame)) == frame
  {
    ChunksConcatenate(frame, 0);
    ObjectPayloadAppend(ChunkWrites(frame, 0), [ChunkAnnouncement(|frame|, |frame|)]);
    assert frame[0..] == frame;
  }

  /** `acknowledgeDataRead` with no data, or with data no frame can be built for, rejects before any write. */
  lemma AcknowledgeRejectsEarly(data: string, now: LocalTime, crc32Calc: seq<Byte> -> Crc32, id: string, script: seq<Reply>)
    requires data == "" || ResponseFrame(data, now, crc32Calc).Err?
    ensures var run := AcknowledgeRun(data, now, crc32Calc, id, script);
      run.result.Err? && run.ops == [] && run.rest == script
      && (data == "" ==> run.result.message == DeviceOrDataNotSetError)
      && (data != "" ==> run.result.message == ResponseFrame(data, now, crc32Calc).message)
  {
  }

  /**
   * How `acknowledgeDataRead` settles once the frame is built: it resolves
   * exactly when every write is answered, after all the writes of the frame;
   * otherwise it rejects with "error acknowledging data read" right after
   * the first failed write, and performs nothing after it.
   */
  lemma AcknowledgeOutcome(id: string, frame: seq<Byte>, script: seq<Reply>)
    ensures var run := AcknowledgedRun(id, frame, script);
      && (run.result.Ok? <==> AllAnswered(id, script, |AckWrites(frame)|))
      && (run.result.Ok? ==> run.result.value && run.ops == AckWrites(frame))
      && (run.result.Err? ==>
            && run.result.message == AcknowledgeError
            && run.ops != [] && run.ops <= AckWrites(frame)
            && AllAnswered(id, script, |run.ops| - 1)
            && NextReply(id, Skip(script, |run.ops| - 1)).Failure?)
  {
    IssueStopsAtFailure(id, AckWrites(frame), script);
  }

  // ---------------------------------------------------------------------------
  // readDataFromBTR2
  // ---------------------------------------------------------------------------

  /** The three CRC routines the read path relies on, whose definitions are not part of this model. */
  datatype CrcFunctions = CrcFunctions(
    crc32Calc: seq<Byte> -> Crc32,
    parseReceived: string -> Crc32,
    calculateReceived: seq<Byte> -> Crc32)

  /** What a reply carries, reading a missing value as empty. */
  function ReplyValue(reply: Reply): seq<Byte>
  {
    if reply.Answer? then reply.value else []
  }

  /**
   * The loop of `readDataFromBTR2`: while the offset is below the announced
   * length, select the chunk at the offset through the read control point,
   * read it from the read object and append it; the offset becomes the
   * length of the data read so far.
   */
  function ReadLoop(id: string, len: Byte, data: seq<Byte>, responseLen: nat, script: seq<Reply>): Run<seq<Byte>>
    decreases |script|
  {
    if responseLen >= len then Run(Ok(data), [], script)
    else
      var request := Write(ReadControlPoint, [len, responseLen]);
      var next := Remaining(script);
      match NextReply(id, script)
      case Failure(m) => Run(Err(m), [request], next)
      case Answer(_) =>
        match NextReply(id, next)
        case Failure(m) => Run(Err(m), [request, Read(ReadObject)], Remaining(next))
        case Answer(chunk) =>
          Prepend([request, Read(ReadObject)], ReadLoop(id, len, data + chunk, |data + chunk|, Remaining(next)))
  }

  /**
   * `readDataFromBTR2` up to the end of its loop: read [length, read pointer]
   * from the read control point (a value shorter than two bytes fails as
   * `readUInt8` does), reject a zero length, select offset 0, read the first
   * chunk and loop, starting from the read pointer plus the first chunk's
   * length. Every error propagates unchanged.
   */
  function ReadTransfer(id: string, script: seq<Reply>): Run<seq<Byte>>
  {
    var s1 := Remaining(script);
    match NextReply(id, script)
    case Failure(m) => Run(Err(m), [Read(ReadControlPoint)], s1)
    case Answer(value) =>
      if |value| < 2 then Run(Err(BeyondBufferError), [Read(ReadControlPoint)], s1)
      else if value[0] == 0 then Run(Err(NoDataLeftError), [Read(ReadControlPoint)], s1)
      else
        var len, readPointer := value[0], value[1];
        var first := Write(ReadControlPoint, [len, 0]);
        var s2 := Remaining(s1);
        match NextReply(id, s1)
        case Failure(m) => Run(Err(m), [Read(ReadControlPoint), first], s2)
        case Answer(_) =>
          match NextReply(id, s2)
          case Failure(m) => Run(Err(m), [Read(ReadControlPoint), first, Read(ReadObject)], Remaining(s2))
          case Answer(chunk) =>
            Prepend([Read(ReadControlPoint), first, Read(ReadObject)],
                    ReadLoop(id, len, chunk, readPointer + |chunk|, Remaining(s2)))
  }

  /**
   * `readDataFromBTR2`: a transfer, then the CRC carried in the frame
   * compared with the one computed over it; on a match the data is
   * acknowledged (any failure reported as "error acknowledging data read")
   * and the frame's payload returned.
   */
  function ReadRun(id: string, script: seq<Reply>, now: LocalTime, crc: CrcFunctions): Run<string>
  {
    var transfer := ReadTransfer(id, script);
    match transfer.result
    case Err(m) => Run(Err(m), transfer.ops, transfer.rest)
    case Ok(data) =>
      var dataString := AsciiDecode(data);
      if crc.parseReceived(dataString) != crc.calculateReceived(data) then
        Run(Err(CrcMismatchError), transfer.ops, transfer.rest)
      else
        var ack := AcknowledgeRun(dataString, now, crc.crc32Calc, id, transfer.rest);
        Run(if ack.result.Ok? then Ok(GetDataWithoutHeadersAndCrc(data)) else Err(AcknowledgeError),
            transfer.ops + ack.ops, ack.rest)
  }

  /** One pass of the loop of `readDataFromBTR2`: select the chunk at `responseLen`, then read it. */
  method RequestChunk(device: Device, len: Byte, responseLen: nat, ghost data: seq<Byte>) returns (r: Result<seq<Byte>>)
    requires responseLen < len
    modifies device
    ensures var pending := ReadLoop(device.id, len, data, responseLen, old(device.script));
      var pair := [Write(ReadControlPoint, [len, responseLen]), Read(ReadObject)];
      && (r.Ok? ==> device.trace == old(device.trace) + pair
                    && pending == Prepend(pair, ReadLoop(device.id, len, data + r.value, |data + r.value|, device.script)))
      && (r.Err? ==> r == pending.result && device.trace == old(device.trace) + pending.ops && device.script == pending.rest)
    ensures r.Ok? ==> |device.script| + 2 == |old(device.script)|
  {
    var written := device.Perform(Write(ReadControlPoint, [len, responseLen]));
    if written.Failure? {
      return Err(written.message);
    }
    var charDataResponse := device.Perform(Read(ReadObject));
    if charDataResponse.Failure? {
      return Err(charDataResponse.message);
    }
    return Ok(charDataResponse.value);
  }

  /** The first part of `readDataFromBTR2`: the announced length, then the first chunk. */
  method ReadFirstChunk(device: Device) returns (r: Result<(Byte, nat, seq<Byte>)>)
    modifies device
    ensures var transfer := ReadTransfer(device.id, old(device.script));
      && (r.Ok? ==>
            var (len, responseLen, data) := r.value;
            var opening := [Read(ReadControlPoint), Write(ReadControlPoint, [len, 0]), Read(ReadObject)];
            && 0 < len && device.trace == old(device.trace) + opening
            && transfer == Prepend(opening, ReadLoop(device.id, len, data, responseLen, device.script)))
      && (r.Err? ==> transfer.result.Err? && r.message == transfer.result.message
                     && device.trace == old(device.trace) + transfer.ops && device.script == transfer.rest)
  {
    var readLenCharacteristics := device.Perform(Read(ReadControlPoint));
    if readLenCharacteristics.Failure? {
      return Err(readLenCharacteristics.message);
    }
    var value := readLenCharacteristics.value;
    if |value| < 2 {
      return Err(BeyondBufferError);
    }
    var len, readPointer := value[0], value[1];
    if len == 0 {
      return Err(NoDataLeftError);
    }
    var responseLen: nat := readPointer;
    var written := device.Perform(Write(ReadControlPoint, [len, 0]));
    if written.Failure? {
      return Err(written.message);
    }
    var readObjectCharacteristics := device.Perform(Read(ReadObject));
    if readObjectCharacteristics.Failure? {
      return Err(readObjectCharacteristics.message);
    }
    var data := readObjectCharacteristics.value;
    responseLen := responseLen + |data|;
    return Ok((len, responseLen, data));
  }

  /**
   * The transfer of `readDataFromBTR2`, up to the end of its loop, returning
   * the bytes read and their ASCII text, accumulated side by side.
   */
  method ReadFrame(device: Device) returns (r: Result<seq<Byte>>, dataString: string)
    modifies device
    ensures var transfer := ReadTransfer(device.id, old(device.script));
      r == transfer.result && device.trace == old(device.trace) + transfer.ops && device.script == transfer.rest
    ensures r.Ok? ==> dataString == AsciiDecode(r.value)
  {
    ghost var transfer := ReadTransfer(device.id, device.script);
    var first := ReadFirstChunk(device);
    if first.Err? {
      return Err(first.message), "";
    }
    var len: Byte, responseLen: nat, data: seq<Byte> := first.value.0, first.value.1, first.value.2;
    ghost var done := [Read(ReadControlPoint), Write(ReadControlPoint, [len, 0]), Read(ReadObject)];
    dataString := AsciiDecode(data);
    while responseLen < len
      invariant dataString == AsciiDecode(data)
      invariant device.trace == old(device.trace) + done
      invariant transfer == Prepend(done, ReadLoop(device.id, len, data, responseLen, device.script))
      decreases |device.script|
    {
      var offset: Byte := responseLen;
      ghost var pending := ReadLoop(device.id, len, data, offset, device.script);
      var chunk := RequestChunk(device, len, offset, data);
      if chunk.Err? {
        AppendAssociative(old(device.trace), done, pending.ops);
        return Err(chunk.message), dataString;
      }
      ghost var pair := [Write(ReadControlPoint, [len, offset]), Read(ReadObject)];
      PrependTwice(done, pair, ReadLoop(device.id, len, data + chunk.value, |data + chunk.value|, device.script));
      AppendAssociative(old(device.trace), done, pair);
      done := done + pair;
      AsciiDecodeAppend(data, chunk.value);
      dataString := dataString + AsciiDecode(chunk.value);
      data := data + chunk.value;
      responseLen := |data|;
    }
    return Ok(data), dataString;
  }

  method ReadDataFromBtr2(device: Device?, now: LocalTime, crc: CrcFunctions) returns (r: Result<string>)
    modifies device
    ensures device == null ==> r == Err(DeviceNotSetError)
    ensures device != null ==>
      var run := ReadRun(device.id, old(device.script), now, crc);
      r == run.result && device.trace == old(device.trace) + run.ops && device.script == run.rest
  {
    if device == null {
      return Err(DeviceNotSetError);
    }
    var received, dataString := ReadFrame(device);
    if received.Err? {
      return Err(received.message);
    }
    var data := received.value;
    var parsedCrc32 := crc.parseReceived(dataString);
    var calculatedCrc32 := crc.calculateReceived(data);
    if parsedCrc32 != calculatedCrc32 {
      return Err(CrcMismatchError);
    }
    ghost var transferOps := device.trace[|old(device.trace)|..];
    ghost var traceBefore := device.trace;
    var acknowledged := AcknowledgeDataRead(device, dataString, now, crc.crc32Calc);
    AppendAssociative(old(device.trace), transferOps, device.trace[|traceBefore|..]);
    if acknowledged.Err? {
      return Err(AcknowledgeError);
    }
    return Ok(GetDataWithoutHeadersAndCrc(data));
  }

  /**
   * The chunks the first `k` passes of the read loop receive, in order, when
   * started on `script`: each pass spends two replies and keeps the second.
   */
  function LoopChunks(id: string, script: seq<Reply>, k: nat): seq<Byte>
    decreases k
  {
    if k == 0 then [] else ReplyValue(NextReply(id, Remaining(script))) + LoopChunks(id, Skip(script, 2), k - 1)
  }

  /** `op` asks the device for the chunk at `offset` of a `len`-byte frame. */
  predicate Request(op: Op, len: Byte, offset: nat)
  {
    op.Write? && op.characteristic == ReadControlPoint && |op.value| == 2 && op.value[0] == len && op.value[1] == offset
  }

  lemma SkipTwo(script: seq<Reply>)
    ensures Skip(script, 1) == Remaining(script)
    ensures Skip(script, 2) == Remaining(Remaining(script))
  {
    assert Skip(script, 2) == Skip(Remaining(script), 1);
  }

  /** When the second reply is an answer, it is the first of the loop's chunks. */
  lemma LoopChunksFirst(id: string, script: seq<Reply>, m: nat)
    requires NextReply(id, Remaining(script)).Answer?
    ensures LoopChunks(id, script, m + 1) == NextReply(id, Remaining(script)).value + LoopChunks(id, Skip(script, 2), m)
  {
  }

  /** One pass of the read loop that received both answers. */
  lemma ReadLoopStep(id: string, len: Byte, data: seq<Byte>, responseLen: nat, script: seq<Reply>)
    requires responseLen < len
    requires NextReply(id, script).Answer? && NextReply(id, Remaining(script)).Answer?
    ensures var chunk, rest := NextReply(id, Remaining(script)).value, Skip(script, 2);
      ReadLoop(id, len, data, responseLen, script)
      == Prepend([Write(ReadControlPoint, [len, responseLen]), Read(ReadObject)],
                 ReadLoop(id, len, data + chunk, |data + chunk|, rest))
  {
    SkipTwo(script);
  }

  /** `ops` alternate requests below `len`, at even positions, and object reads, at odd positions. */
  predicate Alternating(ops: seq<Op>, len: Byte)
  {
    forall k :: 0 <= k < |ops| ==> (ops[k] == Read(ReadObject) <==> k % 2 == 1) && (k % 2 == 0 ==> RequestBelow(ops[k], len))
  }

  lemma AlternatingPrepend(request: Op, ops: seq<Op>, len: Byte)
    requires RequestBelow(request, len) && Alternating(ops, len)
    ensures Alternating([request, Read(ReadObject)] + ops, len)
  {
    var all := [request, Read(ReadObject)] + ops;
    forall k | 2 <= k < |all| ensures all[k] == ops[k - 2] {
    }
  }

  /**
   * The read loop alternates a request, at even positions, and an object
   * read, at odd positions; every request is for an offset below `len`.
   */
  lemma {:induction false} ReadLoopOps(id: string, len: Byte, data: seq<Byte>, responseLen: nat, script: seq<Reply>)
    ensures Alternating(ReadLoop(id, len, data, responseLen, script).ops, len)
    decreases |script|
  {
    if responseLen < len && NextReply(id, script).Answer? && NextReply(id, Remaining(script)).Answer? {
      var chunk := NextReply(id, Remaining(script)).value;
      SkipTwo(script);
      ReadLoopStep(id, len, data, responseLen, script);
      ReadLoopOps(id, len, data + chunk, |data + chunk|, Skip(script, 2));
      AlternatingPrepend(Write(ReadControlPoint, [len, responseLen]),
                         ReadLoop(id, len, data + chunk, |data + chunk|, Skip(script, 2)).ops, len);
    }
  }

  /** After the opening three operations of a transfer, alternating operations stay on the read side. */
  lemma OpeningThenAlternating(opening: seq<Op>, ops: seq<Op>, len: Byte)
    requires |opening| == 3 && forall k :: 0 <= k < 3 ==> ReadSide(opening[k])
    requires Alternating(ops, len)
    ensures forall k :: 0 <= k < |opening + ops| ==> ReadSide((opening + ops)[k])
  {
    var all := opening + ops;
    forall k | 0 <= k < |all| ensures ReadSide(all[k]) {
      if k >= 3 {
        assert all[k] == ops[k - 3];
        if (k - 3) % 2 == 0 {
          assert RequestBelow(ops[k - 3], len);
        }
      }
    }
  }

  /**
   * The first request of the loop asks for the offset it starts from, every
   * later one for the length of the data received so far.
   */
  lemma {:induction false} ReadLoopOffsets(id: string, len: Byte, data: seq<Byte>, responseLen: nat, script: seq<Reply>)
    ensures LoopOffsets(id, len, data, responseLen, script, ReadLoop(id, len, data, responseLen, script).ops)
    decreases |script|
  {
    if responseLen < len && NextReply(id, script).Answer? && NextReply(id, Remaining(script)).Answer? {
      var chunk := NextReply(id, Remaining(script)).value;
      SkipTwo(script);
      ReadLoopStep(id, len, data, responseLen, script);
      ReadLoopOffsets(id, len, data + chunk, |data + chunk|, Skip(script, 2));
      var inner := ReadLoop(id, len, data + chunk, |data + chunk|, Skip(script, 2));
      LoopOffsetsPrepend(id, len, data, responseLen, script, inner.ops);
    }
  }

  /** What `ReadLoopOffsets` states about the operations of a loop. */
  ghost predicate LoopOffsets(id: string, len: Byte, data: seq<Byte>, responseLen: nat, script: seq<Reply>, ops: seq<Op>)
  {
    && (ops != [] ==> Request(ops[0], len, responseLen))
    && forall k :: 1 <= k && 2 * k < |ops| ==> Request(ops[2 * k], len, |data| + |LoopChunks(id, script, k)|)
  }

  /** One answered pass in front of a loop keeps its requests at the offsets of the chunks received. */
  lemma LoopOffsetsPrepend(id: string, len: Byte, data: seq<Byte>, responseLen: nat, script: seq<Reply>, inner: seq<Op>)
    requires responseLen < len && NextReply(id, Remaining(script)).Answer?
    requires var chunk := NextReply(id, Remaining(script)).value;
      LoopOffsets(id, len, data + chunk, |data + chunk|, Skip(script, 2), inner)
    ensures LoopOffsets(id, len, data, responseLen, script, [Write(ReadControlPoint, [len, responseLen]), Read(ReadObject)] + inner)
  {
    var ops := [Write(ReadControlPoint, [len, responseLen]), Read(ReadObject)] + inner;
    forall k | 1 <= k && 2 * k < |ops|
      ensures Request(ops[2 * k], len, |data| + |LoopChunks(id, script, k)|)
    {
      assert ops[2 * k] == inner[2 * (k - 1)];
      LoopChunksFirst(id, script, k - 1);
      if k == 1 {
        assert LoopChunks(id, Skip(script, 2), 0) == [];
      }
    }
  }

  /** What `ReadLoopResult` states about a run that resolved `Ok`. */
  predicate LoopResolved(id: string, len: Byte, data: seq<Byte>, responseLen: nat, script: seq<Reply>, run: Run<seq<Byte>>)
  {
    run.result.Ok? ==>
      && |run.ops| % 2 == 0
      && run.result.value == data + LoopChunks(id, script, |run.ops| / 2)
      && (if run.ops == [] then responseLen >= len else |run.result.value| >= len)
  }

  /** One answered pass in front of a resolved loop keeps it resolved, with its chunk first. */
  lemma LoopResolvedPrepend(id: string, len: Byte, data: seq<Byte>, responseLen: nat, script: seq<Reply>,
                            pass: seq<Op>, inner: Run<seq<Byte>>)
    requires |pass| == 2 && NextReply(id, Remaining(script)).Answer?
    requires var chunk := NextReply(id, Remaining(script)).value;
      LoopResolved(id, len, data + chunk, |data + chunk|, Skip(script, 2), inner)
    ensures LoopResolved(id, len, data, responseLen, script, Prepend(pass, inner))
  {
    var run := Prepend(pass, inner);
    if run.result.Ok? {
      var chunk := NextReply(id, Remaining(script)).value;
      var m := |inner.ops| / 2;
      assert |run.ops| / 2 == m + 1;
      var later := LoopChunks(id, Skip(script, 2), m);
      if inner.ops == [] {
        assert later == [];
      }
      assert inner.result.value == (data + chunk) + later;
      LoopChunksFirst(id, script, m);
      assert (data + chunk) + later == data + (chunk + later);
    }
  }

  /**
   * The read loop resolves only with the offset at or past `len`, after
   * whole passes, returning the data with every chunk it received appended.
   */
  lemma {:induction false} ReadLoopResult(id: string, len: Byte, data: seq<Byte>, responseLen: nat, script: seq<Reply>)
    ensures LoopResolved(id, len, data, responseLen, script, ReadLoop(id, len, data, responseLen, script))
    decreases |script|
  {
    var run := ReadLoop(id, len, data, responseLen, script);
    if responseLen < len && NextReply(id, script).Answer? && NextReply(id, Remaining(script)).Answer? {
      var chunk := NextReply(id, Remaining(script)).value;
      SkipTwo(script);
      ReadLoopStep(id, len, data, responseLen, script);
      ReadLoopResult(id, len, data + chunk, |data + chunk|, Skip(script, 2));
      var inner := ReadLoop(id, len, data + chunk, |data + chunk|, Skip(script, 2));
      LoopResolvedPrepend(id, len, data, responseLen, script, [Write(ReadControlPoint, [len, responseLen]), Read(ReadObject)], inner);
    } else if responseLen >= len {
      assert LoopChunks(id, script, 0) == [];
    }
  }

  /** The reads and writes of a transfer only touch the read control point and the read object. */
  predicate ReadSide(op: Op)
  {
    op == Read(ReadControlPoint) || op == Read(ReadObject) || (op.Write? && op.characteristic == ReadControlPoint)
  }

  /** `op` asks for a chunk of a `len`-byte frame at an offset below `len`. */
  predicate RequestBelow(op: Op, len: Byte)
  {
    op.Write? && op.characteristic == ReadControlPoint && |op.value| == 2 && op.value[0] == len && op.value[1] < len
  }



  /**
   * A transfer starts with a read of the read control point, and each of
   * its operations touches the read control point or the read object only.
   */
  lemma ReadTransferReadSide(id: string, script: seq<Reply>)
    ensures var transfer := ReadTransfer(id, script);
      && transfer.ops != [] && transfer.ops[0] == Read(ReadControlPoint)
      && (forall k :: 0 <= k < |transfer.ops| ==> ReadSide(transfer.ops[k]))
  {
    var transfer := ReadTransfer(id, script);
    var reply := NextReply(id, script);
    var s1 := Remaining(script);
    var s2 := Remaining(s1);
    if reply.Answer? && |reply.value| >= 2 && reply.value[0] != 0
       && NextReply(id, s1).Answer? && NextReply(id, s2).Answer? {
      var len, readPointer := reply.value[0], reply.value[1];
      var chunk := NextReply(id, s2).value;
      var loop := ReadLoop(id, len, chunk, readPointer + |chunk|, Remaining(s2));
      var opening := [Read(ReadControlPoint), Write(ReadControlPoint, [len, 0]), Read(ReadObject)];
      assert transfer.ops == opening + loop.ops;
      ReadLoopOps(id, len, chunk, readPointer + |chunk|, Remaining(s2));
      OpeningThenAlternating(opening, loop.ops, len);
    }
  }

  /**
   * Every write of a transfer after its opening is a request [len, offset]
   * with the announced `len` and an offset below it; the first one is
   * [len, 0].
   */
  lemma ReadTransferWrites(id: string, script: seq<Reply>)
    requires NextReply(id, script).Answer? && |NextReply(id, script).value| >= 2
    ensures var transfer, len := ReadTransfer(id, script), NextReply(id, script).value[0];
      && (|transfer.ops| > 1 ==> len != 0 && transfer.ops[1] == Write(ReadControlPoint, [len, 0]))
      && (forall k :: 1 <= k < |transfer.ops| && transfer.ops[k].Write? ==> RequestBelow(transfer.ops[k], len))
  {
    var transfer := ReadTransfer(id, script);
    var reply := NextReply(id, script);
    var s1 := Remaining(script);
    var s2 := Remaining(s1);
    if reply.value[0] != 0 && NextReply(id, s1).Answer? && NextReply(id, s2).Answer? {
      var len, readPointer := reply.value[0], reply.value[1];
      var chunk := NextReply(id, s2).value;
      var loop := ReadLoop(id, len, chunk, readPointer + |chunk|, Remaining(s2));
      var opening := [Read(ReadControlPoint), Write(ReadControlPoint, [len, 0]), Read(ReadObject)];
      assert transfer.ops == opening + loop.ops;
      ReadLoopOps(id, len, chunk, readPointer + |chunk|, Remaining(s2));
      forall k | 3 <= k < |transfer.ops| && transfer.ops[k].Write? ensures RequestBelow(transfer.ops[k], len) {
        assert transfer.ops[k] == loop.ops[k - 3];
      }
    }
  }

  /**
   * A transfer resolves only once the device's read pointer plus the first
   * chunk, or the data read, reaches the announced length.
   */
  lemma ReadTransferExit(id: string, script: seq<Reply>)
    requires NextReply(id, script).Answer? && |NextReply(id, script).value| >= 2
    ensures var transfer, len, readPointer := ReadTransfer(id, script), NextReply(id, script).value[0], NextReply(id, script).value[1];
      transfer.result.Ok? ==>
        readPointer + |ReplyValue(NextReply(id, Skip(script, 2)))| >= len || |transfer.result.value| >= len
  {
    var reply := NextReply(id, script);
    var s1 := Remaining(script);
    var s2 := Remaining(s1);
    SkipTwo(script);
    if reply.value[0] != 0 && NextReply(id, s1).Answer? && NextReply(id, s2).Answer? {
      var len, readPointer := reply.value[0], reply.value[1];
      var chunk := NextReply(id, s2).value;
      ReadLoopResult(id, len, chunk, readPointer + |chunk|, Remaining(s2));
    }
  }

  /** A reported length of 0 rejects with "No data left to read" right after the control-point read, before any write. */
  lemma ReadRejectsZeroLength(id: string, script: seq<Reply>, now: LocalTime, crc: CrcFunctions)
    requires NextReply(id, script).Answer? && |NextReply(id, script).value| >= 2 && NextReply(id, script).value[0] == 0
    ensures ReadRun(id, script, now, crc) == Run(Err(NoDataLeftError), [Read(ReadControlPoint)], Remaining(script))
  {
  }

  /**
   * The loop's starting offset counts the device's read pointer: once the
   * read pointer and the first chunk reach the length, the transfer ends
   * after one chunk, however short that chunk is.
   */
  lemma ReadPointerEndsTransfer(id: string, len: Byte, readPointer: Byte, rest: seq<Byte>, written: seq<Byte>,
                                chunk: seq<Byte>, tail: seq<Reply>)
    requires 0 < len <= readPointer + |chunk|
    ensures var script := [Answer([len, readPointer] + rest), Answer(written), Answer(chunk)] + tail;
      ReadTransfer(id, script)
      == Run(Ok(chunk), [Read(ReadControlPoint), Write(ReadControlPoint, [len, 0]), Read(ReadObject)], tail)
  {
    var script := [Answer([len, readPointer] + rest), Answer(written), Answer(chunk)] + tail;
    assert Remaining(script) == [Answer(written), Answer(chunk)] + tail;
    assert Remaining(Remaining(script)) == [Answer(chunk)] + tail;
    assert Remaining(Remaining(Remaining(script))) == tail;
  }

  /**
   * Nothing stops the loop when the device sends an empty chunk: the offset
   * does not advance and the same request goes out again.
   */
  lemma ReadLoopRepeatsStalledRequest(id: string, len: Byte, data: seq<Byte>, written: seq<Byte>, tail: seq<Reply>)
    requires |data| < len
    ensures var run := ReadLoop(id, len, data, |data|, [Answer(written), Answer([])] + tail);
      |run.ops| >= 3 && run.ops[2] == run.ops[0] && run.ops[0] == Write(ReadControlPoint, [len, |data|])
  {
    var script := [Answer(written), Answer([])] + tail;
    assert Remaining(script) == [Answer([])] + tail;
    assert Remaining(Remaining(script)) == tail;
    assert data + [] == data;
  }

  /**
   * A CRC mismatch rejects with "CRC32 mismatch" after the transfer, without
   * acknowledging: nothing is written to the write control point or the
   * write object.
   */
  lemma CrcMismatchRejects(id: string, script: seq<Reply>, now: LocalTime, crc: CrcFunctions)
    requires ReadTransfer(id, script).result.Ok?
    requires var data := ReadTransfer(id, script).result.value;
      crc.parseReceived(AsciiDecode(data)) != crc.calculateReceived(data)
    ensures var run := ReadRun(id, script, now, crc);
      && run.result == Err(CrcMismatchError)
      && run.ops == ReadTransfer(id, script).ops
      && forall op :: op in run.ops ==> !(op.Write? && op.characteristic in {WriteControlPoint, WriteObject})
  {
    ReadTransferReadSide(id, script);
  }

  /**
   * A CRC match acknowledges the data, as text, right after the transfer;
   * the read resolves with the frame's payload exactly when the
   * acknowledgement resolves, and rejects with "error acknowledging data
   * read" otherwise.
   */
  lemma CrcMatchAcknowledges(id: string, script: seq<Reply>, now: LocalTime, crc: CrcFunctions)
    requires ReadTransfer(id, script).result.Ok?
    requires var data := ReadTransfer(id, script).result.value;
      crc.parseReceived(AsciiDecode(data)) == crc.calculateReceived(data)
    ensures var transfer := ReadTransfer(id, script);
      var data := transfer.result.value;
      var ack := AcknowledgeRun(AsciiDecode(data), now, crc.crc32Calc, id, transfer.rest);
      var run := ReadRun(id, script, now, crc);
      && run.ops == transfer.ops + ack.ops
      && (run.result.Ok? <==> ack.result.Ok?)
      && (run.result.Ok? ==> run.result.value == GetDataWithoutHeadersAndCrc(data))
      && (run.result.Err? ==> run.result.message == AcknowledgeError)
  {
  }
}
