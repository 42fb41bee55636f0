/** Safety and liveness of the snapshot pipeline, over every interleaving. */
module SnapshotProofs {
  import opened Bytes
  import opened Snapshot

  /* Queues */

  lemma {:induction false} QueueBytesPush(q: seq<Message>, m: Message)
    ensures QueueBytes(q + [m]) == QueueBytes(q) + MessageBytes(m)
  {
    if q != [] {
      assert (q + [m])[1..] == q[1..] + [m];
      QueueBytesPush(q[1..], m);
    }
  }

  lemma {:induction false} MessageIdsPush(q: seq<Message>, m: Message)
    ensures MessageIds(q + [m]) == MessageIds(q) + if m.Chunk? then multiset{m.buf.id} else multiset{}
  {
    if q != [] {
      assert (q + [m])[1..] == q[1..] + [m];
      MessageIdsPush(q[1..], m);
    }
  }

  lemma {:induction false} BufferIdsPush(bs: seq<Buffer>, b: Buffer)
    ensures BufferIds(bs + [b]) == BufferIds(bs) + multiset{b.id}
  {
    if bs != [] {
      assert (bs + [b])[1..] == bs[1..] + [b];
      BufferIdsPush(bs[1..], b);
    }
  }

  lemma {:induction false} BufferCount(bs: seq<Buffer>)
    ensures |BufferIds(bs)| == |bs|
  {
    if bs != [] {
      BufferCount(bs[1..]);
    }
  }

  lemma {:induction false} ChunkCount(q: seq<Message>)
    requires forall k | 0 <= k < |q| :: q[k].Chunk?
    ensures |MessageIds(q)| == |q|
  {
    if q != [] {
      ChunkCount(q[1..]);
    }
  }

  lemma StartBuffers()
    ensures BufferIds(FreshBuffers(QUEUE_DEPTH)) == FOUR && |FreshBuffers(QUEUE_DEPTH)| == QUEUE_DEPTH
    ensures forall k | 0 <= k < QUEUE_DEPTH :: Full(FreshBuffers(QUEUE_DEPTH)[k])
  {
    hide BufferIds, FreshBuffers, Full;
    FreshIds(1);
    FreshIds(2);
    FreshIds(3);
    FreshIds(4);
    FreshFull(4);
    assert BufferIds(FreshBuffers(0)) == multiset{} by {
      NoIds();
    }
  }

  lemma NoIds()
    ensures BufferIds(FreshBuffers(0)) == multiset{}
  {
  }

  lemma FreshIds(n: nat)
    requires n > 0
    ensures BufferIds(FreshBuffers(n)) == BufferIds(FreshBuffers(n - 1)) + multiset{n - 1}
  {
    BufferIdsPush(FreshBuffers(n - 1), Buffer(n - 1, seq(BUFFER_SIZE, _ => 0)));
  }

  lemma {:induction false} FreshFull(n: nat)
    ensures |FreshBuffers(n)| == n && forall k | 0 <= k < n :: Full(FreshBuffers(n)[k])
  {
    if n > 0 {
      FreshFull(n - 1);
    }
  }

  // The four buffers are spread over the recycle queue, the two hands and the data queue.
  lemma FourBuffers(s: State)
    requires AllIds(s) == FOUR && forall k | 0 <= k < |s.data| :: s.data[k].Chunk?
    ensures |s.recycle| + |ReaderIds(s.reader)| + |s.data| + |ConsumerIds(s.consumer)| == 4
  {
    BufferCount(s.recycle);
    ChunkCount(s.data);
    assert |FOUR| == 4;
  }

  /* Each step keeps each part of the invariant */

  lemma StepKeepsShape(s: State, a: Action)
    requires ShapeInv(s) && Enabled(s, a)
    ensures ShapeInv(Apply(s, a))
  {
    if a.OpenSucceeds? {
      StartBuffers();
    }
    hide FreshBuffers;
  }

  lemma StepKeepsPhase(s: State, source: seq<byte>, a: Action)
    requires PhaseInv(s, source) && Enabled(s, a)
    ensures PhaseInv(Apply(s, a), source)
  {
    hide FreshBuffers;
  }

  lemma IdsTake(s: State)
    requires Enabled(s, TakeBuffer)
    ensures AllIds(Apply(s, TakeBuffer)) == AllIds(s)
  {
    hide MessageIds, ConsumerIds;
    var b, rest := s.recycle[0].id, BufferIds(s.recycle[1..]);
    assert BufferIds(s.recycle) == multiset{b} + rest;
    hide BufferIds;
    var d, c := MessageIds(s.data), ConsumerIds(s.consumer);
    assert (multiset{b} + rest) + multiset{} + d + c == rest + multiset{b} + d + c;
  }

  lemma IdsRead(s: State, a: Action)
    requires GoodReader(s.reader) && Enabled(s, a) && (a.ReadBytes? || a.ReadEnd? || a.ReadFails?)
    ensures AllIds(Apply(s, a)) == AllIds(s)
  {
    hide MessageIds, ConsumerIds, BufferIds;
  }

  lemma IdsSend(s: State)
    requires GoodReader(s.reader) && Enabled(s, Send) && !s.consumer.Finished? && s.reader.msg.Chunk?
    ensures AllIds(Apply(s, Send)) == AllIds(s)
  {
    hide MessageIds, ConsumerIds, BufferIds;
    MessageIdsPush(s.data, s.reader.msg);
    var a, d, c, r := BufferIds(s.recycle), MessageIds(s.data), ConsumerIds(s.consumer), multiset{s.reader.buf.id};
    assert a + multiset{} + (d + r) + c == a + r + d + c;
  }

  lemma IdsReceive(s: State)
    requires Enabled(s, Receive) && s.data[0].Chunk?
    ensures AllIds(Apply(s, Receive)) == AllIds(s)
  {
    hide MessageIds, BufferIds, ReaderIds;
    var rest := MessageIds(s.data[1..]);
    var b := multiset{s.data[0].buf.id};
    MessageIdsHead(s.data);
    var a, r := BufferIds(s.recycle), ReaderIds(s.reader);
    assert a + r + rest + b == a + r + (b + rest) + multiset{};
  }

  lemma MessageIdsHead(q: seq<Message>)
    requires q != [] && q[0].Chunk?
    ensures MessageIds(q) == multiset{q[0].buf.id} + MessageIds(q[1..])
  {
  }

  lemma IdsRecycle(s: State)
    requires Enabled(s, Recycle) && !s.reader.Stopped?
    ensures AllIds(Apply(s, Recycle)) == AllIds(s)
  {
    hide MessageIds, BufferIds, ReaderIds;
    BufferIdsPush(s.recycle, s.consumer.buf);
    var a, r, d, b := BufferIds(s.recycle), ReaderIds(s.reader), MessageIds(s.data), multiset{s.consumer.buf.id};
    assert (a + b) + r + d + multiset{} == a + r + d + b;
  }

  lemma IdsOpen(s: State, source: seq<byte>)
    requires Initial(s, source)
    ensures AllIds(Apply(s, OpenSucceeds)) == FOUR
  {
    StartBuffers();
    hide FreshBuffers, BufferIds;
    assert MessageIds([]) == multiset{};
    assert FOUR + multiset{} + multiset{} + multiset{} == FOUR;
  }

  lemma StepKeepsIds(s: State, source: seq<byte>, a: Action)
    requires PhaseInv(s, source) && IdsInv(s) && ShapeInv(s) && Enabled(s, a)
    ensures IdsInv(Apply(s, a))
  {
    hide AllIds, FreshBuffers;
    match a {
      case OpenSucceeds => IdsOpen(s, source);
      case TakeBuffer => IdsTake(s);
      case ReadBytes(_) => IdsRead(s, a);
      case ReadEnd => IdsRead(s, a);
      case ReadFails => IdsRead(s, a);
      case Send => if !s.consumer.Finished? && s.reader.msg.Chunk? { IdsSend(s); }
      case Receive => if s.data[0].Chunk? { IdsReceive(s); }
      case Recycle => if !s.reader.Stopped? { IdsRecycle(s); }
      case _ => IdsSame(s, a);
    }
  }

  lemma IdsSame(s: State, a: Action)
    requires Enabled(s, a) && (a.Hash? || a.Write? || !Copying(Apply(s, a).consumer) || a.SeeNoConsumer?)
    ensures Copying(Apply(s, a).consumer) && !a.SeeNoConsumer? ==> AllIds(Apply(s, a)) == AllIds(s)
  {
    hide MessageIds, BufferIds, ReaderIds;
  }

  /* Bytes */

  // Regrouping the bytes after a step leaves them in order.
  lemma BytesReader(s: State, a: Action)
    requires s.dest.Some? && ShapeInv(s) && Enabled(s, a)
             && (a.TakeBuffer? || a.ReadBytes? || a.ReadEnd? || a.ReadFails? || a.SeeNoConsumer?)
    ensures Apply(s, a).dest.Some? && InOrder(Apply(s, a)) == InOrder(s)
  {
    hide QueueBytes;
    var s' := Apply(s, a);
    if a.ReadBytes? {
      assert MessageBytes(s'.reader.msg) == s.unread[..a.n];
      assert s.unread == s.unread[..a.n] + s.unread[a.n..];
    }
    assert ReaderBytes(s'.reader) + s'.unread == ReaderBytes(s.reader) + s.unread;
  }

  lemma BytesSend(s: State)
    requires s.dest.Some? && Enabled(s, Send) && !s.consumer.Finished?
    ensures Apply(s, Send).dest.Some? && InOrder(Apply(s, Send)) == InOrder(s)
  {
    hide QueueBytes, MessageBytes;
    var s' := Apply(s, Send);
    var m := s.reader.msg;
    QueueBytesPush(s.data, m);
    ConcatAssociative(QueueBytes(s.data), MessageBytes(m), s.unread);
    assert ReaderBytes(s'.reader) + s'.unread == s.unread;
  }

  lemma BytesReceive(s: State)
    requires s.dest.Some? && Enabled(s, Receive) && !s.data[0].ReadError?
    ensures Apply(s, Receive).dest.Some? && InOrder(Apply(s, Receive)) == InOrder(s)
  {
    var s' := Apply(s, Receive);
    var m := s.data[0];
    assert QueueBytes(s.data) == MessageBytes(m) + QueueBytes(s.data[1..]);
    hide QueueBytes, ReaderBytes;
    var rest := ReaderBytes(s.reader) + s.unread;
    ConcatAssociative(MessageBytes(m), QueueBytes(s'.data), rest);
    assert ConsumerBytes(s.consumer) == [] && ConsumerBytes(s'.consumer) == MessageBytes(m);
    hide MessageBytes, ConsumerBytes;
    assert [] + (QueueBytes(s.data) + rest) == QueueBytes(s.data) + rest;
  }

  lemma BytesWrite(s: State)
    requires s.dest.Some? && Enabled(s, Write)
    ensures Apply(s, Write).dest.Some? && InOrder(Apply(s, Write)) == InOrder(s)
  {
    hide QueueBytes, ReaderBytes;
    var s' := Apply(s, Write);
    var chunk := s.consumer.buf.bytes[..s.consumer.len];
    var rest := QueueBytes(s.data) + (ReaderBytes(s.reader) + s.unread);
    assert ConsumerBytes(s.consumer) == chunk && ConsumerBytes(s'.consumer) == [];
    hide ConsumerBytes;
    ConcatAssociative(s.dest.value, chunk, rest);
    assert [] + rest == rest;
  }

  lemma BytesConsumer(s: State, a: Action)
    requires s.dest.Some? && Enabled(s, a) && (a.Hash? || a.Recycle? || a.SeeNoReader? || a.Join? || a.Flush?)
    ensures Apply(s, a).dest.Some? ==> InOrder(Apply(s, a)) == InOrder(s)
  {
    hide QueueBytes, ReaderBytes;
    assert a.Hash? ==> MessageBytes(Chunk(s.consumer.buf, s.consumer.len)) == s.consumer.buf.bytes[..s.consumer.len];
  }

  lemma BytesOpen(s: State, source: seq<byte>)
    requires Initial(s, source)
    ensures InOrder(Apply(s, OpenSucceeds)) == source
  {
    hide FreshBuffers;
  }

  lemma StepKeepsBytes(s: State, source: seq<byte>, a: Action)
    requires PhaseInv(s, source) && BytesInv(s, source) && ShapeInv(s) && Enabled(s, a)
    ensures BytesInv(Apply(s, a), source)
  {
    hide InOrder, FreshBuffers;
    if a.OpenSucceeds? {
      BytesOpen(s, source);
    } else if Alive(s.consumer) {
      match a {
        case Send => if !s.consumer.Finished? { BytesSend(s); }
        case Receive => if !s.data[0].ReadError? { BytesReceive(s); }
        case Write => BytesWrite(s);
        case Hash => BytesConsumer(s, a);
        case Recycle => BytesConsumer(s, a);
        case SeeNoReader => BytesConsumer(s, a);
        case Join => BytesConsumer(s, a);
        case Flush => BytesConsumer(s, a);
        case WriteFails =>
        case FlushFails =>
        case OpenFails =>
        case _ => BytesReader(s, a);
      }
    }
  }

  /* Safety */

  lemma StepKeepsInv(s: State, source: seq<byte>, a: Action)
    requires Inv(s, source) && Enabled(s, a)
    ensures Inv(Apply(s, a), source)
  {
    hide ShapeInv, PhaseInv, BytesInv, IdsInv, Enabled, Apply;
    StepKeepsShape(s, a);
    StepKeepsPhase(s, source, a);
    StepKeepsIds(s, source, a);
    StepKeepsBytes(s, source, a);
  }

  lemma InitialInv(s: State, source: seq<byte>)
    requires Initial(s, source)
    ensures Inv(s, source)
  {
  }

  lemma {:induction false} RunInv(states: seq<State>, actions: seq<Action>, source: seq<byte>, k: nat)
    requires Run(states, actions) && Initial(states[0], source) && k < |states|
    ensures Inv(states[k], source)
  {
    hide Inv, Enabled, Apply;
    if k == 0 {
      InitialInv(states[0], source);
    } else {
      RunInv(states, actions, source, k - 1);
      StepKeepsInv(states[k - 1], source, actions[k - 1]);
    }
  }

  /**
   Safety over every interleaving. While a copy is alive, written bytes, the chunk in the consumer's
   hand, queued chunks, the chunk in the reader's hand and unread bytes are the source, in order. On
   success the file, the hashed input and the count are exactly the source; after any error no file is
   left.
   */
  lemma CopyIsFaithful(states: seq<State>, actions: seq<Action>, source: seq<byte>, k: nat)
    requires Run(states, actions) && Initial(states[0], source) && k < |states|
    ensures var s := states[k];
            && (Alive(s.consumer) ==> s.dest.Some? && InOrder(s) == source)
            && (s.consumer == Finished(true)
                ==> s.dest == Some(source) && s.hashed == source && s.copied == Min(|source|, U64_MAX))
            && (s.consumer == Finished(false) ==> s.dest == None)
  {
    RunInv(states, actions, source, k);
    hide Run, Enabled, Apply;
    var s := states[k];
    if s.consumer == Finished(true) {
      assert QueueBytes(s.data) == [] && ReaderBytes(s.reader) == [] && ConsumerBytes(s.consumer) == [];
      assert InOrder(s) == s.dest.value;
    }
  }

  /**
   The four buffers are conserved: while both threads copy, each is in exactly one place. So neither
   bounded channel ever overfills, and no send ever blocks.
   */
  lemma SendsNeverBlock(s: State, source: seq<byte>)
    requires Inv(s, source)
    ensures Copying(s.consumer) && !s.reader.Stopped? ==> AllIds(s) == FOUR
    ensures |s.data| <= QUEUE_DEPTH && |s.recycle| <= QUEUE_DEPTH
    ensures s.reader.Sending? ==> Enabled(s, Send)
    ensures s.consumer.Recycling? ==> Enabled(s, Recycle)
  {
    hide AllIds, InOrder, GoodBuffers;
    if Copying(s.consumer) && !s.reader.Stopped? {
      FourBuffers(s);
    }
  }

  /* Liveness */

  /** No deadlock: in every reachable state that is not the end, some thread can step. */
  lemma NoDeadlock(s: State, source: seq<byte>) returns (a: Action)
    requires Inv(s, source) && !Terminal(s)
    ensures Enabled(s, a)
  {
    hide AllIds, InOrder, ConsumerBytes;
    SendsNeverBlock(s, source);
    a := match s.consumer
      case Opening => OpenSucceeds
      case Hashing(_, _) => Hash
      case Writing(_, _) => Write
      case Recycling(_) => Recycle
      case Joining => Join
      case Flushing => Flush
      case _ =>
        if s.consumer.Receiving? && s.data != [] then Receive
        else match s.reader
          case Waiting => if s.recycle != [] then TakeBuffer else SeeNoConsumer
          case Filling(_) => if s.unread == [] then ReadEnd else ReadBytes(1)
          case _ => Send;
    if s.consumer.Receiving? && s.data == [] && !s.reader.Stopped? {
      FourBuffers(s);
    }
  }

  function MessageWeight(m: Message): nat {
    if m.Chunk? then 17 else 3
  }

  function QueueWeight(q: seq<Message>): nat {
    if q == [] then 0 else MessageWeight(q[0]) + QueueWeight(q[1..])
  }

  // How many steps can still come, at most.
  function Measure(s: State): nat {
    20 * |s.unread| + QueueWeight(s.data)
    + (match s.reader
       case Waiting => 6
       case Filling(_) => 5
       case Sending(_, m) => if m.Chunk? then 24 else 4
       case _ => 0)
    + (match s.consumer
       case Opening => 20
       case Receiving => 3
       case Hashing(_, _) => 19
       case Writing(_, _) => 18
       case Recycling(_) => 17
       case Joining => 2
       case Flushing => 1
       case Finished(_) => 0)
  }

  lemma {:induction false} QueueWeightPush(q: seq<Message>, m: Message)
    ensures QueueWeight(q + [m]) == QueueWeight(q) + MessageWeight(m)
  {
    if q != [] {
      assert (q + [m])[1..] == q[1..] + [m];
      QueueWeightPush(q[1..], m);
    }
  }

  lemma SendDecreases(s: State)
    requires Enabled(s, Send)
    ensures Measure(Apply(s, Send)) < Measure(s)
  {
    hide QueueWeight;
    QueueWeightPush(s.data, s.reader.msg);
  }

  lemma ReceiveDecreases(s: State)
    requires Enabled(s, Receive)
    ensures Measure(Apply(s, Receive)) < Measure(s)
  {
    assert QueueWeight(s.data) == MessageWeight(s.data[0]) + QueueWeight(s.data[1..]);
    hide QueueWeight;
  }

  lemma StepDecreases(s: State, source: seq<byte>, a: Action)
    requires PhaseInv(s, source) && Enabled(s, a)
    ensures Measure(Apply(s, a)) < Measure(s)
  {
    hide Measure, Apply, Enabled, PhaseInv;
    if a.Send? {
      SendDecreases(s);
    } else if a.Receive? {
      ReceiveDecreases(s);
    } else {
      OtherDecreases(s, source, a);
    }
  }

  lemma OtherDecreases(s: State, source: seq<byte>, a: Action)
    requires PhaseInv(s, source) && Enabled(s, a) && !a.Send? && !a.Receive?
    ensures Measure(Apply(s, a)) < Measure(s)
  {
    hide QueueWeight, FreshBuffers, GoodQueue, Drained;
  }

  lemma InvPhase(s: State, source: seq<byte>)
    requires Inv(s, source)
    ensures PhaseInv(s, source)
  {
  }

  /** Every run over a finite source ends: its length is bounded from the start. */
  lemma {:induction false} RunsEnd(states: seq<State>, actions: seq<Action>, source: seq<byte>, k: nat)
    requires Run(states, actions) && Initial(states[0], source) && k <= |actions|
    ensures k + Measure(states[k]) <= 20 * |source| + 20
  {
    hide Inv, Enabled, Apply;
    if k > 0 {
      RunsEnd(states, actions, source, k - 1);
      RunInv(states, actions, source, k - 1);
      assert PhaseInv(states[k - 1], source) by {
        InvPhase(states[k - 1], source);
      }
      StepDecreases(states[k - 1], source, actions[k - 1]);
    }
  }

  predicate Fault(a: Action) {
    a.OpenFails? || a.ReadFails? || a.WriteFails? || a.FlushFails?
  }

  // No trace of a failure.
  predicate Healthy(s: State) {
    && s.consumer != Finished(false) && s.reader != Stopped(false)
    && !(s.reader.Sending? && s.reader.msg.ReadError?)
    && forall k | 0 <= k < |s.data| :: !s.data[k].ReadError?
  }

  lemma StepKeepsHealthy(s: State, source: seq<byte>, a: Action)
    requires Inv(s, source) && Healthy(s) && Enabled(s, a) && !Fault(a)
    ensures Healthy(Apply(s, a))
  {
    hide AllIds, InOrder, FreshBuffers;
  }

  lemma {:induction false} RunHealthy(states: seq<State>, actions: seq<Action>, source: seq<byte>, k: nat)
    requires Run(states, actions) && Initial(states[0], source) && k < |states|
    requires forall j | 0 <= j < |actions| :: !Fault(actions[j])
    ensures Healthy(states[k])
  {
    hide Inv, Enabled, Apply;
    if k > 0 {
      RunHealthy(states, actions, source, k - 1);
      RunInv(states, actions, source, k - 1);
      StepKeepsHealthy(states[k - 1], source, actions[k - 1]);
    }
  }

  /**
   Every run in which nothing fails and that cannot go on has copied the whole source, whatever the
   lengths of the reads; with no deadlock and bounded runs, such runs always get there.
   */
  lemma FaultFreeRunsSucceed(states: seq<State>, actions: seq<Action>, source: seq<byte>)
    requires Run(states, actions) && Initial(states[0], source)
    requires forall j | 0 <= j < |actions| :: !Fault(actions[j])
    requires forall a :: !Enabled(states[|actions|], a)
    ensures states[|actions|].consumer == Finished(true) && states[|actions|].dest == Some(source)
  {
    var last := |actions|;
    RunInv(states, actions, source, last);
    RunHealthy(states, actions, source, last);
    CopyIsFaithful(states, actions, source, last);
    hide Inv, Enabled, Run;
    if !Terminal(states[last]) {
      var a := NoDeadlock(states[last], source);
      assert false;
    }
  }
}
