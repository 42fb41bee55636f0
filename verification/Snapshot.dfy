/**
 The snapshot pipeline of src/disk/snapshot.rs, from the moment the partial-file guard exists: a reader
 thread and a hash-and-write thread joined by two bounded channels that pass four buffers round. Each
 action below is one thread doing one thing; a run is any interleaving. Reads may fall short or fail,
 writes may fail part way, and opening and flushing may fail.
 */
module Snapshot {
  import opened Bytes

  const QUEUE_DEPTH := 4
  const BUFFER_SIZE := 2097152

  datatype Buffer = Buffer(id: nat, bytes: seq<byte>)

  // What travels to the consumer: a filled buffer with its length, the end, or a read error.
  datatype Message = Chunk(buf: Buffer, len: nat) | EndOfData | ReadError

  datatype Reader = NotStarted | Waiting | Filling(buf: Buffer) | Sending(buf: Buffer, msg: Message) | Stopped(ok: bool)

  datatype Consumer =
    | Opening
    | Receiving
    | Hashing(buf: Buffer, len: nat)
    | Writing(buf: Buffer, len: nat)
    | Recycling(buf: Buffer)
    | Joining
    | Flushing
    | Finished(success: bool)

  datatype State = State(
    unread: seq<byte>,
    reader: Reader,
    recycle: seq<Buffer>,
    data: seq<Message>,
    consumer: Consumer,
    hashed: seq<byte>,
    dest: Option<seq<byte>>,
    copied: nat)

  datatype Action =
    | OpenSucceeds
    | OpenFails
    | TakeBuffer
    | SeeNoConsumer
    | ReadBytes(n: nat)
    | ReadEnd
    | ReadFails
    | Send
    | Receive
    | SeeNoReader
    | Hash
    | Write
    | WriteFails
    | Recycle
    | Join
    | Flush
    | FlushFails

  // Four buffers of zeros, as the channel is filled before the reader starts.
  function FreshBuffers(n: nat): seq<Buffer> {
    if n == 0 then [] else FreshBuffers(n - 1) + [Buffer(n - 1, seq(BUFFER_SIZE, _ => 0))]
  }

  predicate Enabled(s: State, a: Action) {
    match a
    case OpenSucceeds => s.consumer.Opening?
    case OpenFails => s.consumer.Opening?
    case TakeBuffer => s.reader.Waiting? && s.recycle != []
    case SeeNoConsumer => s.reader.Waiting? && s.recycle == [] && s.consumer.Finished?
    case ReadBytes(n) => s.reader.Filling? && 0 < n <= |s.unread| && n <= |s.reader.buf.bytes|
    case ReadEnd => s.reader.Filling? && s.unread == []
    case ReadFails => s.reader.Filling?
    case Send => s.reader.Sending? && (|s.data| < QUEUE_DEPTH || s.consumer.Finished?)
    case Receive => s.consumer.Receiving? && s.data != []
    case SeeNoReader => s.consumer.Receiving? && s.data == [] && s.reader.Stopped?
    case Hash => s.consumer.Hashing? && s.consumer.len <= |s.consumer.buf.bytes|
    case Write => s.consumer.Writing? && s.consumer.len <= |s.consumer.buf.bytes| && s.dest.Some?
    case WriteFails => s.consumer.Writing?
    case Recycle => s.consumer.Recycling? && (|s.recycle| < QUEUE_DEPTH || s.reader.Stopped?)
    case Join => s.consumer.Joining? && s.reader.Stopped?
    case Flush => s.consumer.Flushing?
    case FlushFails => s.consumer.Flushing?
  }

  // An error return: the guard removes the destination file, whatever is in it.
  function Fail(s: State): State {
    s.(consumer := Finished(false), dest := None)
  }

  function Apply(s: State, a: Action): State
    requires Enabled(s, a)
  {
    match a
    case OpenSucceeds =>
      s.(consumer := Receiving, dest := Some([]), recycle := FreshBuffers(QUEUE_DEPTH), reader := Waiting)
    case OpenFails => Fail(s)
    case TakeBuffer => s.(reader := Filling(s.recycle[0]), recycle := s.recycle[1..])
    case SeeNoConsumer => s.(reader := Stopped(true))
    case ReadBytes(n) =>
      // The read overwrites the front of the buffer and leaves old bytes behind it.
      var b := s.reader.buf.(bytes := s.unread[..n] + s.reader.buf.bytes[n..]);
      s.(reader := Sending(b, Chunk(b, n)), unread := s.unread[n..])
    case ReadEnd => s.(reader := Sending(s.reader.buf, EndOfData))
    case ReadFails => s.(reader := Sending(s.reader.buf, ReadError))
    case Send =>
      var after := match s.reader.msg
        case Chunk(_, _) => if s.consumer.Finished? then Stopped(true) else Waiting
        case EndOfData => Stopped(true)
        case ReadError => Stopped(false);
      if s.consumer.Finished? then s.(reader := after)
      else s.(reader := after, data := s.data + [s.reader.msg])
    case Receive =>
      var s' := s.(data := s.data[1..]);
      match s.data[0] {
        case Chunk(b, n) => s'.(consumer := Hashing(b, n))
        case EndOfData => s'.(consumer := Joining)
        case ReadError => Fail(s')
      }
    case SeeNoReader => s.(consumer := Joining)
    case Hash => s.(consumer := Writing(s.consumer.buf, s.consumer.len), hashed :=
                    s.hashed + s.consumer.buf.bytes[..s.consumer.len])
    case Write =>
      s.(consumer := Recycling(s.consumer.buf), dest := Some(s.dest.value + s.consumer.buf.bytes[..s.consumer.len]),
         copied := SatAdd(s.copied, s.consumer.len))
    // However much of the chunk got written, the file goes.
    case WriteFails => Fail(s)
    case Recycle =>
      if s.reader.Stopped? then s.(consumer := Receiving)
      else s.(consumer := Receiving, recycle := s.recycle + [s.consumer.buf])
    case Join => if s.reader.ok then s.(consumer := Flushing) else Fail(s)
    case Flush => s.(consumer := Finished(true))
    case FlushFails => Fail(s)
  }

  // Both threads are about to begin; an earlier file may stand at the destination.
  predicate Initial(s: State, source: seq<byte>) {
    && s.unread == source && s.reader == NotStarted && s.recycle == [] && s.data == []
    && s.consumer == Opening && s.hashed == [] && s.copied == 0
  }

  predicate Run(states: seq<State>, actions: seq<Action>) {
    && |states| == |actions| + 1
    && forall k | 0 <= k < |actions| :: Enabled(states[k], actions[k]) && states[k + 1] == Apply(states[k], actions[k])
  }

  predicate Terminal(s: State) {
    s.consumer.Finished? && (s.reader.Stopped? || s.reader.NotStarted?)
  }

  /* Where the bytes are */

  function MessageBytes(m: Message): seq<byte> {
    if m.Chunk? then m.buf.bytes[..Min(m.len, |m.buf.bytes|)] else []
  }

  function QueueBytes(q: seq<Message>): seq<byte> {
    if q == [] then [] else MessageBytes(q[0]) + QueueBytes(q[1..])
  }

  function ReaderBytes(r: Reader): seq<byte> {
    if r.Sending? then MessageBytes(r.msg) else []
  }

  function ConsumerBytes(c: Consumer): seq<byte> {
    if c.Hashing? || c.Writing? then MessageBytes(Chunk(c.buf, c.len)) else []
  }

  // Everything already written or still on its way, in order.
  function InOrder(s: State): seq<byte>
    requires s.dest.Some?
  {
    s.dest.value + (ConsumerBytes(s.consumer) + (QueueBytes(s.data) + (ReaderBytes(s.reader) + s.unread)))
  }

  /* Where the buffers are */

  function BufferIds(bs: seq<Buffer>): multiset<nat> {
    if bs == [] then multiset{} else multiset{bs[0].id} + BufferIds(bs[1..])
  }

  function MessageIds(q: seq<Message>): multiset<nat> {
    if q == [] then multiset{} else (if q[0].Chunk? then multiset{q[0].buf.id} else multiset{}) + MessageIds(q[1..])
  }

  function ReaderIds(r: Reader): multiset<nat> {
    if r.Filling? || r.Sending? then multiset{r.buf.id} else multiset{}
  }

  function ConsumerIds(c: Consumer): multiset<nat> {
    if c.Hashing? || c.Writing? || c.Recycling? then multiset{c.buf.id} else multiset{}
  }

  function AllIds(s: State): multiset<nat> {
    BufferIds(s.recycle) + ReaderIds(s.reader) + MessageIds(s.data) + ConsumerIds(s.consumer)
  }

  const FOUR: multiset<nat> := multiset{0, 1, 2, 3}

  /* The invariant */

  predicate Full(b: Buffer) {
    |b.bytes| == BUFFER_SIZE
  }

  predicate GoodMessage(m: Message) {
    m.Chunk? ==> Full(m.buf) && m.len <= BUFFER_SIZE
  }

  predicate GoodReader(r: Reader) {
    && (r.Filling? || r.Sending? ==> Full(r.buf))
    && (r.Sending? ==> GoodMessage(r.msg) && (r.msg.Chunk? ==> r.msg.buf == r.buf))
  }

  predicate GoodConsumer(c: Consumer) {
    && (c.Hashing? || c.Writing? || c.Recycling? ==> Full(c.buf))
    && (c.Hashing? || c.Writing? ==> c.len <= BUFFER_SIZE)
  }

  predicate GoodBuffers(s: State) {
    && GoodReader(s.reader) && GoodConsumer(s.consumer)
    && (forall k | 0 <= k < |s.recycle| :: Full(s.recycle[k]))
    && forall k | 0 <= k < |s.data| :: GoodMessage(s.data[k])
  }

  // Still copying: the file is open and the end of the data has not been received.
  predicate Copying(c: Consumer) {
    c.Receiving? || c.Hashing? || c.Writing? || c.Recycling?
  }

  // The last message a stopped reader sent says why it stopped, and only that one is not a chunk.
  predicate GoodQueue(s: State) {
    if s.reader.Stopped? then
      && s.data != []
      && (forall k | 0 <= k < |s.data| - 1 :: s.data[k].Chunk?)
      && s.data[|s.data| - 1] == (if s.reader.ok then EndOfData else ReadError)
      && (s.reader.ok ==> s.unread == [])
    else
      && (forall k | 0 <= k < |s.data| :: s.data[k].Chunk?)
      && (s.reader.Sending? && s.reader.msg.EndOfData? ==> s.unread == [])
  }

  predicate Drained(s: State) {
    s.data == [] && s.unread == [] && s.reader == Stopped(true)
  }

  // Every buffer has its full size, and no queue holds more than it can.
  predicate ShapeInv(s: State) {
    GoodBuffers(s) && |s.recycle| <= QUEUE_DEPTH && |s.data| <= QUEUE_DEPTH
  }

  // What the phases say of the two threads.
  predicate PhaseInv(s: State, source: seq<byte>) {
    && (s.reader.NotStarted? ==> s.consumer.Opening? || s.consumer == Finished(false))
    && (s.consumer.Opening? ==> Initial(s, source))
    && (Copying(s.consumer) ==> GoodQueue(s))
    && (s.consumer.Joining? || s.consumer.Flushing? || s.consumer == Finished(true) ==> Drained(s))
  }

  predicate Alive(c: Consumer) {
    !c.Opening? && c != Finished(false)
  }

  // Nothing is lost, doubled or reordered, and what is hashed and counted is what is written.
  predicate BytesInv(s: State, source: seq<byte>) {
    && (s.consumer == Finished(false) ==> s.dest == None)
    && (Alive(s.consumer) ==>
         && s.dest.Some? && InOrder(s) == source
         && s.hashed == s.dest.value + (if s.consumer.Writing? then ConsumerBytes(s.consumer) else [])
         && s.copied == Min(|s.dest.value|, U64_MAX))
  }

  // While both threads copy, the four buffers are all there, each in one place.
  predicate IdsInv(s: State) {
    Copying(s.consumer) && !s.reader.Stopped? ==> AllIds(s) == FOUR
  }

  predicate Inv(s: State, source: seq<byte>) {
    ShapeInv(s) && PhaseInv(s, source) && BytesInv(s, source) && IdsInv(s)
  }

  /* Hashing without copying */

  // `hash_device_or_image`: what reaches the hasher and how much of it was counted, or a read error.
  method HashDeviceOrImage(source: seq<byte>, device: Reads) returns (r: Option<(seq<byte>, nat)>)
    ensures r.Some? ==> r.value == (source, Min(|source|, U64_MAX))
    ensures r.None? ==> exists p: nat :: p <= |source| && device(p).None?
  {
    var hashed: seq<byte> := [];
    var total: nat := 0;
    while true
      invariant |hashed| <= |source| && hashed == source[..|hashed|] && total == Min(|hashed|, U64_MAX)
      decreases |source| - |hashed|
    {
      var at := |hashed|;
      var read := ReadSome(source, device, at, BUFFER_SIZE);
      if read.None? {
        return None;
      }
      if read.value == [] {
        assert source[..at] == source;
        return Some((hashed, total));
      }
      assert source[..at] + source[at..at + |read.value|] == source[..at + |read.value|];
      hashed := hashed + read.value;
      total := SatAdd(total, |read.value|);
    }
  }
}
