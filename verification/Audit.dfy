/**
 The hash-chained audit log: src/audit/mod.rs. Hashing the serialised entry is a parameter, assumed
 injective only where a lemma says so. A log is its lines.
 */
module Audit {
  import opened Bytes

  datatype Payload = Payload(
    timestamp: nat, eventType: string, scanId: Option<string>, deviceHash: Option<string>, verdict: Option<string>,
      details: string)

  // What the entry hash covers: everything but the hash itself.
  datatype Covered = Covered(index: nat, payload: Payload, prevHash: string)

  datatype Entry = Entry(covered: Covered, entryHash: string)

  type Digest = Covered -> string

  // An empty line, an entry, or a line that does not parse.
  datatype Line = Blank | Record(entry: Entry) | Corrupt

  type Log = seq<Line>

  const GENESIS_HASH := "0000000000000000000000000000000000000000000000000000000000000000"

  function Records(log: Log): seq<Entry> {
    if log == [] then []
    else Records(log[..|log| - 1]) + if log[|log| - 1].Record? then [log[|log| - 1].entry] else []
  }

  predicate Clean(log: Log) {
    forall k | 0 <= k < |log| :: !log[k].Corrupt?
  }

  // The entry matches its own hash.
  predicate Untampered(e: Entry, digest: Digest) {
    digest(e.covered) == e.entryHash
  }

  function PrevHash(es: seq<Entry>): string {
    if es == [] then GENESIS_HASH else es[|es| - 1].entryHash
  }

  predicate Chained(es: seq<Entry>, digest: Digest) {
    forall i | 0 <= i < |es| ::
      && es[i].covered.index == i
      && es[i].covered.prevHash == PrevHash(es[..i])
      && Untampered(es[i], digest)
  }

  /* Verification */

  datatype Verdict = Intact | Broken | ReadError

  lemma RecordsStep(log: Log, k: nat)
    requires k < |log|
    ensures Records(log[..k + 1]) == Records(log[..k]) + if log[k].Record? then [log[k].entry] else []
  {
    assert log[..k + 1][..k] == log[..k];
  }

  // A prefix of the log that ends in a line that does not parse, with an intact chain before it.
  ghost predicate CorruptAfterIntact(log: Log, digest: Digest) {
    exists k | 0 <= k < |log| :: log[k].Corrupt? && Clean(log[..k]) && Chained(Records(log[..k]), digest)
  }

  lemma ChainedExtends(es: seq<Entry>, e: Entry, digest: Digest)
    ensures Chained(es + [e], digest) <==>
              && Chained(es, digest)
              && e.covered.index == |es| && e.covered.prevHash == PrevHash(es) && Untampered(e, digest)
  {
    var all := es + [e];
    assert all[..|es|] == es;
    forall i | 0 <= i < |es|
      ensures all[i] == es[i] && all[..i] == es[..i]
    {
    }
  }

  lemma {:induction false} RecordsPrefix(log: Log, j: nat, k: nat)
    requires j <= k <= |log|
    ensures Records(log[..j]) <= Records(log[..k])
    decreases k - j
  {
    if j < k {
      RecordsPrefix(log, j, k - 1);
      RecordsStep(log, k - 1);
    }
  }

  lemma ChainedPrefix(a: seq<Entry>, b: seq<Entry>, digest: Digest)
    requires a <= b && Chained(b, digest)
    ensures Chained(a, digest)
  {
    forall i | 0 <= i < |a|
      ensures a[i] == b[i] && a[..i] == b[..i]
    {
    }
  }

  // A broken chain in the first `k` lines stays broken, and hides any later line that does not parse.
  lemma BrokenStays(log: Log, k: nat, digest: Digest)
    requires k <= |log| && Clean(log[..k]) && !Chained(Records(log[..k]), digest)
    ensures !Chained(Records(log), digest) && !CorruptAfterIntact(log, digest)
  {
    assert log[..|log|] == log;
    forall j | k <= j <= |log|
      ensures !Chained(Records(log[..j]), digest)
    {
      RecordsPrefix(log, k, j);
      if Chained(Records(log[..j]), digest) {
        ChainedPrefix(Records(log[..k]), Records(log[..j]), digest);
      }
    }
    forall j | 0 <= j < k
      ensures !log[j].Corrupt?
    {
      assert log[..k][j] == log[j];
    }
  }

  lemma CleanStep(log: Log, k: nat)
    requires k < |log| && Clean(log[..k]) && !log[k].Corrupt?
    ensures Clean(log[..k + 1])
  {
    assert log[..k + 1] == log[..k] + [log[k]];
  }

  // What the verifier expects next: the first `k` lines parse, and hold an intact chain ending here.
  ghost predicate Expecting(log: Log, k: nat, digest: Digest, index: nat, prev: string)
    requires k <= |log|
  {
    && Clean(log[..k]) && Chained(Records(log[..k]), digest)
    && index == |Records(log[..k])| && prev == PrevHash(Records(log[..k]))
  }

  lemma CorruptLine(log: Log, k: nat, digest: Digest, index: nat, prev: string)
    requires k < |log| && Expecting(log, k, digest, index, prev) && log[k].Corrupt?
    ensures CorruptAfterIntact(log, digest) && !Clean(log)
  {
  }

  lemma BlankLine(log: Log, k: nat, digest: Digest, index: nat, prev: string)
    requires k < |log| && Expecting(log, k, digest, index, prev) && log[k].Blank?
    ensures Expecting(log, k + 1, digest, index, prev)
  {
    hide Chained, Clean, Records;
    RecordsStep(log, k);
    CleanStep(log, k);
    assert Records(log[..k]) + [] == Records(log[..k]);
  }

  lemma EntryLine(log: Log, k: nat, digest: Digest, index: nat, prev: string)
    requires k < |log| && Expecting(log, k, digest, index, prev) && log[k].Record?
    ensures var e := log[k].entry;
            if e.covered.index == index && e.covered.prevHash == prev && digest(e.covered) == e.entryHash
            then Expecting(log, k + 1, digest, index + 1, e.entryHash)
            else !Chained(Records(log), digest) && !CorruptAfterIntact(log, digest)
  {
    hide Chained, Clean, Records, CorruptAfterIntact;
    var e := log[k].entry;
    RecordsStep(log, k);
    CleanStep(log, k);
    ChainedExtends(Records(log[..k]), e, digest);
    if !Chained(Records(log[..k + 1]), digest) {
      BrokenStays(log, k + 1, digest);
    }
  }

  lemma AllExpected(log: Log, digest: Digest, index: nat, prev: string)
    requires Expecting(log, |log|, digest, index, prev)
    ensures Clean(log) && Chained(Records(log), digest) && !CorruptAfterIntact(log, digest)
  {
    assert log[..|log|] == log;
  }

  /** True exactly for a log without corrupt lines whose entries are numbered, linked and untampered. */
  method VerifyAuditChain(log: Log, digest: Digest) returns (r: Verdict)
    ensures r.Intact? <==> Clean(log) && Chained(Records(log), digest)
    ensures r.ReadError? <==> CorruptAfterIntact(log, digest)
  {
    var expectedIndex: nat := 0;
    var expectedPrev := GENESIS_HASH;
    assert Expecting(log, 0, digest, 0, GENESIS_HASH);
    hide Expecting, Chained, Records, Clean, CorruptAfterIntact;
    for k := 0 to |log|
      invariant Expecting(log, k, digest, expectedIndex, expectedPrev)
    {
      var line := log[k];
      if line.Corrupt? {
        CorruptLine(log, k, digest, expectedIndex, expectedPrev);
        return ReadError;
      }
      if line.Blank? {
        BlankLine(log, k, digest, expectedIndex, expectedPrev);
        continue;
      }
      var entry := line.entry;
      EntryLine(log, k, digest, expectedIndex, expectedPrev);
      if entry.covered.index != expectedIndex || entry.covered.prevHash != expectedPrev
        || digest(entry.covered) != entry.entryHash {
        return Broken;
      }
      expectedPrev := entry.entryHash;
      expectedIndex := expectedIndex + 1;
    }
    AllExpected(log, digest, expectedIndex, expectedPrev);
    r := Intact;
  }

  lemma NoRecords(log: Log)
    ensures Records(log[..0]) == []
  {
  }

  /* Appending */

  // What the appender demands of the log it finds: it parses, and each entry matches its own hash.
  predicate Appendable(log: Log, digest: Digest) {
    Clean(log) && forall k | 0 <= k < |Records(log)| :: Untampered(Records(log)[k], digest)
  }

  function NextEntry(es: seq<Entry>, payload: Payload, digest: Digest): Entry {
    var covered := Covered(if es == [] then 0 else es[|es| - 1].covered.index + 1, payload, PrevHash(es));
    Entry(covered, digest(covered))
  }

  method AppendAuditEntry(log: Log, payload: Payload, digest: Digest) returns (r: Option<Entry>, log': Log)
    ensures r.Some? <==> Appendable(log, digest)
    ensures r.Some? ==> r.value == NextEntry(Records(log), payload, digest) && log' == log + [Record(r.value)]
    ensures r.None? ==> log' == log
  {
    var last: Option<Entry> := None;
    NoRecords(log);
    hide Records;
    for k := 0 to |log|
      invariant Appendable(log[..k], digest)
      invariant last == if Records(log[..k]) == [] then None else Some(Records(log[..k])[|Records(log[..k])| - 1])
    {
      RecordsStep(log, k);
      var line := log[k];
      if line.Blank? {
        continue;
      }
      if line.Corrupt? {
        return None, log;
      }
      if digest(line.entry.covered) != line.entry.entryHash {
        RecordsPrefix(log, k + 1, |log|);
        assert log[..|log|] == log;
        assert !Untampered(Records(log)[|Records(log[..k])|], digest);
        return None, log;
      }
      last := Some(line.entry);
    }
    assert log[..|log|] == log;
    var index, prev := 0, GENESIS_HASH;
    if last.Some? {
      index, prev := last.value.covered.index + 1, last.value.entryHash;
    }
    var covered := Covered(index, payload, prev);
    var entry := Entry(covered, digest(covered));
    r, log' := Some(entry), log + [Record(entry)];
  }

  // The appender itself does not check the links: it keeps an intact chain intact, and never mends a broken one.
  lemma AppendKeepsChain(es: seq<Entry>, payload: Payload, digest: Digest)
    ensures Chained(es + [NextEntry(es, payload, digest)], digest) <==> Chained(es, digest)
  {
    ChainedExtends(es, NextEntry(es, payload, digest), digest);
  }

  /* Concurrent appenders under the exclusive lock */

  // Where an appender is: before the lock, holding it, or holding it with the log read.
  datatype Stage = Idle | Waiting(payload: Payload) | Locked(payload: Payload) | HasRead(payload: Payload,
                                                                                         seen: Log) | Releasing

  datatype State = State(log: Log, holder: Option<nat>, stages: seq<Stage>)

  datatype Action = Begin(payload: Payload) | Acquire | Read | Write | Release | Abort

  ghost predicate Step(s: State, s': State, i: nat, a: Action, digest: Digest) {
    StepWith(s, s', i, a, digest, true)
  }

  // `exclusive` says whether the lock keeps others out.
  ghost predicate StepWith(s: State, s': State, i: nat, a: Action, digest: Digest, exclusive: bool) {
    && i < |s.stages| && |s'.stages| == |s.stages|
    && match a
       case Begin(p) => s.stages[i].Idle? && s' == s.(stages := s.stages[i := Waiting(p)])
       case Acquire => s.stages[i].Waiting? && (exclusive ==> s.holder == None)
                       && s' == s.(holder := Some(i), stages := s.stages[i := Locked(s.stages[i].payload)])
       case Read => s.stages[i].Locked? && s' == s.(stages := s.stages[i := HasRead(s.stages[i].payload, s.log)])
       case Write => s.stages[i].HasRead? && Appendable(s.stages[i].seen, digest)
                     && s' == s.(log := s.log + [Record(NextEntry(Records(s.stages[i].seen), s.stages[i].payload,
                                                                  digest))],
                                 stages := s.stages[i := Releasing])
       case Release => s.stages[i].Releasing? && s' == s.(holder := None, stages := s.stages[i := Idle])
       // An error, or the end of the process: the lock goes with the file handle.
       case Abort => !s.stages[i].Idle?
                     && s' == s.(holder := if s.stages[i].Waiting? then s.holder
                                 else None, stages := s.stages[i := Idle])
  }

  predicate Holds(stage: Stage) {
    stage.Locked? || stage.HasRead? || stage.Releasing?
  }

  ghost predicate Inv(s: State, digest: Digest) {
    && Clean(s.log) && Chained(Records(s.log), digest)
    && (forall i | 0 <= i < |s.stages| :: Holds(s.stages[i]) ==> s.holder == Some(i))
    && (forall i | 0 <= i < |s.stages| :: s.stages[i].HasRead? ==> s.stages[i].seen == s.log)
  }

  ghost predicate Run(states: seq<State>, who: seq<nat>, what: seq<Action>, digest: Digest) {
    RunWith(states, who, what, digest, true)
  }

  ghost predicate RunWith(states: seq<State>, who: seq<nat>, what: seq<Action>, digest: Digest, exclusive: bool) {
    && |who| == |what| && |states| == |what| + 1
    && states[0].log == [] && states[0].holder == None
    && (forall i | 0 <= i < |states[0].stages| :: states[0].stages[i] == Idle)
    && forall k | 0 <= k < |what| :: StepWith(states[k], states[k + 1], who[k], what[k], digest, exclusive)
  }

  lemma WriteKeepsInv(s: State, s': State, i: nat, digest: Digest)
    requires Inv(s, digest) && Step(s, s', i, Write, digest)
    ensures Clean(s'.log) && Chained(Records(s'.log), digest)
  {
    hide Records, Chained, NextEntry, Appendable;
    var e := NextEntry(Records(s.log), s.stages[i].payload, digest);
    assert s.stages[i].seen == s.log;
    AppendKeepsChain(Records(s.log), s.stages[i].payload, digest);
    assert s'.log == s.log + [Record(e)];
    assert s'.log[..|s.log|] == s.log && s'.log[..|s.log| + 1] == s'.log;
    RecordsStep(s'.log, |s.log|);
  }

  lemma StepKeepsInv(s: State, s': State, i: nat, a: Action, digest: Digest)
    requires Inv(s, digest) && Step(s, s', i, a, digest)
    ensures Inv(s', digest)
  {
    hide Records, Chained, Clean, NextEntry, Appendable;
    assert Holds(s.stages[i]) ==> forall j | 0 <= j < |s.stages| && j != i :: !Holds(s.stages[j]);
    if a.Write? {
      WriteKeepsInv(s, s', i, digest);
    }
  }

  /** Every interleaving of any number of appenders, from an empty log, keeps the log verifiable. */
  lemma {:induction false} EveryRunVerifies(states: seq<State>, who: seq<nat>, what: seq<Action>, digest: Digest,
                                            k: nat)
    requires Run(states, who, what, digest) && k < |states|
    ensures Inv(states[k], digest)
  {
    hide StepWith, Clean, Holds;
    if k == 0 {
      StartInv(states[0], digest);
    } else {
      EveryRunVerifies(states, who, what, digest, k - 1);
      StepKeepsInv(states[k - 1], states[k], who[k - 1], what[k - 1], digest);
    }
  }

  lemma StartInv(s: State, digest: Digest)
    requires s.log == [] && s.holder == None && forall i | 0 <= i < |s.stages| :: s.stages[i] == Idle
    ensures Inv(s, digest)
  {
  }

  // Two appenders that both wait, then take a lock that keeps nobody out, read the empty log, and write.
  function Race(p: Payload, q: Payload, digest: Digest): seq<State> {
    var x, y := Record(NextEntry([], p, digest)), Record(NextEntry([], q, digest));
    [State([], None, [Idle, Idle]),
     State([], None, [Waiting(p), Idle]),
     State([], None, [Waiting(p), Waiting(q)]),
     State([], Some(0), [Locked(p), Waiting(q)]),
     State([], Some(1), [Locked(p), Locked(q)]),
     State([], Some(1), [HasRead(p, []), Locked(q)]),
     State([], Some(1), [HasRead(p, []), HasRead(q, [])]),
     State([x], Some(1), [Releasing, HasRead(q, [])]),
     State([x, y], Some(1), [Releasing, Releasing])]
  }

  function RaceActions(p: Payload, q: Payload): seq<Action> {
    [Begin(p), Begin(q), Acquire, Acquire, Read, Read, Write, Write]
  }

  /** The lock is needed: without exclusion two appenders alone can leave a log that no longer verifies. */
  lemma UnlockedAppendsBreak(p: Payload, q: Payload, digest: Digest)
    ensures RunWith(Race(p, q, digest), [0, 1, 0, 1, 0, 1, 0, 1], RaceActions(p, q), digest, false)
    ensures !Chained(Records(Race(p, q, digest)[8].log), digest)
  {
    hide NextEntry;
    var states := Race(p, q, digest);
    NoRecords([]);
    RaceRecords(NextEntry([], p, digest), NextEntry([], q, digest));
    assert Appendable([], digest);
    SecondIsFirst(q, digest);
    var es := Records(states[8].log);
    assert es[1].covered.index == 0;
  }

  lemma SecondIsFirst(q: Payload, digest: Digest)
    ensures NextEntry([], q, digest).covered.index == 0
  {
  }

  lemma RaceRecords(x: Entry, y: Entry)
    ensures Records([]) == [] && Records([Record(x), Record(y)]) == [x, y]
  {
    assert [Record(x), Record(y)][..1] == [Record(x)] && [Record(x)][..0] == [];
    assert Records([Record(x)]) == [x];
  }

  /* Tampering */

  ghost predicate Injective(digest: Digest) {
    forall a, b :: digest(a) == digest(b) ==> a == b
  }

  /** With an injective hash, two intact logs with the same last entry hash hold the same entries. */
  lemma {:induction false} LastHashDeterminesLog(a: seq<Entry>, b: seq<Entry>, digest: Digest)
    requires Injective(digest) && Chained(a, digest) && Chained(b, digest)
    requires a != [] && b != [] && a[|a| - 1].entryHash == b[|b| - 1].entryHash
    ensures a == b
    decreases |a|
  {
    hide Chained;
    var x, y := a[|a| - 1], b[|b| - 1];
    var a', b' := a[..|a| - 1], b[..|b| - 1];
    assert a == a' + [x] && b == b' + [y];
    ChainedExtends(a', x, digest);
    ChainedExtends(b', y, digest);
    assert digest(x.covered) == digest(y.covered);
    if a' != [] {
      LastHashDeterminesLog(a', b', digest);
    }
  }

  /** Changing, inserting or removing any entry while keeping the last hash is always rejected. */
  lemma TamperingRejected(log: Log, forged: Log, digest: Digest)
    requires Injective(digest) && Chained(Records(log), digest) && Records(log) != [] && Records(forged) != []
    requires Records(forged) != Records(log)
    requires PrevHash(Records(forged)) == PrevHash(Records(log))
    ensures !Chained(Records(forged), digest)
  {
    hide Chained, Records, Injective;
    if Chained(Records(forged), digest) {
      LastHashDeterminesLog(Records(log), Records(forged), digest);
    }
  }
}
