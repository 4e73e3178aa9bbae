/**
 * Value-level semantics of the trace store of execution_tracer.h and
 * execution_tracer.c: the ExecTracer_t record, the TRACE_IsEmpty/TRACE_IsFull
 * tests, the two TRACE_Put policies, the operations the tests exercise (Get,
 * Clear, GetNumEntries, the log dump) and TRACE_Init. Each is related to the
 * abstract view of the store: the queue of words from `tail` to `head`, oldest
 * first. The class in exec_tracer.dfy performs these updates in place.
 */
module TraceRing {
  import opened Bits
  import opened Hex
  import Protocol

  /** NOINIT_VALID_SIGNATURE: the sentinel that marks an initialized store. */
  const NoinitValidSignature: u32 := 0xAA55CC33

  /** The build-time configuration: BUFFER_LENGTH_IN_WORDS and ALLOW_OVERWRITE. */
  datatype Config = Config(length: nat, allowOverwrite: bool)

  /** The static assert on the buffer length, strengthened to exclude 0 and 1. */
  predicate ValidConfig(c: Config)
  {
    ValidBufferLength(c.length)
  }

  /** ExecTracer_t. */
  datatype Store = Store(magic: u32, resetCount: u32, head: u32, tail: u32, traceBuffer: seq<u32>)

  /** The store's invariant: the buffer has N words and both indices lie in [0, N). */
  predicate Valid(c: Config, s: Store)
  {
    ValidConfig(c) && |s.traceBuffer| == c.length && s.head < c.length && s.tail < c.length
  }

  /** BUFFER_MAX_CAPACITY: one slot stays unused so that full and empty differ. */
  function MaxCapacity(c: Config): nat
    requires ValidConfig(c)
  {
    c.length - 1
  }

  /** An index stepped by one: `(i + 1) & BUFFER_INDEX_MASK` in 32-bit arithmetic. */
  function Advance(c: Config, i: u32): (next: u32)
    requires ValidConfig(c)
    ensures next < c.length
  {
    BitAnd(Wrap32(i + 1), c.length - 1)
  }

  /** TRACE_IsEmpty(). */
  predicate IsEmpty(s: Store)
  {
    s.head == s.tail
  }

  /** TRACE_IsFull(). */
  predicate IsFull(c: Config, s: Store)
    requires ValidConfig(c)
  {
    Advance(c, s.head) == s.tail
  }

  /** TRACE_Put(n) under either value of ALLOW_OVERWRITE. */
  function Put(c: Config, s: Store, n: u32): Store
    requires Valid(c, s)
  {
    if c.allowOverwrite then
      var tail := if IsFull(c, s) then Advance(c, s.tail) else s.tail;
      s.(tail := tail, traceBuffer := s.traceBuffer[s.head := n], head := Advance(c, s.head))
    else if !IsFull(c, s) then
      s.(traceBuffer := s.traceBuffer[s.head := n], head := Advance(c, s.head))
    else
      s
  }

  datatype GetResult = GetResult(store: Store, value: u32)

  /** TRACE_Get(): the oldest word, or 0 when the store is empty. */
  function Get(c: Config, s: Store): GetResult
    requires Valid(c, s)
  {
    if IsEmpty(s) then GetResult(s, 0)
    else GetResult(s.(tail := Advance(c, s.tail)), s.traceBuffer[s.tail])
  }

  /** TRACE_Clear(). */
  function Clear(s: Store): Store
  {
    s.(head := 0, tail := 0)
  }

  /** TRACE_GetNumEntries(): `(head - tail) & BUFFER_INDEX_MASK` in 32-bit arithmetic. */
  function NumEntries(c: Config, s: Store): (count: u32)
    requires ValidConfig(c)
    ensures count <= MaxCapacity(c)
  {
    BitAnd(Wrap32(s.head - s.tail), c.length - 1)
  }

  /** The two steps of TRACE_Init() around the word it puts: tell a first boot from
      a warm reset by the sentinel, then put `version`. */
  function InitPutting(c: Config, s: Store, version: u32): Store
    requires ValidConfig(c) && |s.traceBuffer| == c.length
    requires s.magic == NoinitValidSignature ==> Valid(c, s)
  {
    var s' := if s.magic != NoinitValidSignature
              then s.(resetCount := 0, head := 0, tail := 0, magic := NoinitValidSignature)
              else s.(resetCount := Wrap32(s.resetCount + 1));
    Put(c, s', version)
  }

  /** TRACE_Init() as written: the word it puts comes from TRACE_ExecTracerVersion(). */
  function Init(c: Config, s: Store): Store
    requires ValidConfig(c) && |s.traceBuffer| == c.length
    requires s.magic == NoinitValidSignature ==> Valid(c, s)
  {
    InitPutting(c, s, Protocol.VersionWordAsWritten())
  }

  /** TRACE_Init() as intended: it puts the VERSION-tagged word the decoder reads. */
  function InitIntended(c: Config, s: Store): Store
    requires ValidConfig(c) && |s.traceBuffer| == c.length
    requires s.magic == NoinitValidSignature ==> Valid(c, s)
  {
    InitPutting(c, s, Protocol.VersionWord())
  }

  /** The queued words, oldest first: from `tail` up to `head`, wrapping at N. */
  function Queue(c: Config, s: Store): (q: seq<u32>)
    requires Valid(c, s)
    ensures |q| <= MaxCapacity(c)
  {
    if s.tail <= s.head then s.traceBuffer[s.tail..s.head]
    else s.traceBuffer[s.tail..] + s.traceBuffer[..s.head]
  }

  /** The reference behaviour of a bounded FIFO with N - 1 places: append when there
      is room, otherwise evict the oldest (overwrite) or drop the new word. */
  function BoundedAppend(c: Config, q: seq<u32>, n: u32): seq<u32>
    requires ValidConfig(c) && |q| <= MaxCapacity(c)
  {
    if |q| < MaxCapacity(c) then q + [n]
    else if c.allowOverwrite then q[1..] + [n]
    else q
  }

  /** TRACE_Put once for each word, in order. */
  function PutAll(c: Config, s: Store, ws: seq<u32>): (r: Store)
    requires Valid(c, s)
    ensures Valid(c, r)
    decreases |ws|
  {
    if ws == [] then s
    else
      PutKeepsValid(c, s, ws[0]);
      PutAll(c, Put(c, s, ws[0]), ws[1..])
  }

  /** TRACE_Get repeated until the store reports empty: the words read, and the
      store left behind. */
  function Drain(c: Config, s: Store): (ws: seq<u32>)
    requires Valid(c, s)
    decreases |Queue(c, s)|
  {
    if IsEmpty(s) then []
    else
      GetRefines(c, s);
      var g := Get(c, s);
      [g.value] + Drain(c, g.store)
  }

  // ---------------------------------------------------------------- index lemmas

  /** Stepping an index below N moves it to the next slot, wrapping from N - 1 to 0. */
  lemma AdvanceWraps(c: Config, i: u32)
    requires ValidConfig(c) && i < c.length
    ensures Advance(c, i) == if i + 1 == c.length then 0 else i + 1
  {
    MaskIsModLength(c.length, i + 1);
    if i + 1 == c.length {
      ModUnique(i + 1, c.length, 1, 0);
    } else {
      ModUnique(i + 1, c.length, 0, i + 1);
    }
  }

  /** The index mask is reduction modulo N. */
  lemma AdvanceIsMod(c: Config, i: u32)
    requires ValidConfig(c) && i < c.length
    ensures Advance(c, i) == (i + 1) % c.length
  {
    MaskIsModLength(c.length, i + 1);
  }

  /** The slot of the i-th oldest queued word. */
  function Slot(c: Config, s: Store, i: nat): nat
    requires Valid(c, s)
  {
    if s.tail + i < c.length then s.tail + i else s.tail + i - c.length
  }

  /** The queue holds `(head - tail) mod N` words, the i-th of them in slot tail + i mod N. */
  lemma QueueIndex(c: Config, s: Store)
    requires Valid(c, s)
    ensures |Queue(c, s)| == if s.tail <= s.head then s.head - s.tail else c.length - s.tail + s.head
    ensures forall i :: 0 <= i < |Queue(c, s)| ==>
      Slot(c, s, i) < c.length && Queue(c, s)[i] == s.traceBuffer[Slot(c, s, i)]
  {
  }

  lemma PutKeepsValid(c: Config, s: Store, n: u32)
    requires Valid(c, s)
    ensures Valid(c, Put(c, s, n))
  {
    AdvanceWraps(c, s.head);
    AdvanceWraps(c, s.tail);
  }

  /** TRACE_IsEmpty() holds exactly when nothing is queued. */
  lemma IsEmptyIff(c: Config, s: Store)
    requires Valid(c, s)
    ensures IsEmpty(s) <==> Queue(c, s) == []
  {
    QueueIndex(c, s);
  }

  /** TRACE_IsFull() holds exactly when N - 1 words are queued. */
  lemma IsFullIff(c: Config, s: Store)
    requires Valid(c, s)
    ensures IsFull(c, s) <==> |Queue(c, s)| == MaxCapacity(c)
  {
    AdvanceWraps(c, s.head);
    QueueIndex(c, s);
  }

  /** TRACE_GetNumEntries() counts the queued words, despite the 32-bit wrap of
      `head - tail` when head has wrapped past tail. */
  lemma NumEntriesIsQueueLength(c: Config, s: Store)
    requires Valid(c, s)
    ensures NumEntries(c, s) == |Queue(c, s)| <= MaxCapacity(c)
  {
    QueueIndex(c, s);
    MaskIsModLength(c.length, Wrap32(s.head - s.tail));
    if s.tail <= s.head {
      ModUnique(s.head - s.tail, c.length, 0, s.head - s.tail);
    } else {
      WrappedDistance(c.length, s.head, s.tail);
    }
  }

  /** When head is behind tail, the wrapped 32-bit difference reduced modulo N is
      the distance from tail forward to head. */
  lemma WrappedDistance(n: nat, head: nat, tail: nat)
    requires 0 < n && U32Modulus % n == 0 && head < tail < n
    ensures (U32Modulus + head - tail) % n == n + head - tail
  {
    var q := U32Modulus / n;
    assert U32Modulus == n * q;
    assert n * (q - 1) == U32Modulus - n;
    ModUnique(U32Modulus + head - tail, n, q - 1, n + head - tail);
  }

  /** TRACE_Put on the concrete fields: a put with room writes the old head slot and
      advances head by one mod N; a full put under overwrite first advances tail,
      so both indices advance and the store stays full; a full put without
      overwrite changes nothing. The sentinel and reset count are never touched. */
  lemma PutIndices(c: Config, s: Store, n: u32)
    requires Valid(c, s)
    ensures Put(c, s, n).magic == s.magic && Put(c, s, n).resetCount == s.resetCount
    ensures !IsFull(c, s) ==>
      && Put(c, s, n).tail == s.tail
      && Put(c, s, n).head == (s.head + 1) % c.length
      && Put(c, s, n).traceBuffer == s.traceBuffer[s.head := n]
    ensures IsFull(c, s) && c.allowOverwrite ==>
      && Put(c, s, n).tail == (s.tail + 1) % c.length
      && Put(c, s, n).head == (s.head + 1) % c.length
      && Put(c, s, n).traceBuffer == s.traceBuffer[s.head := n]
      && IsFull(c, Put(c, s, n))
    ensures IsFull(c, s) && !c.allowOverwrite ==> Put(c, s, n) == s
  {
    AdvanceIsMod(c, s.head);
    AdvanceIsMod(c, s.tail);
  }

  /** TRACE_Put behaves as the bounded FIFO: the word is appended when there is
      room; when full, the oldest word is evicted (overwrite) or the new word is
      dropped (no overwrite). */
  lemma PutRefines(c: Config, s: Store, n: u32)
    requires Valid(c, s)
    ensures Valid(c, Put(c, s, n))
    ensures Queue(c, Put(c, s, n)) == BoundedAppend(c, Queue(c, s), n)
  {
    PutKeepsValid(c, s, n);
    IsFullIff(c, s);
    if !IsFull(c, s) {
      PutWithRoom(c, s, n);
    } else if c.allowOverwrite {
      PutOverwriting(c, s, n);
    }
  }

  /** A put with room leaves the queued words in their slots and adds the new one. */
  lemma PutWithRoom(c: Config, s: Store, n: u32)
    requires Valid(c, s) && !IsFull(c, s)
    ensures Valid(c, Put(c, s, n)) && Queue(c, Put(c, s, n)) == Queue(c, s) + [n]
    ensures Put(c, s, n).tail == s.tail
  {
    PutKeepsValid(c, s, n);
    IsFullIff(c, s);
    AdvanceWraps(c, s.head);
    var r := Put(c, s, n);
    QueueIndex(c, s);
    QueueIndex(c, r);
    var q', e := Queue(c, r), Queue(c, s) + [n];
    assert |q'| == |e|;
    forall i | 0 <= i < |q'|
      ensures q'[i] == e[i]
    {
      assert Slot(c, r, i) == Slot(c, s, i);
    }
  }

  /** A put into a full store under overwrite moves both indices on by one, so the
      queue loses its oldest word and gains the new one. */
  lemma PutOverwriting(c: Config, s: Store, n: u32)
    requires Valid(c, s) && IsFull(c, s) && c.allowOverwrite
    ensures Valid(c, Put(c, s, n)) && |Queue(c, s)| >= 1
    ensures Queue(c, Put(c, s, n)) == Queue(c, s)[1..] + [n]
  {
    PutKeepsValid(c, s, n);
    IsFullIff(c, s);
    AdvanceWraps(c, s.head);
    AdvanceWraps(c, s.tail);
    var r := Put(c, s, n);
    QueueIndex(c, s);
    QueueIndex(c, r);
    var q', e := Queue(c, r), Queue(c, s)[1..] + [n];
    assert |q'| == |e|;
    forall i | 0 <= i < |q'|
      ensures q'[i] == e[i]
    {
      assert Slot(c, r, i) == Slot(c, s, i + 1);
    }
  }

  /** TRACE_Get returns the oldest queued word and removes it, or returns 0 and
      changes nothing when the store is empty. */
  lemma GetRefines(c: Config, s: Store)
    requires Valid(c, s)
    ensures Valid(c, Get(c, s).store)
    ensures Get(c, s).value == if Queue(c, s) == [] then 0 else Queue(c, s)[0]
    ensures Queue(c, Get(c, s).store) == if Queue(c, s) == [] then [] else Queue(c, s)[1..]
  {
    AdvanceWraps(c, s.tail);
    IsEmptyIff(c, s);
    QueueIndex(c, s);
    var r := Get(c, s).store;
    if !IsEmpty(s) {
      QueueIndex(c, r);
      var q, q' := Queue(c, s), Queue(c, r);
      assert |q'| == |q| - 1;
      forall i | 0 <= i < |q'|
        ensures q'[i] == q[i + 1]
      {
        assert Slot(c, r, i) == Slot(c, s, i + 1);
      }
    }
  }

  /** TRACE_GetNumEntries() drops by one for each Get from a non-empty store. */
  lemma GetDecrementsNumEntries(c: Config, s: Store)
    requires Valid(c, s) && !IsEmpty(s)
    ensures NumEntries(c, Get(c, s).store) == NumEntries(c, s) - 1
  {
    GetRefines(c, s);
    IsEmptyIff(c, s);
    NumEntriesIsQueueLength(c, s);
    NumEntriesIsQueueLength(c, Get(c, s).store);
  }

  /** A cleared store is empty and not full, and clearing twice is clearing once;
      the sentinel, the reset count and the buffer words are left alone. */
  lemma ClearEmpties(c: Config, s: Store)
    requires ValidConfig(c) && |s.traceBuffer| == c.length
    ensures Valid(c, Clear(s)) && Queue(c, Clear(s)) == [] && NumEntries(c, Clear(s)) == 0
    ensures IsEmpty(Clear(s)) && !IsFull(c, Clear(s))
    ensures Clear(Clear(s)) == Clear(s)
    ensures Clear(s).magic == s.magic && Clear(s).resetCount == s.resetCount
    ensures Clear(s).traceBuffer == s.traceBuffer
  {
    AdvanceWraps(c, 0);
    NumEntriesIsQueueLength(c, Clear(s));
  }

  /** Puts that fit append their words in order and leave tail where it was. */
  lemma {:induction false} PutAllAppends(c: Config, s: Store, ws: seq<u32>)
    requires Valid(c, s) && |Queue(c, s)| + |ws| <= MaxCapacity(c)
    ensures Valid(c, PutAll(c, s, ws)) && PutAll(c, s, ws).tail == s.tail
    ensures Queue(c, PutAll(c, s, ws)) == Queue(c, s) + ws
    decreases |ws|
  {
    if ws != [] {
      IsFullIff(c, s);
      PutWithRoom(c, s, ws[0]);
      var p := Put(c, s, ws[0]);
      PutAllAppends(c, p, ws[1..]);
      assert PutAll(c, s, ws) == PutAll(c, p, ws[1..]);
      assert Queue(c, s) + [ws[0]] + ws[1..] == Queue(c, s) + ws;
    }
  }

  /** The usable capacity is N - 1: starting cleared, N - 1 puts fill the store,
      leaving head at N - 1 and tail at 0. */
  lemma FillFromClear(c: Config, s: Store, ws: seq<u32>)
    requires ValidConfig(c) && |s.traceBuffer| == c.length && |ws| == MaxCapacity(c)
    ensures Valid(c, PutAll(c, Clear(s), ws))
    ensures IsFull(c, PutAll(c, Clear(s), ws))
    ensures PutAll(c, Clear(s), ws).head == MaxCapacity(c) && PutAll(c, Clear(s), ws).tail == 0
    ensures Queue(c, PutAll(c, Clear(s), ws)) == ws
  {
    ClearEmpties(c, s);
    PutAllAppends(c, Clear(s), ws);
    var r := PutAll(c, Clear(s), ws);
    QueueIndex(c, r);
    IsFullIff(c, r);
  }

  /** Getting until empty reads back exactly the queued words, oldest first. */
  lemma {:induction false} DrainIsQueue(c: Config, s: Store)
    requires Valid(c, s)
    ensures Drain(c, s) == Queue(c, s)
    decreases |Queue(c, s)|
  {
    IsEmptyIff(c, s);
    if !IsEmpty(s) {
      GetRefines(c, s);
      DrainIsQueue(c, Get(c, s).store);
    }
  }

  /** FIFO round trip, across the wrap of either index: words put while they fit
      are got back after the words already queued, in the order they were put. */
  lemma FifoRoundTrip(c: Config, s: Store, ws: seq<u32>)
    requires Valid(c, s) && |Queue(c, s)| + |ws| <= MaxCapacity(c)
    ensures Drain(c, PutAll(c, s, ws)) == Queue(c, s) + ws
  {
    PutAllAppends(c, s, ws);
    DrainIsQueue(c, PutAll(c, s, ws));
  }

  /** With overwrite, a put into a full store evicts exactly the oldest word: the
      drain then yields the other queued words followed by the new one. */
  lemma OverwriteEvictsOldest(c: Config, s: Store, n: u32)
    requires Valid(c, s) && c.allowOverwrite && IsFull(c, s)
    ensures |Queue(c, s)| == MaxCapacity(c) >= 1
    ensures Drain(c, Put(c, s, n)) == Queue(c, s)[1..] + [n]
  {
    IsFullIff(c, s);
    PutRefines(c, s, n);
    DrainIsQueue(c, Put(c, s, n));
  }

  /** Without overwrite, a put into a full store is dropped: the drain yields the
      queued words only. */
  lemma DropKeepsQueue(c: Config, s: Store, n: u32)
    requires Valid(c, s) && !c.allowOverwrite && IsFull(c, s)
    ensures Drain(c, Put(c, s, n)) == Queue(c, s)
  {
    IsFullIff(c, s);
    PutRefines(c, s, n);
    DrainIsQueue(c, Put(c, s, n));
  }

  // ------------------------------------------------------------ initialization

  /** First boot (no sentinel): the reset count and both indices are zeroed, the
      sentinel is written, and the store then holds exactly the word put. */
  lemma ColdBootPuts(c: Config, s: Store, version: u32)
    requires ValidConfig(c) && |s.traceBuffer| == c.length && s.magic != NoinitValidSignature
    ensures Valid(c, InitPutting(c, s, version))
    ensures InitPutting(c, s, version).magic == NoinitValidSignature
    ensures InitPutting(c, s, version).resetCount == 0
    ensures InitPutting(c, s, version).tail == 0 && InitPutting(c, s, version).head == 1
    ensures Queue(c, InitPutting(c, s, version)) == [version]
    ensures NumEntries(c, InitPutting(c, s, version)) == 1
  {
    var s' := s.(resetCount := 0, head := 0, tail := 0, magic := NoinitValidSignature);
    ClearEmpties(c, s');
    PutRefines(c, s', version);
    PutIndices(c, s', version);
    MaskIsModLength(c.length, 1);
    ModUnique(1, c.length, 0, 1);
    NumEntriesIsQueueLength(c, InitPutting(c, s, version));
  }

  /** Warm reset (sentinel present): the reset count goes up by one in 32 bits, the
      sentinel stays, and the word put joins the earlier entries under the
      full-store policy. */
  lemma WarmResetPuts(c: Config, s: Store, version: u32)
    requires Valid(c, s) && s.magic == NoinitValidSignature
    ensures Valid(c, InitPutting(c, s, version))
    ensures InitPutting(c, s, version).magic == NoinitValidSignature
    ensures InitPutting(c, s, version).resetCount == Wrap32(s.resetCount + 1)
    ensures Queue(c, InitPutting(c, s, version)) == BoundedAppend(c, Queue(c, s), version)
  {
    var s' := s.(resetCount := Wrap32(s.resetCount + 1));
    assert Queue(c, s') == Queue(c, s);
    PutRefines(c, s', version);
    PutIndices(c, s', version);
  }

  /** First boot as written: the store ends up holding one word, and that word is
      0, the value an empty TRACE_Get() returns, not a version entry. */
  lemma InitColdBoot(c: Config, s: Store)
    requires ValidConfig(c) && |s.traceBuffer| == c.length && s.magic != NoinitValidSignature
    ensures Valid(c, Init(c, s))
    ensures Init(c, s).magic == NoinitValidSignature && Init(c, s).resetCount == 0
    ensures Init(c, s).tail == 0 && Init(c, s).head == 1
    ensures Queue(c, Init(c, s)) == [0]
    ensures NumEntries(c, Init(c, s)) == 1
  {
    ColdBootPuts(c, s, Protocol.VersionWordAsWritten());
    Protocol.VersionWordAsWrittenIsZero();
  }

  /** Warm reset as written: one reset more, and a 0 word joins the earlier entries
      under the full-store policy. */
  lemma InitWarmReset(c: Config, s: Store)
    requires Valid(c, s) && s.magic == NoinitValidSignature
    ensures Valid(c, Init(c, s))
    ensures Init(c, s).magic == NoinitValidSignature
    ensures Init(c, s).resetCount == Wrap32(s.resetCount + 1)
    ensures Queue(c, Init(c, s)) == BoundedAppend(c, Queue(c, s), 0)
  {
    WarmResetPuts(c, s, Protocol.VersionWordAsWritten());
    Protocol.VersionWordAsWrittenIsZero();
  }

  /** The sentinel is not 0, so zero-filled memory is taken for a first boot. */
  lemma ZeroedMemoryIsFresh(c: Config, s: Store)
    requires ValidConfig(c) && |s.traceBuffer| == c.length && s.magic == 0
    ensures Init(c, s).resetCount == 0 && Queue(c, Init(c, s)) == [0]
  {
    InitColdBoot(c, s);
  }

  /** Two initializations from first boot: the second counts one reset and keeps
      the first 0 word, adding a second one when there is room. */
  lemma InitTwice(c: Config, s: Store)
    requires ValidConfig(c) && |s.traceBuffer| == c.length && s.magic != NoinitValidSignature
    ensures Valid(c, Init(c, s))
    ensures Init(c, Init(c, s)).magic == NoinitValidSignature
    ensures Init(c, Init(c, s)).resetCount == 1
    ensures Queue(c, Init(c, Init(c, s))) == if MaxCapacity(c) >= 2 then [0, 0] else [0]
  {
    InitColdBoot(c, s);
    InitWarmReset(c, Init(c, s));
  }

  /** First boot as intended: the store holds exactly one word, and it carries the
      VERSION code. */
  lemma IntendedInitQueuesVersion(c: Config, s: Store)
    requires ValidConfig(c) && |s.traceBuffer| == c.length && s.magic != NoinitValidSignature
    ensures Valid(c, InitIntended(c, s))
    ensures InitIntended(c, s).resetCount == 0
    ensures Queue(c, InitIntended(c, s)) == [Protocol.VersionWord()]
    ensures Protocol.IdCodeOf(Queue(c, InitIntended(c, s))[0]) == Protocol.IdCodeVersion
  {
    ColdBootPuts(c, s, Protocol.VersionWord());
  }

  /** Warm reset as intended: the version word joins the earlier entries. */
  lemma IntendedInitAppendsVersion(c: Config, s: Store)
    requires Valid(c, s) && s.magic == NoinitValidSignature
    ensures Valid(c, InitIntended(c, s))
    ensures InitIntended(c, s).resetCount == Wrap32(s.resetCount + 1)
    ensures Queue(c, InitIntended(c, s)) == BoundedAppend(c, Queue(c, s), Protocol.VersionWord())
  {
    WarmResetPuts(c, s, Protocol.VersionWord());
  }

  // ----------------------------------------------------------------- log dump

  /** The hooks registered with TRACE_Init: `write` is always given; `lock` and
      `unlock` may be NULL. */
  datatype Callbacks = Callbacks(hasLock: bool, hasUnlock: bool)

  /** One call the dump makes to a hook, with the bytes passed to `write`. */
  datatype SinkCall = Lock | Write(bytes: string) | Unlock

  /** The transport record of one word: "0x", eight upper-case hex digits, "\n". */
  function Record(w: u32): string
  {
    "0x" + FormatHex(w, 8) + "\n"
  }

  /** The word of the record emitted first when the store was full at the start. */
  const OverflowMarkerWord: u32 := 0x0F00_0000

  function Records(ws: seq<u32>): seq<SinkCall>
  {
    if ws == [] then [] else [Write(Record(ws[0]))] + Records(ws[1..])
  }

  /** DumpExecTraceLog(): lock if given, the overflow record if the store was full,
      one record per word got until the store reports empty, unlock if given. */
  function DumpCalls(c: Config, cb: Callbacks, s: Store): seq<SinkCall>
    requires Valid(c, s)
  {
    (if cb.hasLock then [Lock] else [])
    + (if IsFull(c, s) then [Write(Record(OverflowMarkerWord))] else [])
    + Records(Drain(c, s))
    + (if cb.hasUnlock then [Unlock] else [])
  }

  /** Every record is 11 bytes and reads back, as hexadecimal, to the word it carries. */
  lemma RecordRoundTrip(w: u32)
    ensures |Record(w)| == 11 && Record(w)[..2] == "0x" && Record(w)[10] == '\n'
    ensures AllHexDigits(Record(w)[2..10]) && ParseHex(Record(w)[2..10]) == w
  {
    FormatWordWidth(w);
    ParseFormatRoundTrip(w, 8);
    assert Record(w)[2..10] == FormatHex(w, 8);
  }

  /** The dump writes each queued word once, oldest first, between the optional
      hooks; a word 0 is written like any other, the drain stopping on emptiness. */
  lemma DumpWritesQueue(c: Config, cb: Callbacks, s: Store)
    requires Valid(c, s)
    ensures DumpCalls(c, cb, s) ==
      (if cb.hasLock then [Lock] else [])
      + (if IsFull(c, s) then [Write(Record(OverflowMarkerWord))] else [])
      + Records(Queue(c, s))
      + (if cb.hasUnlock then [Unlock] else [])
  {
    DrainIsQueue(c, s);
  }

  /** On an empty store the dump calls lock and unlock (when given) and never write. */
  lemma DumpOfEmptyStore(c: Config, cb: Callbacks, s: Store)
    requires Valid(c, s) && IsEmpty(s)
    ensures DumpCalls(c, cb, s) ==
      (if cb.hasLock then [Lock] else []) + (if cb.hasUnlock then [Unlock] else [])
  {
    IsFullIff(c, s);
    IsEmptyIff(c, s);
    DrainIsQueue(c, s);
  }
}
