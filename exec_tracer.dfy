/**
 * The trace store as the target keeps it: one ExecTracer_t object whose fields
 * the TRACE_ macros and TRACE_Init update in place. Every operation is proved
 * to perform the value-level step of TraceRing on the fields and buffer, and
 * through TraceRing's lemmas to act on the queue of traced words.
 */
module ExecTracer {
  import opened Bits
  import opened TraceRing
  import Protocol

  class ExecTracer {
    /** BUFFER_LENGTH_IN_WORDS and ALLOW_OVERWRITE, fixed for the object's life. */
    const config: Config
    var magic: u32
    var resetCount: u32
    var head: u32
    var tail: u32
    const traceBuffer: array<u32>
    /** The hooks registered by the last TRACE_Init. */
    var callbacks: Callbacks

    /** The shape every store has, whatever its memory holds. */
    ghost predicate WellFormed()
      reads this
    {
      ValidConfig(config) && traceBuffer.Length == config.length
    }

    ghost predicate Valid()
      reads this
    {
      WellFormed() && head < config.length && tail < config.length
    }

    /** The fields and buffer as an ExecTracer_t value. */
    ghost function State(): Store
      reads this, traceBuffer
    {
      Store(magic, resetCount, head, tail, traceBuffer[..])
    }

    /** The store as memory holds it before any TRACE_Init: placed in a section that
        is not initialized, so its fields and words may be anything. */
    constructor PowerOn(config: Config, magic: u32, resetCount: u32, head: u32, tail: u32, ram: seq<u32>)
      requires ValidConfig(config) && |ram| == config.length
      ensures WellFormed() && fresh(traceBuffer)
      ensures this.config == config && State() == Store(magic, resetCount, head, tail, ram)
      ensures callbacks == Callbacks(false, false)
    {
      this.config := config;
      this.magic := magic;
      this.resetCount := resetCount;
      this.head := head;
      this.tail := tail;
      traceBuffer := new u32[config.length](i => if 0 <= i < |ram| then ram[i] else 0);
      callbacks := Callbacks(false, false);
    }

    /** TRACE_IsEmpty(). */
    predicate IsEmpty()
      requires Valid()
      reads this, traceBuffer
      ensures IsEmpty() <==> Queue(config, State()) == []
    {
      IsEmptyIff(config, State());
      head == tail
    }

    /** TRACE_IsFull(). */
    predicate IsFull()
      requires Valid()
      reads this, traceBuffer
      ensures IsFull() <==> |Queue(config, State())| == MaxCapacity(config)
    {
      IsFullIff(config, State());
      Advance(config, head) == tail
    }

    /** TRACE_GetNumEntries(). */
    function NumEntries(): (r: u32)
      requires Valid()
      reads this, traceBuffer
      ensures r == |Queue(config, State())| <= MaxCapacity(config)
    {
      NumEntriesIsQueueLength(config, State());
      BitAnd(Wrap32(head - tail), config.length - 1)
    }

    /** TRACE_Put(n): the overwrite branch advances tail first when full; the other
        branch writes only when not full. */
    method Put(n: u32)
      requires Valid()
      modifies this`head, this`tail, traceBuffer
      ensures Valid()
      ensures State() == TraceRing.Put(config, old(State()), n)
      ensures Queue(config, State()) == BoundedAppend(config, old(Queue(config, State())), n)
    {
      PutRefines(config, State(), n);
      AdvanceWraps(config, head);
      AdvanceWraps(config, tail);
      if config.allowOverwrite {
        if IsFull() {
          tail := Advance(config, tail);
        }
        traceBuffer[head] := n;
        head := Advance(config, head);
      } else {
        if !IsFull() {
          traceBuffer[head] := n;
          head := Advance(config, head);
        }
      }
    }

    /** TRACE_Get(): the oldest word, or 0 from an empty store. */
    method Get() returns (value: u32)
      requires Valid()
      modifies this`tail
      ensures Valid()
      ensures GetResult(State(), value) == TraceRing.Get(config, old(State()))
      ensures value == if old(Queue(config, State())) == [] then 0 else old(Queue(config, State()))[0]
      ensures Queue(config, State()) ==
        if old(Queue(config, State())) == [] then [] else old(Queue(config, State()))[1..]
    {
      GetRefines(config, State());
      AdvanceWraps(config, tail);
      if IsEmpty() {
        value := 0;
      } else {
        value := traceBuffer[tail];
        tail := Advance(config, tail);
      }
    }

    /** TRACE_Clear(). */
    method Clear()
      requires WellFormed()
      modifies this`head, this`tail
      ensures Valid()
      ensures State() == TraceRing.Clear(old(State()))
      ensures Queue(config, State()) == []
    {
      ClearEmpties(config, State());
      head := 0;
      tail := 0;
    }

    /** TRACE_Init(&callbacks): record the hooks, reset or count, then put what
        TRACE_ExecTracerVersion() puts, which as written is the word 0. A warm reset needs the store that survived it to be valid. */
    method Init(cb: Callbacks)
      requires WellFormed() && (magic == NoinitValidSignature ==> Valid())
      modifies this`magic, this`resetCount, this`head, this`tail, this`callbacks, traceBuffer
      ensures Valid() && callbacks == cb
      ensures State() == TraceRing.Init(config, old(State()))
      ensures magic == NoinitValidSignature
    {
      callbacks := cb;
      if magic != NoinitValidSignature {
        resetCount := 0;
        head := 0;
        tail := 0;
        magic := NoinitValidSignature;
      } else {
        resetCount := Wrap32(resetCount + 1);
      }
      Put(Protocol.VersionWordAsWritten());
    }

    /** The loop of DumpExecTraceLog(): one write per word taken with TRACE_Get(). */
    method WriteAll() returns (writes: seq<SinkCall>)
      requires Valid()
      modifies this`tail
      ensures Valid()
      ensures writes == Records(old(Queue(config, State())))
      ensures Queue(config, State()) == []
    {
      ghost var q0 := Queue(config, State());
      writes := [];
      ghost var k := 0;
      while !IsEmpty()
        invariant Valid() && k <= |q0|
        invariant writes == Records(q0[..k])
        invariant Queue(config, State()) == q0[k..]
        decreases |q0| - k
      {
        var w := Get();
        DrainStep(q0, k, w);
        k := k + 1;
        writes := writes + [Write(Record(w))];
      }
      assert q0[..k] == q0;
    }

    /** DumpExecTraceLog(): drain the store through the registered hooks. */
    method Dump() returns (calls: seq<SinkCall>)
      requires Valid()
      modifies this`tail
      ensures Valid() && head == old(head) && traceBuffer[..] == old(traceBuffer[..])
      ensures calls == DumpCalls(config, callbacks, old(State()))
      ensures Queue(config, State()) == []
    {
      DumpWritesQueue(config, callbacks, State());
      var lock := if callbacks.hasLock then [Lock] else [];
      var marker := if IsFull() then [Write(Record(OverflowMarkerWord))] else [];
      var writes := WriteAll();
      var unlock := if callbacks.hasUnlock then [Unlock] else [];
      calls := lock + marker + writes + unlock;
    }
  }

  /** Taking word k of the words queued at the start of the drain: the rest of the
      queue and the records written so far both move on by one. */
  lemma DrainStep(q0: seq<u32>, k: nat, w: u32)
    requires k < |q0| && w == q0[k..][0]
    ensures w == q0[k] && q0[k..][1..] == q0[k + 1..]
    ensures Records(q0[..k + 1]) == Records(q0[..k]) + [Write(Record(w))]
  {
    assert q0[..k + 1] == q0[..k] + [w];
    RecordsAppend(q0[..k], w);
  }

  lemma {:induction false} RecordsAppend(ws: seq<u32>, w: u32)
    ensures Records(ws + [w]) == Records(ws) + [Write(Record(w))]
  {
    if ws != [] {
      assert (ws + [w])[1..] == ws[1..] + [w];
      RecordsAppend(ws[1..], w);
    }
  }
}

/**
 * The preprocessor names the trace store's headers provide, as written, for the
 * defects recorded under Findings: what each header defines and what
 * execution_tracer.c refers to.
 */
module HeaderNames {
  /** The macros execution_tracer.h defines under a given ALLOW_OVERWRITE: its
      include guard, the index mask, the two tests, the version macro and the six
      empty tracing hooks. Only the enabled branch has a `#define TRACE_Put(n)`
      line; the other branch's body follows `#else` with no name to bind it to. */
  function PublicMacros(allowOverwrite: bool): set<string>
  {
    {"LIB_INCLUDE_EXECUTION_TRACER_H_", "BUFFER_INDEX_MASK", "TRACE_IsEmpty",
     "TRACE_IsFull", "TRACE_ExecTracerVersion", "TRACE_ProcessorReset",
     "TRACE_FunctionEntry", "TRACE_FunctionExit", "TRACE_Line",
     "TRACE_VariableValue", "TRACE_SFRValue"}
    + (if allowOverwrite then {"TRACE_Put"} else {})
  }

  /** The macros execution_tracer_private.h defines, include guard first. */
  const PrivateMacros: set<string> :=
    {"LIB_SRC_EXECUTION_TRACER_PRIVATE_H_", "NOINIT_VALID_SIGNATURE", "__NO_INIT",
     "IS_POWER_OF_2"}

  /** The sentinel name TRACE_Init compares and stores. */
  const InitMagicName: string := "EXEC_TRACE_INIT_MAGIC"

  /** With overwriting disabled, TRACE_Put is not defined, yet TRACE_ExecTracerVersion
      and every caller use it. */
  lemma PutMissingWithoutOverwrite()
    ensures "TRACE_Put" !in PublicMacros(false)
    ensures "TRACE_Put" in PublicMacros(true)
  {
  }

  /** The sentinel TRACE_Init uses is defined by neither header; the private header
      defines the value under another name. */
  lemma InitMagicUndefined()
    ensures InitMagicName !in PrivateMacros && InitMagicName !in PublicMacros(true)
    ensures "NOINIT_VALID_SIGNATURE" in PrivateMacros
  {
  }
}
