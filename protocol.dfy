/**
 * The trace-word protocol shared by the target and the host decoder: the 4-bit
 * ID codes in the top of every word and the protocol version, together with
 * the version word the tracer emits on every initialization.
 */
module Protocol {
  import opened Bits

  const TraceProtocolMajor: nat := 1
  const TraceProtocolMinor: nat := 0

  const IdCodeInvalid: nat := 0
  const IdCodeVersion: nat := 1
  const IdCodeReset: nat := 2
  const IdCodeFuncEntry: nat := 3
  const IdCodeFuncExit: nat := 4
  const IdCodeFileAndLine: nat := 5
  const IdCodeVariableValue: nat := 6
  const IdCodeSfrValue: nat := 7

  /** All ID codes, indexed by their own value. */
  const IdCodes: seq<nat> := [IdCodeInvalid, IdCodeVersion, IdCodeReset, IdCodeFuncEntry,
                              IdCodeFuncExit, IdCodeFileAndLine, IdCodeVariableValue, IdCodeSfrValue]

  /** Weight of the ID-code field: the code sits in bits 31:28. */
  const TagUnit: nat := 0x1000_0000

  /** A word carrying `code` in its top nibble and `payload` below. */
  function TaggedWord(code: nat, payload: nat): (w: nat)
    requires code < 16 && payload < TagUnit
    ensures w < U32Modulus
  {
    code * TagUnit + payload
  }

  /** The ID code is the top nibble of a word. */
  function IdCodeOf(w: u32): (code: nat)
    ensures code < 16
  {
    w / TagUnit
  }

  /** The ID codes are pairwise distinct nibbles, INVALID is 0, and the protocol
      version numbers fit their 8-bit fields. */
  lemma ProtocolConstants()
    ensures forall i :: 0 <= i < |IdCodes| ==> IdCodes[i] == i && IdCodes[i] < 16
    ensures forall i, j :: 0 <= i < j < |IdCodes| ==> IdCodes[i] != IdCodes[j]
    ensures IdCodeInvalid == 0
    ensures TraceProtocolMajor < 256 && TraceProtocolMinor < 256
  {
  }

  /** A word tagged with any code but INVALID is non-zero and carries its code in
      the top nibble, so it never looks like the 0 an empty read returns. */
  lemma TaggedWordIsNonZero(code: nat, payload: nat)
    requires IdCodeInvalid < code < 16 && payload < TagUnit
    ensures TaggedWord(code, payload) != 0
    ensures IdCodeOf(TaggedWord(code, payload)) == code
  {
    ModUnique(TaggedWord(code, payload), TagUnit, code, payload);
  }

  /** The version word as the intended layout: VERSION in bits 31:28, 'V' in 23:16,
      the major version in 15:8 and the minor version in 7:0. */
  function VersionWord(): (w: u32)
    ensures IdCodeOf(w) == IdCodeVersion
  {
    TaggedWord(IdCodeVersion, 'V' as nat * 0x1_0000 + TraceProtocolMajor * 0x100 + TraceProtocolMinor)
  }

  /** The version word as TRACE_ExecTracerVersion() writes it: the four fields are
      joined with `&` rather than `|`, and major and minor are both shifted by 16. */
  function VersionWordAsWritten(): u32
  {
    BitAnd(BitAnd(BitAnd((IdCodeVersion % 16) * TagUnit, ('V' as nat % 256) * 0x1_0000),
                  (TraceProtocolMajor % 256) * 0x1_0000),
           (TraceProtocolMinor % 256) * 0x1_0000)
  }

  /** As written, the version word is 0: the INVALID/empty value, not a version entry. */
  lemma VersionWordAsWrittenIsZero()
    ensures VersionWordAsWritten() == 0
    ensures IdCodeOf(VersionWordAsWritten()) == IdCodeInvalid
    ensures VersionWordAsWritten() != VersionWord()
  {
  }
}
