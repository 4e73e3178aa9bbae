/**
 * The host-side decoder of tools/exec_trace_parser.py: it pulls words from a
 * trace reader, dispatches on the 4-bit ID code in bits 31:28, extracts the
 * fields of each entry, resolves addresses against the map-file and SVD tables,
 * and keeps the nesting depth of function calls. Each decoded entry is recorded
 * as a TraceLine carrying the indent it is printed at, in place of the text the
 * original prints.
 */
module TraceParser {
  import opened Bits
  import opened Hex
  import Protocol
  import Svd

  /** TraceReaderInterface.END_OF_TRACE_BUFFER. */
  const EndOfTraceBuffer: int := -1

  /** The look-up dictionaries the parser is built with. */
  datatype Tables = Tables(
    functions: map<int, string>,
    variables: map<int, string>,
    registers: map<int, Svd.PeripheralRegister>)

  /** FLASH_BASE, RAM_BASE and SFR_BASE. */
  datatype Bases = Bases(flash: nat, ram: nat, sfr: nat)

  /** One decoded trace entry, with the indent level it is printed at. */
  datatype TraceLine =
    | Version(verChar: char, major: nat, minor: nat)
    | ProcessorReset(indent: nat, value: int)
    | Enter(indent: nat, name: string)
    | Exit(indent: nat, name: string)
    | FileAndLine(indent: nat, moduleNum: nat, lineNum: nat)
    | Variable(indent: nat, name: string, value: int)
    | Sfr(indent: nat, name: string, value: int)

  /** The ID code each kind of line is decoded from. */
  function KindCode(line: TraceLine): nat
  {
    match line
    case Version(_, _, _) => Protocol.IdCodeVersion
    case ProcessorReset(_, _) => Protocol.IdCodeReset
    case Enter(_, _) => Protocol.IdCodeFuncEntry
    case Exit(_, _) => Protocol.IdCodeFuncExit
    case FileAndLine(_, _, _) => Protocol.IdCodeFileAndLine
    case Variable(_, _, _) => Protocol.IdCodeVariableValue
    case Sfr(_, _, _) => Protocol.IdCodeSfrValue
  }

  // Field extraction. Python's `(v >> k) & (2^j - 1)` is floor division followed
  // by a non-negative remainder, which is what `/` and `%` compute here.

  /** `(value >> 28) & 0xF`. */
  function IdCode(value: int): (code: nat)
    ensures code < 16
  {
    (value / 0x1000_0000) % 16
  }

  /** `value & 0xFFFFFFE`: the 28-bit payload with bit 0 cleared. */
  function AddressOffset(value: int): (offset: nat)
    ensures offset < Protocol.TagUnit && offset % 2 == 0
  {
    var low := value % 0x1000_0000;
    ModUnique(value, 2, (value / 0x1000_0000) * 0x800_0000 + low / 2, low % 2);
    low - low % 2
  }

  /** The MCU address a function, variable or SFR entry refers to. */
  function Address(base: nat, value: int): nat
  {
    AddressOffset(value) + base
  }

  /** The 8-bit fields of a version entry: bits 23:16, 15:8 and 7:0. */
  function VersionChar(value: int): (ch: char)
    ensures ch as nat < 0x100
  {
    ((value / 0x1_0000) % 0x100) as char
  }

  function VersionMajor(value: int): (major: nat)
    ensures major < 0x100
  {
    (value / 0x100) % 0x100
  }

  function VersionMinor(value: int): (minor: nat)
    ensures minor < 0x100
  {
    value % 0x100
  }

  /** Bits 27:16 and 15:0 of a file-and-line entry. */
  function ModuleNumber(value: int): (moduleNum: nat)
    ensures moduleNum < 0x1000
  {
    (value / 0x1_0000) % 0x1000
  }

  function LineNumber(value: int): (lineNum: nat)
    ensures lineNum < 0x1_0000
  {
    value % 0x1_0000
  }

  /** A dictionary entry, or "<kind> @ 0x%08X" of the address when there is none. */
  function NameAt(m: map<int, string>, addr: nat, kind: string): string
  {
    if addr in m then m[addr] else kind + " @ 0x" + FormatHex(addr, 8)
  }

  /** get_func_name. */
  function FunctionName(t: Tables, b: Bases, value: int): string
  {
    NameAt(t.functions, Address(b.flash, value), "Function")
  }

  /** get_var_name. */
  function VariableName(t: Tables, b: Bases, value: int): string
  {
    NameAt(t.variables, Address(b.ram, value), "Variable")
  }

  /** get_sfr_name: "Peripheral->Register" on a hit. */
  function SfrName(t: Tables, b: Bases, value: int): string
  {
    var addr := Address(b.sfr, value);
    if addr in t.registers then
      t.registers[addr].peripheralName + "->" + t.registers[addr].registerName
    else
      NameAt(map[], addr, "SFR")
  }

  /** A look-up hit gives the dictionary's name; a miss gives the kind, " @ 0x" and
      hex digits that read back to the address. */
  lemma NameAtReadsBack(m: map<int, string>, addr: nat, kind: string)
    ensures var name := NameAt(m, addr, kind);
      addr in m ==> name == m[addr]
    ensures var name := NameAt(m, addr, kind);
      addr !in m ==>
        |name| >= |kind| + 5 && name[..|kind| + 5] == kind + " @ 0x" &&
        AllHexDigits(name[|kind| + 5..]) && ParseHex(name[|kind| + 5..]) == addr
  {
    if addr !in m {
      var name := NameAt(m, addr, kind);
      ParseFormatRoundTrip(addr, 8);
      assert name[|kind| + 5..] == FormatHex(addr, 8);
    }
  }

  /** A register hit is printed "Peripheral->Register"; a miss gives "SFR @ 0x" and
      hex digits that read back to the address. */
  lemma SfrNameReadsBack(t: Tables, b: Bases, value: int)
    ensures var addr := Address(b.sfr, value); var name := SfrName(t, b, value);
      addr in t.registers ==>
        name == t.registers[addr].peripheralName + "->" + t.registers[addr].registerName
    ensures var addr := Address(b.sfr, value); var name := SfrName(t, b, value);
      addr !in t.registers ==>
        |name| >= 8 && name[..8] == "SFR @ 0x" && AllHexDigits(name[8..]) && ParseHex(name[8..]) == addr
  {
    NameAtReadsBack(map[], Address(b.sfr, value), "SFR");
  }

  // The reader: a TextFileTraceReader yields the values of its lines and then
  // END_OF_TRACE_BUFFER for every further read.

  function ValueAt(vs: seq<int>, pos: nat): int
  {
    if pos < |vs| then vs[pos] else EndOfTraceBuffer
  }

  function Next(vs: seq<int>, pos: nat): nat
  {
    if pos < |vs| then pos + 1 else pos
  }

  /** The effect of one read_and_trace_next: whether to go on, the reader's new
      position, the new indent level and the lines produced. */
  datatype Step = Step(more: bool, pos: nat, indent: nat, lines: seq<TraceLine>)

  function DecodeRecord(t: Tables, b: Bases, indent: nat, vs: seq<int>, pos: nat): (r: Step)
    requires pos <= |vs|
    ensures r.pos <= |vs|
    ensures r.more <==> ValueAt(vs, pos) != EndOfTraceBuffer
    ensures r.more ==> pos < r.pos
  {
    var value := ValueAt(vs, pos);
    var p1 := Next(vs, pos);
    if value == EndOfTraceBuffer then Step(false, p1, indent, [])
    else
      var code := IdCode(value);
      if code == 1 then
        Step(true, p1, 0, [Version(VersionChar(value), VersionMajor(value), VersionMinor(value))])
      else if code == 2 then
        Step(true, p1, indent, [ProcessorReset(indent, value)])
      else if code == 3 then
        Step(true, p1, indent + 1, [Enter(indent, FunctionName(t, b, value))])
      else if code == 4 then
        var out := if indent > 0 then indent - 1 else 0;
        Step(true, p1, out, [Exit(out, FunctionName(t, b, value))])
      else if code == 5 then
        Step(true, p1, indent, [FileAndLine(indent, ModuleNumber(value), LineNumber(value))])
      else if code == 6 then
        Step(true, Next(vs, p1), indent, [Variable(indent, VariableName(t, b, value), ValueAt(vs, p1))])
      else if code == 7 then
        Step(true, Next(vs, p1), indent, [Sfr(indent, SfrName(t, b, value), ValueAt(vs, p1))])
      else
        Step(true, p1, indent, [])
  }

  /** The effect of read_and_trace_all: every line produced until the end marker,
      the final indent level and where the reader stopped. */
  datatype Run = Run(lines: seq<TraceLine>, indent: nat, pos: nat)

  function DecodeAll(t: Tables, b: Bases, indent: nat, vs: seq<int>, pos: nat): (r: Run)
    requires pos <= |vs|
    ensures r.pos <= |vs|
    decreases |vs| - pos
  {
    var s := DecodeRecord(t, b, indent, vs, pos);
    if !s.more then Run([], s.indent, s.pos)
    else
      var rest := DecodeAll(t, b, s.indent, vs, s.pos);
      Run(s.lines + rest.lines, rest.indent, rest.pos)
  }

  // Properties of the decoder.

  /** Python's `value & 0xFFFFFFE` on a non-negative value is the offset above. */
  lemma AddressOffsetIsMask(value: nat)
    ensures BitAnd(value, 0xFFF_FFFE) == AddressOffset(value)
  {
    Pow2Of27();
    if value > 0 {
      var half := value / 2;
      var m := half % 0x800_0000;
      assert BitAnd(value, 0xFFF_FFFE) == 2 * BitAnd(half, 0x7FF_FFFF);
      MaskIsMod(half, 27);
      ModOfHalf(value, 0x800_0000);
      var low := value % 0x1000_0000;
      assert low == 2 * m + value % 2;
      ModUnique(low, 2, m, value % 2);
    }
  }

  lemma Pow2Of27()
    ensures Pow2(27) == 0x800_0000
  {
    assert Pow2(3) == 8 && Pow2(4) == 16;
    Pow2Add(4, 4);
    Pow2Add(8, 8);
    Pow2Add(16, 8);
    Pow2Add(24, 3);
  }

  /** The decoder's tag is the protocol's ID code, and a tagged word's address
      offset is its payload with bit 0 cleared. */
  lemma TagRoundTrip(code: nat, payload: nat)
    requires code < 16 && payload < Protocol.TagUnit
    ensures IdCode(Protocol.TaggedWord(code, payload)) == code
    ensures AddressOffset(Protocol.TaggedWord(code, payload)) == payload - payload % 2
    ensures Protocol.IdCodeOf(Protocol.TaggedWord(code, payload)) == code
  {
    var w := Protocol.TaggedWord(code, payload);
    ModUnique(w, Protocol.TagUnit, code, payload);
  }

  /** One step, by tag: the end marker stops with nothing changed; codes 1 to 7
      give one line of that kind, codes 6 and 7 consuming a second word; codes 0
      and 8 to 15 are skipped. */
  lemma DispatchByCode(t: Tables, b: Bases, indent: nat, vs: seq<int>, pos: nat)
    requires pos <= |vs|
    ensures var r := DecodeRecord(t, b, indent, vs, pos);
      ValueAt(vs, pos) == EndOfTraceBuffer ==> r == Step(false, Next(vs, pos), indent, [])
    ensures var r := DecodeRecord(t, b, indent, vs, pos); var code := IdCode(ValueAt(vs, pos));
      ValueAt(vs, pos) != EndOfTraceBuffer ==>
        r.more &&
        r.pos == (if code == 6 || code == 7 then Next(vs, pos + 1) else pos + 1) &&
        (1 <= code <= 7 ==> |r.lines| == 1 && KindCode(r.lines[0]) == code) &&
        (code == 0 || code >= 8 ==> r.lines == [] && r.indent == indent)
  {
    var value := ValueAt(vs, pos);
    if value != EndOfTraceBuffer {
      var code := IdCode(value);
      if 1 <= code <= 5 {
        DecodeSingleWord(t, b, indent, vs, pos);
      } else if code == 6 || code == 7 {
        DecodeValueEntry(t, b, indent, vs, pos);
      } else {
        DecodeUnknownCode(t, b, indent, vs, pos);
      }
    }
  }

  /** Codes 1 to 5 take one word and give one line of their kind. */
  lemma DecodeSingleWord(t: Tables, b: Bases, indent: nat, vs: seq<int>, pos: nat)
    requires pos < |vs| && vs[pos] != EndOfTraceBuffer && 1 <= IdCode(vs[pos]) <= 5
    ensures var r := DecodeRecord(t, b, indent, vs, pos);
      r.more && r.pos == pos + 1 && |r.lines| == 1 && KindCode(r.lines[0]) == IdCode(vs[pos])
  {
    var value := vs[pos];
    var r := DecodeRecord(t, b, indent, vs, pos);
    var code := IdCode(value);
    assert ValueAt(vs, pos) == value && Next(vs, pos) == pos + 1;
    if code == 1 {
      assert r.lines == [Version(VersionChar(value), VersionMajor(value), VersionMinor(value))];
    } else if code == 2 {
      assert r.lines == [ProcessorReset(indent, value)];
    } else if code == 3 {
      assert r.lines == [Enter(indent, FunctionName(t, b, value))];
    } else if code == 4 {
      assert |r.lines| == 1 && r.lines[0].Exit?;
    } else {
      assert r.lines == [FileAndLine(indent, ModuleNumber(value), LineNumber(value))];
    }
  }

  /** Codes 6 and 7 read the following word as the value and give one line. */
  lemma DecodeValueEntry(t: Tables, b: Bases, indent: nat, vs: seq<int>, pos: nat)
    requires pos < |vs| && vs[pos] != EndOfTraceBuffer && 6 <= IdCode(vs[pos]) <= 7
    ensures var r := DecodeRecord(t, b, indent, vs, pos);
      r.more && r.pos == Next(vs, pos + 1) && |r.lines| == 1 && KindCode(r.lines[0]) == IdCode(vs[pos])
  {
    var value := vs[pos];
    var r := DecodeRecord(t, b, indent, vs, pos);
    assert ValueAt(vs, pos) == value && Next(vs, pos) == pos + 1;
    if IdCode(value) == 6 {
      assert r.lines == [Variable(indent, VariableName(t, b, value), ValueAt(vs, pos + 1))];
    } else {
      assert r.lines == [Sfr(indent, SfrName(t, b, value), ValueAt(vs, pos + 1))];
    }
  }

  /** Codes 0 and 8 to 15 are read and skipped. */
  lemma DecodeUnknownCode(t: Tables, b: Bases, indent: nat, vs: seq<int>, pos: nat)
    requires pos < |vs| && vs[pos] != EndOfTraceBuffer && (IdCode(vs[pos]) == 0 || IdCode(vs[pos]) >= 8)
    ensures DecodeRecord(t, b, indent, vs, pos) == Step(true, pos + 1, indent, [])
  {
    assert ValueAt(vs, pos) == vs[pos] && Next(vs, pos) == pos + 1;
  }

  /** The intended version word decodes to 'V', major and minor, and resets the
      indent level. */
  lemma VersionWordDecodes(t: Tables, b: Bases, indent: nat, vs: seq<int>, pos: nat)
    requires pos < |vs| && vs[pos] == Protocol.VersionWord()
    ensures DecodeRecord(t, b, indent, vs, pos) ==
      Step(true, pos + 1, 0, [Version('V', Protocol.TraceProtocolMajor, Protocol.TraceProtocolMinor)])
  {
    assert vs[pos] == 0x1056_0100;
  }

  /** The version word as the target writes it carries code 0: the decoder skips
      it, so no version line appears and the indent level is not reset. */
  lemma VersionWordAsWrittenIsSkipped(t: Tables, b: Bases, indent: nat, vs: seq<int>, pos: nat)
    requires pos < |vs| && vs[pos] == Protocol.VersionWordAsWritten()
    ensures DecodeRecord(t, b, indent, vs, pos) == Step(true, pos + 1, indent, [])
  {
    Protocol.VersionWordAsWrittenIsZero();
  }

  /** A file-and-line word laid out as module in bits 27:16 and line in 15:0
      decodes to that module and line. */
  lemma FileAndLineRoundTrip(moduleNum: nat, lineNum: nat)
    requires moduleNum < 0x1000 && lineNum < 0x1_0000
    ensures var w := Protocol.TaggedWord(Protocol.IdCodeFileAndLine, moduleNum * 0x1_0000 + lineNum);
      IdCode(w) == Protocol.IdCodeFileAndLine && ModuleNumber(w) == moduleNum && LineNumber(w) == lineNum
  {
    var w := Protocol.TaggedWord(Protocol.IdCodeFileAndLine, moduleNum * 0x1_0000 + lineNum);
    TagRoundTrip(Protocol.IdCodeFileAndLine, moduleNum * 0x1_0000 + lineNum);
    ModUnique(w, 0x1_0000, 5 * 0x1000 + moduleNum, lineNum);
    ModUnique(5 * 0x1000 + moduleNum, 0x1000, 5, moduleNum);
  }

  /** A version word laid out as character in bits 23:16, major in 15:8 and minor
      in 7:0 decodes to those three fields. */
  lemma VersionFieldsRoundTrip(ch: nat, major: nat, minor: nat)
    requires ch < 0x100 && major < 0x100 && minor < 0x100
    ensures var w := Protocol.TaggedWord(Protocol.IdCodeVersion, ch * 0x1_0000 + major * 0x100 + minor);
      IdCode(w) == Protocol.IdCodeVersion && VersionChar(w) == ch as char &&
      VersionMajor(w) == major && VersionMinor(w) == minor
  {
    var w := Protocol.TaggedWord(Protocol.IdCodeVersion, ch * 0x1_0000 + major * 0x100 + minor);
    TagRoundTrip(Protocol.IdCodeVersion, ch * 0x1_0000 + major * 0x100 + minor);
    ModUnique(w, 0x100, 0x10_0000 + ch * 0x100 + major, minor);
    ModUnique(0x10_0000 + ch * 0x100 + major, 0x100, 0x1000 + ch, major);
    ModUnique(w, 0x1_0000, 0x1000 + ch, major * 0x100 + minor);
    ModUnique(0x1000 + ch, 0x100, 0x10, ch);
  }

  /** An entry followed by the exit of the same function prints both at the same
      level, with the same name, and leaves the indent level where it was. */
  lemma EnterExitRestoresIndent(t: Tables, b: Bases, indent: nat, vs: seq<int>, pos: nat, offset: nat)
    requires offset < Protocol.TagUnit && pos + 1 < |vs|
    requires vs[pos] == Protocol.TaggedWord(Protocol.IdCodeFuncEntry, offset)
    requires vs[pos + 1] == Protocol.TaggedWord(Protocol.IdCodeFuncExit, offset)
    ensures var r1 := DecodeRecord(t, b, indent, vs, pos);
      var r2 := DecodeRecord(t, b, r1.indent, vs, r1.pos);
      var name := FunctionName(t, b, vs[pos]);
      r1.pos == pos + 1 && r2.pos == pos + 2 && r2.indent == indent &&
      r1.lines + r2.lines == [Enter(indent, name), Exit(indent, name)]
  {
    TagRoundTrip(Protocol.IdCodeFuncEntry, offset);
    TagRoundTrip(Protocol.IdCodeFuncExit, offset);
  }

  /** A variable entry whose value word never arrived takes the end marker as its
      value; the following read then stops the trace. */
  lemma VariableValueUnchecked(t: Tables, b: Bases, indent: nat, vs: seq<int>)
    requires |vs| == 1 && vs[0] != EndOfTraceBuffer && IdCode(vs[0]) == Protocol.IdCodeVariableValue
    ensures DecodeAll(t, b, indent, vs, 0) ==
      Run([Variable(indent, VariableName(t, b, vs[0]), EndOfTraceBuffer)], indent, 1)
  {
    assert DecodeRecord(t, b, indent, vs, 0).pos == 1;
    assert DecodeAll(t, b, indent, vs, 1) == Run([], indent, 1);
  }

  /** Decoding from `pos` reaches `k` exactly at the start of an entry. */
  ghost predicate ReachesBoundary(t: Tables, b: Bases, indent: nat, vs: seq<int>, pos: nat, k: nat)
    requires pos <= k <= |vs|
    decreases k - pos
  {
    pos == k ||
    var s := DecodeRecord(t, b, indent, vs, pos);
    s.more && s.pos <= k && ReachesBoundary(t, b, s.indent, vs, s.pos, k)
  }

  /** read_and_trace_all stops at the first end marker read at an entry boundary:
      the reader is left just past it and nothing after it is ever read. */
  lemma {:induction false} StopsAtEndMarker(t: Tables, b: Bases, indent: nat, vs: seq<int>, pos: nat, k: nat)
    requires pos <= k < |vs| && vs[k] == EndOfTraceBuffer
    requires ReachesBoundary(t, b, indent, vs, pos, k)
    ensures DecodeAll(t, b, indent, vs, pos).pos == k + 1
    ensures DecodeAll(t, b, indent, vs, pos) == DecodeAll(t, b, indent, vs[..k + 1], pos)
    decreases k - pos
  {
    var cut := vs[..k + 1];
    assert ValueAt(vs, pos) == ValueAt(cut, pos) && Next(vs, pos) == Next(cut, pos);
    var s := DecodeRecord(t, b, indent, vs, pos);
    if pos < k {
      assert s.more && s.pos <= k;
      if pos + 1 < k {
        assert ValueAt(vs, pos + 1) == ValueAt(cut, pos + 1) && Next(vs, pos + 1) == Next(cut, pos + 1);
      }
      assert DecodeRecord(t, b, indent, cut, pos) == s;
      StopsAtEndMarker(t, b, s.indent, vs, s.pos, k);
    }
  }

  /** TextFileTraceReader over the values of a trace file's lines. */
  class TraceReader {
    const values: seq<int>
    var pos: nat

    ghost predicate Valid()
      reads this
    {
      pos <= |values|
    }

    constructor (values: seq<int>)
      ensures Valid() && this.values == values && pos == 0
    {
      this.values := values;
      pos := 0;
    }

    /** read_next. */
    method ReadNext() returns (value: int)
      requires Valid()
      modifies this`pos
      ensures Valid()
      ensures value == ValueAt(values, old(pos)) && pos == Next(values, old(pos))
      ensures value == EndOfTraceBuffer <== old(pos) == |values|
    {
      if pos < |values| {
        value := values[pos];
        pos := pos + 1;
      } else {
        value := EndOfTraceBuffer;
      }
    }
  }

  /** ExecTraceParser: the look-up tables, the base addresses, the indent level and
      the lines decoded so far. */
  class ExecTraceParser {
    const functions: map<int, string>
    const variables: map<int, string>
    const registers: map<int, Svd.PeripheralRegister>
    var flashBase: nat
    var ramBase: nat
    var sfrBase: nat
    var indentLevel: nat
    var output: seq<TraceLine>

    function LookupTables(): Tables
    {
      Tables.Tables(functions, variables, registers)
    }

    function BaseAddresses(): Bases
      reads this
    {
      Bases.Bases(flashBase, ramBase, sfrBase)
    }

    constructor (functions: map<int, string>, variables: map<int, string>,
                 registers: map<int, Svd.PeripheralRegister>)
      ensures LookupTables() == Tables.Tables(functions, variables, registers)
      ensures BaseAddresses() == Bases.Bases(0, 0, 0) && indentLevel == 0 && output == []
    {
      this.functions := functions;
      this.variables := variables;
      this.registers := registers;
      flashBase := 0;
      ramBase := 0;
      sfrBase := 0;
      indentLevel := 0;
      output := [];
    }

    method SetFlashBase(flashBase: nat)
      modifies this`flashBase
      ensures BaseAddresses() == old(BaseAddresses()).(flash := flashBase)
    {
      this.flashBase := flashBase;
    }

    method SetRamBase(ramBase: nat)
      modifies this`ramBase
      ensures BaseAddresses() == old(BaseAddresses()).(ram := ramBase)
    {
      this.ramBase := ramBase;
    }

    method SetSfrBase(sfrBase: nat)
      modifies this`sfrBase
      ensures BaseAddresses() == old(BaseAddresses()).(sfr := sfrBase)
    {
      this.sfrBase := sfrBase;
    }

    method IncIndent()
      modifies this`indentLevel
      ensures indentLevel == old(indentLevel) + 1
    {
      indentLevel := indentLevel + 1;
    }

    /** dec_indent: never below 0. */
    method DecIndent()
      modifies this`indentLevel
      ensures indentLevel == if old(indentLevel) > 0 then old(indentLevel) - 1 else 0
    {
      if indentLevel > 0 {
        indentLevel := indentLevel - 1;
      }
    }

    method ResetIndent()
      modifies this`indentLevel
      ensures indentLevel == 0
    {
      indentLevel := 0;
    }

    /** trace_version: resets the indent level; the line itself is not indented. */
    method TraceVersion(value: int)
      modifies this`indentLevel, this`output
      ensures indentLevel == 0
      ensures output == old(output) + [Version(VersionChar(value), VersionMajor(value), VersionMinor(value))]
    {
      var verChar := VersionChar(value);
      var verMajor := VersionMajor(value);
      var verMinor := VersionMinor(value);
      ResetIndent();
      output := output + [Version(verChar, verMajor, verMinor)];
    }

    method TraceReset(value: int)
      modifies this`output
      ensures output == old(output) + [ProcessorReset(indentLevel, value)]
    {
      output := output + [ProcessorReset(indentLevel, value)];
    }

    /** trace_func_entry: printed at the current level, which then grows. */
    method TraceFuncEntry(value: int)
      modifies this`indentLevel, this`output
      ensures indentLevel == old(indentLevel) + 1
      ensures output == old(output) + [Enter(old(indentLevel), FunctionName(LookupTables(), BaseAddresses(), value))]
    {
      output := output + [Enter(indentLevel, FunctionName(LookupTables(), BaseAddresses(), value))];
      IncIndent();
    }

    /** trace_func_exit: the level shrinks first, then the line is printed. */
    method TraceFuncExit(value: int)
      modifies this`indentLevel, this`output
      ensures indentLevel == if old(indentLevel) > 0 then old(indentLevel) - 1 else 0
      ensures output == old(output) + [Exit(indentLevel, FunctionName(LookupTables(), BaseAddresses(), value))]
    {
      DecIndent();
      output := output + [Exit(indentLevel, FunctionName(LookupTables(), BaseAddresses(), value))];
    }

    method TraceFileAndLine(value: int)
      modifies this`output
      ensures output == old(output) + [FileAndLine(indentLevel, ModuleNumber(value), LineNumber(value))]
    {
      var moduleNum := ModuleNumber(value);
      var lineNum := LineNumber(value);
      output := output + [FileAndLine(indentLevel, moduleNum, lineNum)];
    }

    method TraceVariable(addrValue: int, varValue: int)
      modifies this`output
      ensures output == old(output) + [Variable(indentLevel, VariableName(LookupTables(), BaseAddresses(), addrValue), varValue)]
    {
      output := output + [Variable(indentLevel, VariableName(LookupTables(), BaseAddresses(), addrValue), varValue)];
    }

    method TraceSfr(addrValue: int, regValue: int)
      modifies this`output
      ensures output == old(output) + [Sfr(indentLevel, SfrName(LookupTables(), BaseAddresses(), addrValue), regValue)]
    {
      output := output + [Sfr(indentLevel, SfrName(LookupTables(), BaseAddresses(), addrValue), regValue)];
    }

    /** read_and_trace_next: one entry (two words for a variable or SFR value),
        or false on the end marker. */
    method ReadAndTraceNext(reader: TraceReader) returns (more: bool)
      requires reader.Valid()
      modifies this`indentLevel, this`output, reader`pos
      ensures reader.Valid()
      ensures var r := DecodeRecord(LookupTables(), BaseAddresses(), old(indentLevel), reader.values, old(reader.pos));
        more == r.more && reader.pos == r.pos && indentLevel == r.indent && output == old(output) + r.lines
    {
      var value := reader.ReadNext();
      if value == EndOfTraceBuffer {
        return false;
      }
      var idcode := IdCode(value);
      if idcode == 1 {
        TraceVersion(value);
      } else if idcode == 2 {
        TraceReset(value);
      } else if idcode == 3 {
        TraceFuncEntry(value);
      } else if idcode == 4 {
        TraceFuncExit(value);
      } else if idcode == 5 {
        TraceFileAndLine(value);
      } else if idcode == 6 {
        var value2 := reader.ReadNext();
        TraceVariable(value, value2);
      } else if idcode == 7 {
        var value2 := reader.ReadNext();
        TraceSfr(value, value2);
      }
      return true;
    }

    /** read_and_trace_all: decode until the reader reports the end. */
    method ReadAndTraceAll(reader: TraceReader)
      requires reader.Valid()
      modifies this`indentLevel, this`output, reader`pos
      ensures reader.Valid()
      ensures var r := DecodeAll(LookupTables(), BaseAddresses(), old(indentLevel), reader.values, old(reader.pos));
        output == old(output) + r.lines && indentLevel == r.indent && reader.pos == r.pos
    {
      ghost var goal := DecodeAll(LookupTables(), BaseAddresses(), indentLevel, reader.values, reader.pos);
      ghost var out0 := output;
      var more := true;
      while more
        invariant reader.Valid()
        invariant more ==>
          var rest := DecodeAll(LookupTables(), BaseAddresses(), indentLevel, reader.values, reader.pos);
          out0 + goal.lines == output + rest.lines && goal.indent == rest.indent && goal.pos == rest.pos
        invariant !more ==> out0 + goal.lines == output && goal.indent == indentLevel && goal.pos == reader.pos
        decreases if more then |reader.values| - reader.pos + 1 else 0
      {
        ghost var before := output;
        ghost var s := DecodeRecord(LookupTables(), BaseAddresses(), indentLevel, reader.values, reader.pos);
        ghost var rest := DecodeAll(LookupTables(), BaseAddresses(), s.indent, reader.values, s.pos);
        more := ReadAndTraceNext(reader);
        if more {
          assert before + (s.lines + rest.lines) == output + rest.lines;
        } else {
          assert before + [] == output;
        }
      }
    }
  }
}
