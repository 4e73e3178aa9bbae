/**
 * The GNU map-file reader of tools/parse_map_file.py: one pass over the lines
 * of a linker map that skips everything before the memory map, tracks which
 * output section it is in, and collects address -> name entries for functions
 * (.text) and variables (.data and .bss). The two regular expressions it uses
 * are written out as character matchers.
 */
module MapFile {
  import opened Wrappers
  import opened Hex

  /** LinkerSection. */
  datatype LinkerSection = Unknown | Text | Data | Bss

  /** linker_section_ids. */
  const LinkerSectionIds: map<string, LinkerSection> := map[".text" := Text, ".data" := Data, ".bss" := Bss]

  /** The section a section-line name selects: one of the three, else UNKNOWN. */
  function SectionOf(name: string): (s: LinkerSection)
    ensures s == Text <==> name == ".text"
    ensures s == Data <==> name == ".data"
    ensures s == Bss <==> name == ".bss"
  {
    if name in LinkerSectionIds then LinkerSectionIds[name] else Unknown
  }

  /** The line after which the memory map begins. */
  const MemoryMapMarker: string := "Linker script and memory map"

  predicate StartsWith(line: string, prefix: string)
  {
    |prefix| <= |line| && line[..|prefix|] == prefix
  }

  // Character classes of the two patterns.

  /** Python's `\s` on str: the characters str.isspace() accepts. */
  predicate IsSpace(c: char)
  {
    var n := c as int;
    9 <= n <= 13 || 28 <= n <= 32 || n == 0x85 || n == 0xA0 || n == 0x1680 ||
    0x2000 <= n <= 0x200A || n == 0x2028 || n == 0x2029 || n == 0x202F || n == 0x205F || n == 0x3000
  }

  /** `[a-zA-Z_0-9\.]`. */
  predicate IsSectionNameChar(c: char)
  {
    'a' <= c <= 'z' || 'A' <= c <= 'Z' || c == '_' || '0' <= c <= '9' || c == '.'
  }

  /** The longest run of section-name characters starting at i. */
  function SectionNameRun(s: string, i: nat): (n: nat)
    requires i <= |s|
    ensures i + n <= |s|
    ensures forall j :: i <= j < i + n ==> IsSectionNameChar(s[j])
    ensures i + n == |s| || !IsSectionNameChar(s[i + n])
    decreases |s| - i
  {
    if i < |s| && IsSectionNameChar(s[i]) then 1 + SectionNameRun(s, i + 1) else 0
  }

  /** The longest run of hexadecimal digits starting at i. */
  function HexRun(s: string, i: nat): (n: nat)
    requires i <= |s|
    ensures i + n <= |s|
    ensures forall j :: i <= j < i + n ==> IsHexDigit(s[j])
    ensures i + n == |s| || !IsHexDigit(s[i + n])
    decreases |s| - i
  {
    if i < |s| && IsHexDigit(s[i]) then 1 + HexRun(s, i + 1) else 0
  }

  /** The longest run of non-space characters starting at i. */
  function NonSpaceRun(s: string, i: nat): (n: nat)
    requires i <= |s|
    ensures i + n <= |s|
    ensures forall j :: i <= j < i + n ==> !IsSpace(s[j])
    ensures i + n == |s| || IsSpace(s[i + n])
    decreases |s| - i
  {
    if i < |s| && !IsSpace(s[i]) then 1 + NonSpaceRun(s, i + 1) else 0
  }

  function Spaces(k: nat): (s: string)
    ensures |s| == k && forall j :: 0 <= j < k ==> s[j] == ' '
  {
    if k == 0 then [] else [' '] + Spaces(k - 1)
  }

  /** `re.match('^(\.[a-zA-Z_0-9\.]+)\s+', line)`: the captured section name. */
  function MatchSectionLine(line: string): Option<string>
  {
    if |line| >= 1 && line[0] == '.' then
      var n := SectionNameRun(line, 1);
      if n >= 1 && 1 + n < |line| && IsSpace(line[1 + n]) then Some(line[..1 + n]) else None
    else None
  }

  /** `re.match('^ {16}0x([0-9A-Fa-f]+) {16}(\S+)', line)`: the captured hexadecimal
      digits and name. */
  function MatchSymbolLine(line: string): (r: Option<(string, string)>)
    ensures r.Some? ==> AllHexDigits(r.value.0) && |r.value.0| >= 1
  {
    if |line| >= 18 && line[..16] == Spaces(16) && line[16..18] == "0x" then
      var h := HexRun(line, 18);
      var p := 18 + h;
      if h >= 1 && p + 16 < |line| && line[p..p + 16] == Spaces(16) && !IsSpace(line[p + 16]) then
        var n := NonSpaceRun(line, p + 16);
        Some((line[18..p], line[p + 16..p + 16 + n]))
      else None
    else None
  }

  // A run of a character class has exactly the length of the class's characters
  // at that point when the next character is outside the class.

  lemma {:induction false} SectionNameRunExact(s: string, i: nat, k: nat)
    requires i + k <= |s| && forall j :: i <= j < i + k ==> IsSectionNameChar(s[j])
    requires i + k == |s| || !IsSectionNameChar(s[i + k])
    ensures SectionNameRun(s, i) == k
    decreases k
  {
    if k > 0 {
      SectionNameRunExact(s, i + 1, k - 1);
    }
  }

  lemma {:induction false} HexRunExact(s: string, i: nat, k: nat)
    requires i + k <= |s| && forall j :: i <= j < i + k ==> IsHexDigit(s[j])
    requires i + k == |s| || !IsHexDigit(s[i + k])
    ensures HexRun(s, i) == k
    decreases k
  {
    if k > 0 {
      HexRunExact(s, i + 1, k - 1);
    }
  }

  lemma {:induction false} NonSpaceRunExact(s: string, i: nat, k: nat)
    requires i + k <= |s| && forall j :: i <= j < i + k ==> !IsSpace(s[j])
    requires i + k == |s| || IsSpace(s[i + k])
    ensures NonSpaceRun(s, i) == k
    decreases k
  {
    if k > 0 {
      NonSpaceRunExact(s, i + 1, k - 1);
    }
  }

  /** The section-line pattern matches with group `name` exactly when the line
      starts with `name` followed by a whitespace character, and `name` is a dot and
      one or more section-name characters. */
  lemma SectionLineIff(line: string, name: string)
    ensures MatchSectionLine(line) == Some(name) <==>
      |name| >= 2 && name[0] == '.' && (forall j :: 1 <= j < |name| ==> IsSectionNameChar(name[j])) &&
      |line| > |name| && line[..|name|] == name && IsSpace(line[|name|])
  {
    if |name| >= 2 && name[0] == '.' && (forall j :: 1 <= j < |name| ==> IsSectionNameChar(name[j])) &&
       |line| > |name| && line[..|name|] == name && IsSpace(line[|name|]) {
      assert forall j :: 1 <= j < |name| ==> line[j] == name[j];
      SectionNameRunExact(line, 1, |name| - 1);
    }
  }

  /** The text a symbol line starts with. */
  function SymbolLinePrefix(hex: string, name: string): (s: string)
    ensures |s| == 34 + |hex| + |name|
  {
    Spaces(16) + "0x" + hex + Spaces(16) + name
  }

  /** The conditions under which the symbol-line pattern captures (hex, name). */
  predicate IsSymbolLine(line: string, hex: string, name: string)
  {
    |hex| >= 1 && AllHexDigits(hex) && |name| >= 1 && (forall j :: 0 <= j < |name| ==> !IsSpace(name[j])) &&
    |line| >= 34 + |hex| + |name| && line[..34 + |hex| + |name|] == SymbolLinePrefix(hex, name) &&
    (|line| == 34 + |hex| + |name| || IsSpace(line[34 + |hex| + |name|]))
  }

  lemma SymbolLineSound(line: string)
    requires MatchSymbolLine(line).Some?
    ensures IsSymbolLine(line, MatchSymbolLine(line).value.0, MatchSymbolLine(line).value.1)
  {
    var hex := MatchSymbolLine(line).value.0;
    var name := MatchSymbolLine(line).value.1;
    var p := 18 + |hex|;
    assert line[..16] == Spaces(16) && line[16..18] == "0x" && line[18..p] == hex;
    assert line[p..p + 16] == Spaces(16) && line[p + 16..p + 16 + |name|] == name;
    assert line[..p + 16 + |name|] ==
      line[..16] + line[16..18] + line[18..p] + line[p..p + 16] + line[p + 16..p + 16 + |name|];
  }

  /** The pieces a line starting with a symbol-line prefix is made of, by position. */
  lemma SymbolLinePrefixParts(line: string, hex: string, name: string)
    requires |line| >= 34 + |hex| + |name| && line[..34 + |hex| + |name|] == SymbolLinePrefix(hex, name)
    ensures var p := 18 + |hex|;
      line[..16] == Spaces(16) && line[16..18] == "0x" && line[18..p] == hex &&
      line[p..p + 16] == Spaces(16) && line[p + 16..p + 16 + |name|] == name
  {
    var p := 18 + |hex|;
    var a, b := Spaces(16) + "0x", Spaces(16) + "0x" + hex;
    var c := b + Spaces(16);
    assert a[..16] == Spaces(16) && a[16..] == "0x";
    assert b[..18] == a && b[18..] == hex;
    assert c[..p] == b && c[p..] == Spaces(16);
    var s := c + name;
    assert s == SymbolLinePrefix(hex, name);
    assert s[..p + 16] == c && s[p + 16..] == name;
    assert line[..p + 16] == c && line[p + 16..p + 16 + |name|] == name by {
      assert line[..p + 16] == s[..p + 16];
      assert line[p + 16..p + 16 + |name|] == s[p + 16..];
    }
    assert line[..18] == b[..18] && line[18..p] == b[18..] by {
      assert line[..p] == c[..p];
    }
    assert line[p..p + 16] == c[p..];
  }

  /** A run of hex digits as long as a slice of digits followed by a non-digit. */
  lemma HexRunOfSlice(line: string, i: nat, hex: string)
    requires i + |hex| < |line| && line[i..i + |hex|] == hex && AllHexDigits(hex)
    requires !IsHexDigit(line[i + |hex|])
    ensures HexRun(line, i) == |hex|
  {
    assert forall j :: i <= j < i + |hex| ==> line[j] == hex[j - i];
    HexRunExact(line, i, |hex|);
  }

  /** A run of non-space characters as long as such a slice followed by the end or
      whitespace. */
  lemma NonSpaceRunOfSlice(line: string, i: nat, name: string)
    requires i + |name| <= |line| && line[i..i + |name|] == name
    requires forall j :: 0 <= j < |name| ==> !IsSpace(name[j])
    requires i + |name| == |line| || IsSpace(line[i + |name|])
    ensures NonSpaceRun(line, i) == |name|
  {
    assert forall j :: i <= j < i + |name| ==> line[j] == name[j - i];
    NonSpaceRunExact(line, i, |name|);
  }

  lemma SymbolLineComplete(line: string, hex: string, name: string)
    requires IsSymbolLine(line, hex, name)
    ensures MatchSymbolLine(line) == Some((hex, name))
  {
    var p := 18 + |hex|;
    SymbolLinePrefixParts(line, hex, name);
    assert line[p] == line[p..p + 16][0] == ' ';
    HexRunOfSlice(line, 18, hex);
    assert name[0] == line[p + 16];
    NonSpaceRunOfSlice(line, p + 16, name);
    MatchSymbolLineOf(line, |hex|, |name|);
  }

  /** The symbol pattern's captures once the runs it takes are known. */
  lemma MatchSymbolLineOf(line: string, h: nat, n: nat)
    requires |line| >= 18 && line[..16] == Spaces(16) && line[16..18] == "0x"
    requires HexRun(line, 18) == h >= 1
    requires 18 + h + 16 < |line| && line[18 + h..18 + h + 16] == Spaces(16)
    requires !IsSpace(line[18 + h + 16]) && NonSpaceRun(line, 18 + h + 16) == n
    ensures MatchSymbolLine(line) == Some((line[18..18 + h], line[18 + h + 16..18 + h + 16 + n]))
  {
  }

  /** The symbol-line pattern matches with groups (hex, name) exactly when the line
      is 16 spaces, "0x", the digits, 16 spaces and the name, followed by the end of
      the line or a whitespace character. */
  lemma SymbolLineIff(line: string, hex: string, name: string)
    ensures MatchSymbolLine(line) == Some((hex, name)) <==> IsSymbolLine(line, hex, name)
  {
    if MatchSymbolLine(line) == Some((hex, name)) {
      SymbolLineSound(line);
    }
    if IsSymbolLine(line, hex, name) {
      SymbolLineComplete(line, hex, name);
    }
  }

  /** The reader's state between lines. */
  datatype ScanState = ScanState(
    memoryMapSectionFound: bool,
    linkerSection: LinkerSection,
    functions: map<int, string>,
    variables: map<int, string>)

  const Start: ScanState := ScanState(false, Unknown, map[], map[])

  /** One line of the loop; None when a section line defeats the pattern and the
      program exits. */
  function ScanLine(st: ScanState, line: string): Option<ScanState>
  {
    if !st.memoryMapSectionFound then
      Some(if StartsWith(line, MemoryMapMarker) then st.(memoryMapSectionFound := true) else st)
    else if StartsWith(line, ".") then
      match MatchSectionLine(line)
      case None => None
      case Some(name) => Some(st.(linkerSection := SectionOf(name)))
    else if st.linkerSection == Text then
      match MatchSymbolLine(line)
      case None => Some(st)
      case Some((hex, name)) => Some(st.(functions := st.functions[ParseHex(hex) := name]))
    else if st.linkerSection == Data || st.linkerSection == Bss then
      match MatchSymbolLine(line)
      case None => Some(st)
      case Some((hex, name)) => Some(st.(variables := st.variables[ParseHex(hex) := name]))
    else
      Some(st)
  }

  function ScanLines(st: ScanState, lines: seq<string>): Option<ScanState>
    decreases |lines|
  {
    if lines == [] then Some(st)
    else
      match ScanLine(st, lines[0])
      case None => None
      case Some(next) => ScanLines(next, lines[1..])
  }

  /** What read_gnu_map_file ends with: no file, exit status 1, or the two tables. */
  datatype MapFileResult =
    | FileNotFound
    | Exited(status: int)
    | Parsed(functions: map<int, string>, variables: map<int, string>)

  /** The file as a sequence of lines (each with its newline), or None when there
      is no such file. */
  function GnuMapFile(file: Option<seq<string>>): MapFileResult
  {
    match file
    case None => FileNotFound
    case Some(lines) => ScanResult(ScanLines(Start, lines))
  }

  /** The result a completed or aborted scan gives. */
  function ScanResult(outcome: Option<ScanState>): MapFileResult
  {
    match outcome
    case None => Exited(1)
    case Some(st) => Parsed(st.functions, st.variables)
  }

  /** read_gnu_map_file. */
  method ReadGnuMapFile(file: Option<seq<string>>) returns (r: MapFileResult)
    ensures r == GnuMapFile(file)
  {
    if file.None? {
      return FileNotFound;
    }
    var lines := file.value;
    var memoryMapSectionFound := false;
    var linkerSection := Unknown;
    var functions: map<int, string> := map[];
    var variables: map<int, string> := map[];
    var i := 0;
    while i < |lines|
      invariant 0 <= i <= |lines|
      invariant ScanLines(Start, lines) ==
        ScanLines(ScanState(memoryMapSectionFound, linkerSection, functions, variables), lines[i..])
    {
      var line := lines[i];
      assert lines[i..][0] == line && lines[i..][1..] == lines[i + 1..];
      if !memoryMapSectionFound {
        if StartsWith(line, MemoryMapMarker) {
          memoryMapSectionFound := true;
        }
      } else if StartsWith(line, ".") {
        var matchResults := MatchSectionLine(line);
        if matchResults.None? {
          return Exited(1);
        }
        var linkerSectionName := matchResults.value;
        if linkerSectionName in LinkerSectionIds {
          linkerSection := LinkerSectionIds[linkerSectionName];
        } else {
          linkerSection := Unknown;
        }
      } else if linkerSection == Text {
        var matchResults := MatchSymbolLine(line);
        if matchResults.Some? {
          var address := ParseHex(matchResults.value.0);
          functions := functions[address := matchResults.value.1];
        }
      } else if linkerSection == Data || linkerSection == Bss {
        var matchResults := MatchSymbolLine(line);
        if matchResults.Some? {
          var address := ParseHex(matchResults.value.0);
          variables := variables[address := matchResults.value.1];
        }
      }
      i := i + 1;
    }
    return Parsed(functions, variables);
  }

  // Properties of the scan.

  /** Before the memory map, no line changes anything but the marker line. */
  lemma {:induction false} PreambleSkipped(st: ScanState, pre: seq<string>, rest: seq<string>)
    requires !st.memoryMapSectionFound
    requires forall i :: 0 <= i < |pre| ==> !StartsWith(pre[i], MemoryMapMarker)
    ensures ScanLines(st, pre + rest) == ScanLines(st, rest)
  {
    if pre != [] {
      assert (pre + rest)[0] == pre[0] && (pre + rest)[1..] == pre[1..] + rest;
      assert !StartsWith(pre[0], MemoryMapMarker);
      assert ScanLine(st, pre[0]) == Some(st);
      PreambleSkipped(st, pre[1..], rest);
    } else {
      assert pre + rest == rest;
    }
  }

  /** Lines up to and including the first marker line add nothing; scanning proper
      starts after it, in no known section. */
  lemma MemoryMapStartsAfterMarker(pre: seq<string>, marker: string, rest: seq<string>)
    requires forall i :: 0 <= i < |pre| ==> !StartsWith(pre[i], MemoryMapMarker)
    requires StartsWith(marker, MemoryMapMarker)
    ensures GnuMapFile(Some(pre + [marker] + rest)) == ScanResult(ScanLines(Start.(memoryMapSectionFound := true), rest))
  {
    assert pre + [marker] + rest == pre + ([marker] + rest);
    PreambleSkipped(Start, pre, [marker] + rest);
    assert ([marker] + rest)[1..] == rest;
  }

  /** A file without the marker yields two empty tables. */
  lemma NoMarkerNoEntries(lines: seq<string>)
    requires forall i :: 0 <= i < |lines| ==> !StartsWith(lines[i], MemoryMapMarker)
    ensures GnuMapFile(Some(lines)) == Parsed(map[], map[])
  {
    PreambleSkipped(Start, lines, []);
    assert lines + [] == lines;
  }

  /** In the memory map, a section line `name` + whitespace selects the section
      that name denotes, and changes nothing else. */
  lemma SectionLineSelects(st: ScanState, name: string, c: char, tail: string)
    requires st.memoryMapSectionFound
    requires |name| >= 2 && name[0] == '.' && forall j :: 1 <= j < |name| ==> IsSectionNameChar(name[j])
    requires IsSpace(c)
    ensures ScanLine(st, name + [c] + tail) == Some(st.(linkerSection := SectionOf(name)))
  {
    var line := name + [c] + tail;
    assert line[..|name|] == name && line[|name|] == c;
    SectionLineIff(line, name);
    assert StartsWith(line, ".");
  }

  /** In the memory map, a line starting with '.' whose name is not followed by
      whitespace (or has no character after the dot) ends the program with status 1. */
  lemma SectionLineAborts(st: ScanState, line: string)
    requires st.memoryMapSectionFound && |line| >= 1 && line[0] == '.'
    requires var n := SectionNameRun(line, 1); n == 0 || 1 + n == |line| || !IsSpace(line[1 + n])
    ensures ScanLine(st, line) == None
    ensures forall rest :: ScanLines(st, [line] + rest) == None
  {
    assert StartsWith(line, ".");
    forall rest: seq<string> ensures ScanLines(st, [line] + rest) == None {
      assert ([line] + rest)[0] == line;
    }
  }

  /** In the memory map, a symbol line for an address written with "%08X" records
      the address and name in the table of the current section (functions in
      .text, variables in .data and .bss) and nowhere else; a later line for the
      same address replaces the name. */
  lemma SymbolLineRecorded(st: ScanState, addr: nat, name: string, rest: string)
    requires st.memoryMapSectionFound
    requires |name| >= 1 && forall j :: 0 <= j < |name| ==> !IsSpace(name[j])
    requires rest == [] || IsSpace(rest[0])
    ensures var line := SymbolLinePrefix(FormatHex(addr, 8), name) + rest;
      ScanLine(st, line) == Some(
        if st.linkerSection == Text then st.(functions := st.functions[addr := name])
        else if st.linkerSection == Unknown then st
        else st.(variables := st.variables[addr := name]))
  {
    var hex := FormatHex(addr, 8);
    var line := SymbolLinePrefix(hex, name) + rest;
    ParseFormatRoundTrip(addr, 8);
    ParseHexOfDigits(addr);
    assert |hex| >= 1;
    assert line[..34 + |hex| + |name|] == SymbolLinePrefix(hex, name);
    SymbolLineComplete(line, hex, name);
    assert line[0] == ' ';
    ScanSymbolLine(st, line, hex, name);
  }

  /** In the memory map, a line the symbol pattern matches and that does not start
      with '.' goes to the table of the current section. */
  lemma ScanSymbolLine(st: ScanState, line: string, hex: string, name: string)
    requires st.memoryMapSectionFound && |line| >= 1 && line[0] != '.'
    requires MatchSymbolLine(line) == Some((hex, name))
    ensures ScanLine(st, line) == Some(
      if st.linkerSection == Text then st.(functions := st.functions[ParseHex(hex) := name])
      else if st.linkerSection == Unknown then st
      else st.(variables := st.variables[ParseHex(hex) := name]))
  {
    assert !StartsWith(line, ".");
  }
}
