/** The jar metadata the decompiler helper reads without an external tool:
    the JAR manifest with its continuation lines, the class-file header
    (magic number and version numbers) and the Java release a major version
    stands for, and the classification of a jar's entries into classes,
    packages, resources and service registrations. A jar is given by the
    names of its entries and the text of the entries that can be read. */
module Decompiler {
  import opened Wrappers
  import opened Strings
  import opened Counters

  // ---------------------------------------------------------------------
  // JAR manifest
  // ---------------------------------------------------------------------

  /** The parser's state: the attributes read so far and the current key.
      The empty key stands for both `None` and `""`, which the parser
      treats alike (both are false). */
  datatype ManifestState = ManifestState(entries: map<string, string>, current: string)

  /** A current key always has an entry to continue. */
  predicate Recorded(st: ManifestState) {
    st.current != "" ==> st.current in st.entries
  }

  /** One line of the manifest: trailing '\r's are dropped; a line starting
      with a space continues the current attribute (even when it holds a
      ':'); otherwise a line with a ':' sets the attribute named by the
      stripped text before its first ':' to the stripped rest and makes
      that name current; any other line is ignored. */
  function ManifestLine(st: ManifestState, raw: string): (r: ManifestState)
    requires Recorded(st)
    ensures Recorded(r)
  {
    var line := RStripChar(raw, '\r');
    if StartsWith(line, " ") && st.current != "" then
      ManifestState(st.entries[st.current := st.entries[st.current] + line[1..]], st.current)
    else if ':' in line then
      var (key, value) := SplitOnce(line, ':');
      ManifestState(st.entries[Strip(key) := Strip(value)], Strip(key))
    else st
  }

  /** The state after the given lines, from an empty manifest. */
  function ManifestOver(lines: seq<string>): (r: ManifestState)
    ensures Recorded(r)
  {
    if lines == [] then ManifestState(map[], "")
    else ManifestLine(ManifestOver(lines[..|lines| - 1]), lines[|lines| - 1])
  }

  /** `_parse_manifest` of the decompiler: the attributes of a manifest text. */
  function ManifestOf(content: string): map<string, string> {
    ManifestOver(Split(content, '\n')).entries
  }

  method ParseManifest(content: string) returns (manifest: map<string, string>)
    ensures manifest == ManifestOf(content)
  {
    manifest := map[];
    var currentKey := "";
    var lines := Split(content, '\n');
    for i := 0 to |lines|
      invariant ManifestState(manifest, currentKey) == ManifestOver(lines[..i])
    {
      assert lines[..i + 1][..i] == lines[..i];
      var line := RStripChar(lines[i], '\r');
      if StartsWith(line, " ") && currentKey != "" {
        manifest := manifest[currentKey := manifest[currentKey] + line[1..]];
      } else if ':' in line {
        var (key, value) := SplitOnce(line, ':');
        currentKey := Strip(key);
        manifest := manifest[currentKey := Strip(value)];
      }
    }
    assert lines[..|lines|] == lines;
  }

  lemma LastLine(lines: seq<string>, raw: string)
    ensures ManifestOver(lines + [raw]) == ManifestLine(ManifestOver(lines), raw)
  {
    assert (lines + [raw])[..|lines|] == lines;
  }

  /** A line `key:value` that is not a continuation sets `key` (stripped)
      to `value` (stripped), replacing an earlier value, and makes `key`
      the current attribute. */
  lemma AttributeLine(lines: seq<string>, raw: string, key: string, value: string)
    requires RStripChar(raw, '\r') == key + ":" + value && ':' !in key
    requires !StartsWith(key, " ") || ManifestOver(lines).current == ""
    ensures ManifestOver(lines + [raw]).entries == ManifestOver(lines).entries[Strip(key) := Strip(value)]
    ensures ManifestOver(lines + [raw]).current == Strip(key)
  {
    LastLine(lines, raw);
    SplitOnceFirst(key, ':', value);
    if key == [] {
      assert !StartsWith(key + ":" + value, " ");
    } else {
      assert (key + ":" + value)[0] == key[0];
    }
  }

  /** A line starting with a space while an attribute is current is
      appended to it without the space, whatever else it holds. */
  lemma ContinuationLine(lines: seq<string>, raw: string)
    requires StartsWith(RStripChar(raw, '\r'), " ") && ManifestOver(lines).current != ""
    ensures var st := ManifestOver(lines);
      ManifestOver(lines + [raw]) ==
        ManifestState(st.entries[st.current := st.entries[st.current] + RStripChar(raw, '\r')[1..]], st.current)
  {
    LastLine(lines, raw);
  }

  /** Any other line leaves the manifest as it was. */
  lemma IgnoredLine(lines: seq<string>, raw: string)
    requires ':' !in RStripChar(raw, '\r')
    requires !StartsWith(RStripChar(raw, '\r'), " ") || ManifestOver(lines).current == ""
    ensures ManifestOver(lines + [raw]) == ManifestOver(lines)
  {
    LastLine(lines, raw);
  }

  /** The lines continuing a value: each piece after one space. */
  function Continuations(pieces: seq<string>): (r: seq<string>)
    ensures |r| == |pieces|
    ensures forall i :: 0 <= i < |pieces| ==> r[i] == " " + pieces[i]
  {
    if pieces == [] then [] else Continuations(pieces[..|pieces| - 1]) + [" " + pieces[|pieces| - 1]]
  }

  function Concat(pieces: seq<string>): string {
    if pieces == [] then [] else Concat(pieces[..|pieces| - 1]) + pieces[|pieces| - 1]
  }

  /** A header written as `Name: value` and continued over lines that each
      start with one space reads back as the name with the value and all
      its continuations joined, as section "JAR Manifest" of the JAR File
      Specification lays out long values. */
  lemma {:induction false} ContinuedValue(lines: seq<string>, name: string, value: string, pieces: seq<string>)
    requires name != [] && Trimmed(name) && ':' !in name
    requires Trimmed(value)
    requires forall i :: 0 <= i < |pieces| ==> pieces[i] == [] || pieces[i][|pieces[i]| - 1] != '\r'
    ensures ManifestOver(lines + [name + ": " + value] + Continuations(pieces)).entries ==
      ManifestOver(lines).entries[name := value + Concat(pieces)]
    ensures ManifestOver(lines + [name + ": " + value] + Continuations(pieces)).current == name
  {
    var head := lines + [name + ": " + value];
    if pieces == [] {
      assert head + Continuations(pieces) == head;
      HeaderLine(lines, name, value);
      assert value + Concat(pieces) == value;
    } else {
      var init, last := pieces[..|pieces| - 1], pieces[|pieces| - 1];
      ContinuedValue(lines, name, value, init);
      var before := head + Continuations(init);
      ContinuePiece(before, name, value + Concat(init), last);
      PiecesLast(head, value, pieces);
      UpdateTwice(ManifestOver(lines).entries, name, value + Concat(init), value + Concat(pieces));
    }
  }

  lemma UpdateTwice(m: map<string, string>, k: string, v: string, w: string)
    ensures m[k := v][k := w] == m[k := w]
  {
  }

  lemma PiecesLast(head: seq<string>, value: string, pieces: seq<string>)
    requires pieces != []
    ensures head + Continuations(pieces) == (head + Continuations(pieces[..|pieces| - 1])) + [" " + pieces[|pieces| - 1]]
    ensures value + Concat(pieces[..|pieces| - 1]) + pieces[|pieces| - 1] == value + Concat(pieces)
  {
    var init, last := pieces[..|pieces| - 1], pieces[|pieces| - 1];
    assert Continuations(pieces) == Continuations(init) + [" " + last];
    assert Concat(pieces) == Concat(init) + last;
    Associative(head, Continuations(init), [" " + last]);
    Associative(value, Concat(init), last);
  }

  lemma Associative<T>(a: seq<T>, b: seq<T>, c: seq<T>)
    ensures a + b + c == a + (b + c)
  {
  }

  lemma HeaderLine(lines: seq<string>, name: string, value: string)
    requires name != [] && Trimmed(name) && ':' !in name
    requires Trimmed(value)
    ensures ManifestOver(lines + [name + ": " + value]).entries == ManifestOver(lines).entries[name := value]
    ensures ManifestOver(lines + [name + ": " + value]).current == name
  {
    var raw := name + ": " + value;
    assert RStripChar(raw, '\r') == name + ":" + (" " + value) by {
      assert raw == name + ":" + (" " + value);
      if value == [] {
        assert raw[|raw| - 1] == ' ';
      } else {
        assert raw[|raw| - 1] == value[|value| - 1];
      }
    }
    assert !StartsWith(name, " ") by {
      assert name[0] != ' ';
    }
    assert Strip(name) == name by { TrimmedStrip(name); }
    assert Strip(" " + value) == value by { StripTrimmed(" ", value); }
    StrippedAttributeLine(lines, raw, name, " " + value, name, value);
  }

  /** `AttributeLine` with the stripped key and value named. */
  lemma StrippedAttributeLine(lines: seq<string>, raw: string, key: string, value: string, k: string, v: string)
    requires RStripChar(raw, '\r') == key + ":" + value && ':' !in key
    requires !StartsWith(key, " ") || ManifestOver(lines).current == ""
    requires Strip(key) == k && Strip(value) == v
    ensures ManifestOver(lines + [raw]).entries == ManifestOver(lines).entries[k := v]
    ensures ManifestOver(lines + [raw]).current == k
  {
    AttributeLine(lines, raw, key, value);
  }

  lemma TrimmedStrip(s: string)
    requires Trimmed(s)
    ensures Strip(s) == s
  {
    assert LStrip(s) == s;
    assert RStrip(s) == s;
  }

  lemma ContinuePiece(lines: seq<string>, name: string, sofar: string, piece: string)
    requires ManifestOver(lines).current == name && name != []
    requires ManifestOver(lines).entries[name] == sofar
    requires piece == [] || piece[|piece| - 1] != '\r'
    ensures ManifestOver(lines + [" " + piece]).entries == ManifestOver(lines).entries[name := sofar + piece]
    ensures ManifestOver(lines + [" " + piece]).current == name
  {
    assert RStripChar(" " + piece, '\r') == " " + piece;
    ContinuationLine(lines, " " + piece);
    assert (" " + piece)[1..] == piece;
  }

  // ---------------------------------------------------------------------
  // Class files
  // ---------------------------------------------------------------------

  /** The Java release named for each class-file major version, from
      major version 45 on. */
  const Releases: seq<string> := [
    "1.1", "1.2", "1.3", "1.4",
    "5", "6", "7", "8", "9", "10", "11", "12", "13", "14", "15", "16",
    "17", "18", "19", "20", "21"]

  /** `_map_bytecode_version`: the release for a major version, if known. */
  function JavaRelease(major: int): Option<string> {
    if 45 <= major < 45 + |Releases| then Some(Releases[major - 45]) else None
  }

  /** The table follows the release numbering: majors 45 to 48 are the
      releases 1.1 to 1.4, majors 49 to 65 are the releases 5 to 21
      (major minus 44), and no other major is known. */
  lemma ReleaseNumbering(major: int)
    ensures 45 <= major <= 48 ==> JavaRelease(major) == Some("1." + Decimal(major - 44))
    ensures 49 <= major <= 65 ==> JavaRelease(major) == Some(Decimal(major - 44))
    ensures (major < 45 || major > 65) <==> JavaRelease(major).None?
  {
    if 45 <= major <= 48 {
      EarlyRelease(major);
    } else if 49 <= major <= 65 {
      ModernRelease(major);
    }
  }

  lemma EarlyRelease(major: int)
    requires 45 <= major <= 48
    ensures JavaRelease(major) == Some("1." + Decimal(major - 44))
  {
    if major == 45 {
      assert Releases[0] == "1.1" && Decimal(1) == "1";
      assert "1." + Decimal(1) == "1.1";
    } else if major == 46 {
      assert Releases[1] == "1.2" && Decimal(2) == "2";
      assert "1." + Decimal(2) == "1.2";
    } else if major == 47 {
      assert Releases[2] == "1.3" && Decimal(3) == "3";
      assert "1." + Decimal(3) == "1.3";
    } else if major == 48 {
      assert Releases[3] == "1.4" && Decimal(4) == "4";
      assert "1." + Decimal(4) == "1.4";
    }
  }

  lemma ModernRelease(major: int)
    requires 49 <= major <= 65
    ensures JavaRelease(major) == Some(Decimal(major - 44))
  {
    if major <= 53 {
      SingleDigitRelease(major);
    } else {
      TwoDigitRelease(major);
    }
  }

  lemma SingleDigitRelease(major: int)
    requires 49 <= major <= 53
    ensures JavaRelease(major) == Some(Decimal(major - 44))
  {
    if major == 49 {
      assert Releases[4] == "5" && Decimal(5) == "5";
    } else if major == 50 {
      assert Releases[5] == "6" && Decimal(6) == "6";
    } else if major == 51 {
      assert Releases[6] == "7" && Decimal(7) == "7";
    } else if major == 52 {
      assert Releases[7] == "8" && Decimal(8) == "8";
    } else if major == 53 {
      assert Releases[8] == "9" && Decimal(9) == "9";
    }
  }

  lemma TwoDigitRelease(major: int)
    requires 54 <= major <= 65
    ensures JavaRelease(major) == Some(Decimal(major - 44))
  {
    if major <= 59 {
      TeenRelease(major);
    } else {
      LaterRelease(major);
    }
  }

  lemma TeenRelease(major: int)
    requires 54 <= major <= 59
    ensures JavaRelease(major) == Some(Decimal(major - 44))
  {
    if major == 54 {
      assert Releases[9] == "10" && Decimal(10) == "10";
    } else if major == 55 {
      assert Releases[10] == "11" && Decimal(11) == "11";
    } else if major == 56 {
      assert Releases[11] == "12" && Decimal(12) == "12";
    } else if major == 57 {
      assert Releases[12] == "13" && Decimal(13) == "13";
    } else if major == 58 {
      assert Releases[13] == "14" && Decimal(14) == "14";
    } else if major == 59 {
      assert Releases[14] == "15" && Decimal(15) == "15";
    }
  }

  lemma LaterRelease(major: int)
    requires 60 <= major <= 65
    ensures JavaRelease(major) == Some(Decimal(major - 44))
  {
    if major == 60 {
      assert Releases[15] == "16" && Decimal(16) == "16";
    } else if major == 61 {
      assert Releases[16] == "17" && Decimal(17) == "17";
    } else if major == 62 {
      assert Releases[17] == "18" && Decimal(18) == "18";
    } else if major == 63 {
      assert Releases[18] == "19" && Decimal(19) == "19";
    } else if major == 64 {
      assert Releases[19] == "20" && Decimal(20) == "20";
    } else if major == 65 {
      assert Releases[20] == "21" && Decimal(21) == "21";
    }
  }

  type Byte = b: int | 0 <= b < 256

  /** `int.from_bytes(bs, 'big')`. */
  function FromBytesBig(bs: seq<Byte>): (r: nat)
    ensures r < Power256(|bs|)
  {
    if bs == [] then 0
    else FromBytesBig(bs[..|bs| - 1]) * 256 + bs[|bs| - 1]
  }

  function Power256(n: nat): (r: nat)
    ensures r >= 1
  {
    if n == 0 then 1 else 256 * Power256(n - 1)
  }

  /** Python's `data[lo:hi]` for `0 <= lo <= hi`: the bounds are cut to the
      length of the data. */
  function Slice(data: seq<Byte>, lo: nat, hi: nat): (r: seq<Byte>)
    requires lo <= hi
    ensures |r| <= hi - lo
    ensures hi <= |data| ==> r == data[lo..hi]
  {
    var h := if hi <= |data| then hi else |data|;
    var l := if lo <= h then lo else h;
    data[l..h]
  }

  const Magic: seq<Byte> := [0xCA, 0xFE, 0xBA, 0xBE]

  datatype ClassVersion = ClassVersion(minor: nat, major: nat)

  /** The version numbers of a class file, read only when it starts with
      the magic number: minor and major are the big-endian unsigned 16-bit
      numbers in bytes 4-5 and 6-7 (section 4.1 of the Java Virtual
      Machine Specification); a file cut short yields what is there. */
  function ClassFileVersion(data: seq<Byte>): (r: Option<ClassVersion>)
    ensures r.Some? <==> |data| >= 4 && data[..4] == Magic
    ensures r.Some? ==> r.value.minor < 0x1_0000 && r.value.major < 0x1_0000
  {
    if Slice(data, 0, 4) == Magic then
      Some(ClassVersion(FromBytesBig(Slice(data, 4, 6)), FromBytesBig(Slice(data, 6, 8))))
    else None
  }

  /** The two bytes of an unsigned 16-bit number, high byte first. */
  function U2(n: nat): (r: seq<Byte>)
    requires n < 0x1_0000
    ensures |r| == 2
  {
    [n / 256, n % 256]
  }

  /** A class-file header with the given version numbers. */
  function Header(v: ClassVersion): (r: seq<Byte>)
    requires v.minor < 0x1_0000 && v.major < 0x1_0000
    ensures |r| == 8
  {
    Magic + U2(v.minor) + U2(v.major)
  }

  /** Reading the version of a class file that starts with a header gives
      the header's version back, whatever follows it. */
  lemma HeaderRoundTrip(v: ClassVersion, rest: seq<Byte>)
    requires v.minor < 0x1_0000 && v.major < 0x1_0000
    ensures ClassFileVersion(Header(v) + rest) == Some(v)
  {
    var data := Header(v) + rest;
    assert data[..4] == Magic;
    assert Slice(data, 4, 6) == U2(v.minor);
    assert Slice(data, 6, 8) == U2(v.major);
    U2Value(v.minor);
    U2Value(v.major);
  }

  lemma U2Value(n: nat)
    requires n < 0x1_0000
    ensures FromBytesBig(U2(n)) == n
  {
    assert U2(n)[..1] == [n / 256];
    assert [n / 256][..0] == [];
  }

  /** Without the magic number nothing is read. */
  lemma NoMagicNoVersion(data: seq<Byte>)
    requires |data| < 4 || data[0] != 0xCA
    ensures ClassFileVersion(data) == None
  {
    if |data| >= 4 {
      assert data[..4][0] != Magic[0];
    }
  }

  // ---------------------------------------------------------------------
  // Jar entries
  // ---------------------------------------------------------------------

  /** A jar: the names of its entries in archive order, and the decoded
      text of each entry that can be read. */
  datatype Jar = Jar(names: seq<string>, text: map<string, string>)

  datatype Service = Service(interface: string, implementations: seq<string>)

  /** What `analyze_jar_structure` reports. `failed` is set when the
      manifest is listed but cannot be read, which ends the analysis with
      the counts already made. */
  datatype JarStructure = JarStructure(
    classCount: nat, resourceCount: nat, packages: Counter,
    manifest: map<string, string>, services: seq<Service>, failed: bool)

  predicate IsClassEntry(name: string) {
    EndsWith(name, ".class")
  }

  /** Neither a class nor a directory entry. */
  predicate IsResourceEntry(name: string) {
    !EndsWith(name, ".class") && !EndsWith(name, "/")
  }

  predicate IsDirectoryEntry(name: string) {
    !EndsWith(name, ".class") && EndsWith(name, "/")
  }

  /** A class entry that lies in a directory. */
  predicate InPackage(name: string) {
    IsClassEntry(name) && '/' in name
  }

  /** The package of an entry: its directory, with '/' turned into '.'. */
  function PackageOf(name: string): string {
    var parts := Split(name, '/');
    ReplaceChar(Join(parts[..|parts| - 1], '/'), '/', '.')
  }

  /** The package is the entry's directories joined with '.'. */
  lemma PackageIsDirectories(name: string)
    ensures PackageOf(name) == Join(Split(name, '/')[..|Split(name, '/')| - 1], '.')
  {
    var parts := Split(name, '/')[..|Split(name, '/')| - 1];
    JoinReplaced(parts, '/', '.');
  }

  function ClassCount(names: seq<string>): nat {
    CountWhere(names, IsClassEntry)
  }

  function ResourceCount(names: seq<string>): nat {
    CountWhere(names, IsResourceEntry)
  }

  function DirectoryCount(names: seq<string>): nat {
    CountWhere(names, IsDirectoryEntry)
  }

  /** The package counter over the class entries in a directory. */
  function PackagesOver(names: seq<string>): (r: Counter)
    ensures Valid(r)
  {
    Tally(names, InPackage, PackageOf)
  }

  const ServicesPrefix := "META-INF/services/"
  const ManifestName := "META-INF/MANIFEST.MF"

  /** The implementations a service file lists: its non-blank lines,
      stripped, in order. */
  function Implementations(content: string): (r: seq<string>)
    ensures forall i :: 0 <= i < |r| ==> r[i] != [] && Trimmed(r[i])
  {
    NonBlank(Split(content, '\n'))
  }

  function NonBlank(lines: seq<string>): (r: seq<string>)
    ensures |r| <= |lines|
    ensures forall i :: 0 <= i < |r| ==> r[i] != [] && Trimmed(r[i])
  {
    if lines == [] then []
    else
      var rest := NonBlank(lines[1..]);
      StripIsTrimmed(lines[0]);
      if Strip(lines[0]) != [] then [Strip(lines[0])] + rest else rest
  }

  /** The service records of the readable entries under the directory
      prefix `dir` (the jar's services directory, `ServicesPrefix`): the
      interface is the entry name with every occurrence of the prefix
      removed. */
  function ServicesOver(names: seq<string>, text: map<string, string>, dir: string): (r: seq<Service>)
    requires dir != []
    ensures |r| <= |names|
  {
    if names == [] then []
    else
      var rest := ServicesOver(names[..|names| - 1], text, dir);
      var name := names[|names| - 1];
      if StartsWith(name, dir) && name in text then
        rest + [Service(ReplaceAll(name, dir, ""), Implementations(text[name]))]
      else rest
  }

  /** `analyze_jar_structure` on a jar that opens. */
  function StructureOf(jar: Jar): JarStructure {
    var counts := (ClassCount(jar.names), ResourceCount(jar.names), PackagesOver(jar.names));
    if ManifestName in jar.names && ManifestName !in jar.text then
      JarStructure(counts.0, counts.1, counts.2, map[], [], true)
    else
      var manifest := if ManifestName in jar.names then ManifestOf(jar.text[ManifestName]) else map[];
      JarStructure(counts.0, counts.1, counts.2, manifest, ServicesOver(jar.names, jar.text, ServicesPrefix), false)
  }

  method AnalyzeJarStructure(jar: Jar) returns (analysis: JarStructure)
    ensures analysis == StructureOf(jar)
  {
    var names := jar.names;
    var classCount, resourceCount := 0, 0;
    var packages := Empty();
    for i := 0 to |names|
      invariant classCount == ClassCount(names[..i])
      invariant resourceCount == ResourceCount(names[..i])
      invariant packages == PackagesOver(names[..i])
    {
      EntryStep(names, i);
      var entry := names[i];
      if EndsWith(entry, ".class") {
        classCount := classCount + 1;
        if '/' in entry {
          packages := Increment(packages, PackageOf(entry));
        }
      } else if !EndsWith(entry, "/") {
        resourceCount := resourceCount + 1;
      }
    }
    assert names[..|names|] == names;
    var manifest: map<string, string> := map[];
    if ManifestName in names {
      if ManifestName !in jar.text {
        return JarStructure(classCount, resourceCount, packages, map[], [], true);
      }
      manifest := ParseManifest(jar.text[ManifestName]);
    }
    var services: seq<Service> := [];
    for i := 0 to |names|
      invariant services == ServicesOver(names[..i], jar.text, ServicesPrefix)
    {
      ServiceStep(names, jar.text, ServicesPrefix, i);
      var entry := names[i];
      if StartsWith(entry, ServicesPrefix) && entry in jar.text {
        services := services + [Service(ReplaceAll(entry, ServicesPrefix, ""), Implementations(jar.text[entry]))];
      }
    }
    analysis := JarStructure(classCount, resourceCount, packages, manifest, services, false);
  }

  /** The counts over one entry more. */
  lemma EntryStep(names: seq<string>, i: nat)
    requires i < |names|
    ensures ClassCount(names[..i + 1]) == ClassCount(names[..i]) + if IsClassEntry(names[i]) then 1 else 0
    ensures ResourceCount(names[..i + 1]) == ResourceCount(names[..i]) + if IsResourceEntry(names[i]) then 1 else 0
    ensures PackagesOver(names[..i + 1]) ==
      if InPackage(names[i]) then Increment(PackagesOver(names[..i]), PackageOf(names[i])) else PackagesOver(names[..i])
  {
    assert names[..i + 1][..i] == names[..i];
  }

  /** The service records over one entry more. */
  lemma ServiceStep(names: seq<string>, text: map<string, string>, dir: string, i: nat)
    requires i < |names| && dir != []
    ensures ServicesOver(names[..i + 1], text, dir) ==
      if StartsWith(names[i], dir) && names[i] in text then
        ServicesOver(names[..i], text, dir) + [Service(ReplaceAll(names[i], dir, ""), Implementations(text[names[i]]))]
      else ServicesOver(names[..i], text, dir)
  {
    assert names[..i + 1][..i] == names[..i];
  }

  /** Every entry is a class, a resource or a directory, and is counted as
      exactly one of them. */
  lemma {:induction false} EntriesPartitioned(names: seq<string>)
    ensures ClassCount(names) + ResourceCount(names) + DirectoryCount(names) == |names|
  {
    if names != [] {
      EntriesPartitioned(names[..|names| - 1]);
    }
  }

  /** The package counts add up to the class entries in a directory, so
      never to more than the class count. */
  lemma PackagesTotal(names: seq<string>)
    ensures Total(PackagesOver(names)) == CountWhere(names, InPackage)
    ensures CountWhere(names, InPackage) <= ClassCount(names)
  {
    TallyTotal(names, InPackage, PackageOf);
    PackagedAreClasses(names);
  }

  lemma {:induction false} PackagedAreClasses(names: seq<string>)
    ensures CountWhere(names, InPackage) <= CountWhere(names, IsClassEntry)
  {
    if names != [] {
      PackagedAreClasses(names[..|names| - 1]);
    }
  }

  /** A package is counted exactly when some class entry in a directory
      lies in it, and its count is the number of such entries. */
  lemma PackagesExactly(names: seq<string>, p: string)
    ensures p in PackagesOver(names).counts <==>
      exists i :: 0 <= i < |names| && InPackage(names[i]) && PackageOf(names[i]) == p
    ensures p in PackagesOver(names).counts ==> PackagesOver(names).counts[p] == CountOf(names, InPackage, PackageOf, p)
  {
    TallyExactly(names, InPackage, PackageOf, p);
    TallyCount(names, InPackage, PackageOf, p);
  }

  /** A file under the services directory whose remaining name does not
      repeat the prefix is registered under that remaining name. */
  lemma ServiceInterface(rest: string)
    requires !Contains(rest, ServicesPrefix)
    ensures ReplaceAll(ServicesPrefix + rest, ServicesPrefix, "") == rest
  {
    var s := ServicesPrefix + rest;
    assert s[..|ServicesPrefix|] == ServicesPrefix;
    assert s[|ServicesPrefix|..] == rest;
    ReplaceAllAbsent(rest, ServicesPrefix, "");
  }

  /** The record an entry gives when it is a readable service file. */
  predicate ServiceEntry(name: string, text: map<string, string>, dir: string, s: Service)
    requires dir != []
  {
    StartsWith(name, dir) && name in text
    && s == Service(ReplaceAll(name, dir, ""), Implementations(text[name]))
  }

  /** The records of two runs of entries are those of the first run
      followed by those of the second, so records keep archive order. */
  lemma {:induction false} ServicesAppend(xs: seq<string>, ys: seq<string>, text: map<string, string>, dir: string)
    requires dir != []
    ensures ServicesOver(xs + ys, text, dir) == ServicesOver(xs, text, dir) + ServicesOver(ys, text, dir)
    decreases |ys|
  {
    if ys == [] {
      assert xs + ys == xs;
    } else {
      var n := |ys| - 1;
      assert (xs + ys)[..|xs + ys| - 1] == xs + ys[..n];
      ServicesAppend(xs, ys[..n], text, dir);
    }
  }

  /** A record exists exactly for each readable entry under the services
      directory; `ServicesAppend` gives their archive order. */
  lemma ServicesExactly(names: seq<string>, text: map<string, string>, dir: string, s: Service)
    requires dir != []
    ensures s in ServicesOver(names, text, dir) <==> exists i :: 0 <= i < |names| && ServiceEntry(names[i], text, dir, s)
  {
    if s in ServicesOver(names, text, dir) {
      ServiceFromEntry(names, text, dir, s);
    }
    if exists i :: 0 <= i < |names| && ServiceEntry(names[i], text, dir, s) {
      var i :| 0 <= i < |names| && ServiceEntry(names[i], text, dir, s);
      EntryGivesService(names, text, dir, s, i);
    }
  }

  lemma {:induction false} ServiceFromEntry(names: seq<string>, text: map<string, string>, dir: string, s: Service)
    requires dir != [] && s in ServicesOver(names, text, dir)
    ensures exists i :: 0 <= i < |names| && ServiceEntry(names[i], text, dir, s)
  {
    var init := names[..|names| - 1];
    var last := |names| - 1;
    ServiceStep(names, text, dir, last);
    assert names[..last + 1] == names && names[..last] == init;
    if s in ServicesOver(init, text, dir) {
      ServiceFromEntry(init, text, dir, s);
      var i :| 0 <= i < |init| && ServiceEntry(init[i], text, dir, s);
      assert names[i] == init[i];
    } else {
      assert ServiceEntry(names[last], text, dir, s);
    }
  }

  lemma EntryGivesService(names: seq<string>, text: map<string, string>, dir: string, s: Service, i: nat)
    requires dir != [] && i < |names| && ServiceEntry(names[i], text, dir, s)
    ensures s in ServicesOver(names, text, dir)
  {
    var upTo := ServicesOver(names[..i + 1], text, dir);
    ServiceStep(names, text, dir, i);
    assert upTo[|upTo| - 1] == s;
    ServicesOfPrefix(names, text, dir, i + 1);
    assert ServicesOver(names, text, dir)[|upTo| - 1] == s;
  }

  /** The records of the first `j` entries begin the records of all of them. */
  lemma {:induction false} ServicesOfPrefix(names: seq<string>, text: map<string, string>, dir: string, j: nat)
    requires dir != [] && j <= |names|
    ensures ServicesOver(names[..j], text, dir) <= ServicesOver(names, text, dir)
  {
    if j == |names| {
      assert names[..j] == names;
    } else {
      var init := names[..|names| - 1];
      ServicesOfPrefix(init, text, dir, j);
      assert init[..j] == names[..j];
      assert ServicesOver(init, text, dir) <= ServicesOver(names, text, dir);
    }
  }

  /** A service file that lists implementation names one per line gives
      those names back. */
  lemma {:induction false} ImplementationsRoundTrip(impls: seq<string>)
    requires forall i :: 0 <= i < |impls| ==> impls[i] != [] && Trimmed(impls[i]) && '\n' !in impls[i]
    ensures Implementations(Join(impls, '\n')) == impls
  {
    if impls == [] {
      assert Split(Join(impls, '\n'), '\n') == [[]];
      assert Strip([]) == [];
    } else {
      SplitJoin(impls, '\n');
      NonBlankTrimmed(impls);
    }
  }

  lemma {:induction false} NonBlankTrimmed(lines: seq<string>)
    requires forall i :: 0 <= i < |lines| ==> lines[i] != [] && Trimmed(lines[i])
    ensures NonBlank(lines) == lines
  {
    if lines != [] {
      NonBlankTrimmed(lines[1..]);
      StripTrimmed([], lines[0]);
      assert [] + lines[0] == lines[0];
      assert NonBlank(lines) == [lines[0]] + NonBlank(lines[1..]);
      assert lines == [lines[0]] + lines[1..];
    }
  }
}
