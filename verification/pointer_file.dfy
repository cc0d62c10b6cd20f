/**
 Pointer files (internal/lfs/scan.go, parsePointer; the Git LFS specification's "The
 Pointer"): what content is a pointer, and to which object.
 */
module PointerFile {
  import opened Wrappers
  import opened Text
  import opened LfsBatch

  const VERSION_VALUE: string := "https://git-lfs.github.com/spec/v1"
  const OID_PREFIX: string := "sha256:"

  // ---- one line ----

  datatype Field = Blank | Malformed | Version | OidField(oid: string) | SizeField(size: int) | Extension

  /** What one line says: a key, a space and a value; keys other than the three known ones are extensions. */
  function ReadField(text: string): Field {
    var line := TrimSpace(text);
    var space := Index(line, ' ');
    if line == "" then Blank
    else if space < 0 then Malformed
    else KeyValue(line[..space], line[space + 1..])
  }

  function KeyValue(name: string, value: string): Field {
    if name == "version" then
      if value == VERSION_VALUE then Version else Malformed
    else if name == "oid" then
      if HasPrefix(value, OID_PREFIX) && IsSha256Hex(value[|OID_PREFIX|..]) then
        OidField(ToLower(value[|OID_PREFIX|..]))
      else Malformed
    else if name == "size" then
      var size := ParseInt64(value);
      if size.Some? && size.value >= 0 then SizeField(size.value) else Malformed
    else Extension
  }

  /** The content split at its newlines; empty lines say nothing, so a final newline does not matter. */
  function Lines(content: string): seq<string>
    decreases |content|
  {
    var newline := Index(content, '\n');
    if newline < 0 then [content] else [content[..newline]] + Lines(content[newline + 1..])
  }

  function Joined(lines: seq<string>): string
    requires lines != []
  {
    if |lines| == 1 then lines[0] else lines[0] + "\n" + Joined(lines[1..])
  }

  /** The lines hold no newline, and joined by newlines they are the content. */
  lemma {:induction false} LinesAreTheContent(content: string)
    ensures Lines(content) != [] && Joined(Lines(content)) == content
    ensures forall line :: line in Lines(content) ==> '\n' !in line
    decreases |content|
  {
    hide Lines, Joined;
    if '\n' in content {
      var first, rest := FirstLine(content);
      LinesAreTheContent(rest);
      JoinedCons(first, Lines(rest));
    } else {
      OnlyLine(content);
    }
  }

  lemma FirstLine(content: string) returns (first: string, rest: string)
    requires '\n' in content
    ensures '\n' !in first && |rest| < |content|
    ensures content == first + "\n" + rest && Lines(content) == [first] + Lines(rest)
  {
    var newline := Index(content, '\n');
    first, rest := content[..newline], content[newline + 1..];
  }

  lemma OnlyLine(content: string)
    requires '\n' !in content
    ensures Lines(content) == [content] && Joined([content]) == content
  {
  }

  lemma JoinedCons(first: string, rest: seq<string>)
    requires rest != []
    ensures Joined([first] + rest) == first + "\n" + Joined(rest)
  {
    assert ([first] + rest)[1..] == rest;
  }

  function Fields(content: string): seq<Field> {
    var lines := Lines(content);
    seq(|lines|, i requires 0 <= i < |lines| => ReadField(lines[i]))
  }

  // ---- which content is a pointer ----

  predicate LastOid(fields: seq<Field>, oid: string) {
    exists i :: 0 <= i < |fields| && fields[i] == OidField(oid) && forall j :: i < j < |fields| ==> !fields[j].OidField?
  }

  predicate LastSize(fields: seq<Field>, size: int) {
    exists i :: 0 <= i < |fields| && fields[i] == SizeField(size)
                && forall j :: i < j < |fields| ==> !fields[j].SizeField?
  }

  /** No malformed line, a version line, and the last oid and size lines are the pointer's. */
  predicate IsPointer(fields: seq<Field>, p: Pointer) {
    && (forall i :: 0 <= i < |fields| ==> !fields[i].Malformed?)
    && Version in fields
    && LastOid(fields, p.oid) && LastSize(fields, p.size)
  }

  /** What the lines read so far amount to. */
  datatype Parsed = Parsed(version: bool, oid: Option<string>, size: Option<int>)

  function After(fields: seq<Field>): Option<Parsed> {
    if fields == [] then Some(Parsed(false, None, None))
    else
      var before := After(fields[..|fields| - 1]);
      if before.None? then None
      else
        match fields[|fields| - 1]
        case Blank => before
        case Malformed => None
        case Version => Some(before.value.(version := true))
        case OidField(oid) => Some(before.value.(oid := Some(oid)))
        case SizeField(size) => Some(before.value.(size := Some(size)))
        case Extension => before
  }

  function Result(parsed: Option<Parsed>): Option<Pointer> {
    if parsed.Some? && parsed.value.version && parsed.value.oid.Some? && parsed.value.size.Some? then
      Some(Pointer(parsed.value.oid.value, parsed.value.size.value))
    else None
  }

  /** The pointer a blob's content holds, if it is one. */
  function PointerIn(content: string): Option<Pointer> {
    Result(After(Fields(content)))
  }

  lemma LastOidStep(fields: seq<Field>, last: Field, oid: string)
    ensures LastOid(fields + [last], oid) <==> if last.OidField? then last.oid == oid else LastOid(fields, oid)
  {
    var all := fields + [last];
    assert all[|fields|] == last;
    assert forall i :: 0 <= i < |fields| ==> all[i] == fields[i];
    if !last.OidField? && LastOid(fields, oid) {
      var i :| 0 <= i < |fields| && fields[i] == OidField(oid) && forall j :: i < j < |fields| ==> !fields[j].OidField?;
      assert all[i] == OidField(oid);
    }
    if !last.OidField? && LastOid(all, oid) {
      var i :| 0 <= i < |all| && all[i] == OidField(oid) && forall j :: i < j < |all| ==> !all[j].OidField?;
      assert fields[i] == OidField(oid);
    }
  }

  lemma LastSizeStep(fields: seq<Field>, last: Field, size: int)
    ensures LastSize(fields + [last], size) <==> if last.SizeField? then last.size == size else LastSize(fields, size)
  {
    var all := fields + [last];
    assert all[|fields|] == last;
    assert forall i :: 0 <= i < |fields| ==> all[i] == fields[i];
    if !last.SizeField? && LastSize(fields, size) {
      var i :| 0 <= i < |fields| && fields[i] == SizeField(size)
               && forall j :: i < j < |fields| ==> !fields[j].SizeField?;
      assert all[i] == SizeField(size);
    }
    if !last.SizeField? && LastSize(all, size) {
      var i :| 0 <= i < |all| && all[i] == SizeField(size) && forall j :: i < j < |all| ==> !all[j].SizeField?;
      assert fields[i] == SizeField(size);
    }
  }

  /** Reading line by line, the last of each kind wins. */
  lemma {:induction false} AfterIsExact(fields: seq<Field>)
    ensures After(fields).None? <==> exists i :: 0 <= i < |fields| && fields[i].Malformed?
    ensures After(fields).Some? ==>
              var parsed := After(fields).value;
              && (parsed.version <==> Version in fields)
              && (forall oid :: parsed.oid == Some(oid) <==> LastOid(fields, oid))
              && (forall size :: parsed.size == Some(size) <==> LastSize(fields, size))
  {
    if fields != [] {
      var front, last := fields[..|fields| - 1], fields[|fields| - 1];
      assert fields == front + [last];
      AfterIsExact(front);
      hide LastOid, LastSize;
      forall oid ensures LastOid(fields, oid) <==> if last.OidField? then last.oid == oid else LastOid(front, oid) {
        LastOidStep(front, last, oid);
      }
      forall size
        ensures LastSize(fields, size) <==> if last.SizeField? then last.size == size else LastSize(front, size)
      {
        LastSizeStep(front, last, size);
      }
      MalformedStep(front, last);
    }
  }

  lemma MalformedStep(front: seq<Field>, last: Field)
    ensures (exists i :: 0 <= i < |front + [last]| && (front + [last])[i].Malformed?)
            <==> last.Malformed? || exists i :: 0 <= i < |front| && front[i].Malformed?
  {
    var all := front + [last];
    assert all[|front|] == last;
    assert forall i :: 0 <= i < |front| ==> all[i] == front[i];
  }

  /** Content is a pointer exactly when no line is malformed and all three keys are there; the last of each wins. */
  lemma PointerIsExact(content: string, p: Pointer)
    ensures PointerIn(content) == Some(p) <==> IsPointer(Fields(content), p)
  {
    hide Fields, After, LastOid, LastSize;
    AfterIsExact(Fields(content));
  }

  method ParsePointer(content: string) returns (parsed: Option<Pointer>)
    ensures parsed == PointerIn(content)
  {
    hide ReadField, Lines;
    var lines := Lines(content);
    ghost var fields := Fields(content);
    var sawVersion, oid, size := false, None, None;
    for i := 0 to |lines|
      invariant After(fields[..i]) == Some(Parsed(sawVersion, oid, size))
    {
      var field := ReadField(lines[i]);
      assert fields[i] == field;
      assert fields[..i + 1][..i] == fields[..i];
      match field {
        case Blank =>
        case Malformed =>
          AfterIsExact(fields);
          return None;
        case Version => sawVersion := true;
        case OidField(value) => oid := Some(value);
        case SizeField(value) => size := Some(value);
        case Extension =>
      }
    }
    assert fields[..|lines|] == fields;
    if !sawVersion || oid.None? || size.None? {
      return None;
    }
    parsed := Some(Pointer(oid.value, size.value));
  }

  // ---- the language of lines ----

  predicate Begins(line: string, name: string) { HasPrefix(line, name + " ") }

  /** A line with a space has exactly one key and one value. */
  lemma KeyOf(line: string, name: string, value: string)
    requires ' ' in line && ' ' !in name
    ensures var space := Index(line, ' ');
            && (line == name + " " + value <==> line[..space] == name && line[space + 1..] == value)
            && (Begins(line, name) <==> line[..space] == name)
  {
    var space := Index(line, ' ');
    assert line == line[..space] + " " + line[space + 1..];
    if line == name + " " + value {
      FirstCut(name, ' ', value);
    }
    if Begins(line, name) {
      var rest := line[|name| + 1..];
      assert line == name + " " + rest;
      FirstCut(name, ' ', rest);
    }
  }

  lemma WithoutSpace(text: string)
    requires ' ' !in TrimSpace(text)
    ensures ReadField(text) == if TrimSpace(text) == "" then Blank else Malformed
  {
    hide TrimSpace;
  }

  lemma VersionLineIff(text: string)
    ensures ReadField(text) == Version <==> TrimSpace(text) == "version" + " " + "https://git-lfs.github.com/spec/v1"
  {
    hide TrimSpace, Index;
    var line := TrimSpace(text);
    if ' ' in line {
      KeyOf(line, "version", "https://git-lfs.github.com/spec/v1");
    } else {
      WithoutSpace(text);
    }
  }

  lemma OidLineIff(text: string, oid: string)
    ensures var line := TrimSpace(text);
            ReadField(text) == OidField(oid) <==>
              exists hex :: IsSha256Hex(hex) && ToLower(hex) == oid && line == "oid" + " " + ("sha256:" + hex)
  {
    hide TrimSpace, Index, IsSha256Hex, ToLower;
    var line := TrimSpace(text);
    if ' ' in line {
      var value := line[Index(line, ' ') + 1..];
      if ReadField(text) == OidField(oid) {
        KeyOf(line, "oid", value);
        assert value == "sha256:" + value[7..];
      }
      forall hex | IsSha256Hex(hex) && ToLower(hex) == oid && line == "oid" + " " + ("sha256:" + hex)
        ensures ReadField(text) == OidField(oid)
      {
        KeyOf(line, "oid", "sha256:" + hex);
        assert ("sha256:" + hex)[7..] == hex && ("sha256:" + hex)[..7] == "sha256:";
      }
    } else {
      WithoutSpace(text);
    }
  }

  lemma SizeLineIff(text: string, size: int)
    ensures ReadField(text) == SizeField(size) <==>
              exists number :: ParseInt64(number) == Some(size) && size >= 0 && TrimSpace(text) == "size" + " " + number
  {
    hide TrimSpace, Index, ParseInt64;
    var line := TrimSpace(text);
    if ' ' in line {
      KeyOf(line, "size", line[Index(line, ' ') + 1..]);
      forall number | line == "size" + " " + number
        ensures line[..Index(line, ' ')] == "size" && line[Index(line, ' ') + 1..] == number
      {
        KeyOf(line, "size", number);
      }
    } else {
      WithoutSpace(text);
    }
  }

  lemma ExtensionLineIff(text: string)
    ensures var line := TrimSpace(text);
            ReadField(text) == Extension <==>
              ' ' in line && !Begins(line, "version") && !Begins(line, "oid") && !Begins(line, "size")
  {
    hide TrimSpace, Index, ParseInt64, IsSha256Hex, Begins;
    var line := TrimSpace(text);
    if ' ' in line {
      KeyOf(line, "version", "");
      KeyOf(line, "oid", "");
      KeyOf(line, "size", "");
    } else {
      WithoutSpace(text);
    }
  }

  /**
   What a line says, by the text between its surrounding spaces: the version line is one
   text, an oid line names a SHA-256 digest in either letter case, a size line a number from
   zero up; a line without a space, or one of these three keys with anything else, is malformed.
   */
  lemma LinesAreExact(text: string, oid: string, size: int)
    ensures var line := TrimSpace(text);
            && (ReadField(text) == Version <==> line == "version" + " " + "https://git-lfs.github.com/spec/v1")
            && (ReadField(text) == OidField(oid) <==>
                  exists hex :: IsSha256Hex(hex) && ToLower(hex) == oid && line == "oid" + " " + ("sha256:" + hex))
            && (ReadField(text) == SizeField(size) <==>
                  exists number :: ParseInt64(number) == Some(size) && size >= 0 && line == "size" + " " + number)
            && (ReadField(text) == Blank <==> line == "")
            && (ReadField(text) == Extension <==>
                  ' ' in line && !Begins(line, "version") && !Begins(line, "oid") && !Begins(line, "size"))
  {
    VersionLineIff(text);
    OidLineIff(text, oid);
    SizeLineIff(text, size);
    ExtensionLineIff(text);
    hide TrimSpace, Index, ParseInt64, IsSha256Hex, Begins;
  }

  // ---- what the rest of the client relies on ----

  lemma ReadFieldIsSound(text: string)
    ensures ReadField(text).OidField? ==> IsCanonicalOid(ReadField(text).oid)
    ensures ReadField(text).SizeField? ==> 0 <= ReadField(text).size <= MAX_INT64
  {
    hide TrimSpace, Index, IsCanonicalOid;
    if ReadField(text).OidField? {
      var line := TrimSpace(text);
      LowerIsCanonical(line[Index(line, ' ') + 1..][|OID_PREFIX|..]);
    }
  }

  /** A parsed oid is always a lower-case SHA-256 name, and the size a non-negative 64-bit number. */
  lemma ParsedIsCanonical(content: string)
    requires PointerIn(content).Some?
    ensures IsCanonicalOid(PointerIn(content).value.oid)
    ensures 0 <= PointerIn(content).value.size <= MAX_INT64
  {
    hide ReadField, IsCanonicalOid, Lines;
    var p := PointerIn(content).value;
    PointerIsExact(content, p);
    var lines := Lines(content);
    var i :| 0 <= i < |lines| && Fields(content)[i] == OidField(p.oid);
    var j :| 0 <= j < |lines| && Fields(content)[j] == SizeField(p.size);
    ReadFieldIsSound(lines[i]);
    ReadFieldIsSound(lines[j]);
  }

  // ---- writing one ----

  /** A pointer file as Git LFS writes it: version first, then the keys alphabetically. */
  function Render(p: Pointer): string {
    "version " + "https://git-lfs.github.com/spec/v1" + "\n"
    + ("oid " + "sha256:" + p.oid + "\n" + ("size " + FormatInt(p.size) + "\n"))
  }

  /** However large the object, its pointer file is far below the 4096 bytes the scan reads. */
  lemma RenderIsShort(p: Pointer)
    requires IsCanonicalOid(p.oid) && 0 <= p.size <= MAX_INT64
    ensures |Render(p)| <= 150
  {
    NineteenDigits(p.size);
  }

  lemma RenderIsLines(p: Pointer)
    ensures Render(p) == "version " + VERSION_VALUE + "\n"
                         + ("oid " + OID_PREFIX + p.oid + "\n" + ("size " + FormatInt(p.size) + "\n"))
  {
    hide FormatInt;
  }

  lemma KeyValueLine(name: string, value: string)
    requires name != "" && ' ' !in name && !IsSpace(name[0])
    requires value != "" && !IsSpace(value[|value| - 1])
    ensures ReadField(name + " " + value) == KeyValue(name, value)
  {
    hide KeyValue, Index;
    var line := name + " " + value;
    TrimStable(line, IsSpace);
    FirstCut(name, ' ', value);
  }

  lemma VersionEnds()
    ensures VERSION_VALUE[|VERSION_VALUE| - 1] == '1' && '\n' !in VERSION_VALUE
  {
  }

  lemma VersionLine(value: string)
    requires value != "" && !IsSpace(value[|value| - 1]) && '\n' !in value && KeyValue("version", value) == Version
    ensures ReadField("version " + value) == Version
    ensures '\n' !in "version " + value
  {
    hide ReadField, KeyValue;
    assert "version " + value == "version" + " " + value;
    KeyValueLine("version", value);
  }

  lemma OidLine(oid: string)
    requires IsCanonicalOid(oid)
    ensures ReadField("oid " + OID_PREFIX + oid) == OidField(oid)
    ensures '\n' !in "oid " + OID_PREFIX + oid
  {
    hide ReadField;
    var value := OID_PREFIX + oid;
    assert value[..|OID_PREFIX|] == OID_PREFIX && value[|OID_PREFIX|..] == oid;
    assert "oid " + OID_PREFIX + oid == "oid" + " " + value;
    assert IsHexDigit(value[|value| - 1]);
    KeyValueLine("oid", value);
    assert forall c :: c in oid ==> IsHexDigit(c);
  }

  lemma SizeLine(size: nat)
    requires size <= MAX_INT64
    ensures ReadField("size " + FormatInt(size)) == SizeField(size)
    ensures '\n' !in "size " + FormatInt(size)
  {
    hide ReadField, ParseInt64, FormatInt;
    var value := FormatInt(size);
    ParseFormat(size);
    NumeralsAreNotEmpty(size);
    assert IsDigit(value[|value| - 1]);
    assert "size " + value == "size" + " " + value;
    KeyValueLine("size", value);
    assert forall c :: c in value ==> IsDigit(c);
  }

  lemma NumeralsAreNotEmpty(n: nat)
    ensures FormatInt(n) != ""
  {
  }

  lemma OneMoreLine(line: string, rest: string)
    requires '\n' !in line
    ensures Lines(line + "\n" + rest) == [line] + Lines(rest)
  {
    FirstCut(line, '\n', rest);
  }

  /** Writing a pointer file and reading it back gives the same pointer. */
  lemma RenderRoundTrip(p: Pointer)
    requires IsCanonicalOid(p.oid) && 0 <= p.size <= MAX_INT64
    ensures PointerIn(Render(p)) == Some(p)
  {
    hide ReadField, IsCanonicalOid, FormatInt, Lines;
    VersionEnds();
    VersionLine(VERSION_VALUE);
    OidLine(p.oid);
    SizeLine(p.size);
    var version, oid, size := "version " + VERSION_VALUE, "oid " + OID_PREFIX + p.oid, "size " + FormatInt(p.size);
    RenderIsLines(p);
    hide Render;
    OneMoreLine(version, oid + "\n" + (size + "\n"));
    OneMoreLine(oid, size + "\n");
    assert size + "\n" + "" == size + "\n";
    OneMoreLine(size, "");
    LastLine();
    var fields := Fields(Render(p));
    assert Lines(Render(p)) == [version, oid, size, ""];
    assert fields == [Version, OidField(p.oid), SizeField(p.size), Blank];
    FourFields(fields, p);
  }

  lemma LastLine()
    ensures Lines("") == [""] && ReadField("") == Blank
  {
  }

  lemma FourFields(fields: seq<Field>, p: Pointer)
    requires fields == [Version, OidField(p.oid), SizeField(p.size), Blank]
    ensures Result(After(fields)) == Some(p)
  {
    assert After([Version]) == Some(Parsed(true, None, None)) by {
      assert [Version][..0] == [];
    }
    assert After([Version, OidField(p.oid)]) == Some(Parsed(true, Some(p.oid), None)) by {
      assert [Version, OidField(p.oid)][..1] == [Version];
    }
    var three := [Version, OidField(p.oid), SizeField(p.size)];
    assert After(three) == Some(Parsed(true, Some(p.oid), Some(p.size))) by {
      assert three[..2] == [Version, OidField(p.oid)];
    }
    assert fields[..3] == three;
  }
}
