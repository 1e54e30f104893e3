/** Header normalisation of the mboxheader package: missing required fields are
    reported, a missing Message-ID is synthesised from the Date field, and the
    header block is written back from the parsed fields. */
module Normalizer {
  import opened Text
  import opened HeaderParser
  import opened HeaderTypes
  import opened MailLib
  import opened Uuid

  // ---------------------------------------------------------------------------
  // Writing the fields back

  /** The lines rebuildHeader writes for one field: "Name: first value", then one
      tab-indented line per further value; nothing for a field without values. */
  function FieldOutput(f: ParsedHeaderField): seq<string> {
    if f.values == [] then [] else [f.name + ": " + f.values[0]] + Tabbed(f.values[1..])
  }

  /** Each value behind a tab. */
  function Tabbed(vs: seq<string>): seq<string> {
    if vs == [] then [] else Tabbed(vs[..|vs| - 1]) + ["\t" + vs[|vs| - 1]]
  }

  lemma {:induction false} TabbedSpec(vs: seq<string>)
    ensures |Tabbed(vs)| == |vs|
    ensures forall j :: 0 <= j < |vs| ==> Tabbed(vs)[j] == "\t" + vs[j]
  {
    if vs != [] {
      TabbedSpec(vs[..|vs| - 1]);
    }
  }

  /** The lines of the rebuilt header block, field by field in order. */
  function RebuildLines(fs: seq<ParsedHeaderField>): seq<string> {
    if fs == [] then [] else RebuildLines(fs[..|fs| - 1]) + FieldOutput(fs[|fs| - 1])
  }

  /** The rebuilt header block: every line terminated by "\n". */
  function Rebuild(fs: seq<ParsedHeaderField>): string {
    Emit(RebuildLines(fs))
  }

  /** One more field adds its output lines. */
  lemma RebuildLinesStep(fs: seq<ParsedHeaderField>, i: nat)
    requires i < |fs|
    ensures RebuildLines(fs[..i + 1]) == RebuildLines(fs[..i]) + FieldOutput(fs[i])
    ensures fs[i].values == [] ==> RebuildLines(fs[..i + 1]) == RebuildLines(fs[..i])
  {
    assert fs[..i + 1][..i] == fs[..i];
    assert RebuildLines(fs[..i]) + [] == RebuildLines(fs[..i]);
  }

  /** One more continuation value adds one tab-indented line to the text. */
  lemma TabbedStep(base: seq<string>, rest: seq<string>, j: nat)
    requires j < |rest|
    ensures Emit(base + Tabbed(rest[..j + 1])) == Emit(base + Tabbed(rest[..j])) + ("\t" + rest[j] + "\n")
  {
    assert rest[..j + 1][..j] == rest[..j];
    assert base + Tabbed(rest[..j + 1]) == (base + Tabbed(rest[..j])) + ["\t" + rest[j]];
    EmitSnoc(base + Tabbed(rest[..j]), "\t" + rest[j]);
  }

  /** The tab-indented lines of a field start empty and end as its full output. */
  lemma TabbedEnds(base: seq<string>, field: ParsedHeaderField)
    requires field.values != []
    ensures var head := field.name + ": " + field.values[0]; var rest := field.values[1..];
      && base + [head] + Tabbed(rest[..0]) == base + [head]
      && base + [head] + Tabbed(rest[..|rest|]) == base + FieldOutput(field)
  {
    var rest := field.values[1..];
    assert rest[..0] == [];
    assert rest[..|rest|] == rest;
  }

  /** rebuildHeader: writes each field through a strings.Builder, skipping a field
      without values. */
  method RebuildHeader(h: ParsedMailHeaders) returns (folded: string)
    ensures folded == Rebuild(h.fields)
  {
    folded := "";
    var i := 0;
    while i < |h.fields|
      invariant 0 <= i <= |h.fields|
      invariant folded == Rebuild(h.fields[..i])
    {
      var field := h.fields[i];
      RebuildLinesStep(h.fields, i);
      var count := |field.values|;
      if count != 0 {
        ghost var base := RebuildLines(h.fields[..i]);
        var head := field.name + ": " + field.values[0];
        folded := folded + (head + "\n");
        EmitSnoc(base, head);
        var rest := field.values[1..];
        TabbedEnds(base, field);
        var j := 0;
        while j < |rest|
          invariant 0 <= j <= |rest|
          invariant folded == Emit(base + [head] + Tabbed(rest[..j]))
        {
          TabbedStep(base + [head], rest, j);
          folded := folded + ("\t" + rest[j] + "\n");
          j := j + 1;
        }
      }
      i := i + 1;
    }
    assert h.fields[..|h.fields|] == h.fields;
  }

  // ---------------------------------------------------------------------------
  // Rebuilding then parsing gives the fields back

  /** A field the rebuild/parse round trip preserves: the shape the scanner produces,
      and no line break inside the name or any value. */
  predicate Rebuildable(f: ParsedHeaderField) {
    && ParsedShape(f)
    && IsScannable(f.name)
    && (forall j :: 0 <= j < |f.values| ==> IsScannable(f.values[j]))
  }

  lemma TrimLeadingSpace(v: string)
    requires IsTrimmed(v)
    ensures TrimSpace(" " + v) == v
  {
    assert (" " + v)[1..] == v;
    assert TrimLeft(" " + v, Spaces) == TrimLeft(v, Spaces);
    TrimSpaceShape(v);
  }

  /** The first output line of a rebuildable field parses back to its name and first value. */
  lemma HeadLineParses(f: ParsedHeaderField)
    requires Rebuildable(f)
    ensures var line := f.name + ": " + f.values[0];
      IsFieldLine(line) && FieldName(line) == f.name && FieldValue(line) == f.values[0]
  {
    var line := f.name + ": " + f.values[0];
    var n := |f.name|;
    assert OccursAt(line, ":", n) by {
      assert line[n..n + 1] == ":";
    }
    forall j | 0 <= j < n ensures !OccursAt(line, ":", j) {
      assert line[j..j + 1] == [f.name[j]];
    }
    IndexOfSpec(line, ":");
    assert IndexOf(line, ":") == n;
    if f.name != [] {
      assert line[0] == f.name[0];
    } else {
      assert line[0] == ':';
    }
    assert !IsFolded(line);
    assert line[..n] == f.name;
    assert line[n + 1..] == " " + f.values[0];
    TrimSpaceShape(f.name);
    TrimLeadingSpace(f.values[0]);
  }

  /** The tab-indented lines are folded and unfold to the values. */
  lemma TabbedUnfold(vs: seq<string>)
    requires forall j :: 0 <= j < |vs| ==> vs[j] == [] || !IsBlank(vs[j][0])
    ensures |Tabbed(vs)| == |vs|
    ensures forall j :: 0 <= j < |vs| ==> IsFolded(Tabbed(vs)[j])
    ensures UnfoldAll(Tabbed(vs)) == vs
  {
    var t := Tabbed(vs);
    TabbedSpec(vs);
    forall j | 0 <= j < |vs| ensures IsFolded(t[j]) && Unfold(t[j]) == vs[j] {
      assert t[j][..1] == "\t";
      assert t[j][1..] == vs[j];
      assert TrimLeft(t[j], Blanks) == TrimLeft(vs[j], Blanks);
    }
  }

  /** A field line followed by folded lines adds the field they spell out. */
  lemma AttachParsed(pre: seq<string>, head: string, folds: seq<string>, f: ParsedHeaderField)
    requires IsFieldLine(head) && |f.values| >= 1
    requires FieldName(head) == f.name && FieldValue(head) == f.values[0]
    requires forall j :: 0 <= j < |folds| ==> IsFolded(folds[j])
    requires UnfoldAll(folds) == f.values[1..]
    ensures ParseLines(pre + [head] + folds).fields == ParseLines(pre).fields + [f]
  {
    FoldedLinesAttach(pre, head, folds);
    assert [f.values[0]] + f.values[1..] == f.values;
  }

  /** The output lines of one more rebuildable field parse to that field. */
  lemma ParseRebuiltStep(init: seq<ParsedHeaderField>, f: ParsedHeaderField)
    requires Rebuildable(f)
    ensures ParseLines(RebuildLines(init + [f])).fields == ParseLines(RebuildLines(init)).fields + [f]
  {
    var head := f.name + ": " + f.values[0];
    var folds := Tabbed(f.values[1..]);
    assert RebuildLines(init + [f]) == RebuildLines(init) + [head] + folds by {
      assert (init + [f])[..|init + [f]| - 1] == init;
    }
    HeadLineParses(f);
    TabbedUnfold(f.values[1..]);
    AttachParsed(RebuildLines(init), head, folds, f);
  }

  /** Parsing the rebuilt lines gives back every rebuildable field, in order. */
  lemma {:induction false} ParseRebuiltLines(fs: seq<ParsedHeaderField>)
    requires forall k :: 0 <= k < |fs| ==> Rebuildable(fs[k])
    ensures ParseLines(RebuildLines(fs)).fields == fs
  {
    if fs != [] {
      var init, last := fs[..|fs| - 1], fs[|fs| - 1];
      assert fs == init + [last];
      ParseRebuiltLines(init);
      ParseRebuiltStep(init, last);
    }
  }

  /** Every rebuilt line is free of line breaks. */
  lemma {:induction false} RebuiltLinesScannable(fs: seq<ParsedHeaderField>)
    requires forall k :: 0 <= k < |fs| ==> Rebuildable(fs[k])
    ensures forall i :: 0 <= i < |RebuildLines(fs)| ==> IsScannable(RebuildLines(fs)[i])
  {
    if fs != [] {
      var init := fs[..|fs| - 1];
      var f := fs[|fs| - 1];
      RebuiltLinesScannable(init);
      var head := f.name + ": " + f.values[0];
      assert IsScannable(head) by {
        forall j | 0 <= j < |head| ensures head[j] != '\n' && head[j] != '\r' {
          if j >= |f.name| + 2 {
            assert head[j] == f.values[0][j - |f.name| - 2];
          }
        }
      }
      var t := Tabbed(f.values[1..]);
      TabbedSpec(f.values[1..]);
      forall i | 0 <= i < |t| ensures IsScannable(t[i]) {
        assert IsScannable(f.values[1..][i]);
      }
      var out := RebuildLines(init) + FieldOutput(f);
      assert FieldOutput(f) == [head] + t;
      forall i | 0 <= i < |out| ensures IsScannable(out[i]) {
        if i < |RebuildLines(init)| {
          assert out[i] == RebuildLines(init)[i];
        } else if i == |RebuildLines(init)| {
          assert out[i] == head;
        } else {
          assert out[i] == t[i - |RebuildLines(init)| - 1];
        }
      }
    }
  }

  /** Round trip: parsing the rebuilt header block gives back the field list. */
  lemma RebuildRoundTrip(fs: seq<ParsedHeaderField>)
    requires forall k :: 0 <= k < |fs| ==> Rebuildable(fs[k])
    ensures ParsedFields(Rebuild(fs)) == fs
  {
    RebuiltLinesScannable(fs);
    EmitIsConcat(RebuildLines(fs));
    ScanTerminatedLines(RebuildLines(fs));
    ParseRebuiltLines(fs);
  }

  // ---------------------------------------------------------------------------
  // Parsed fields without carriage returns can be rebuilt

  /** A scanned line is a piece of its input: a character absent from the input is
      absent from every line. */
  lemma {:induction false} ScanLinesKeepsNoneOf(s: string, c: char)
    requires NoneOf(s, c)
    decreases |s|
    ensures forall i :: 0 <= i < |ScanLines(s)| ==> NoneOf(ScanLines(s)[i], c)
  {
    if s != [] {
      var i := IndexOf(s, "\n");
      IndexOfSpec(s, "\n");
      if i != -1 {
        ScanLinesKeepsNoneOf(s[i + 1..], c);
        var first := DropCR(s[..i]);
        assert NoneOf(first, c) by {
          forall j | 0 <= j < |first| ensures first[j] != c {
            assert first[j] == s[j];
          }
        }
      } else {
        assert NoneOf(DropCR(s), c) by {
          forall j | 0 <= j < |DropCR(s)| ensures DropCR(s)[j] != c {
            assert DropCR(s)[j] == s[j];
          }
        }
      }
    }
  }

  /** The name and first value of a field line keep what the line lacks. */
  lemma FieldLineKeepsNoneOf(line: string, c: char)
    requires IsFieldLine(line) && NoneOf(line, c)
    ensures NoneOf(FieldName(line), c) && NoneOf(FieldValue(line), c)
  {
    var k := IndexOf(line, ":");
    IndexOfSpec(line, ":");
    var before := line[..k];
    var after := line[k + 1..];
    forall j | 0 <= j < |before| ensures before[j] != c {
      assert before[j] == line[j];
    }
    forall j | 0 <= j < |after| ensures after[j] != c {
      assert after[j] == line[k + 1 + j];
    }
    TrimSpaceKeepsNoneOf(line[..k], c);
    TrimSpaceKeepsNoneOf(line[k + 1..], c);
  }

  /** The name and every value of a field lack the character. */
  predicate FieldLacks(f: ParsedHeaderField, c: char) {
    NoneOf(f.name, c) && forall j :: 0 <= j < |f.values| ==> NoneOf(f.values[j], c)
  }

  /** Appending a value that lacks the character keeps the field lacking it. */
  lemma ExtendKeepsLacks(f: ParsedHeaderField, u: string, c: char)
    requires FieldLacks(f, c) && NoneOf(u, c)
    ensures FieldLacks(f.(values := f.values + [u]), c)
  {
    var vs := f.values + [u];
    forall j | 0 <= j < |vs| ensures NoneOf(vs[j], c) {
      if j < |f.values| {
        assert vs[j] == f.values[j];
      }
    }
  }

  /** Every name and value the scanner builds keeps a character the lines lack. */
  lemma {:induction false} ParseLinesKeepsNoneOf(lines: seq<string>, c: char)
    requires forall i :: 0 <= i < |lines| ==> NoneOf(lines[i], c)
    ensures forall k :: 0 <= k < |ParseLines(lines).fields| ==> FieldLacks(ParseLines(lines).fields[k], c)
  {
    if lines != [] {
      var pre := lines[..|lines| - 1];
      var line := lines[|lines| - 1];
      ParseLinesKeepsNoneOf(pre, c);
      var st := ParseLines(pre);
      if IsFolded(line) {
        if st.current.Some? && st.current.value < |st.fields| {
          var k0 := st.current.value;
          var u := Unfold(line);
          TrimLeftSpec(line, Blanks);
          assert NoneOf(u, c) by {
            forall j | 0 <= j < |u| ensures u[j] != c {
              assert u[j] == line[|line| - |u| + j];
            }
          }
          ExtendKeepsLacks(st.fields[k0], u, c);
        }
      } else if IsFieldLine(line) {
        FieldLineKeepsNoneOf(line, c);
        var f := ParsedHeaderField(FieldName(line), [FieldValue(line)]);
        assert FieldLacks(f, c);
      }
    }
  }

  /** The fields of a header block without carriage returns can be rebuilt. */
  lemma ParsedFieldsRebuildable(headers: string)
    requires NoneOf(headers, '\r')
    ensures forall k :: 0 <= k < |ParsedFields(headers)| ==> Rebuildable(ParsedFields(headers)[k])
  {
    var lines := ScanLines(headers);
    ScanLinesKeepsNoneOf(headers, '\r');
    ParseLinesKeepsNoneOf(lines, '\n');
    ParseLinesKeepsNoneOf(lines, '\r');
    ParseLinesShape(lines);
    var fs := ParsedFields(headers);
    forall k | 0 <= k < |fs| ensures Rebuildable(fs[k]) {
      assert FieldLacks(fs[k], '\n') && FieldLacks(fs[k], '\r');
    }
  }

  // ---------------------------------------------------------------------------
  // The synthesised Message-ID

  /** The instant makeUUIDByDateField reads from the Date field: time.Time{} when the
      field is absent or mail.ParseDate fails. */
  function DateStamp(h: ParsedMailHeaders, lib: Library): Time {
    var (date, found) := GetFieldValue(h, "date");
    if !found then ZeroTime
    else match lib.parseDate(date)
      case Some(t) => t
      case None => ZeroTime
  }

  /** The 16 bytes behind the UUID makeUUIDByDateField returns for random bytes rnd. */
  function UuidBytesByDate(h: ParsedMailHeaders, lib: Library, rnd: Random16): seq<Byte> {
    var t := DateStamp(h, lib);
    if t == ZeroTime then V4Bytes(rnd) else V7Bytes(rnd, t)
  }

  /** The UUID makeUUIDByDateField returns for random bytes rnd. */
  function UuidByDate(h: ParsedMailHeaders, lib: Library, rnd: Random16): string {
    Render(UuidBytesByDate(h, lib, rnd))
  }

  /** makeUUIDByDateField */
  method MakeUuidByDateField(h: ParsedMailHeaders, lib: Library, rnd: Random16) returns (s: string)
    ensures s == UuidByDate(h, lib, rnd)
  {
    var timestamp := ZeroTime;
    var (date, found) := GetFieldValue(h, "date");
    if found {
      match lib.parseDate(date) {
        case Some(t) => timestamp := t;
        case None => timestamp := ZeroTime;
      }
    }
    if timestamp == ZeroTime {
      s := MakeUuid(rnd);
    } else {
      s := MakeUuidV7(rnd, timestamp);
    }
  }

  /** The UUID is a well-formed 8-4-4-4-12 string that reads back to its bytes; when
      the Date field parses to a non-zero instant the bytes are version 7 with that
      instant's milliseconds (mod 2^48) in front, and otherwise version 4. */
  lemma UuidByDateLayout(h: ParsedMailHeaders, lib: Library, rnd: Random16)
    ensures var s := UuidByDate(h, lib, rnd); var b := UuidBytesByDate(h, lib, rnd);
      var t := DateStamp(h, lib);
      && |s| == 36 && UuidShape(s) && Parse(s) == b
      && (t != ZeroTime ==> b[..6] == BigEndian(t % Two48, 6) && b[6] >> 4 == 7)
      && (t == ZeroTime ==> b[6] >> 4 == 4)
  {
    var t := DateStamp(h, lib);
    var b := UuidBytesByDate(h, lib, rnd);
    RenderRoundTrip(b);
    if t == ZeroTime {
      V4Layout(rnd);
    } else {
      V7Layout(rnd, t);
    }
  }

  /** The Message-ID value: the UUID inside angle brackets with the "mboxfix" domain. */
  function MessageIdValue(uuid: string): string {
    "<" + uuid + "@mboxfix>"
  }

  /** The synthesised field is rebuildable. */
  lemma MessageIdRebuildable(uuid: string)
    requires UuidShape(uuid)
    ensures Rebuildable(ParsedHeaderField("Message-ID", [MessageIdValue(uuid)]))
  {
    var v := MessageIdValue(uuid);
    assert v[0] == '<' && v[|v| - 1] == '>';
    GroupsShapeChars(uuid, [4, 2, 2, 2, 6]);
    forall j | 0 <= j < |v| ensures v[j] != '\n' && v[j] != '\r' {
      if 1 <= j <= |uuid| {
        assert v[j] == uuid[j - 1];
      }
    }
    assert NoneOf("Message-ID", ':');
  }

  // ---------------------------------------------------------------------------
  // NormalizeHeaders

  /** The findings with a "missing" report for the field added when its key is not
      in the index. */
  function ReportIfAbsent(rs: seq<ValidationResult>, h: ParsedMailHeaders, msgIndex: int,
                          key: string, name: string): seq<ValidationResult> {
    if key in h.keys then rs else rs + [ValidationResult(msgIndex, name, StatusMissing, "")]
  }

  /** The findings NormalizeHeaders reports: From, Date, then Message-ID, each when absent. */
  function MissingFindings(h: ParsedMailHeaders, msgIndex: int): seq<ValidationResult> {
    var r1 := ReportIfAbsent([], h, msgIndex, "from", "From");
    var r2 := ReportIfAbsent(r1, h, msgIndex, "date", "Date");
    ReportIfAbsent(r2, h, msgIndex, "message-id", "Message-ID")
  }

  /** The synthesised Message-ID field. */
  function MessageIdField(h: ParsedMailHeaders, lib: Library, rnd: Random16): ParsedHeaderField {
    ParsedHeaderField("Message-ID", [MessageIdValue(UuidByDate(h, lib, rnd))])
  }

  /** The field list after a missing Message-ID has been appended. */
  function CompletedFields(h: ParsedMailHeaders, lib: Library, rnd: Random16): seq<ParsedHeaderField> {
    if "message-id" in h.keys then h.fields else h.fields + [MessageIdField(h, lib, rnd)]
  }

  datatype Normalized = Normalized(text: string, results: seq<ValidationResult>)

  /** What NormalizeHeaders returns for a header block, a date parser and the random
      bytes a fresh UUID would use. */
  function Normalize(headers: string, msgIndex: int, lib: Library, rnd: Random16): Normalized {
    var h := ParseHeaders(headers);
    Normalized(Rebuild(CompletedFields(h, lib, rnd)), MissingFindings(h, msgIndex))
  }

  /** NormalizeHeaders */
  method NormalizeHeaders(headers: string, msgIndex: int, lib: Library, rnd: Random16)
    returns (folded: string, results: seq<ValidationResult>)
    ensures Normalized(folded, results) == Normalize(headers, msgIndex, lib, rnd)
  {
    results := [];
    var parsedHeaders := NewParsedMailHeaders(headers);
    ghost var h := parsedHeaders;
    if "from" !in parsedHeaders.keys {
      results := results + [ValidationResult(msgIndex, "From", StatusMissing, "")];
    }
    assert results == ReportIfAbsent([], h, msgIndex, "from", "From");
    ghost var r1 := results;
    if "date" !in parsedHeaders.keys {
      results := results + [ValidationResult(msgIndex, "Date", StatusMissing, "")];
    }
    assert results == ReportIfAbsent(r1, h, msgIndex, "date", "Date");
    ghost var r2 := results;
    if "message-id" !in parsedHeaders.keys {
      results := results + [ValidationResult(msgIndex, "Message-ID", StatusMissing, "")];
      var uuid := MakeUuidByDateField(parsedHeaders, lib, rnd);
      parsedHeaders := parsedHeaders.(fields := parsedHeaders.fields
        + [ParsedHeaderField("Message-ID", [MessageIdValue(uuid)])]);
    }
    assert results == ReportIfAbsent(r2, h, msgIndex, "message-id", "Message-ID");
    assert parsedHeaders.fields == CompletedFields(h, lib, rnd);
    folded := RebuildHeader(parsedHeaders);
  }

  /** The field names the findings report, in order. */
  function FieldsOf(rs: seq<ValidationResult>): seq<string> {
    seq(|rs|, k requires 0 <= k < |rs| => rs[k].field)
  }

  /** The required names, in the order From, Date, Message-ID, that no field carries. */
  function AbsentNames(fs: seq<ParsedHeaderField>): seq<string> {
    (if HasField(fs, "from") then [] else ["From"])
    + (if HasField(fs, "date") then [] else ["Date"])
    + (if HasField(fs, "message-id") then [] else ["Message-ID"])
  }

  /** One report step adds the field's name exactly when no field carries the key. */
  lemma ReportStep(rs: seq<ValidationResult>, headers: string, msgIndex: int, key: string, name: string)
    ensures var h := ParseHeaders(headers); var r := ReportIfAbsent(rs, h, msgIndex, key, name);
      && FieldsOf(r) == FieldsOf(rs) + (if HasField(h.fields, key) then [] else [name])
      && (forall k :: |rs| <= k < |r| ==> r[k] == ValidationResult(msgIndex, name, StatusMissing, ""))
      && r[..|rs|] == rs
  {
    var h := ParseHeaders(headers);
    KeyPresent(h.fields, key);
    var r := ReportIfAbsent(rs, h, msgIndex, key, name);
    if HasField(h.fields, key) {
      assert FieldsOf(rs) + [] == FieldsOf(rs);
    } else {
      assert FieldsOf(r) == FieldsOf(rs) + [name];
    }
  }

  /** The findings are "missing" reports for this message naming exactly the
      required fields (From, Date, Message-ID) that no field carries, compared
      case-insensitively, in that order. */
  lemma NormalizeFindings(headers: string, msgIndex: int, lib: Library, rnd: Random16)
    ensures var rs := Normalize(headers, msgIndex, lib, rnd).results;
      && FieldsOf(rs) == AbsentNames(ParsedFields(headers))
      && (forall k :: 0 <= k < |rs| ==> rs[k] == ValidationResult(msgIndex, rs[k].field, StatusMissing, ""))
  {
    MissingFindingsSay(headers, msgIndex);
  }

  /** The findings of the three presence checks, for a header block. */
  lemma MissingFindingsSay(headers: string, msgIndex: int)
    ensures var rs := MissingFindings(ParseHeaders(headers), msgIndex);
      && FieldsOf(rs) == AbsentNames(ParsedFields(headers))
      && (forall k :: 0 <= k < |rs| ==> rs[k] == ValidationResult(msgIndex, rs[k].field, StatusMissing, ""))
  {
    var h := ParseHeaders(headers);
    var r1 := ReportIfAbsent([], h, msgIndex, "from", "From");
    var r2 := ReportIfAbsent(r1, h, msgIndex, "date", "Date");
    var r3 := ReportIfAbsent(r2, h, msgIndex, "message-id", "Message-ID");
    ReportStep([], headers, msgIndex, "from", "From");
    ReportStep(r1, headers, msgIndex, "date", "Date");
    ReportStep(r2, headers, msgIndex, "message-id", "Message-ID");
    assert FieldsOf([]) == [];
    forall k | 0 <= k < |r3| ensures r3[k] == ValidationResult(msgIndex, r3[k].field, StatusMissing, "") {
      if k < |r2| {
        assert r3[k] == r2[k];
        if k < |r1| {
          assert r2[k] == r1[k];
        }
      }
    }
  }

  /** The fields of the normalised text are the completed field list (for header
      blocks without carriage returns). */
  lemma NormalizedFields(headers: string, msgIndex: int, lib: Library, rnd: Random16)
    requires NoneOf(headers, '\r')
    ensures ParsedFields(Normalize(headers, msgIndex, lib, rnd).text) == CompletedFields(ParseHeaders(headers), lib, rnd)
  {
    CompletedRebuildable(headers, lib, rnd);
    RebuildRoundTrip(CompletedFields(ParseHeaders(headers), lib, rnd));
  }

  /** Every field of the completed list can be written out and parsed back. */
  lemma CompletedRebuildable(headers: string, lib: Library, rnd: Random16)
    requires NoneOf(headers, '\r')
    ensures var fs := CompletedFields(ParseHeaders(headers), lib, rnd);
      forall k :: 0 <= k < |fs| ==> Rebuildable(fs[k])
  {
    var h := ParseHeaders(headers);
    ParsedFieldsRebuildable(headers);
    if "message-id" !in h.keys {
      UuidByDateShape(h, lib, rnd);
      MessageIdRebuildable(UuidByDate(h, lib, rnd));
      SnocRebuildable(h.fields, MessageIdField(h, lib, rnd));
    }
  }

  lemma UuidByDateShape(h: ParsedMailHeaders, lib: Library, rnd: Random16)
    ensures UuidShape(UuidByDate(h, lib, rnd))
  {
    UuidByDateLayout(h, lib, rnd);
  }

  lemma SnocRebuildable(fs: seq<ParsedHeaderField>, f: ParsedHeaderField)
    requires forall k :: 0 <= k < |fs| ==> Rebuildable(fs[k])
    requires Rebuildable(f)
    ensures forall k :: 0 <= k < |fs + [f]| ==> Rebuildable((fs + [f])[k])
  {
    forall k | 0 <= k < |fs + [f]| ensures Rebuildable((fs + [f])[k]) {
      if k < |fs| {
        assert (fs + [f])[k] == fs[k];
      }
    }
  }

  /** Parsing the normalised text gives back the original fields followed, when the
      header block had no Message-ID, by the synthesised one; nothing is lost,
      reordered or altered (for header blocks without carriage returns). */
  lemma NormalizeKeepsFields(headers: string, msgIndex: int, lib: Library, rnd: Random16)
    requires NoneOf(headers, '\r')
    ensures var h := ParseHeaders(headers);
      ParsedFields(Normalize(headers, msgIndex, lib, rnd).text)
        == h.fields + (if HasField(h.fields, "message-id") then [] else [MessageIdField(h, lib, rnd)])
  {
    NormalizedFields(headers, msgIndex, lib, rnd);
    var h := ParseHeaders(headers);
    KeyPresent(h.fields, "message-id");
    if HasField(h.fields, "message-id") {
      assert h.fields + [] == h.fields;
    }
  }

  /** The synthesised field's name lower-cases to the index key. */
  lemma MessageIdKey()
    ensures ToLower("Message-ID") == "message-id"
  {
  }

  /** The completed field list always has a Message-ID. */
  lemma CompletedHasMessageId(h: ParsedMailHeaders, lib: Library, rnd: Random16)
    requires h.keys == KeyIndex(h.fields)
    ensures HasField(CompletedFields(h, lib, rnd), "message-id")
  {
    var fs := CompletedFields(h, lib, rnd);
    KeyPresent(h.fields, "message-id");
    if "message-id" in h.keys {
      var j :| 0 <= j < |h.fields| && ToLower(h.fields[j].name) == "message-id";
      assert fs[j] == h.fields[j];
    } else {
      assert fs[|h.fields|] == MessageIdField(h, lib, rnd);
      assert ToLower("Message-ID") == "message-id";
    }
  }

  /** A field appended to a list without its key is what GetFieldValue finds. */
  lemma AppendedFieldFound(fs: seq<ParsedHeaderField>, f: ParsedHeaderField, key: string)
    requires !HasField(fs, key) && ToLower(f.name) == key
    ensures var all := fs + [f];
      GetFieldValue(ParsedMailHeaders(KeyIndex(all), all), key) == (TrimSpace(Join(f.values, " ")), true)
  {
    var all := fs + [f];
    KeyIndexIsFirst(all);
    assert ToLower(all[|fs|].name) == key;
    var j := KeyIndex(all)[key].index;
    assert j == |fs|;
  }

  /** A Message-ID value is its own trimmed form. */
  lemma MessageIdTrimmed(uuid: string)
    ensures TrimSpace(Join([MessageIdValue(uuid)], " ")) == MessageIdValue(uuid)
  {
    var v := MessageIdValue(uuid);
    assert v[0] == '<' && v[|v| - 1] == '>';
    TrimSpaceShape(v);
  }

  /** GetFieldValue finds a Message-ID in the completed field list, and it is the
      synthesised one when the index had none. */
  lemma CompletedMessageIdFound(h: ParsedMailHeaders, lib: Library, rnd: Random16)
    requires h.keys == KeyIndex(h.fields)
    ensures var fs := CompletedFields(h, lib, rnd);
      var r := GetFieldValue(ParsedMailHeaders(KeyIndex(fs), fs), "message-id");
      && r.1
      && ("message-id" !in h.keys ==> r.0 == MessageIdValue(UuidByDate(h, lib, rnd)))
  {
    var fs := CompletedFields(h, lib, rnd);
    CompletedHasMessageId(h, lib, rnd);
    KeyPresent(fs, "message-id");
    KeyIndexIsFirst(fs);
    if "message-id" !in h.keys {
      KeyPresent(h.fields, "message-id");
      MessageIdKey();
      AppendedFieldFound(h.fields, MessageIdField(h, lib, rnd), "message-id");
      MessageIdTrimmed(UuidByDate(h, lib, rnd));
    }
  }

  /** After normalisation the header block always has a Message-ID; a synthesised one
      is the date-derived UUID in the "<uuid@mboxfix>" form (for header blocks
      without carriage returns). */
  lemma NormalizeAddsMessageId(headers: string, msgIndex: int, lib: Library, rnd: Random16)
    requires NoneOf(headers, '\r')
    ensures var out := ParseHeaders(Normalize(headers, msgIndex, lib, rnd).text);
      var h := ParseHeaders(headers);
      && GetFieldValue(out, "message-id").1
      && (!HasField(h.fields, "message-id") ==>
            GetFieldValue(out, "message-id").0 == MessageIdValue(UuidByDate(h, lib, rnd)))
  {
    var h := ParseHeaders(headers);
    NormalizedFields(headers, msgIndex, lib, rnd);
    KeyPresent(h.fields, "message-id");
    CompletedMessageIdFound(h, lib, rnd);
  }

  /** Normalising twice gives the text of normalising once: the first pass supplies
      the Message-ID, so the second adds nothing (for header blocks without carriage
      returns). */
  lemma NormalizeTwice(headers: string, msgIndex: int, lib: Library, rnd: Random16, rnd2: Random16)
    requires NoneOf(headers, '\r')
    ensures var first := Normalize(headers, msgIndex, lib, rnd);
      Normalize(first.text, msgIndex, lib, rnd2).text == first.text
  {
    var h := ParseHeaders(headers);
    NormalizedFields(headers, msgIndex, lib, rnd);
    var fs := CompletedFields(h, lib, rnd);
    CompletedHasMessageId(h, lib, rnd);
    KeyPresent(fs, "message-id");
  }

  /** When the header block already has a Message-ID, normalising it again gives the
      same text and the same findings. */
  lemma NormalizeIdempotent(headers: string, msgIndex: int, lib: Library, rnd: Random16, rnd2: Random16)
    requires NoneOf(headers, '\r')
    requires HasField(ParsedFields(headers), "message-id")
    ensures var first := Normalize(headers, msgIndex, lib, rnd);
      Normalize(first.text, msgIndex, lib, rnd2) == first
  {
    var h := ParseHeaders(headers);
    KeyPresent(h.fields, "message-id");
    NormalizedFields(headers, msgIndex, lib, rnd);
    assert ParseHeaders(Normalize(headers, msgIndex, lib, rnd).text) == h;
  }
}
