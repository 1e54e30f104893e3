/** The RFC 5322 header tokenizer of the mboxheader package: unfolding of
    continuation lines (section 2.2.3 of RFC 5322), fields kept in file order,
    and an index from the lower-cased field name to its first occurrence. */
module HeaderParser {
  import opened Text

  datatype ParsedHeaderField = ParsedHeaderField(name: string, values: seq<string>)

  datatype KeyFieldSet = KeyFieldSet(index: int, name: string)

  datatype ParsedMailHeaders = ParsedMailHeaders(keys: map<string, KeyFieldSet>, fields: seq<ParsedHeaderField>)

  /** The scanner state: the fields so far and the slot `currentField` points at (None is nil). */
  datatype ScanState = ScanState(fields: seq<ParsedHeaderField>, current: Option<nat>)

  /** A line beginning with SP or HT continues the field above it. */
  predicate IsFolded(line: string) {
    HasPrefix(line, " ") || HasPrefix(line, "\t")
  }

  /** A line that opens a new field: not folded and holding a colon. */
  predicate IsFieldLine(line: string) {
    !IsFolded(line) && IndexOf(line, ":") != -1
  }

  /** The trimmed text before the first colon of a field line. */
  function FieldName(line: string): string
    requires IsFieldLine(line)
  {
    IndexOfSpec(line, ":");
    TrimSpace(line[..IndexOf(line, ":")])
  }

  /** The trimmed text after the first colon of a field line. */
  function FieldValue(line: string): string
    requires IsFieldLine(line)
  {
    IndexOfSpec(line, ":");
    TrimSpace(line[IndexOf(line, ":") + 1..])
  }

  /** What a folded line contributes: the line without its leading blanks. */
  function Unfold(line: string): string {
    TrimLeft(line, Blanks)
  }

  /** The effect of one scanned line on the scanner state. */
  function Step(st: ScanState, line: string): ScanState {
    if IsFolded(line) then
      if st.current.Some? && st.current.value < |st.fields| then
        var k := st.current.value;
        ScanState(st.fields[k := st.fields[k].(values := st.fields[k].values + [Unfold(line)])], st.current)
      else st
    else if IsFieldLine(line) then
      ScanState(st.fields + [ParsedHeaderField(FieldName(line), [FieldValue(line)])], Some(|st.fields|))
    else
      ScanState(st.fields, None)
  }

  /** The scanner state after the given lines, from an empty field list and a nil pointer. */
  function ParseLines(lines: seq<string>): ScanState {
    if lines == [] then ScanState([], None)
    else Step(ParseLines(lines[..|lines| - 1]), lines[|lines| - 1])
  }

  /** The field list parseField returns for a header block. */
  function ParsedFields(headers: string): seq<ParsedHeaderField> {
    ParseLines(ScanLines(headers)).fields
  }

  lemma ParseLinesStep(lines: seq<string>, i: nat)
    requires i < |lines|
    ensures ParseLines(lines[..i + 1]) == Step(ParseLines(lines[..i]), lines[i])
  {
    assert lines[..i + 1][..i] == lines[..i];
  }

  /** Step on a continuation line. */
  lemma FoldedStep(st: ScanState, line: string)
    requires IsFolded(line)
    ensures Step(st, line)
      == if st.current.Some? && st.current.value < |st.fields| then
           var k := st.current.value;
           ScanState(st.fields[k := st.fields[k].(values := st.fields[k].values + [TrimLeft(line, Blanks)])], st.current)
         else st
  {
  }

  /** Step on any other line: a new field where it holds a colon, else the pointer is cleared. */
  lemma FieldStep(st: ScanState, line: string)
    requires !IsFolded(line)
    ensures var c := IndexOf(line, ":");
      c != -1 ==>
        (&& 0 <= c < |line|
         && Step(st, line)
            == ScanState(st.fields + [ParsedHeaderField(TrimSpace(line[..c]), [TrimSpace(line[c + 1..])])], Some(|st.fields|)))
    ensures IndexOf(line, ":") == -1 ==> Step(st, line) == ScanState(st.fields, None)
  {
    IndexOfSpec(line, ":");
  }

  /** currentField is nil or points at the last field. */
  lemma {:induction false} CurrentIsLast(lines: seq<string>)
    ensures var st := ParseLines(lines);
      st.current.None? || (|st.fields| > 0 && st.current.value == |st.fields| - 1)
  {
    if lines != [] {
      CurrentIsLast(lines[..|lines| - 1]);
    }
  }

  /** parseField: scans the header block line by line, appending new fields and
      extending the field currentField points at. */
  method ParseField(headers: string) returns (fields: seq<ParsedHeaderField>)
    ensures fields == ParsedFields(headers)
  {
    var lines := ScanLines(headers);
    var current: Option<nat> := None;
    fields := [];
    var i := 0;
    while i < |lines|
      invariant 0 <= i <= |lines|
      invariant ScanState(fields, current) == ParseLines(lines[..i])
      invariant current.None? || (|fields| > 0 && current.value == |fields| - 1)
    {
      var line := lines[i];
      ParseLinesStep(lines, i);
      if HasPrefix(line, " ") || HasPrefix(line, "\t") {
        FoldedStep(ScanState(fields, current), line);
        if current.Some? {
          var k := current.value;
          fields := fields[k := fields[k].(values := fields[k].values + [TrimLeft(line, Blanks)])];
        }
      } else {
        var c := IndexOf(line, ":");
        IndexOfSpec(line, ":");
        FieldStep(ScanState(fields, current), line);
        if c != -1 {
          var name := TrimSpace(line[..c]);
          var value := TrimSpace(line[c + 1..]);
          fields := fields + [ParsedHeaderField(name, [value])];
          current := Some(|fields| - 1);
        } else {
          current := None;
        }
      }
      i := i + 1;
    }
    assert lines[..|lines|] == lines;
  }

  // ---------------------------------------------------------------------------
  // What the scanner produces

  /** The shape of every field parseField produces. */
  predicate ParsedShape(f: ParsedHeaderField) {
    && |f.values| >= 1
    && IsTrimmed(f.name) && NoneOf(f.name, ':')
    && IsTrimmed(f.values[0])
    && (forall j :: 1 <= j < |f.values| ==> f.values[j] == [] || !IsBlank(f.values[j][0]))
  }

  lemma FieldLineShape(line: string)
    requires IsFieldLine(line)
    ensures ParsedShape(ParsedHeaderField(FieldName(line), [FieldValue(line)]))
  {
    var c := IndexOf(line, ":");
    IndexOfCharPrefix(line, ':');
    TrimSpaceShape(line[..c]);
    TrimSpaceKeepsNoneOf(line[..c], ':');
    TrimSpaceShape(line[c + 1..]);
    assert IsTrimmed(FieldValue(line));
    assert NoneOf(FieldName(line), ':');
    assert IsTrimmed(FieldName(line));
  }

  /** Every field the scanner builds has a first value, a trimmed colon-free name,
      a trimmed first value, and continuation values without leading blanks. */
  lemma {:induction false} ParseLinesShape(lines: seq<string>)
    ensures forall k :: 0 <= k < |ParseLines(lines).fields| ==> ParsedShape(ParseLines(lines).fields[k])
  {
    if lines != [] {
      var pre := lines[..|lines| - 1];
      var line := lines[|lines| - 1];
      ParseLinesShape(pre);
      if IsFolded(line) {
        TrimLeftSpec(line, Blanks);
      } else if IsFieldLine(line) {
        FieldLineShape(line);
      }
    }
  }

  // ---------------------------------------------------------------------------
  // Fields appear in input order, one per field line

  /** The lines that open a field, in order. */
  function FieldLines(lines: seq<string>): (r: seq<string>)
    ensures forall k :: 0 <= k < |r| ==> IsFieldLine(r[k])
  {
    if lines == [] then []
    else if IsFieldLine(lines[|lines| - 1]) then FieldLines(lines[..|lines| - 1]) + [lines[|lines| - 1]]
    else FieldLines(lines[..|lines| - 1])
  }

  /** There is one field per field line, in input order; its name is the trimmed text
      before the first colon and its first value the trimmed text after it. */
  lemma {:induction false} FieldsFollowFieldLines(lines: seq<string>)
    ensures var fs := ParseLines(lines).fields; var hl := FieldLines(lines);
      |fs| == |hl|
      && forall k :: 0 <= k < |fs| ==>
           |fs[k].values| >= 1 && fs[k].name == FieldName(hl[k]) && fs[k].values[0] == FieldValue(hl[k])
  {
    if lines != [] {
      var pre := lines[..|lines| - 1];
      var line := lines[|lines| - 1];
      FieldsFollowFieldLines(pre);
      CurrentIsLast(pre);
      var st := ParseLines(pre);
      var hl := FieldLines(pre);
      if IsFolded(line) {
        assert FieldLines(lines) == hl;
        if st.current.Some? {
          var k := st.current.value;
          var f := st.fields[k];
          assert (f.values + [Unfold(line)])[0] == f.values[0];
        }
      } else if IsFieldLine(line) {
        assert FieldLines(lines) == hl + [line];
      } else {
        assert FieldLines(lines) == hl;
      }
    }
  }

  /** A field line followed by folded lines yields one field whose values are the
      line's own value then each folded line without its leading blanks, in order. */
  lemma FoldedLinesAttach(pre: seq<string>, line: string, folds: seq<string>)
    requires IsFieldLine(line)
    requires forall j :: 0 <= j < |folds| ==> IsFolded(folds[j])
    ensures ParseLines(pre + [line] + folds)
         == ScanState(ParseLines(pre).fields
                      + [ParsedHeaderField(FieldName(line), [FieldValue(line)] + UnfoldAll(folds))],
                      Some(|ParseLines(pre).fields|))
  {
    ParseLinesSnoc(pre, line);
    FoldsExtendLast(pre + [line], folds, ParseLines(pre).fields, FieldName(line), [FieldValue(line)]);
  }

  /** While currentField points at the last field, folded lines keep extending it. */
  lemma {:induction false} FoldsExtendLast(lines: seq<string>, folds: seq<string>,
                                           fs: seq<ParsedHeaderField>, name: string, vs: seq<string>)
    requires ParseLines(lines) == ScanState(fs + [ParsedHeaderField(name, vs)], Some(|fs|))
    requires forall j :: 0 <= j < |folds| ==> IsFolded(folds[j])
    ensures ParseLines(lines + folds) == ScanState(fs + [ParsedHeaderField(name, vs + UnfoldAll(folds))], Some(|fs|))
  {
    if folds == [] {
      assert lines + folds == lines;
      assert vs + UnfoldAll(folds) == vs;
    } else {
      var init := folds[..|folds| - 1];
      var last := folds[|folds| - 1];
      FoldsExtendLast(lines, init, fs, name, vs);
      assert lines + folds == (lines + init) + [last];
      ParseLinesSnoc(lines + init, last);
      ExtendLastField(fs, name, vs + UnfoldAll(init), last);
      assert (vs + UnfoldAll(init)) + [Unfold(last)] == vs + UnfoldAll(folds);
    }
  }

  /** ParseLines consumes its lines from the front: one more line is one more Step. */
  lemma ParseLinesSnoc(lines: seq<string>, line: string)
    ensures ParseLines(lines + [line]) == Step(ParseLines(lines), line)
  {
    assert (lines + [line])[..|lines|] == lines;
  }

  /** A folded line after a freshly added last field extends that field's values. */
  lemma ExtendLastField(fs: seq<ParsedHeaderField>, name: string, vs: seq<string>, line: string)
    requires IsFolded(line)
    ensures Step(ScanState(fs + [ParsedHeaderField(name, vs)], Some(|fs|)), line)
         == ScanState(fs + [ParsedHeaderField(name, vs + [Unfold(line)])], Some(|fs|))
  {
    var before := fs + [ParsedHeaderField(name, vs)];
    assert before[|fs| := before[|fs|].(values := vs + [Unfold(line)])]
        == fs + [ParsedHeaderField(name, vs + [Unfold(line)])];
  }

  function UnfoldAll(folds: seq<string>): (r: seq<string>)
    ensures |r| == |folds|
    ensures forall j :: 0 <= j < |folds| ==> r[j] == Unfold(folds[j])
  {
    if folds == [] then [] else UnfoldAll(folds[..|folds| - 1]) + [Unfold(folds[|folds| - 1])]
  }

  /** A non-folded line without a colon clears currentField: the folded lines after it
      are dropped and the fields built so far stay as they were. */
  lemma {:induction false} OrphanFoldsDropped(pre: seq<string>, line: string, folds: seq<string>)
    requires !IsFolded(line) && !IsFieldLine(line)
    requires forall j :: 0 <= j < |folds| ==> IsFolded(folds[j])
    ensures ParseLines(pre + [line] + folds) == ScanState(ParseLines(pre).fields, None)
  {
    if folds == [] {
      assert (pre + [line] + folds)[..|pre| + 1 - 1] == pre;
    } else {
      OrphanFoldsDropped(pre, line, folds[..|folds| - 1]);
      assert (pre + [line] + folds)[..|pre + [line] + folds| - 1] == pre + [line] + folds[..|folds| - 1];
    }
  }

  /** Folded lines at the very start of the block have no field to join and are dropped. */
  lemma {:induction false} LeadingFoldsDropped(folds: seq<string>)
    requires forall j :: 0 <= j < |folds| ==> IsFolded(folds[j])
    ensures ParseLines(folds) == ScanState([], None)
  {
    if folds != [] {
      LeadingFoldsDropped(folds[..|folds| - 1]);
    }
  }

  // ---------------------------------------------------------------------------
  // The index of first occurrences

  /** The keys map NewParsedMailHeaders builds: each lower-cased name mapped to the
      position and original name of the field that brought it in first. */
  function KeyIndex(fields: seq<ParsedHeaderField>): (keys: map<string, KeyFieldSet>) {
    if fields == [] then map[]
    else
      var m := KeyIndex(fields[..|fields| - 1]);
      var f := fields[|fields| - 1];
      var key := ToLower(f.name);
      if key in m then m else m[key := KeyFieldSet(|fields| - 1, f.name)]
  }

  /** Every lower-cased name has an entry, and each entry holds the first field with that name. */
  lemma {:induction false} KeyIndexIsFirst(fields: seq<ParsedHeaderField>)
    ensures KeysIndexFirst(KeyIndex(fields), fields)
  {
    if fields != [] {
      var n := |fields| - 1;
      var pre := fields[..n];
      KeyIndexIsFirst(pre);
      var m := KeyIndex(pre);
      var key := ToLower(fields[n].name);
      var keys := KeyIndex(fields);
      forall j | 0 <= j < |fields| ensures ToLower(fields[j].name) in keys {
        if j < n {
          assert fields[j] == pre[j];
        }
      }
      forall k | k in keys
        ensures 0 <= keys[k].index < |fields|
        ensures ToLower(fields[keys[k].index].name) == k
        ensures keys[k].name == fields[keys[k].index].name
        ensures forall j :: 0 <= j < keys[k].index ==> ToLower(fields[j].name) != k
      {
        if k in m {
          assert keys[k] == m[k];
          assert fields[m[k].index] == pre[m[k].index];
          forall j | 0 <= j < keys[k].index ensures ToLower(fields[j].name) != k {
            assert fields[j] == pre[j];
          }
        } else {
          assert k == key && keys[k].index == n;
          forall j | 0 <= j < n ensures ToLower(fields[j].name) != k {
            assert fields[j] == pre[j];
          }
        }
      }
    }
  }

  /** Some field's lower-cased name is the key. */
  predicate HasField(fs: seq<ParsedHeaderField>, key: string) {
    exists j :: 0 <= j < |fs| && ToLower(fs[j].name) == key
  }

  /** The index has a key exactly when some field has that lower-cased name. */
  lemma KeyPresent(fs: seq<ParsedHeaderField>, key: string)
    ensures key in KeyIndex(fs) <==> HasField(fs, key)
  {
    KeyIndexIsFirst(fs);
    if key in KeyIndex(fs) {
      assert ToLower(fs[KeyIndex(fs)[key].index].name) == key;
    }
  }

  /** The parsed header block. */
  function ParseHeaders(headers: string): ParsedMailHeaders {
    var fs := ParsedFields(headers);
    ParsedMailHeaders(KeyIndex(fs), fs)
  }

  /** The index invariant: every lower-cased name has an entry, and each entry points
      into `fields` at the first field with that lower-cased name. */
  predicate KeysIndexFirst(keys: map<string, KeyFieldSet>, fields: seq<ParsedHeaderField>) {
    && (forall j :: 0 <= j < |fields| ==> ToLower(fields[j].name) in keys)
    && (forall k :: k in keys ==>
         && 0 <= keys[k].index < |fields|
         && ToLower(fields[keys[k].index].name) == k
         && keys[k].name == fields[keys[k].index].name
         && (forall j :: 0 <= j < keys[k].index ==> ToLower(fields[j].name) != k))
  }

  /** NewParsedMailHeaders: parses the fields, then records each lower-cased name the
      first time it is met. */
  method NewParsedMailHeaders(headers: string) returns (h: ParsedMailHeaders)
    ensures h == ParseHeaders(headers)
  {
    var parsedFields := ParseField(headers);
    var keys: map<string, KeyFieldSet> := map[];
    var i := 0;
    while i < |parsedFields|
      invariant 0 <= i <= |parsedFields|
      invariant keys == KeyIndex(parsedFields[..i])
    {
      assert parsedFields[..i + 1][..i] == parsedFields[..i];
      var key := ToLower(parsedFields[i].name);
      if key !in keys {
        keys := keys[key := KeyFieldSet(i, parsedFields[i].name)];
      }
      i := i + 1;
    }
    assert parsedFields[..|parsedFields|] == parsedFields;
    h := ParsedMailHeaders(keys, parsedFields);
  }

  /** GetFieldValue: looks the key up verbatim and joins the field's values with single spaces. */
  function GetFieldValue(h: ParsedMailHeaders, key: string): (r: (string, bool))
    ensures !r.1 ==> r.0 == ""
    ensures r.1 <==> key in h.keys && 0 <= h.keys[key].index < |h.fields|
    ensures IsTrimmed(r.0)
  {
    if key !in h.keys then ("", false)
    else
      var index := h.keys[key].index;
      if index < 0 || index >= |h.fields| then ("", false)
      else
        TrimSpaceShape(Join(h.fields[index].values, " "));
        (TrimSpace(Join(h.fields[index].values, " ")), true)
  }

  /** On parsed headers, a key is found exactly when some field has that lower-cased
      name, and the value is taken from the first such field; later duplicates are
      never reached. */
  lemma GetFieldValueFindsFirst(headers: string, key: string)
    ensures var h := ParseHeaders(headers); var r := GetFieldValue(h, key);
      && (r.1 <==> exists j :: 0 <= j < |h.fields| && ToLower(h.fields[j].name) == key)
      && (r.1 ==> exists j :: 0 <= j < |h.fields|
                    && ToLower(h.fields[j].name) == key
                    && (forall i :: 0 <= i < j ==> ToLower(h.fields[i].name) != key)
                    && r.0 == TrimSpace(Join(h.fields[j].values, " ")))
  {
    var h := ParseHeaders(headers);
    KeyIndexIsFirst(h.fields);
    if key in h.keys {
      var j := h.keys[key].index;
      assert ToLower(h.fields[j].name) == key;
    }
  }

  /** The argument is not lower-cased: a key with an upper-case letter never matches. */
  lemma GetFieldValueIsCaseSensitive(headers: string, key: string)
    requires ToLower(key) != key
    ensures GetFieldValue(ParseHeaders(headers), key) == ("", false)
  {
    var h := ParseHeaders(headers);
    KeyIndexIsFirst(h.fields);
    if key in h.keys {
      var j := h.keys[key].index;
      ToLowerIdempotent(h.fields[j].name);
    }
  }
}
