/** The mboxfix command: validation of every message, the optional removal of messages
    marked deleted, normalisation and reassembly of the rest, the report text and the
    choice of destination, and the bounds check of the show mode. */
module MboxFix {
  import opened Text
  import opened MailLib
  import opened Mbox
  import opened HeaderParser
  import opened HeaderTypes
  import opened Uuid
  import Validator
  import Normalizer

  // ---------------------------------------------------------------------------
  // The remove-deleted filter

  /** A message whose Status header reads exactly "D". */
  predicate IsDeleted(msg: string) {
    GetFieldValue(ParseHeaders(HeadersOf(msg)), "status") == ("D", true)
  }

  predicate NotDeleted(msg: string) {
    !IsDeleted(msg)
  }

  /** The messages not marked deleted, in their order. */
  function Kept(messages: seq<string>): seq<string> {
    Filter(messages, NotDeleted)
  }

  /** The filtering loop of fixMessages. */
  method FilterDeleted(messages: seq<string>) returns (filtered: seq<string>)
    ensures filtered == Kept(messages)
  {
    filtered := [];
    var i := 0;
    while i < |messages|
      invariant 0 <= i <= |messages|
      invariant filtered == Filter(messages[..i], NotDeleted)
    {
      FilterStep(messages, NotDeleted, i);
      var message := messages[i];
      var (_, rest) := SplitAtFirstNewline(message);
      var (headers, _) := SplitHeadersFromBody(rest);
      var parsedHeaders := NewParsedMailHeaders(headers);
      var (status, exists_) := GetFieldValue(parsedHeaders, "status");
      if exists_ && status == "D" {
        i := i + 1;
        continue;
      }
      filtered := filtered + [message];
      i := i + 1;
    }
    assert messages[..i] == messages;
  }

  /** Exactly the messages not marked deleted are kept, in order: every kept message is
      one of the input's and is not deleted, every message not deleted is kept, with
      nothing deleted the list is unchanged, and filtering a concatenation filters each
      part. */
  lemma KeptSpec(messages: seq<string>, more: seq<string>)
    ensures var k := Kept(messages);
      && |k| <= |messages|
      && (forall j :: 0 <= j < |k| ==> k[j] in messages && !IsDeleted(k[j]))
      && (forall j :: 0 <= j < |messages| && !IsDeleted(messages[j]) ==> messages[j] in k)
      && ((forall j :: 0 <= j < |messages| ==> !IsDeleted(messages[j])) ==> k == messages)
      && Kept(messages + more) == k + Kept(more)
  {
    FilterSpec(messages, NotDeleted);
    FilterAppend(messages, more, NotDeleted);
  }

  // ---------------------------------------------------------------------------
  // Normalising and reassembling

  /** A message with its header block normalised: the envelope line, the rebuilt
      headers and the body, as fixMessages reassembles them. */
  function FixedMessage(msg: string, msgIndex: int, lib: Library, rnd: Random16): string {
    var (envelopeLine, rest) := SplitAtFirstNewline(msg);
    var (headers, body) := SplitHeadersFromBody(rest);
    envelopeLine + "\n" + Normalizer.Normalize(headers, msgIndex, lib, rnd).text + "\n" + body
  }

  /** The findings normalisation reports for a message. */
  function FixFindings(msg: string, msgIndex: int, lib: Library, rnd: Random16): seq<ValidationResult> {
    Normalizer.Normalize(HeadersOf(msg), msgIndex, lib, rnd).results
  }

  /** Every message fixed at its position; rnd gives the random bytes a message's new
      Message-ID would use. */
  function FixedMessages(messages: seq<string>, lib: Library, rnd: nat -> Random16): (r: seq<string>)
    ensures |r| == |messages|
  {
    seq(|messages|, k requires 0 <= k < |messages| => FixedMessage(messages[k], k, lib, rnd(k)))
  }

  /** The findings of each message, fixed at its position. */
  function FixFindingBlocks(messages: seq<string>, lib: Library, rnd: nat -> Random16): (r: seq<seq<ValidationResult>>)
    ensures |r| == |messages|
  {
    seq(|messages|, k requires 0 <= k < |messages| => FixFindings(messages[k], k, lib, rnd(k)))
  }

  /** The normalisation loop of fixMessages. */
  method NormalizeMessages(messages: seq<string>, lib: Library, rnd: nat -> Random16) returns (normalized: seq<string>, results: seq<ValidationResult>)
    ensures normalized == FixedMessages(messages, lib, rnd)
    ensures results == Concat(FixFindingBlocks(messages, lib, rnd))
  {
    ghost var fixed := FixedMessages(messages, lib, rnd);
    ghost var blocks := FixFindingBlocks(messages, lib, rnd);
    normalized, results := [], [];
    var i := 0;
    while i < |messages|
      invariant 0 <= i <= |messages|
      invariant normalized == fixed[..i]
      invariant results == Concat(blocks[..i])
    {
      ConcatPrefixStep(blocks, i);
      var (envelopeLine, rest) := SplitAtFirstNewline(messages[i]);
      var (headers, body) := SplitHeadersFromBody(rest);
      var normalizedMessage, msgResults := Normalizer.NormalizeHeaders(headers, i, lib, rnd(i));
      assert fixed[i] == envelopeLine + "\n" + normalizedMessage + "\n" + body;
      PrefixStep(fixed, i);
      normalized := normalized + [envelopeLine + "\n" + normalizedMessage + "\n" + body];
      results := results + msgResults;
      i := i + 1;
    }
    assert fixed[..i] == fixed;
    assert blocks[..i] == blocks;
  }

  /** Findings gathered block by block, where block k speaks of message base + k, name
      a message in range, never go back to an earlier message, and each lies in the
      block of its own message. */
  lemma {:induction false} FindingsByMessage(blocks: seq<seq<ValidationResult>>, base: int)
    requires forall k, j :: 0 <= k < |blocks| && 0 <= j < |blocks[k]| ==> blocks[k][j].msgIndex == base + k
    ensures var rs := Concat(blocks);
      && (forall j :: 0 <= j < |rs| ==>
            base <= rs[j].msgIndex < base + |blocks| && rs[j] in blocks[rs[j].msgIndex - base])
      && (forall j, l :: 0 <= j < l < |rs| ==> rs[j].msgIndex <= rs[l].msgIndex)
  {
    if blocks != [] {
      var tail := blocks[1..];
      FindingsByMessage(tail, base + 1);
      var rs := Concat(blocks);
      var b := blocks[0];
      assert rs == b + Concat(tail);
      forall j | 0 <= j < |rs| ensures base <= rs[j].msgIndex < base + |blocks| && rs[j] in blocks[rs[j].msgIndex - base] {
        if j < |b| {
          assert rs[j] == b[j];
        } else {
          assert rs[j] == Concat(tail)[j - |b|];
        }
      }
    }
  }

  /** Findings gathered block by block, where block k speaks of message k, name a
      message in range that they belong to, in nondecreasing order. */
  lemma FindingsInOrder(blocks: seq<seq<ValidationResult>>)
    requires forall k, j :: 0 <= k < |blocks| && 0 <= j < |blocks[k]| ==> blocks[k][j].msgIndex == k
    ensures var rs := Concat(blocks);
      && (forall j :: 0 <= j < |rs| ==>
            0 <= rs[j].msgIndex < |blocks| && rs[j] in blocks[rs[j].msgIndex])
      && (forall j, l :: 0 <= j < l < |rs| ==> rs[j].msgIndex <= rs[l].msgIndex)
  {
    FindingsByMessage(blocks, 0);
  }

  /** The findings of one message are "missing" reports carrying its position. */
  lemma FixFindingsAt(msg: string, msgIndex: int, lib: Library, rnd: Random16)
    ensures var rs := FixFindings(msg, msgIndex, lib, rnd);
      forall j :: 0 <= j < |rs| ==> rs[j].msgIndex == msgIndex && rs[j].status == StatusMissing
  {
    Normalizer.NormalizeFindings(HeadersOf(msg), msgIndex, lib, rnd);
  }

  /** The findings of fixMessages come message by message: each names a message in
      range and is one of that message's own findings, and the positions never
      decrease. */
  lemma FixFindingsInOrder(messages: seq<string>, lib: Library, rnd: nat -> Random16)
    ensures var blocks := FixFindingBlocks(messages, lib, rnd);
      var rs := Concat(blocks);
      && (forall j :: 0 <= j < |rs| ==>
            0 <= rs[j].msgIndex < |messages| && rs[j] in blocks[rs[j].msgIndex])
      && (forall j, l :: 0 <= j < l < |rs| ==> rs[j].msgIndex <= rs[l].msgIndex)
  {
    var blocks: seq<seq<ValidationResult>> := FixFindingBlocks(messages, lib, rnd);
    forall k | 0 <= k < |blocks|
      ensures forall j :: 0 <= j < |blocks[k]| ==> blocks[k][j].msgIndex == k
    {
      FixFindingsAt(messages[k], k, lib, rnd(k));
    }
    FindingsInOrder(blocks);
  }

  /** Fixing keeps the envelope line and the body: the fixed message splits back into
      the original envelope line, and it ends with the original body. */
  lemma FixedKeepsEnvelopeAndBody(msg: string, msgIndex: int, lib: Library, rnd: Random16)
    ensures var (envelopeLine, rest) := SplitAtFirstNewline(msg);
      var body := SplitHeadersFromBody(rest).1;
      var fixed := FixedMessage(msg, msgIndex, lib, rnd);
      && SplitAtFirstNewline(fixed).0 == envelopeLine
      && |body| <= |fixed| && fixed[|fixed| - |body|..] == body
  {
    var (envelopeLine, rest) := SplitAtFirstNewline(msg);
    var (headers, body) := SplitHeadersFromBody(rest);
    SplitAtFirstNewlineSpec(msg);
    RebuiltKeeps(envelopeLine, Normalizer.Normalize(headers, msgIndex, lib, rnd).text, body);
  }

  /** A message rebuilt from a newline-free envelope line, headers and a body splits
      back into that envelope line and ends with that body. */
  lemma RebuiltKeeps(envelopeLine: string, headers: string, body: string)
    requires NoneOf(envelopeLine, '\n')
    ensures var fixed := envelopeLine + "\n" + headers + "\n" + body;
      && SplitAtFirstNewline(fixed).0 == envelopeLine
      && |body| <= |fixed| && fixed[|fixed| - |body|..] == body
  {
    var tail := headers + "\n" + body;
    assert envelopeLine + "\n" + headers + "\n" + body == envelopeLine + "\n" + tail;
    SplitAtFirstNewlineJoin(envelopeLine, tail);
  }

  // ---------------------------------------------------------------------------
  // validateMessages

  /** The findings of each message, validated at its position. */
  function ValidationBlocks(messages: seq<string>, lib: Library): (r: seq<seq<ValidationResult>>)
    ensures |r| == |messages|
  {
    seq(|messages|, k requires 0 <= k < |messages| => Validator.Validate(HeadersOf(messages[k]), k, lib))
  }

  /** The collecting loop of validateMessages; the report is printed by OutputText. */
  method ValidateMessages(messages: seq<string>, lib: Library) returns (allResults: seq<ValidationResult>, report: string)
    ensures allResults == Concat(ValidationBlocks(messages, lib))
    ensures report == ReportText(allResults)
  {
    ghost var blocks := ValidationBlocks(messages, lib);
    allResults := [];
    var i := 0;
    while i < |messages|
      invariant 0 <= i <= |messages|
      invariant allResults == Concat(blocks[..i])
    {
      ConcatPrefixStep(blocks, i);
      var (_, rest) := SplitAtFirstNewline(messages[i]);
      var (headers, _) := SplitHeadersFromBody(rest);
      var results := Validator.ValidateHeaders(headers, i, lib);
      allResults := allResults + results;
      i := i + 1;
    }
    assert blocks[..i] == blocks;
    report := OutputText(allResults);
  }

  /** The findings of validateMessages come message by message: each names a message
      in range and is one of that message's own findings, and the positions never
      decrease. */
  lemma AllFindingsInOrder(messages: seq<string>, lib: Library)
    ensures var blocks := ValidationBlocks(messages, lib);
      var rs := Concat(blocks);
      && (forall j :: 0 <= j < |rs| ==>
            0 <= rs[j].msgIndex < |messages| && rs[j] in blocks[rs[j].msgIndex])
      && (forall j, l :: 0 <= j < l < |rs| ==> rs[j].msgIndex <= rs[l].msgIndex)
  {
    var blocks: seq<seq<ValidationResult>> := ValidationBlocks(messages, lib);
    forall k | 0 <= k < |blocks|
      ensures forall j :: 0 <= j < |blocks[k]| ==> blocks[k][j].msgIndex == k
    {
      Validator.FindingsAbout(ParseHeaders(HeadersOf(messages[k])), k, lib);
    }
    FindingsInOrder(blocks);
  }

  // ---------------------------------------------------------------------------
  // showMessage

  // ---------------------------------------------------------------------------
  // Reading the input

  /** How the command's start ends: the messages read, the "-path is required" exit,
      the "Failed to read mbox file" exit, or a panic. */
  datatype Start = Loaded(messages: seq<string>) | PathRequired | ReadFailed | Panicked

  /** The start as written. The input file is given as the lines the scanner yields,
      None when it cannot be opened. ReadMessages is called with a nil
      http.ResponseWriter, so an open failure reaches http.NotFound, which panics on
      the nil writer before ReadMessages returns. */
  function LoadInput(inputPath: string, file: Option<seq<string>>): (r: Start)
    ensures r.Loaded? ==> file.Some? && r.messages == Messages(file.value)
  {
    if inputPath == "" then PathRequired
    else
      match file
      case None => Panicked
      case Some(lines) => Loaded(Messages(lines))
  }

  /** The start as the check of ReadMessages' second result means it: an open failure
      ends with "Failed to read mbox file". */
  function LoadInputIntended(inputPath: string, file: Option<seq<string>>): (r: Start)
    ensures r.Loaded? ==> file.Some? && r.messages == Messages(file.value)
  {
    if inputPath == "" then PathRequired
    else
      match file
      case None => ReadFailed
      case Some(lines) => Loaded(Messages(lines))
  }

  /** As written, the "Failed to read mbox file" exit is never reached: an empty path
      stops first, a missing file panics, and a readable one is loaded. */
  lemma ReadFailedUnreachable(inputPath: string, file: Option<seq<string>>)
    ensures LoadInput(inputPath, file) != ReadFailed
    ensures inputPath != "" && file.None? <==> LoadInput(inputPath, file) == Panicked
    ensures LoadInput("mbox", None) == Panicked
  {
  }

  /** The intended start never panics: it ends with the read failure exactly when the
      file cannot be opened, and it agrees with the start as written everywhere else. */
  lemma LoadInputIntendedSpec(inputPath: string, file: Option<seq<string>>)
    ensures LoadInputIntended(inputPath, file) != Panicked
    ensures LoadInputIntended(inputPath, file) == PathRequired <==> inputPath == ""
    ensures LoadInputIntended(inputPath, file) == ReadFailed <==> inputPath != "" && file.None?
    ensures LoadInputIntended(inputPath, file).Loaded? <==> inputPath != "" && file.Some?
    ensures LoadInputIntended(inputPath, file) == LoadInput(inputPath, file) <==> !(inputPath != "" && file.None?)
  {
  }

  /** showMessage: the parsed headers of the chosen message, or None where the command
      stops with "Invalid message index". */
  method ShowMessage(messages: seq<string>, msgIndex: int) returns (shown: Option<ParsedMailHeaders>)
    ensures shown.None? <==> msgIndex < 0 || msgIndex >= |messages|
    ensures shown.Some? ==> shown.value == ParseHeaders(HeadersOf(messages[msgIndex]))
  {
    if msgIndex < 0 || msgIndex >= |messages| {
      return None;
    }
    var message := messages[msgIndex];
    var (_, rest) := SplitAtFirstNewline(message);
    var (headers, _) := SplitHeadersFromBody(rest);
    var parsed := NewParsedMailHeaders(headers);
    shown := Some(parsed);
  }

  // ---------------------------------------------------------------------------
  // outputText

  const NoErrors := "No validation errors found.\n"

  /** The line printed for one finding; a status it does not know prints nothing. */
  function ResultLine(r: ValidationResult): string {
    if r.status == StatusMissing then
      "Message " + IntToDecimal(r.msgIndex) + ": " + r.field + " header is missing\n"
    else if r.status == StatusInvalid then
      "Message " + IntToDecimal(r.msgIndex) + ": " + r.field + " header is invalid (" + r.detail + ")\n"
    else if r.status == StatusDeleted then
      "Message " + IntToDecimal(r.msgIndex) + ": Status = D (will be removed)\n"
    else ""
  }

  function ResultLines(rs: seq<ValidationResult>): string {
    if rs == [] then "" else ResultLines(rs[..|rs| - 1]) + ResultLine(rs[|rs| - 1])
  }

  /** What outputText prints. */
  function ReportText(rs: seq<ValidationResult>): string {
    if rs == [] then NoErrors else ResultLines(rs)
  }

  lemma ResultLinesStep(rs: seq<ValidationResult>, i: nat)
    requires i < |rs|
    ensures ResultLines(rs[..i + 1]) == ResultLines(rs[..i]) + ResultLine(rs[i])
  {
    assert rs[..i + 1][..i] == rs[..i];
  }

  /** outputText */
  method OutputText(results: seq<ValidationResult>) returns (out: string)
    ensures out == ReportText(results)
  {
    if |results| == 0 {
      return NoErrors;
    }
    out := "";
    var i := 0;
    while i < |results|
      invariant 0 <= i <= |results|
      invariant out == ResultLines(results[..i])
    {
      ResultLinesStep(results, i);
      var result := results[i];
      var index := IntToDecimal(result.msgIndex);
      if result.status == StatusMissing {
        out := out + ("Message " + index + ": " + result.field + " header is missing\n");
      } else if result.status == StatusInvalid {
        out := out + ("Message " + index + ": " + result.field + " header is invalid (" + result.detail + ")\n");
      } else if result.status == StatusDeleted {
        out := out + ("Message " + index + ": Status = D (will be removed)\n");
      }
      i := i + 1;
    }
    assert results[..i] == results;
  }

  /** Every finding line starts "Message " (nothing at all for an unknown status). */
  lemma {:induction false} ResultLinesStart(rs: seq<ValidationResult>)
    ensures var t := ResultLines(rs); t == "" || (|t| >= 8 && t[..8] == "Message ")
  {
    if rs != [] {
      var n := |rs| - 1;
      ResultLinesStart(rs[..n]);
      var t0 := ResultLines(rs[..n]);
      var line := ResultLine(rs[n]);
      assert ResultLines(rs) == t0 + line;
      if t0 != "" {
        assert (t0 + line)[..8] == t0[..8];
      } else {
        assert ResultLines(rs) == line;
      }
    }
  }

  /** "No validation errors found." is printed exactly when there are no findings. */
  lemma NoErrorsIffEmpty(rs: seq<ValidationResult>)
    ensures ReportText(rs) == NoErrors <==> rs == []
  {
    if rs != [] {
      ResultLinesStart(rs);
      assert NoErrors[0] == 'N';
    }
  }

  // ---------------------------------------------------------------------------
  // fixMessages

  /** Where fixMessages sends the messages: the file written (path and content), or the
      text printed to standard output. */
  datatype FixOutput = FixOutput(stdout: string, written: Option<(string, string)>)

  /** What fixMessages prints and writes. */
  function FixRun(messages: seq<string>, inputPath: string, inplace: bool, outPath: string,
                  dryRun: bool, removeDeleted: bool, quiet: bool, lib: Library, rnd: nat -> Random16): FixOutput {
    var kept := if removeDeleted then Kept(messages) else messages;
    var fixed := FixedMessages(kept, lib, rnd);
    var report := if quiet then "" else ReportText(Concat(FixFindingBlocks(kept, lib, rnd)));
    if dryRun then FixOutput(report, None)
    else if inplace then FixOutput(report, Some((inputPath, Concat(fixed))))
    else if outPath != "" then FixOutput(report, Some((outPath, Concat(fixed))))
    else FixOutput(report + Emit(fixed), None)
  }

  /** writeMessagesToFile: the file is created (or truncated) and receives the messages
      one after another; a failure ends the process and is not modelled. */
  method WriteMessagesToFile(messages: seq<string>, path: string) returns (written: (string, string))
    ensures written == (path, Concat(messages))
  {
    var content := "";
    var i := 0;
    while i < |messages|
      invariant 0 <= i <= |messages|
      invariant content == Concat(messages[..i])
    {
      ConcatPrefixStep(messages, i);
      content := content + messages[i];
      i := i + 1;
    }
    assert messages[..i] == messages;
    written := (path, content);
  }

  /** The fmt.Println loop: each message followed by "\n". */
  method PrintMessages(stdout: string, messages: seq<string>) returns (out: string)
    ensures out == stdout + Emit(messages)
  {
    out := stdout;
    var i := 0;
    while i < |messages|
      invariant 0 <= i <= |messages|
      invariant out == stdout + Emit(messages[..i])
    {
      assert messages[..i + 1] == messages[..i] + [messages[i]];
      EmitSnoc(messages[..i], messages[i]);
      out := out + (messages[i] + "\n");
      i := i + 1;
    }
    assert messages[..i] == messages;
  }

  /** fixMessages */
  method FixMessages(messages: seq<string>, inputPath: string, inplace: bool, outPath: string,
                     dryRun: bool, removeDeleted: bool, quiet: bool, lib: Library, rnd: nat -> Random16)
    returns (output: FixOutput)
    ensures output == FixRun(messages, inputPath, inplace, outPath, dryRun, removeDeleted, quiet, lib, rnd)
  {
    var msgs := messages;
    if removeDeleted {
      msgs := FilterDeleted(messages);
    }
    var normalizedMessages, allResults := NormalizeMessages(msgs, lib, rnd);
    var stdout := "";
    if !quiet {
      stdout := OutputText(allResults);
    }
    var written: Option<(string, string)> := None;
    if !dryRun {
      if inplace {
        var w := WriteMessagesToFile(normalizedMessages, inputPath);
        written := Some(w);
      } else if outPath != "" {
        var w := WriteMessagesToFile(normalizedMessages, outPath);
        written := Some(w);
      } else {
        stdout := PrintMessages(stdout, normalizedMessages);
      }
    }
    output := FixOutput(stdout, written);
  }

  /** With remove-deleted, the output holds one message for every message not marked
      deleted, in order, each fixed at its position after filtering; without it, one
      for every message. */
  lemma FixRunMessages(messages: seq<string>, removeDeleted: bool, lib: Library, rnd: nat -> Random16)
    ensures var kept := if removeDeleted then Kept(messages) else messages;
      var fixed := FixedMessages(kept, lib, rnd);
      && |fixed| == |kept|
      && (forall k :: 0 <= k < |kept| ==> fixed[k] == FixedMessage(kept[k], k, lib, rnd(k)))
      && (removeDeleted ==> forall k :: 0 <= k < |kept| ==> !IsDeleted(kept[k]) && kept[k] in messages)
      && (!removeDeleted ==> kept == messages)
  {
    var kept := if removeDeleted then Kept(messages) else messages;
    if removeDeleted {
      KeptSpec(messages, []);
    }
  }
}
