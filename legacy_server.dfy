/** The older single-file server kept beside the package: its own message reader, its
    Status rewrite (which keeps the old line break and never reports "unchanged"), its
    mark-read handler and its listing (numbered by parsed messages, nothing filtered).
    The write-back, the sort and the content handler are the same as the package's and
    are shared with that model. */
module LegacyServer {
  import opened Text
  import opened MailLib
  import opened Mbox
  import opened FileStore
  import opened MessageParse
  import opened MailboxHandlers

  // ---------------------------------------------------------------------------
  // readMessages

  /** One scanned line: a "From " line closes a non-empty message and starts a new
      one with itself, or, when nothing is pending, is written to the pending text;
      every other line is written to the pending text. */
  function LegacyReadStep(st: Reading, line: string): Reading {
    if HasPrefix(line, FromPrefix) then
      if |st.current| > 0 then Reading(st.messages + [st.current], line + "\n")
      else Reading(st.messages, st.current + line + "\n")
    else Reading(st.messages, st.current + line + "\n")
  }

  function LegacyReadLines(lines: seq<string>): Reading {
    if lines == [] then Reading([], "")
    else LegacyReadStep(LegacyReadLines(lines[..|lines| - 1]), lines[|lines| - 1])
  }

  /** The older reader goes through the same states as the package's ReadMessages. */
  lemma {:induction false} LegacyReadLinesAgree(lines: seq<string>)
    ensures LegacyReadLines(lines) == ReadLines(lines)
  {
    if lines != [] {
      var n := |lines| - 1;
      LegacyReadLinesAgree(lines[..n]);
      var st := ReadLines(lines[..n]);
      var line := lines[n];
      if HasPrefix(line, FromPrefix) && |st.current| == 0 {
        assert st.current + line + "\n" == line + "\n";
      }
      assert LegacyReadStep(st, line) == ReadStep(st, line);
    }
  }

  lemma LegacyReadLinesStep(lines: seq<string>, i: nat)
    requires i < |lines|
    ensures LegacyReadLines(lines[..i + 1]) == LegacyReadStep(LegacyReadLines(lines[..i]), lines[i])
  {
    assert lines[..i + 1][..i] == lines[..i];
  }

  /** readMessages, over the lines the scanner yields: the same messages as the
      package's ReadMessages. */
  method LegacyReadMessages(lines: seq<string>) returns (messages: seq<string>)
    ensures messages == Messages(lines)
  {
    messages := [];
    var current := "";
    var i := 0;
    while i < |lines|
      invariant 0 <= i <= |lines|
      invariant Reading(messages, current) == LegacyReadLines(lines[..i])
    {
      LegacyReadLinesStep(lines, i);
      var line := lines[i];
      if HasPrefix(line, FromPrefix) {
        if |current| > 0 {
          messages := messages + [current];
          current := "";
        }
        current := current + line + "\n";
      } else {
        current := current + line + "\n";
      }
      i := i + 1;
    }
    assert lines[..i] == lines;
    LegacyReadLinesAgree(lines);
    if |current| > 0 {
      messages := messages + [current];
    }
  }

  // ---------------------------------------------------------------------------
  // updateStatusHeader

  /** The older updateStatusHeader: the text from the first "Status: " up to, not
      including, the end of its line becomes "Status: " + newStatus + "\n"; without a
      "Status: " a line break is added when missing and the status line appended. None
      where the Go code indexes an empty string and panics. */
  function LegacyUpdateStatusHeader(headers: string, newStatus: string): Option<string> {
    match StatusSpan(headers)
    case Some((start, end)) =>
      StatusSpanBounds(headers);
      Some(headers[..start] + StatusTag + newStatus + "\n" + headers[end..])
    case None =>
      if headers == [] then None
      else
        var text := if headers[|headers| - 1] != '\n' then headers + "\n" else headers;
        Some(text + StatusTag + newStatus + "\n")
  }

  /** A replaced status line keeps the line break that ended the old one, so a blank
      line follows the new status line; the header block of the rebuilt message then
      ends there, and the header lines after it are read as body. */
  lemma LegacyKeepsOldNewline(headers: string, newStatus: string, body: string)
    requires StatusSpan(headers).Some? && StatusSpan(headers).value.1 < |headers|
    ensures var (start, end) := StatusSpan(headers).value;
      var r := LegacyUpdateStatusHeader(headers, newStatus).value;
      var p := start + |StatusTag| + |newStatus|;
      && r == headers[..start] + StatusTag + newStatus + "\n\n" + headers[end + 1..]
      && OccursAt(r, "\n\n", p)
      && |SplitHeadersFromBody(r + "\n" + body).0| <= p + 1
  {
    var (start, end) := StatusSpan(headers).value;
    StatusSpanBounds(headers);
    LineEndSpec(headers, start);
    var r := LegacyUpdateStatusHeader(headers, newStatus).value;
    var p := start + |StatusTag| + |newStatus|;
    assert headers[end..] == "\n" + headers[end + 1..];
    assert r == headers[..start] + StatusTag + newStatus + "\n\n" + headers[end + 1..];
    assert r[p..p + 2] == "\n\n";
    var m := r + "\n" + body;
    assert m[p..p + 2] == r[p..p + 2];
    assert OccursAt(m, "\n\n", p);
    IndexOfSpec(m, "\n\n");
    var i := IndexOf(m, "\n\n");
    assert i != -1 && i <= p;
  }

  /** There is no "unchanged" case: the text always changes, even when the status read
      is already newStatus. */
  lemma LegacyAlwaysRewrites(headers: string, newStatus: string)
    requires LegacyUpdateStatusHeader(headers, newStatus).Some?
    ensures LegacyUpdateStatusHeader(headers, newStatus).value != headers
  {
    var r := LegacyUpdateStatusHeader(headers, newStatus).value;
    StatusSpanBounds(headers);
    match StatusSpan(headers)
    case Some((start, end)) =>
      LineEndSpec(headers, start);
      if |r| == |headers| {
        var q := start + |StatusTag| + |newStatus|;
        assert r[q] == '\n';
        assert headers[q] != '\n';
      }
    case None =>
      assert |r| > |headers|;
  }

  /** Without a "Status: " the older and the package versions append the same line, and
      fail on the same (empty) text. */
  lemma LegacyAgreesOnAppend(headers: string, newStatus: string)
    requires StatusSpan(headers).None?
    ensures LegacyUpdateStatusHeader(headers, newStatus).None? <==> UpdateStatusHeader(headers, newStatus).None?
    ensures LegacyUpdateStatusHeader(headers, newStatus).Some? ==>
      UpdateStatusHeader(headers, newStatus) == Some((LegacyUpdateStatusHeader(headers, newStatus).value, true))
  {
  }

  /** After the older rewrite the header text reads back the new (trimmed) status, also
      when the status line was the last line without a line break, where the package
      version panics. */
  lemma LegacyReadsBack(headers: string, newStatus: string)
    requires NoneOf(newStatus, '\n')
    requires LegacyUpdateStatusHeader(headers, newStatus).Some?
    ensures CurrentStatus(LegacyUpdateStatusHeader(headers, newStatus).value) == Some(TrimSpace(newStatus))
  {
    match StatusSpan(headers)
    case Some((start, end)) =>
      StatusSpanBounds(headers);
      IndexOfSpec(headers, StatusTag);
      var pre := headers[..start];
      var rest := headers[end..];
      var r := LegacyUpdateStatusHeader(headers, newStatus).value;
      assert r == pre + (StatusTag + newStatus + "\n" + rest);
      NoTagBefore(headers, start);
      NoEarlierTag(pre, StatusTag + newStatus + "\n" + rest);
      assert r[start..] == StatusTag + newStatus + "\n" + rest;
      ReadsStatus(r, start, newStatus, rest);
    case None =>
      AppendReadsBack(headers, newStatus);
  }

  // ---------------------------------------------------------------------------
  // markEmailReadHandler

  /** The message with its Status set to "RO" by the older rewrite. */
  function LegacyMarkedMessage(msg: string): Option<string> {
    var (envelopeLine, rest) := SplitAtFirstNewline(msg);
    var (headers, body) := SplitHeadersFromBody(rest);
    match LegacyUpdateStatusHeader(headers, "RO")
    case None => None
    case Some(newHeaders) => Some(envelopeLine + "\n" + newHeaders + "\n" + body)
  }

  /** What the older handler decides before touching any file; it never skips the
      write. */
  function LegacyPlan(files: map<string, string>, mboxPath: string, emailId: Option<int>): Plan {
    if emailId.None? then Reject(BadRequest)
    else if mboxPath !in files then Reject(NotFound)
    else
      var messages := MailboxMessages(files, mboxPath);
      var id := emailId.value;
      if id < 0 || id >= |messages| then Reject(BadRequest)
      else
        match LegacyMarkedMessage(messages[id])
        case None => Reject(Panicked)
        case Some(msg) => Write(messages[id := msg])
  }

  function LegacyOutcome(files: map<string, string>, mboxPath: string, emailId: Option<int>, faults: Faults): Outcome {
    match LegacyPlan(files, mboxPath, emailId)
    case Reject(outcome) => outcome
    case Keep => Ok
    case Write(messages) => if Commits(faults, |messages|) then Ok else ServerError
  }

  function LegacyFiles(files: map<string, string>, mboxPath: string, emailId: Option<int>, faults: Faults): map<string, string> {
    match LegacyPlan(files, mboxPath, emailId)
    case Write(messages) => if Commits(faults, |messages|) then files[mboxPath := Concat(messages)] else files
    case _ => files
  }

  /** markEmailReadHandler of the older server. */
  method LegacyMarkEmailReadHandler(fs: FileSystem, mboxPath: string, emailId: Option<int>,
                                    tempName: string, faults: Faults) returns (outcome: Outcome)
    requires tempName != mboxPath && tempName !in fs.files
    modifies fs
    ensures outcome == LegacyOutcome(old(fs.files), mboxPath, emailId, faults)
    ensures fs.files == LegacyFiles(old(fs.files), mboxPath, emailId, faults)
  {
    if emailId.None? {
      return BadRequest;
    }
    var id := emailId.value;
    if mboxPath !in fs.files {
      return NotFound;
    }
    var messages := LegacyReadMessages(ScanLines(fs.files[mboxPath]));
    if id < 0 || id >= |messages| {
      return BadRequest;
    }
    var (envelopeLine, rest) := SplitAtFirstNewline(messages[id]);
    var (headers, body) := SplitHeadersFromBody(rest);
    var newHeaders := LegacyUpdateStatusHeader(headers, "RO");
    if newHeaders.None? {
      return Panicked;
    }
    messages := messages[id := envelopeLine + "\n" + newHeaders.value + "\n" + body];
    var ok := WriteBack(fs, mboxPath, messages, tempName, faults);
    outcome := if ok then Ok else ServerError;
  }

  /** An id outside the list is refused; otherwise, barring a panic, the older handler
      rewrites the mailbox even when the message was already read: only the chosen
      message is replaced, by its envelope line, header text that differs from the old
      one, and its body. */
  lemma LegacyMarkAlwaysWrites(files: map<string, string>, mboxPath: string, id: int)
    requires mboxPath in files
    ensures var messages := MailboxMessages(files, mboxPath);
      var plan := LegacyPlan(files, mboxPath, Some(id));
      && ((id < 0 || id >= |messages|) <==> plan == Reject(BadRequest))
      && (0 <= id < |messages| && plan != Reject(Panicked) ==>
            var (envelopeLine, rest) := SplitAtFirstNewline(messages[id]);
            var (headers, body) := SplitHeadersFromBody(rest);
            && plan.Write? && |plan.messages| == |messages|
            && (forall k :: 0 <= k < |messages| && k != id ==> plan.messages[k] == messages[k])
            && LegacyUpdateStatusHeader(headers, "RO").Some?
            && var newHeaders := LegacyUpdateStatusHeader(headers, "RO").value;
               newHeaders != headers && plan.messages[id] == envelopeLine + "\n" + newHeaders + "\n" + body)
  {
    var messages := MailboxMessages(files, mboxPath);
    if 0 <= id < |messages| {
      var (envelopeLine, rest) := SplitAtFirstNewline(messages[id]);
      var (headers, body) := SplitHeadersFromBody(rest);
      if LegacyUpdateStatusHeader(headers, "RO").Some? {
        LegacyAlwaysRewrites(headers, "RO");
      }
    }
  }

  // ---------------------------------------------------------------------------
  // listEmailsHandler

  /** The older row for a parsed message: nothing is filtered, and a missing Status
      shows as "N". */
  function LegacyEntry(lib: Library, id: int, h: ListedHeader): Email {
    Email(id, DisplayAddresses(lib, h.from), h.date, DecodeOr(lib, h.subject),
          if h.status == "" then "N" else h.status, DateOf(lib, h.date))
  }

  /** The rows in reading order; the counter advances only for a parsed message. */
  function LegacyCollected(lib: Library, items: seq<ReadItem>): seq<Email> {
    if items == [] then []
    else
      var n := |items| - 1;
      var c := LegacyCollected(lib, items[..n]);
      match items[n]
      case Parsed(h) => c + [LegacyEntry(lib, |c|, h)]
      case _ => c
  }

  /** The headers of the parsed messages, in order. */
  function ParsedHeaders(items: seq<ReadItem>): seq<ListedHeader> {
    if items == [] then []
    else
      var n := |items| - 1;
      ParsedHeaders(items[..n]) + (if items[n].Parsed? then [items[n].header] else [])
  }

  function LegacyListing(lib: Library, items: seq<ReadItem>): seq<Email> {
    SortStable(LegacyCollected(lib, items))
  }

  lemma LegacyCollectedStep(lib: Library, items: seq<ReadItem>, i: nat)
    requires i < |items|
    ensures var c := LegacyCollected(lib, items[..i]);
      LegacyCollected(lib, items[..i + 1])
        == if items[i].Parsed? then c + [LegacyEntry(lib, |c|, items[i].header)] else c
  {
    assert items[..i + 1][..i] == items[..i];
  }

  /** listEmailsHandler of the older server, with the mbox reader's output given as the
      item sequence (None when the file cannot be opened). */
  method LegacyListEmailsHandler(lib: Library, mailbox: Option<seq<ReadItem>>) returns (outcome: Outcome, emails: seq<Email>)
    ensures mailbox.None? ==> outcome == NotFound && emails == []
    ensures mailbox.Some? ==> outcome == Ok && emails == LegacyListing(lib, mailbox.value)
  {
    if mailbox.None? {
      return NotFound, [];
    }
    var items := mailbox.value;
    emails := [];
    var i := 0;
    var k := 0;
    while k < |items|
      invariant 0 <= k <= |items|
      invariant emails == LegacyCollected(lib, items[..k])
      invariant i == |emails|
    {
      LegacyCollectedStep(lib, items, k);
      var item := items[k];
      k := k + 1;
      if item.ReadError? || item.ParseError? {
        continue;
      }
      var header := item.header;
      var decodedSubject := header.subject;
      match lib.decodeHeader(header.subject) {
        case Some(d) => decodedSubject := d;
        case None =>
      }
      var decodedFrom := DecodeAddressList(lib, header.from);
      var dateStr := header.date;
      var ts := ParseDate(lib, dateStr);
      var status := header.status;
      if status == "" {
        status := "N";
      }
      emails := emails + [Email(i, decodedFrom, dateStr, decodedSubject, status, ts)];
      i := i + 1;
    }
    assert items[..k] == items;
    emails := SortStable(emails);
    outcome := Ok;
  }

  /** The older rows are the parsed messages in order, row k numbered k: unreadable
      messages take no number, and a message marked "D" is listed too. */
  lemma {:induction false} LegacyCollectedSpec(lib: Library, items: seq<ReadItem>)
    ensures var c := LegacyCollected(lib, items);
      var hs := ParsedHeaders(items);
      && |c| == |hs|
      && (forall k :: 0 <= k < |c| ==> c[k] == LegacyEntry(lib, k, hs[k]) && c[k].id == k)
  {
    if items != [] {
      var n := |items| - 1;
      LegacyCollectedSpec(lib, items[..n]);
    }
  }

  /** When every message parses and none is marked "D", the older rows are the
      package's rows. */
  lemma {:induction false} LegacyAgreesWithoutSkips(lib: Library, items: seq<ReadItem>)
    requires forall k :: 0 <= k < |items| ==> items[k].Parsed? && items[k].header.status != "D"
    ensures LegacyCollected(lib, items) == Collected(lib, items)
  {
    if items != [] {
      var n := |items| - 1;
      LegacyAgreesWithoutSkips(lib, items[..n]);
      LegacyCollectedSpec(lib, items[..n]);
      CollectedLength(lib, items[..n]);
    }
  }

  /** Without skipped messages the package collects one row per message. */
  lemma {:induction false} CollectedLength(lib: Library, items: seq<ReadItem>)
    requires forall k :: 0 <= k < |items| ==> items[k].Parsed? && items[k].header.status != "D"
    ensures |Collected(lib, items)| == |items|
  {
    if items != [] {
      CollectedLength(lib, items[..|items| - 1]);
    }
  }

  /** The older listing is sorted with the same order as the package's: a permutation
      of its rows, newest first, zero times last, equal times by ascending id. */
  lemma LegacyListingOrder(lib: Library, items: seq<ReadItem>)
    ensures var r := LegacyListing(lib, items);
      && multiset(r) == multiset(LegacyCollected(lib, items))
      && Sorted(r)
  {
    SortStableSorted(LegacyCollected(lib, items));
  }
}
