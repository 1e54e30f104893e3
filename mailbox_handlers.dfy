/** The mailbox handlers of the server package: the Status update transaction with its
    write-to-temp-then-rename write-back, the mark-read and delete entry points, the
    message listing with its filter, numbering and order, and the selection of one
    message for display. The HTTP layer is reduced to an Outcome value. */
module MailboxHandlers {
  import opened Text
  import opened MailLib
  import opened Mbox
  import opened FileStore
  import opened MessageParse

  /** The response a handler ends with (the status code it writes, or a panic that the
      HTTP server recovers from). */
  datatype Outcome = Ok | BadRequest | NotFound | ServerError | Panicked

  /** Which file operations of the write-back fail: the temp-file creation, the write
      with index failingWrite (none when out of range), the explicit close, the rename. */
  datatype Faults = Faults(createFails: bool, failingWrite: int, closeFails: bool, renameFails: bool)

  // ---------------------------------------------------------------------------
  // updateStatusHandler

  /** The messages of the mailbox file at path, as ReadMessages gives them. */
  function MailboxMessages(files: map<string, string>, path: string): seq<string>
    requires path in files
  {
    Messages(ScanLines(files[path]))
  }

  /** The message with its Status header set, and whether it changed; None where
      updateStatusHeader panics. */
  function RewriteMessage(msg: string, status: string): Option<(string, bool)> {
    var (envelopeLine, rest) := SplitAtFirstNewline(msg);
    var (headers, body) := SplitHeadersFromBody(rest);
    match UpdateStatusHeader(headers, status)
    case None => None
    case Some((newHeaders, updated)) => Some((envelopeLine + "\n" + newHeaders + "\n" + body, updated))
  }

  /** What the handler decides before touching any file. */
  datatype Plan = Reject(outcome: Outcome) | Keep | Write(messages: seq<string>)

  function PlanUpdate(files: map<string, string>, mboxPath: string, emailId: Option<int>, status: string): Plan {
    if emailId.None? then Reject(BadRequest)
    else if mboxPath !in files then Reject(NotFound)
    else
      var messages := MailboxMessages(files, mboxPath);
      var id := emailId.value;
      if id < 0 || id >= |messages| then Reject(BadRequest)
      else
        match RewriteMessage(messages[id], status)
        case None => Reject(Panicked)
        case Some((msg, updated)) => if updated then Write(messages[id := msg]) else Keep
  }

  /** A write among the first n fails. */
  predicate WriteFails(faults: Faults, n: nat) {
    0 <= faults.failingWrite < n
  }

  /** Every step of a write-back of n messages succeeds. */
  predicate Commits(faults: Faults, n: nat) {
    !faults.createFails && !WriteFails(faults, n) && !faults.closeFails && !faults.renameFails
  }

  function UpdateOutcome(files: map<string, string>, mboxPath: string, emailId: Option<int>, status: string, faults: Faults): Outcome {
    match PlanUpdate(files, mboxPath, emailId, status)
    case Reject(outcome) => outcome
    case Keep => Ok
    case Write(messages) => if Commits(faults, |messages|) then Ok else ServerError
  }

  /** The directory after the handler. */
  function UpdatedFiles(files: map<string, string>, mboxPath: string, emailId: Option<int>, status: string, faults: Faults): map<string, string> {
    match PlanUpdate(files, mboxPath, emailId, status)
    case Write(messages) => if Commits(faults, |messages|) then files[mboxPath := Concat(messages)] else files
    case _ => files
  }

  /** The temp file renamed over the mailbox and then removed by the deferred call
      leaves the directory with only the mailbox replaced. */
  lemma RenamedOver(before: map<string, string>, temp: string, mboxPath: string, content: string)
    requires temp !in before && temp != mboxPath
    ensures ((before[temp := content] - {temp})[mboxPath := content]) - {temp} == before[mboxPath := content]
    ensures before[temp := content] - {temp} == before
  {
    assert ((before[temp := content] - {temp})[mboxPath := content]) - {temp} == before[mboxPath := content];
    assert before[temp := content] - {temp} == before;
  }

  /** The write-back: a new temp file gets every message in order, is closed and is
      renamed over the mailbox; on any failure the deferred Remove deletes it and the
      mailbox stays as it was. */
  method WriteBack(fs: FileSystem, mboxPath: string, messages: seq<string>, tempName: string, faults: Faults) returns (ok: bool)
    requires tempName != mboxPath && tempName !in fs.files
    modifies fs
    ensures ok == Commits(faults, |messages|)
    ensures fs.files == if ok then old(fs.files)[mboxPath := Concat(messages)] else old(fs.files)
  {
    ghost var before := fs.files;
    RenamedOver(before, tempName, mboxPath, Concat(messages));
    ok := fs.CreateTemp(tempName, faults.createFails);
    if !ok {
      return;
    }
    var i := 0;
    while i < |messages|
      invariant 0 <= i <= |messages|
      invariant !(0 <= faults.failingWrite < i)
      invariant fs.files == before[tempName := Concat(messages[..i])]
    {
      ConcatPrefixStep(messages, i);
      ok := fs.WriteString(tempName, messages[i], faults.failingWrite == i);
      if !ok {
        fs.Remove(tempName);
        RenamedOver(before, tempName, mboxPath, Concat(messages[..i]));
        return;
      }
      i := i + 1;
    }
    assert messages[..i] == messages;
    if faults.closeFails {
      fs.Remove(tempName);
      return false;
    }
    ok := fs.Rename(tempName, mboxPath, faults.renameFails);
    fs.Remove(tempName);
  }

  /** updateStatusHandler, with the mailbox path already encoded and joined, the id
      already converted (None when it is not a number), and the temp file's name and
      the file-operation failures given by the environment. */
  method UpdateStatusHandler(fs: FileSystem, mboxPath: string, emailId: Option<int>, status: string,
                             tempName: string, faults: Faults) returns (outcome: Outcome)
    requires tempName != mboxPath && tempName !in fs.files
    modifies fs
    ensures outcome == UpdateOutcome(old(fs.files), mboxPath, emailId, status, faults)
    ensures fs.files == UpdatedFiles(old(fs.files), mboxPath, emailId, status, faults)
  {
    if emailId.None? {
      return BadRequest;
    }
    var id := emailId.value;
    if mboxPath !in fs.files {
      return NotFound;
    }
    var messages := ReadMessages(ScanLines(fs.files[mboxPath]));
    if id < 0 || id >= |messages| {
      return BadRequest;
    }
    var (envelopeLine, rest) := SplitAtFirstNewline(messages[id]);
    var (headers, body) := SplitHeadersFromBody(rest);
    var update := UpdateStatusHeader(headers, status);
    if update.None? {
      return Panicked;
    }
    var (newHeaders, updated) := update.value;
    if !updated {
      return Ok;
    }
    messages := messages[id := envelopeLine + "\n" + newHeaders + "\n" + body];
    var ok := WriteBack(fs, mboxPath, messages, tempName, faults);
    outcome := if ok then Ok else ServerError;
  }

  /** markEmailReadHandler */
  method MarkEmailReadHandler(fs: FileSystem, mboxPath: string, emailId: Option<int>,
                              tempName: string, faults: Faults) returns (outcome: Outcome)
    requires tempName != mboxPath && tempName !in fs.files
    modifies fs
    ensures outcome == UpdateOutcome(old(fs.files), mboxPath, emailId, "RO", faults)
    ensures fs.files == UpdatedFiles(old(fs.files), mboxPath, emailId, "RO", faults)
  {
    outcome := UpdateStatusHandler(fs, mboxPath, emailId, "RO", tempName, faults);
  }

  /** deleteEmailHandler */
  method DeleteEmailHandler(fs: FileSystem, mboxPath: string, emailId: Option<int>,
                            tempName: string, faults: Faults) returns (outcome: Outcome)
    requires tempName != mboxPath && tempName !in fs.files
    modifies fs
    ensures outcome == UpdateOutcome(old(fs.files), mboxPath, emailId, "D", faults)
    ensures fs.files == UpdatedFiles(old(fs.files), mboxPath, emailId, "D", faults)
  {
    outcome := UpdateStatusHandler(fs, mboxPath, emailId, "D", tempName, faults);
  }

  /** An id outside the message list is refused and no file changes. */
  lemma BadIndexRejected(files: map<string, string>, mboxPath: string, id: int, status: string, faults: Faults)
    requires mboxPath in files
    requires id < 0 || id >= |MailboxMessages(files, mboxPath)|
    ensures UpdateOutcome(files, mboxPath, Some(id), status, faults) == BadRequest
    ensures UpdatedFiles(files, mboxPath, Some(id), status, faults) == files
  {
  }

  /** A message whose headers already carry the status is answered with success and
      nothing is written. */
  lemma UnchangedStatusWritesNothing(files: map<string, string>, mboxPath: string, id: int, status: string, faults: Faults)
    requires mboxPath in files
    requires 0 <= id < |MailboxMessages(files, mboxPath)|
    requires CurrentStatus(HeadersOf(MailboxMessages(files, mboxPath)[id])) == Some(status)
    ensures UpdateOutcome(files, mboxPath, Some(id), status, faults) == Ok
    ensures UpdatedFiles(files, mboxPath, Some(id), status, faults) == files
  {
    var msg := MailboxMessages(files, mboxPath)[id];
    UpdateStatusHeaderSpec(HeadersOf(msg), status);
  }

  /** A rewrite replaces only the chosen message: the list keeps its length and order,
      the other messages are as read, and the new one is the envelope line, the
      updated headers and the untouched body; it happens only when the status read
      differs, and the updated headers then read back the new (trimmed) status. */
  lemma RewriteReplacesOneMessage(files: map<string, string>, mboxPath: string, id: int, status: string)
    requires NoneOf(status, '\n')
    requires PlanUpdate(files, mboxPath, Some(id), status).Write?
    ensures mboxPath in files
    ensures var old_ := MailboxMessages(files, mboxPath);
      var new_ := PlanUpdate(files, mboxPath, Some(id), status).messages;
      var (envelopeLine, rest) := SplitAtFirstNewline(old_[id]);
      var (headers, body) := SplitHeadersFromBody(rest);
      && 0 <= id < |old_| == |new_|
      && (forall k :: 0 <= k < |old_| && k != id ==> new_[k] == old_[k])
      && CurrentStatus(headers) != Some(status)
      && UpdateStatusHeader(headers, status).Some?
      && var newHeaders := UpdateStatusHeader(headers, status).value.0;
         new_[id] == envelopeLine + "\n" + newHeaders + "\n" + body
         && CurrentStatus(newHeaders) == Some(TrimSpace(status))
  {
    var msg := MailboxMessages(files, mboxPath)[id];
    var (envelopeLine, rest) := SplitAtFirstNewline(msg);
    var (headers, body) := SplitHeadersFromBody(rest);
    UpdateStatusHeaderSpec(headers, status);
    UpdateReadsBack(headers, status);
  }

  /** The mailbox changes only through a committed rewrite, and then it holds all the
      messages in their order; no other path ever changes. */
  lemma OnlyCommittedWritesChangeFiles(files: map<string, string>, mboxPath: string, emailId: Option<int>, status: string, faults: Faults)
    ensures var after := UpdatedFiles(files, mboxPath, emailId, status, faults);
      var plan := PlanUpdate(files, mboxPath, emailId, status);
      && (after != files ==> plan.Write? && Commits(faults, |plan.messages|)
                              && after == files[mboxPath := Concat(plan.messages)])
      && (forall p :: p != mboxPath ==> (p in after <==> p in files))
      && (forall p :: p != mboxPath && p in files ==> after[p] == files[p])
      && (UpdateOutcome(files, mboxPath, emailId, status, faults) != Ok ==> after == files)
  {
  }

  /** Deleting writes a message whose headers read "D", and marking it read one whose
      headers read "RO", in each case only when the headers did not already say so. */
  lemma MarkAndDeleteStatuses(files: map<string, string>, mboxPath: string, id: int)
    ensures PlanUpdate(files, mboxPath, Some(id), "D").Write? ==>
      var h := HeadersOf(MailboxMessages(files, mboxPath)[id]);
      CurrentStatus(h) != Some("D") && CurrentStatus(UpdateStatusHeader(h, "D").value.0) == Some("D")
    ensures PlanUpdate(files, mboxPath, Some(id), "RO").Write? ==>
      var h := HeadersOf(MailboxMessages(files, mboxPath)[id]);
      CurrentStatus(h) != Some("RO") && CurrentStatus(UpdateStatusHeader(h, "RO").value.0) == Some("RO")
  {
    assert TrimSpace("D") == "D";
    WrittenStatusReads(files, mboxPath, id, "D");
    assert TrimSpace("RO") == "RO";
    WrittenStatusReads(files, mboxPath, id, "RO");
  }

  /** A written message's headers did not read the status before and read it after. */
  lemma WrittenStatusReads(files: map<string, string>, mboxPath: string, id: int, status: string)
    requires NoneOf(status, '\n') && TrimSpace(status) == status
    ensures PlanUpdate(files, mboxPath, Some(id), status).Write? ==>
      var h := HeadersOf(MailboxMessages(files, mboxPath)[id]);
      CurrentStatus(h) != Some(status) && CurrentStatus(UpdateStatusHeader(h, status).value.0) == Some(status)
  {
    if PlanUpdate(files, mboxPath, Some(id), status).Write? {
      RewriteReplacesOneMessage(files, mboxPath, id, status);
    }
  }

  // ---------------------------------------------------------------------------
  // listEmailsHandler

  /** The header values the listing reads (Get gives "" for a missing header). */
  datatype ListedHeader = ListedHeader(status: string, subject: string, from: string, date: string)

  /** What the mbox reader and net/mail yield for one message. */
  datatype ReadItem = ReadError | ParseError | Parsed(header: ListedHeader)

  /** One row of the listing. */
  datatype Email = Email(id: int, from: string, date: string, subject: string, status: string, timestamp: Time)

  /** The row for the message at position id, or None when it is skipped. */
  function ListEntry(lib: Library, id: int, item: ReadItem): Option<Email> {
    match item
    case ReadError => None
    case ParseError => None
    case Parsed(h) =>
      if h.status == "D" then None
      else
        Some(Email(id, DisplayAddresses(lib, h.from), h.date, DecodeOr(lib, h.subject),
                   if h.status == "" then "N" else h.status, DateOf(lib, h.date)))
  }

  /** The rows in reading order, each numbered by its position among all items. */
  function Collected(lib: Library, items: seq<ReadItem>): seq<Email> {
    if items == [] then []
    else
      var n := |items| - 1;
      Collected(lib, items[..n]) + (match ListEntry(lib, n, items[n]) case Some(e) => [e] case None => [])
  }

  /** The sort's less function: equal times by ascending id, the zero time after every
      other, otherwise the later time first. */
  predicate Before(a: Email, b: Email) {
    if a.timestamp == b.timestamp then a.id < b.id
    else if a.timestamp == ZeroTime then false
    else if b.timestamp == ZeroTime then true
    else a.timestamp > b.timestamp
  }

  /** e placed after every element it does not come before. */
  function Insert(e: Email, s: seq<Email>): seq<Email> {
    if s == [] then [e]
    else if Before(e, s[0]) then [e] + s
    else [s[0]] + Insert(e, s[1..])
  }

  /** sort.SliceStable with Before, as an insertion sort. */
  function SortStable(s: seq<Email>): seq<Email> {
    if s == [] then [] else Insert(s[|s| - 1], SortStable(s[..|s| - 1]))
  }

  /** No element comes before an earlier one. */
  predicate Sorted(s: seq<Email>) {
    forall i, j :: 0 <= i < j < |s| ==> !Before(s[j], s[i])
  }

  /** The listing the handler writes. */
  function Listing(lib: Library, items: seq<ReadItem>): seq<Email> {
    SortStable(Collected(lib, items))
  }

  lemma CollectedStep(lib: Library, items: seq<ReadItem>, i: nat)
    requires i < |items|
    ensures Collected(lib, items[..i + 1])
         == Collected(lib, items[..i]) + (match ListEntry(lib, i, items[i]) case Some(e) => [e] case None => [])
  {
    assert items[..i + 1][..i] == items[..i];
  }

  /** listEmailsHandler, with the mbox reader's output given as the item sequence (None
      when the file cannot be opened). */
  method ListEmailsHandler(lib: Library, mailbox: Option<seq<ReadItem>>) returns (outcome: Outcome, emails: seq<Email>)
    ensures mailbox.None? ==> outcome == NotFound && emails == []
    ensures mailbox.Some? ==> outcome == Ok && emails == Listing(lib, mailbox.value)
  {
    if mailbox.None? {
      return NotFound, [];
    }
    var items := mailbox.value;
    var rest := items;
    emails := [];
    var i := 0;
    while rest != []
      invariant 0 <= i <= |items|
      invariant rest == items[i..]
      invariant emails == Collected(lib, items[..i])
    {
      var item := rest[0];
      rest := rest[1..];
      CollectedStep(lib, items, i);
      assert item == items[i];
      if item.ReadError? || item.ParseError? {
        i := i + 1;
        continue;
      }
      var header := item.header;
      var status := header.status;
      if status == "D" {
        i := i + 1;
        continue;
      }
      if status == "" {
        status := "N";
      }
      var subject := header.subject;
      var decodedSubject := subject;
      match lib.decodeHeader(subject) {
        case Some(d) => decodedSubject := d;
        case None =>
      }
      var decodedFrom := DecodeAddressList(lib, header.from);
      var dateStr := header.date;
      var ts := ParseDate(lib, dateStr);
      emails := emails + [Email(i, decodedFrom, dateStr, decodedSubject, status, ts)];
      i := i + 1;
    }
    assert items[..i] == items;
    emails := SortStable(emails);
    outcome := Ok;
  }

  /** A row exists exactly for a message that was read and parsed and is not marked
      "D"; its id is the message's position, and a missing Status shows as "N". */
  lemma ListEntrySpec(lib: Library, id: int, item: ReadItem)
    ensures var r := ListEntry(lib, id, item);
      && (r.Some? <==> item.Parsed? && item.header.status != "D")
      && (r.Some? ==> r.value.id == id && r.value.status != "D" && r.value.status != ""
                      && (item.header.status == "" ==> r.value.status == "N")
                      && (item.header.status != "" ==> r.value.status == item.header.status)
                      && r.value.timestamp == DateOf(lib, item.header.date))
  {
  }

  /** Every collected row is the entry of the item at its id; ids rise strictly; and
      every item that has an entry is among the rows. */
  lemma CollectedSpec(lib: Library, items: seq<ReadItem>)
    ensures var c := Collected(lib, items);
      && (forall k :: 0 <= k < |c| ==> 0 <= c[k].id < |items| && ListEntry(lib, c[k].id, items[c[k].id]) == Some(c[k]))
      && (forall k, l :: 0 <= k < l < |c| ==> c[k].id < c[l].id)
      && (forall p :: 0 <= p < |items| && ListEntry(lib, p, items[p]).Some? ==> ListEntry(lib, p, items[p]).value in c)
  {
    CollectedEntries(lib, items);
    CollectedIdsRise(lib, items);
    CollectedComplete(lib, items);
  }

  /** The row appended for the last item, if any. */
  lemma CollectedSnoc(lib: Library, items: seq<ReadItem>)
    requires items != []
    ensures var n := |items| - 1;
      Collected(lib, items) == Collected(lib, items[..n]) + (match ListEntry(lib, n, items[n]) case Some(e) => [e] case None => [])
  {
  }

  lemma ListEntryId(lib: Library, id: int, item: ReadItem)
    ensures ListEntry(lib, id, item).Some? ==> ListEntry(lib, id, item).value.id == id
  {
    ListEntrySpec(lib, id, item);
  }

  lemma {:induction false} CollectedEntries(lib: Library, items: seq<ReadItem>)
    ensures var c := Collected(lib, items);
      forall k :: 0 <= k < |c| ==> 0 <= c[k].id < |items| && ListEntry(lib, c[k].id, items[c[k].id]) == Some(c[k])
  {
    if items != [] {
      var n := |items| - 1;
      var init := items[..n];
      CollectedEntries(lib, init);
      CollectedSnoc(lib, items);
      ListEntryId(lib, n, items[n]);
      var c0 := Collected(lib, init);
      forall k | 0 <= k < |c0| ensures ListEntry(lib, c0[k].id, items[c0[k].id]) == Some(c0[k]) {
        assert items[c0[k].id] == init[c0[k].id];
      }
    }
  }

  lemma {:induction false} CollectedIdsRise(lib: Library, items: seq<ReadItem>)
    ensures var c := Collected(lib, items);
      forall k, l :: 0 <= k < l < |c| ==> c[k].id < c[l].id
  {
    if items != [] {
      var n := |items| - 1;
      var init := items[..n];
      CollectedIdsRise(lib, init);
      CollectedEntries(lib, init);
      CollectedSnoc(lib, items);
      ListEntryId(lib, n, items[n]);
    }
  }

  lemma {:induction false} CollectedComplete(lib: Library, items: seq<ReadItem>)
    ensures var c := Collected(lib, items);
      forall p :: 0 <= p < |items| && ListEntry(lib, p, items[p]).Some? ==> ListEntry(lib, p, items[p]).value in c
  {
    if items != [] {
      var n := |items| - 1;
      var init := items[..n];
      CollectedComplete(lib, init);
      CollectedKeepsInit(lib, items);
      CollectedLastRow(lib, items);
      var c := Collected(lib, items);
      forall p | 0 <= p < |items| && ListEntry(lib, p, items[p]).Some? ensures ListEntry(lib, p, items[p]).value in c {
        if p < n {
          assert items[p] == init[p];
        }
      }
    }
  }

  /** The last item's row, when it has one, is among the rows. */
  lemma CollectedLastRow(lib: Library, items: seq<ReadItem>)
    requires items != []
    ensures var n := |items| - 1;
      ListEntry(lib, n, items[n]).Some? ==> ListEntry(lib, n, items[n]).value in Collected(lib, items)
  {
    CollectedSnoc(lib, items);
  }

  /** Rows collected from a prefix stay among the rows of the whole. */
  lemma CollectedKeepsInit(lib: Library, items: seq<ReadItem>)
    requires items != []
    ensures forall x :: x in Collected(lib, items[..|items| - 1]) ==> x in Collected(lib, items)
  {
    CollectedSnoc(lib, items);
  }

  /** The comparator is a strict weak order: irreflexive, transitive, and its
      incomparability is transitive. */
  lemma BeforeIsStrictWeakOrder(a: Email, b: Email, c: Email)
    ensures !Before(a, a)
    ensures Before(a, b) ==> !Before(b, a)
    ensures Before(a, b) && Before(b, c) ==> Before(a, c)
    ensures !Before(b, a) && !Before(c, b) ==> !Before(c, a)
  {
  }

  /** Insertion adds e and nothing else. */
  lemma {:induction false} InsertPermutes(e: Email, s: seq<Email>)
    ensures multiset(Insert(e, s)) == multiset(s) + multiset{e}
  {
    if s != [] && !Before(e, s[0]) {
      InsertPermutes(e, s[1..]);
      assert s == [s[0]] + s[1..];
    }
  }

  /** An element that no element of a sorted sequence comes before can lead it. */
  lemma ConsSorted(x: Email, r: seq<Email>)
    requires Sorted(r)
    requires forall j :: 0 <= j < |r| ==> !Before(r[j], x)
    ensures Sorted([x] + r)
  {
    forall i, j | 0 <= i < j < |r| + 1 ensures !Before(([x] + r)[j], ([x] + r)[i]) {
      if i > 0 {
        assert ([x] + r)[i] == r[i - 1];
      }
    }
  }

  lemma {:induction false} InsertSorted(e: Email, s: seq<Email>)
    requires Sorted(s)
    ensures Sorted(Insert(e, s))
  {
    if s == [] {
    } else if Before(e, s[0]) {
      forall j | 0 <= j < |s| ensures !Before(s[j], e) {
        BeforeIsStrictWeakOrder(s[j], e, s[0]);
      }
      ConsSorted(e, s);
    } else {
      var t := s[1..];
      InsertSorted(e, t);
      InsertPermutes(e, t);
      var r := Insert(e, t);
      forall j | 0 <= j < |r| ensures !Before(r[j], s[0]) {
        assert r[j] in multiset(t) + multiset{e};
        if r[j] != e {
          var q :| 0 <= q < |t| && t[q] == r[j];
          assert s[q + 1] == r[j];
        }
      }
      ConsSorted(s[0], r);
    }
  }

  /** The sort gives a sorted permutation of its input. */
  lemma {:induction false} SortStableSorted(s: seq<Email>)
    ensures Sorted(SortStable(s))
    ensures multiset(SortStable(s)) == multiset(s)
  {
    if s != [] {
      var n := |s| - 1;
      SortStableSorted(s[..n]);
      InsertSorted(s[n], SortStable(s[..n]));
      InsertPermutes(s[n], SortStable(s[..n]));
      assert s == s[..n] + [s[n]];
    }
  }

  /** The listing holds exactly the collected rows, newest first, zero times last, and
      rows with the same time in ascending id order. */
  lemma ListingOrder(lib: Library, items: seq<ReadItem>)
    ensures var r := Listing(lib, items);
      && multiset(r) == multiset(Collected(lib, items))
      && (forall i, j :: 0 <= i < j < |r| ==>
            && (r[i].timestamp == r[j].timestamp ==> r[i].id <= r[j].id)
            && (r[i].timestamp == ZeroTime ==> r[j].timestamp == ZeroTime)
            && (r[i].timestamp != r[j].timestamp && r[j].timestamp != ZeroTime ==> r[i].timestamp > r[j].timestamp))
  {
    SortStableSorted(Collected(lib, items));
  }

  // ---------------------------------------------------------------------------
  // emailContentHandler

  /** What the mbox reader and net/mail yield for one message when its body is wanted. */
  datatype ContentItem = ContentReadError | ContentParseError | ContentParsed(entity: Entity)

  /** The message the handler shows: walking from position i, a read error ends with a
      server error, the end of the mailbox with not found, and the parsed message at
      position emailId is the one chosen (positions count unparsable messages too). */
  datatype Selection = Selected(entity: Entity) | Missing | Broken

  function Select(items: seq<ContentItem>, emailId: int, i: nat): Selection
    decreases |items| - i
  {
    if i >= |items| then Missing
    else
      match items[i]
      case ContentReadError => Broken
      case ContentParseError => Select(items, emailId, i + 1)
      case ContentParsed(e) => if i == emailId then Selected(e) else Select(items, emailId, i + 1)
  }

  /** emailContentHandler, with the id already converted (None when not a number) and
      the reader's output given (None when the file cannot be opened). */
  method EmailContentHandler(lib: Library, emailId: Option<int>, mailbox: Option<seq<ContentItem>>)
    returns (outcome: Outcome, content: Option<Content>)
    ensures emailId.None? ==> outcome == BadRequest && content.None?
    ensures emailId.Some? && mailbox.None? ==> outcome == NotFound && content.None?
    ensures emailId.Some? && mailbox.Some? ==>
      match Select(mailbox.value, emailId.value, 0)
      case Selected(e) => outcome == Ok && content == Some(Walk(lib, e, Content("", "", [])))
      case Missing => outcome == NotFound && content.None?
      case Broken => outcome == ServerError && content.None?
  {
    if emailId.None? {
      return BadRequest, None;
    }
    if mailbox.None? {
      return NotFound, None;
    }
    var items := mailbox.value;
    var id := emailId.value;
    var i := 0;
    while true
      invariant 0 <= i <= |items|
      invariant Select(items, id, i) == Select(items, id, 0)
      decreases |items| - i
    {
      if i == |items| {
        return NotFound, None;
      }
      match items[i] {
        case ContentReadError =>
          return ServerError, None;
        case ContentParseError =>
        case ContentParsed(e) =>
          if i == id {
            var c := ParseMessageBody(lib, e);
            return Ok, Some(c);
          }
      }
      i := i + 1;
    }
  }

  /** A read error at position k is met before the message at emailId is chosen:
      no position from i up to k is that message in parsed form. */
  predicate BrokenAt(items: seq<ContentItem>, emailId: int, i: nat, k: int) {
    i <= k < |items| && items[k].ContentReadError?
    && forall j :: i <= j < k ==> !(j == emailId && items[j].ContentParsed?)
  }

  /** The chosen message is the parsed one at position emailId, provided no read error
      comes before it. A read error met before that message is chosen gives a server
      error; running out of messages without a read error and without the parsed
      message at emailId gives not found. */
  lemma {:induction false} SelectSpec(items: seq<ContentItem>, emailId: int, i: nat)
    requires i <= |items|
    ensures var s := Select(items, emailId, i);
      && (s.Selected? <==> i <= emailId < |items| && items[emailId].ContentParsed?
                           && forall k :: i <= k < emailId ==> !items[k].ContentReadError?)
      && (s.Selected? ==> items[emailId] == ContentParsed(s.entity))
      && (s.Broken? <==> exists k :: BrokenAt(items, emailId, i, k))
      && (s.Missing? <==> (forall k :: i <= k < |items| ==> !items[k].ContentReadError?)
                          && !(i <= emailId < |items| && items[emailId].ContentParsed?))
    decreases |items| - i
  {
    if i < |items| {
      SelectSpec(items, emailId, i + 1);
      var s := Select(items, emailId, i);
      if items[i].ContentReadError? {
        assert BrokenAt(items, emailId, i, i);
      } else if i == emailId && items[i].ContentParsed? {
        forall k | BrokenAt(items, emailId, i, k) ensures false {
        }
      } else {
        assert s == Select(items, emailId, i + 1);
        if s.Broken? {
          var k :| BrokenAt(items, emailId, i + 1, k);
          assert BrokenAt(items, emailId, i, k);
        }
        if exists k :: BrokenAt(items, emailId, i, k) {
          var k :| BrokenAt(items, emailId, i, k);
          assert BrokenAt(items, emailId, i + 1, k);
        }
      }
    }
  }
}
