/** Header validation of the mboxheader package: required fields, the syntax of
    From, Date and Message-ID, and the "Status: D" deletion mark. */
module Validator {
  import opened Text
  import opened HeaderParser
  import opened HeaderTypes
  import opened MailLib
  import Uuid

  /** The index keys of the fields every message must carry, in reporting order. */
  const RequiredHeaders: seq<string> := ["from", "date", "message-id"]

  // ---------------------------------------------------------------------------
  // Field syntax

  /** isValidFrom: net/mail accepts the value as an address list. */
  predicate IsValidFrom(lib: Library, from: string) {
    lib.parseAddressList(from).Some?
  }

  /** isValidDate: net/mail accepts the value as a date. */
  predicate IsValidDate(lib: Library, date: string) {
    lib.parseDate(date).Some?
  }

  /** The position of the first '@' in s, or |s| when there is none. */
  function FirstAt(s: string): (k: nat)
    ensures k <= |s|
  {
    if s == [] then 0 else if s[0] == '@' then 0 else 1 + FirstAt(s[1..])
  }

  lemma {:induction false} FirstAtSpec(s: string)
    ensures FirstAt(s) < |s| ==> s[FirstAt(s)] == '@'
    ensures forall i :: 0 <= i < FirstAt(s) ==> s[i] != '@'
  {
    if s != [] && s[0] != '@' {
      FirstAtSpec(s[1..]);
    }
  }

  /** One or more characters, none of them '<', '>' or '@': the class [^<>@]+. */
  predicate IdAtom(s: string) {
    |s| >= 1 && forall i :: 0 <= i < |s| ==> s[i] != '<' && s[i] != '>' && s[i] != '@'
  }

  /** messageIDRegex.MatchString for ^<[^<>@]+@[^<>@]+>$: angle brackets around an
      atom, the first '@' and another atom. */
  predicate MatchesMessageIdPattern(s: string) {
    && |s| >= 2 && s[0] == '<' && s[|s| - 1] == '>'
    && var inner := s[1..|s| - 1];
       var k := FirstAt(inner);
       k < |inner| && IdAtom(inner[..k]) && IdAtom(inner[k + 1..])
  }

  /** strings.Trim(s, "<>") */
  function TrimAngles(s: string): string {
    TrimRight(TrimLeft(s, Angles), Angles)
  }

  /** isValidMessageID: the value with its surrounding angle brackets removed, put back
      inside one pair, matches the pattern. */
  predicate IsValidMessageID(msgId: string) {
    MatchesMessageIdPattern("<" + TrimAngles(msgId) + ">")
  }

  /** The matcher accepts exactly the strings "<a@b>" with a and b atoms. */
  lemma MatchesMessageIdPatternIff(s: string)
    ensures MatchesMessageIdPattern(s) <==>
      exists a, b :: IdAtom(a) && IdAtom(b) && s == "<" + a + "@" + b + ">"
  {
    if MatchesMessageIdPattern(s) {
      var inner := s[1..|s| - 1];
      var k := FirstAt(inner);
      PatternSplitsAtAt(s);
      var a, b := inner[..k], inner[k + 1..];
      assert IdAtom(a) && IdAtom(b) && s == "<" + a + "@" + b + ">";
    }
    if exists a, b :: IdAtom(a) && IdAtom(b) && s == "<" + a + "@" + b + ">" {
      var a, b :| IdAtom(a) && IdAtom(b) && s == "<" + a + "@" + b + ">";
      AtomsSplitAtAt(s, a, b);
    }
  }

  /** A matching string is its inner text split at the first '@', in angle brackets. */
  lemma PatternSplitsAtAt(s: string)
    requires MatchesMessageIdPattern(s)
    ensures var inner := s[1..|s| - 1];
      var k := FirstAt(inner);
      && k < |inner| && inner == inner[..k] + "@" + inner[k + 1..]
      && s == "<" + inner[..k] + "@" + inner[k + 1..] + ">"
  {
    var inner := s[1..|s| - 1];
    var k := FirstAt(inner);
    FirstAtSpec(inner);
    assert inner == inner[..k] + [inner[k]] + inner[k + 1..];
    assert s == [s[0]] + inner + [s[|s| - 1]];
  }

  lemma AtomsSplitAtAt(s: string, a: string, b: string)
    requires IdAtom(a) && IdAtom(b) && s == "<" + a + "@" + b + ">"
    ensures MatchesMessageIdPattern(s)
  {
    var inner := s[1..|s| - 1];
    assert inner == a + "@" + b;
    var n := |a|;
    FirstAtSpec(inner);
    assert inner[n] == '@';
    assert FirstAt(inner) == n;
    assert inner[..n] == a;
    assert inner[n + 1..] == b;
  }

  /** A Message-ID is valid exactly when, without its surrounding angle brackets, it
      is an atom, '@' and another atom. */
  lemma IsValidMessageIDIff(msgId: string)
    ensures IsValidMessageID(msgId) <==>
      exists a, b :: IdAtom(a) && IdAtom(b) && TrimAngles(msgId) == a + "@" + b
  {
    var t := TrimAngles(msgId);
    var s := "<" + t + ">";
    if IsValidMessageID(msgId) {
      PatternSplitsAtAt(s);
      assert s[1..|s| - 1] == t;
      var k := FirstAt(t);
      assert IdAtom(t[..k]) && IdAtom(t[k + 1..]) && t == t[..k] + "@" + t[k + 1..];
    }
    if exists a, b :: IdAtom(a) && IdAtom(b) && t == a + "@" + b {
      var a, b :| IdAtom(a) && IdAtom(b) && t == a + "@" + b;
      assert s == "<" + a + "@" + b + ">";
      AtomsSplitAtAt(s, a, b);
    }
  }

  /** The Message-ID the normaliser synthesises passes validation. */
  lemma SynthesizedMessageIdValid(uuid: string)
    requires Uuid.UuidShape(uuid)
    ensures IsValidMessageID("<" + uuid + "@mboxfix>")
  {
    var v := "<" + uuid + "@mboxfix>";
    var t := uuid + "@mboxfix";
    Uuid.GroupsShapeChars(uuid, [4, 2, 2, 2, 6]);
    assert |uuid| >= 1 by {
      assert |uuid| > 8;
    }
    assert v[1..] == t + ">";
    assert TrimLeft(v, Angles) == TrimLeft(t + ">", Angles);
    assert TrimLeft(t + ">", Angles) == t + ">" by {
      assert (t + ">")[0] == uuid[0];
    }
    assert (t + ">")[..|t|] == t;
    assert TrimRight(t + ">", Angles) == TrimRight(t, Angles);
    assert TrimRight(t, Angles) == t by {
      assert t[|t| - 1] == 'x';
    }
    assert TrimAngles(v) == t;
    assert IdAtom(uuid);
    assert IdAtom("mboxfix");
    IsValidMessageIDIff(v);
  }

  // ---------------------------------------------------------------------------
  // ValidateHeaders

  /** The findings with r appended when cond holds. */
  function AddIf(rs: seq<ValidationResult>, cond: bool, r: ValidationResult): seq<ValidationResult> {
    if cond then rs + [r] else rs
  }

  /** The "missing" findings for RequiredHeaders[..n], in order. */
  function MissingPrefix(h: ParsedMailHeaders, msgIndex: int, n: nat): seq<ValidationResult>
    requires n <= |RequiredHeaders|
  {
    if n == 0 then []
    else
      var key := RequiredHeaders[n - 1];
      AddIf(MissingPrefix(h, msgIndex, n - 1), key !in h.keys, ValidationResult(msgIndex, key, StatusMissing, ""))
  }

  /** The three syntax checks. */
  datatype Check = FromCheck | DateCheck | IdCheck

  function CheckKey(c: Check): string {
    match c
    case FromCheck => "from"
    case DateCheck => "date"
    case IdCheck => "message-id"
  }

  function CheckName(c: Check): string {
    match c
    case FromCheck => "From"
    case DateCheck => "Date"
    case IdCheck => "Message-ID"
  }

  function CheckDetail(c: Check): string {
    match c
    case FromCheck => "Invalid From address format"
    case DateCheck => "Invalid Date format"
    case IdCheck => "Invalid Message-ID format"
  }

  predicate Passes(lib: Library, c: Check, value: string) {
    match c
    case FromCheck => IsValidFrom(lib, value)
    case DateCheck => IsValidDate(lib, value)
    case IdCheck => IsValidMessageID(value)
  }

  /** The field is present and its value fails the check. */
  predicate FailsCheck(h: ParsedMailHeaders, lib: Library, c: Check) {
    var (value, found) := GetFieldValue(h, CheckKey(c));
    found && !Passes(lib, c, value)
  }

  /** The "invalid" report for a check. */
  function InvalidFinding(msgIndex: int, c: Check): ValidationResult {
    ValidationResult(msgIndex, CheckName(c), StatusInvalid, CheckDetail(c))
  }

  /** The findings with an "invalid" report added when the field fails its check. */
  function ReportInvalid(rs: seq<ValidationResult>, h: ParsedMailHeaders, lib: Library,
                         msgIndex: int, c: Check): seq<ValidationResult> {
    AddIf(rs, FailsCheck(h, lib, c), InvalidFinding(msgIndex, c))
  }

  /** The Status field's value is exactly "D". */
  predicate MarkedDeleted(h: ParsedMailHeaders) {
    GetFieldValue(h, "status") == ("D", true)
  }

  /** The findings with a "deleted" report added for "Status: D". */
  function ReportDeleted(rs: seq<ValidationResult>, h: ParsedMailHeaders, msgIndex: int): seq<ValidationResult> {
    AddIf(rs, MarkedDeleted(h), ValidationResult(msgIndex, "Status", StatusDeleted, ""))
  }

  /** What ValidateHeaders returns. */
  function Validate(headers: string, msgIndex: int, lib: Library): seq<ValidationResult> {
    Findings(ParseHeaders(headers), msgIndex, lib)
  }

  /** The findings for parsed headers. */
  function Findings(h: ParsedMailHeaders, msgIndex: int, lib: Library): seq<ValidationResult> {
    var r0 := MissingPrefix(h, msgIndex, |RequiredHeaders|);
    var r1 := ReportInvalid(r0, h, lib, msgIndex, FromCheck);
    var r2 := ReportInvalid(r1, h, lib, msgIndex, DateCheck);
    var r3 := ReportInvalid(r2, h, lib, msgIndex, IdCheck);
    ReportDeleted(r3, h, msgIndex)
  }

  /** One syntax check, with the field's value already looked up. */
  lemma ReportInvalidStep(rs: seq<ValidationResult>, h: ParsedMailHeaders, lib: Library,
                          msgIndex: int, c: Check, value: string, found: bool)
    requires (value, found) == GetFieldValue(h, CheckKey(c))
    ensures ReportInvalid(rs, h, lib, msgIndex, c)
      == if found && !Passes(lib, c, value)
         then rs + [ValidationResult(msgIndex, CheckName(c), StatusInvalid, CheckDetail(c))]
         else rs
  {
  }

  /** The deletion check, with the Status value already looked up. */
  lemma ReportDeletedStep(rs: seq<ValidationResult>, h: ParsedMailHeaders, msgIndex: int,
                          status: string, found: bool)
    requires (status, found) == GetFieldValue(h, "status")
    ensures ReportDeleted(rs, h, msgIndex)
      == if found && status == "D" then rs + [ValidationResult(msgIndex, "Status", StatusDeleted, "")] else rs
  {
  }

  /** ValidateHeaders */
  method ValidateHeaders(headers: string, msgIndex: int, lib: Library) returns (results: seq<ValidationResult>)
    ensures results == Validate(headers, msgIndex, lib)
  {
    results := [];
    var parsedHeaders := NewParsedMailHeaders(headers);
    var i := 0;
    while i < |RequiredHeaders|
      invariant 0 <= i <= |RequiredHeaders|
      invariant results == MissingPrefix(parsedHeaders, msgIndex, i)
    {
      var headerName := RequiredHeaders[i];
      if headerName !in parsedHeaders.keys {
        results := results + [ValidationResult(msgIndex, headerName, StatusMissing, "")];
      }
      i := i + 1;
    }
    ghost var r0 := results;
    var (from, fromFound) := GetFieldValue(parsedHeaders, "from");
    ReportInvalidStep(r0, parsedHeaders, lib, msgIndex, FromCheck, from, fromFound);
    if fromFound && !IsValidFrom(lib, from) {
      results := results + [ValidationResult(msgIndex, "From", StatusInvalid, "Invalid From address format")];
    }
    assert results == ReportInvalid(r0, parsedHeaders, lib, msgIndex, FromCheck);
    ghost var r1 := results;
    var (date, dateFound) := GetFieldValue(parsedHeaders, "date");
    ReportInvalidStep(r1, parsedHeaders, lib, msgIndex, DateCheck, date, dateFound);
    if dateFound && !IsValidDate(lib, date) {
      results := results + [ValidationResult(msgIndex, "Date", StatusInvalid, "Invalid Date format")];
    }
    assert results == ReportInvalid(r1, parsedHeaders, lib, msgIndex, DateCheck);
    ghost var r2 := results;
    var (msgId, idFound) := GetFieldValue(parsedHeaders, "message-id");
    ReportInvalidStep(r2, parsedHeaders, lib, msgIndex, IdCheck, msgId, idFound);
    if idFound && !IsValidMessageID(msgId) {
      results := results + [ValidationResult(msgIndex, "Message-ID", StatusInvalid, "Invalid Message-ID format")];
    }
    assert results == ReportInvalid(r2, parsedHeaders, lib, msgIndex, IdCheck);
    ghost var r3 := results;
    var (status, statusFound) := GetFieldValue(parsedHeaders, "status");
    ReportDeletedStep(r3, parsedHeaders, msgIndex, status, statusFound);
    if statusFound && status == "D" {
      results := results + [ValidationResult(msgIndex, "Status", StatusDeleted, "")];
    }
  }

  // ---------------------------------------------------------------------------
  // What the findings say

  /** The fields named by the findings of one status, in order. */
  function Named(rs: seq<ValidationResult>, status: string): seq<string> {
    if rs == [] then []
    else
      var last := rs[|rs| - 1];
      Named(rs[..|rs| - 1], status) + (if last.status == status then [last.field] else [])
  }

  lemma NamedSnoc(rs: seq<ValidationResult>, r: ValidationResult, status: string)
    ensures Named(rs + [r], status) == Named(rs, status) + (if r.status == status then [r.field] else [])
  {
    assert (rs + [r])[..|rs|] == rs;
  }

  /** The report order: missing, then invalid, then deleted. */
  function StatusRank(status: string): nat {
    if status == StatusMissing then 0 else if status == StatusInvalid then 1 else 2
  }

  /** A finding ValidateHeaders can produce. */
  predicate Reported(status: string) {
    status == StatusMissing || status == StatusInvalid || status == StatusDeleted
  }

  /** Every finding is about this message and has a reported status, and the ranks
      never decrease, ending at most at `bound`. */
  predicate Ordered(rs: seq<ValidationResult>, msgIndex: int, bound: nat) {
    rs == [] ||
      var last := rs[|rs| - 1];
      && last.msgIndex == msgIndex && Reported(last.status) && StatusRank(last.status) <= bound
      && Ordered(rs[..|rs| - 1], msgIndex, StatusRank(last.status))
  }

  /** Ordered, read finding by finding and pair by pair. */
  lemma {:induction false} OrderedMeans(rs: seq<ValidationResult>, msgIndex: int, bound: nat)
    requires Ordered(rs, msgIndex, bound)
    ensures forall k :: 0 <= k < |rs| ==>
              rs[k].msgIndex == msgIndex && Reported(rs[k].status) && StatusRank(rs[k].status) <= bound
    ensures forall k, l :: 0 <= k < l < |rs| ==> StatusRank(rs[k].status) <= StatusRank(rs[l].status)
  {
    if rs != [] {
      var init := rs[..|rs| - 1];
      var last := rs[|rs| - 1];
      OrderedMeans(init, msgIndex, StatusRank(last.status));
      forall k | 0 <= k < |init| ensures rs[k] == init[k] { }
    }
  }

  lemma OrderedSnoc(rs: seq<ValidationResult>, msgIndex: int, bound: nat, r: ValidationResult)
    requires Ordered(rs, msgIndex, bound)
    requires r.msgIndex == msgIndex && Reported(r.status) && StatusRank(r.status) == bound
    ensures Ordered(rs + [r], msgIndex, bound)
  {
    assert (rs + [r])[..|rs|] == rs;
  }

  /** The three reported statuses are different words. */
  lemma StatusesDiffer()
    ensures StatusMissing != StatusInvalid && StatusMissing != StatusDeleted && StatusInvalid != StatusDeleted
    ensures StatusRank(StatusMissing) == 0 && StatusRank(StatusInvalid) == 1 && StatusRank(StatusDeleted) == 2
  {
    assert StatusMissing[0] == 'm' && StatusInvalid[0] == 'i' && StatusDeleted[0] == 'd';
  }

  /** A conditional report names its field under its own status exactly when made. */
  lemma AddIfSame(rs: seq<ValidationResult>, cond: bool, r: ValidationResult)
    ensures Named(AddIf(rs, cond, r), r.status) == Named(rs, r.status) + (if cond then [r.field] else [])
  {
    if cond {
      NamedSnoc(rs, r, r.status);
    } else {
      assert Named(rs, r.status) + [] == Named(rs, r.status);
    }
  }

  /** A conditional report leaves the findings of every other status alone. */
  lemma AddIfOther(rs: seq<ValidationResult>, cond: bool, r: ValidationResult, status: string)
    requires r.status != status
    ensures Named(AddIf(rs, cond, r), status) == Named(rs, status)
  {
    if cond {
      NamedSnoc(rs, r, status);
      assert Named(rs, status) + [] == Named(rs, status);
    }
  }

  /** A conditional report of the current rank keeps the findings in order. */
  lemma AddIfOrdered(rs: seq<ValidationResult>, cond: bool, r: ValidationResult, msgIndex: int, bound: nat)
    requires Ordered(rs, msgIndex, bound)
    requires r.msgIndex == msgIndex && Reported(r.status) && StatusRank(r.status) == bound
    ensures Ordered(AddIf(rs, cond, r), msgIndex, bound)
  {
    if cond {
      OrderedSnoc(rs, msgIndex, bound, r);
    }
  }

  /** The keys, in order, that no field carries. */
  function AbsentAmong(fs: seq<ParsedHeaderField>, keys: seq<string>): seq<string> {
    if keys == [] then []
    else
      var key := keys[|keys| - 1];
      AbsentAmong(fs, keys[..|keys| - 1]) + (if HasField(fs, key) then [] else [key])
  }

  /** A key is listed exactly when it is among the keys and no field carries it. */
  lemma {:induction false} AbsentAmongIn(fs: seq<ParsedHeaderField>, keys: seq<string>, x: string)
    ensures x in AbsentAmong(fs, keys) <==> x in keys && !HasField(fs, x)
  {
    if keys != [] {
      var init := keys[..|keys| - 1];
      AbsentAmongIn(fs, init, x);
      assert keys == init + [keys[|keys| - 1]];
    }
  }

  /** The last key of AbsentAmong, stated with a plain boolean for its presence. */
  lemma AbsentAmongStep(fs: seq<ParsedHeaderField>, keys: seq<string>, n: nat, absent: bool)
    requires 0 < n <= |keys|
    requires absent == !HasField(fs, keys[n - 1])
    ensures AbsentAmong(fs, keys[..n]) == AbsentAmong(fs, keys[..n - 1]) + (if absent then [keys[n - 1]] else [])
  {
    assert keys[..n][..n - 1] == keys[..n - 1];
  }

  /** The loop over requiredHeaders lists the absent keys, in order, as missing. */
  lemma {:induction false} MissingPrefixNamed(h: ParsedMailHeaders, msgIndex: int, n: nat)
    requires h.keys == KeyIndex(h.fields)
    requires n <= |RequiredHeaders|
    ensures var rs := MissingPrefix(h, msgIndex, n);
      && Named(rs, StatusMissing) == AbsentAmong(h.fields, RequiredHeaders[..n])
      && Named(rs, StatusInvalid) == [] && Named(rs, StatusDeleted) == []
      && Ordered(rs, msgIndex, 0)
  {
    if n > 0 {
      MissingPrefixNamed(h, msgIndex, n - 1);
      var rs := MissingPrefix(h, msgIndex, n - 1);
      var key := RequiredHeaders[n - 1];
      var absent := key !in h.keys;
      KeyPresent(h.fields, key);
      AbsentAmongStep(h.fields, RequiredHeaders, n, absent);
      var x := ValidationResult(msgIndex, key, StatusMissing, "");
      StatusesDiffer();
      AddIfSame(rs, absent, x);
      AddIfOther(rs, absent, x, StatusInvalid);
      AddIfOther(rs, absent, x, StatusDeleted);
      AddIfOrdered(rs, absent, x, msgIndex, 0);
    }
  }

  /** A check adds its field's name to the invalid findings exactly when it fails. */
  lemma ReportInvalidNamed(rs: seq<ValidationResult>, h: ParsedMailHeaders, lib: Library, msgIndex: int, c: Check)
    requires Ordered(rs, msgIndex, 1)
    ensures var r := ReportInvalid(rs, h, lib, msgIndex, c);
      && Named(r, StatusMissing) == Named(rs, StatusMissing)
      && Named(r, StatusInvalid) == Named(rs, StatusInvalid) + (if FailsCheck(h, lib, c) then [CheckName(c)] else [])
      && Named(r, StatusDeleted) == Named(rs, StatusDeleted)
      && Ordered(r, msgIndex, 1)
  {
    var x := InvalidFinding(msgIndex, c);
    StatusesDiffer();
    AddIfSame(rs, FailsCheck(h, lib, c), x);
    AddIfOther(rs, FailsCheck(h, lib, c), x, StatusMissing);
    AddIfOther(rs, FailsCheck(h, lib, c), x, StatusDeleted);
    AddIfOrdered(rs, FailsCheck(h, lib, c), x, msgIndex, 1);
  }

  lemma OrderedWeaken(rs: seq<ValidationResult>, msgIndex: int, b: nat, b2: nat)
    requires Ordered(rs, msgIndex, b) && b <= b2
    ensures Ordered(rs, msgIndex, b2)
  {
    if rs != [] {
      assert StatusRank(rs[|rs| - 1].status) <= b2;
    }
  }

  /** Findings as the missing findings followed by the later reports. */
  lemma FindingsChain(h: ParsedMailHeaders, msgIndex: int, lib: Library)
    ensures Findings(h, msgIndex, lib)
      == LaterChain(MissingPrefix(h, msgIndex, |RequiredHeaders|), msgIndex, FailsCheck(h, lib, FromCheck),
                    FailsCheck(h, lib, DateCheck), FailsCheck(h, lib, IdCheck), MarkedDeleted(h))
  {
  }

  /** Three invalid reports in turn, with plain booleans for whether each is made. */
  lemma {:induction false} ThreeInvalid(r0: seq<ValidationResult>, msgIndex: int,
                                        x1: ValidationResult, f: bool, x2: ValidationResult, d: bool,
                                        x3: ValidationResult, i: bool)
    requires Ordered(r0, msgIndex, 1) && Named(r0, StatusInvalid) == []
    requires x1.msgIndex == msgIndex && x1.status == StatusInvalid
    requires x2.msgIndex == msgIndex && x2.status == StatusInvalid
    requires x3.msgIndex == msgIndex && x3.status == StatusInvalid
    ensures var r3 := AddIf(AddIf(AddIf(r0, f, x1), d, x2), i, x3);
      && Named(r3, StatusMissing) == Named(r0, StatusMissing)
      && Named(r3, StatusInvalid)
           == (if f then [x1.field] else []) + (if d then [x2.field] else []) + (if i then [x3.field] else [])
      && Named(r3, StatusDeleted) == Named(r0, StatusDeleted)
      && Ordered(r3, msgIndex, 1)
  {
    StatusesDiffer();
    var r1 := AddIf(r0, f, x1);
    var r2 := AddIf(r1, d, x2);
    var r3 := AddIf(r2, i, x3);
    AddIfSame(r0, f, x1);
    AddIfSame(r1, d, x2);
    AddIfSame(r2, i, x3);
    assert Named(r1, StatusInvalid) == (if f then [x1.field] else []);
    AddIfOther(r0, f, x1, StatusMissing);
    AddIfOther(r1, d, x2, StatusMissing);
    AddIfOther(r2, i, x3, StatusMissing);
    AddIfOther(r0, f, x1, StatusDeleted);
    AddIfOther(r1, d, x2, StatusDeleted);
    AddIfOther(r2, i, x3, StatusDeleted);
    AddIfOrdered(r0, f, x1, msgIndex, 1);
    AddIfOrdered(r1, d, x2, msgIndex, 1);
    AddIfOrdered(r2, i, x3, msgIndex, 1);
  }

  /** The three checks in turn add the names of the failing fields, From, Date,
      Message-ID, to the invalid findings and nothing else. */
  lemma ChecksNamed(r0: seq<ValidationResult>, h: ParsedMailHeaders, lib: Library, msgIndex: int)
    requires Ordered(r0, msgIndex, 1) && Named(r0, StatusInvalid) == []
    ensures var r3 := ReportInvalid(ReportInvalid(ReportInvalid(r0, h, lib, msgIndex, FromCheck),
                                                  h, lib, msgIndex, DateCheck), h, lib, msgIndex, IdCheck);
      && Named(r3, StatusMissing) == Named(r0, StatusMissing)
      && Named(r3, StatusInvalid)
           == (if FailsCheck(h, lib, FromCheck) then ["From"] else [])
              + (if FailsCheck(h, lib, DateCheck) then ["Date"] else [])
              + (if FailsCheck(h, lib, IdCheck) then ["Message-ID"] else [])
      && Named(r3, StatusDeleted) == Named(r0, StatusDeleted)
      && Ordered(r3, msgIndex, 1)
  {
    ThreeInvalid(r0, msgIndex, InvalidFinding(msgIndex, FromCheck), FailsCheck(h, lib, FromCheck),
                 InvalidFinding(msgIndex, DateCheck), FailsCheck(h, lib, DateCheck),
                 InvalidFinding(msgIndex, IdCheck), FailsCheck(h, lib, IdCheck));
  }

  /** The deletion check adds "Status" to the deleted findings exactly when the
      message is marked deleted. */
  lemma ReportDeletedNamed(rs: seq<ValidationResult>, h: ParsedMailHeaders, msgIndex: int)
    requires Ordered(rs, msgIndex, 2)
    ensures var r := ReportDeleted(rs, h, msgIndex);
      && Named(r, StatusMissing) == Named(rs, StatusMissing)
      && Named(r, StatusInvalid) == Named(rs, StatusInvalid)
      && Named(r, StatusDeleted) == Named(rs, StatusDeleted) + (if MarkedDeleted(h) then ["Status"] else [])
      && Ordered(r, msgIndex, 2)
  {
    var x := ValidationResult(msgIndex, "Status", StatusDeleted, "");
    StatusesDiffer();
    AddIfSame(rs, MarkedDeleted(h), x);
    AddIfOther(rs, MarkedDeleted(h), x, StatusMissing);
    AddIfOther(rs, MarkedDeleted(h), x, StatusInvalid);
    AddIfOrdered(rs, MarkedDeleted(h), x, msgIndex, 2);
  }

  /** The reports that follow the missing ones, with plain booleans for which checks
      fail and whether the message is deleted. */
  function LaterChain(r0: seq<ValidationResult>, msgIndex: int, f: bool, d: bool, i: bool, del: bool)
    : seq<ValidationResult>
  {
    var r1 := AddIf(r0, f, InvalidFinding(msgIndex, FromCheck));
    var r2 := AddIf(r1, d, InvalidFinding(msgIndex, DateCheck));
    var r3 := AddIf(r2, i, InvalidFinding(msgIndex, IdCheck));
    AddIf(r3, del, ValidationResult(msgIndex, "Status", StatusDeleted, ""))
  }

  /** The later reports name the failing fields From, Date, Message-ID as invalid,
      Status as deleted, add no missing finding and keep the order. */
  lemma {:induction false} LaterReports(r0: seq<ValidationResult>, msgIndex: int, f: bool, d: bool, i: bool, del: bool)
    requires Ordered(r0, msgIndex, 0) && Named(r0, StatusInvalid) == [] && Named(r0, StatusDeleted) == []
    ensures var rs := LaterChain(r0, msgIndex, f, d, i, del);
      && Ordered(rs, msgIndex, 2)
      && Named(rs, StatusMissing) == Named(r0, StatusMissing)
      && Named(rs, StatusInvalid)
           == (if f then ["From"] else []) + (if d then ["Date"] else []) + (if i then ["Message-ID"] else [])
      && Named(rs, StatusDeleted) == (if del then ["Status"] else [])
  {
    var x1, x2, x3 := InvalidFinding(msgIndex, FromCheck), InvalidFinding(msgIndex, DateCheck),
                      InvalidFinding(msgIndex, IdCheck);
    var y := ValidationResult(msgIndex, "Status", StatusDeleted, "");
    var r3 := AddIf(AddIf(AddIf(r0, f, x1), d, x2), i, x3);
    OrderedWeaken(r0, msgIndex, 0, 1);
    ThreeInvalid(r0, msgIndex, x1, f, x2, d, x3, i);
    OrderedWeaken(r3, msgIndex, 1, 2);
    StatusesDiffer();
    AddIfSame(r3, del, y);
    AddIfOther(r3, del, y, StatusMissing);
    AddIfOther(r3, del, y, StatusInvalid);
    AddIfOrdered(r3, del, y, msgIndex, 2);
    assert [] + (if del then ["Status"] else []) == (if del then ["Status"] else []);
  }

  /** The missing and invalid findings, and their order. */
  lemma FindingsMissingInvalid(h: ParsedMailHeaders, msgIndex: int, lib: Library)
    requires h.keys == KeyIndex(h.fields)
    ensures var rs := Findings(h, msgIndex, lib);
      && Ordered(rs, msgIndex, 2)
      && Named(rs, StatusMissing) == AbsentAmong(h.fields, RequiredHeaders)
      && Named(rs, StatusInvalid)
           == (if FailsCheck(h, lib, FromCheck) then ["From"] else [])
              + (if FailsCheck(h, lib, DateCheck) then ["Date"] else [])
              + (if FailsCheck(h, lib, IdCheck) then ["Message-ID"] else [])
  {
    FindingsChain(h, msgIndex, lib);
    MissingPrefixNamed(h, msgIndex, |RequiredHeaders|);
    assert RequiredHeaders[..|RequiredHeaders|] == RequiredHeaders;
    LaterReports(MissingPrefix(h, msgIndex, |RequiredHeaders|), msgIndex, FailsCheck(h, lib, FromCheck),
                 FailsCheck(h, lib, DateCheck), FailsCheck(h, lib, IdCheck), MarkedDeleted(h));
  }

  /** The deleted finding. */
  lemma FindingsDeleted(h: ParsedMailHeaders, msgIndex: int, lib: Library)
    requires h.keys == KeyIndex(h.fields)
    ensures Named(Findings(h, msgIndex, lib), StatusDeleted) == (if MarkedDeleted(h) then ["Status"] else [])
  {
    FindingsChain(h, msgIndex, lib);
    MissingPrefixNamed(h, msgIndex, |RequiredHeaders|);
    LaterReports(MissingPrefix(h, msgIndex, |RequiredHeaders|), msgIndex, FailsCheck(h, lib, FromCheck),
                 FailsCheck(h, lib, DateCheck), FailsCheck(h, lib, IdCheck), MarkedDeleted(h));
  }

  /** The findings of ValidateHeaders, all about this message and in the order
      missing, invalid, deleted: one "missing" per required key no field carries
      (in the order from, date, message-id), one "invalid" per present field whose
      value fails its check (From, Date, Message-ID), and one "deleted" exactly when
      the first Status field reads "D". */
  lemma FindingsSay(h: ParsedMailHeaders, msgIndex: int, lib: Library)
    requires h.keys == KeyIndex(h.fields)
    ensures var rs := Findings(h, msgIndex, lib);
      && Ordered(rs, msgIndex, 2)
      && Named(rs, StatusMissing) == AbsentAmong(h.fields, RequiredHeaders)
      && Named(rs, StatusInvalid)
           == (if FailsCheck(h, lib, FromCheck) then ["From"] else [])
              + (if FailsCheck(h, lib, DateCheck) then ["Date"] else [])
              + (if FailsCheck(h, lib, IdCheck) then ["Message-ID"] else [])
      && Named(rs, StatusDeleted) == (if MarkedDeleted(h) then ["Status"] else [])
  {
    FindingsMissingInvalid(h, msgIndex, lib);
    FindingsDeleted(h, msgIndex, lib);
  }

  /** Every finding carries the message's index and a reported status. */
  lemma FindingsAbout(h: ParsedMailHeaders, msgIndex: int, lib: Library)
    requires h.keys == KeyIndex(h.fields)
    ensures var rs := Findings(h, msgIndex, lib);
      forall j :: 0 <= j < |rs| ==> rs[j].msgIndex == msgIndex && Reported(rs[j].status)
  {
    FindingsMissingInvalid(h, msgIndex, lib);
    OrderedMeans(Findings(h, msgIndex, lib), msgIndex, 2);
  }

  /** A failing check needs its field to be present. */
  lemma FailsNeedsField(h: ParsedMailHeaders, lib: Library, c: Check)
    requires h.keys == KeyIndex(h.fields)
    ensures FailsCheck(h, lib, c) ==> HasField(h.fields, CheckKey(c))
  {
    KeyPresent(h.fields, CheckKey(c));
  }

  /** A check's name is among the listed invalid names only when that check failed. */
  lemma InvalidListed(f: bool, d: bool, i: bool, c: Check, b: bool)
    requires b == match c case FromCheck => f case DateCheck => d case IdCheck => i
    ensures (CheckName(c) in (if f then ["From"] else []) + (if d then ["Date"] else [])
                             + (if i then ["Message-ID"] else [])) ==> b
  {
    assert "From" != "Date" && "From"[0] != "Message-ID"[0] && "Date"[0] != "Message-ID"[0];
  }

  /** A field is never reported both missing and invalid: a failed check needs the
      field to be present. */
  lemma MissingExcludesInvalid(h: ParsedMailHeaders, msgIndex: int, lib: Library, c: Check)
    requires h.keys == KeyIndex(h.fields)
    ensures var rs := Findings(h, msgIndex, lib);
      CheckKey(c) in Named(rs, StatusMissing) ==> CheckName(c) !in Named(rs, StatusInvalid)
  {
    FindingsSay(h, msgIndex, lib);
    AbsentAmongIn(h.fields, RequiredHeaders, CheckKey(c));
    FailsNeedsField(h, lib, c);
    InvalidListed(FailsCheck(h, lib, FromCheck), FailsCheck(h, lib, DateCheck), FailsCheck(h, lib, IdCheck),
                  c, FailsCheck(h, lib, c));
  }
}
