/** Mailbox splitting and message dissection of the server package: the line-level
    split of an mbox file into messages, the envelope / header / body cuts, and the
    in-text rewrite of the Status header. */
module Mbox {
  import opened Text

  /** The envelope line that opens every message of an mbox file. */
  const FromPrefix := "From "

  // ---------------------------------------------------------------------------
  // ReadMessages

  /** The state of the ReadMessages loop: the messages completed so far and the
      text of the message being built. */
  datatype Reading = Reading(messages: seq<string>, current: string)

  /** One scanned line: a "From " line closes a non-empty message and starts a new
      one; every line is written to the current message followed by "\n". */
  function ReadStep(st: Reading, line: string): Reading {
    if HasPrefix(line, FromPrefix) && |st.current| > 0 then Reading(st.messages + [st.current], line + "\n")
    else Reading(st.messages, st.current + (line + "\n"))
  }

  /** The loop state after the given lines. */
  function ReadLines(lines: seq<string>): Reading {
    if lines == [] then Reading([], "") else ReadStep(ReadLines(lines[..|lines| - 1]), lines[|lines| - 1])
  }

  /** The messages ReadMessages returns for the scanned lines. */
  function Messages(lines: seq<string>): seq<string> {
    var st := ReadLines(lines);
    if |st.current| > 0 then st.messages + [st.current] else st.messages
  }

  lemma ReadLinesStep(lines: seq<string>, i: nat)
    requires i < |lines|
    ensures ReadLines(lines[..i + 1]) == ReadStep(ReadLines(lines[..i]), lines[i])
  {
    assert lines[..i + 1][..i] == lines[..i];
  }

  /** ReadMessages, over the lines the scanner yields for the file. */
  method ReadMessages(lines: seq<string>) returns (messages: seq<string>)
    ensures messages == Messages(lines)
  {
    messages := [];
    var current := "";
    var i := 0;
    while i < |lines|
      invariant 0 <= i <= |lines|
      invariant Reading(messages, current) == ReadLines(lines[..i])
    {
      var line := lines[i];
      ReadLinesStep(lines, i);
      if HasPrefix(line, FromPrefix) && |current| > 0 {
        messages := messages + [current];
        current := line + "\n";
      } else {
        current := current + (line + "\n");
      }
      i := i + 1;
    }
    assert lines[..|lines|] == lines;
    if |current| > 0 {
      messages := messages + [current];
    }
  }

  // ---------------------------------------------------------------------------
  // The messages as groups of lines

  /** The lines grouped into messages: a group starts at the first line and at every
      later line that begins with "From ". */
  function Groups(lines: seq<string>): seq<seq<string>> {
    if lines == [] then []
    else
      var gs := Groups(lines[..|lines| - 1]);
      var line := lines[|lines| - 1];
      if gs == [] || HasPrefix(line, FromPrefix) then gs + [[line]]
      else gs[..|gs| - 1] + [gs[|gs| - 1] + [line]]
  }

  /** The groups put back together. */
  function Flatten(gs: seq<seq<string>>): seq<string> {
    if gs == [] then [] else Flatten(gs[..|gs| - 1]) + gs[|gs| - 1]
  }

  lemma FlattenSnoc(gs: seq<seq<string>>, g: seq<string>)
    ensures Flatten(gs + [g]) == Flatten(gs) + g
  {
    assert (gs + [g])[..|gs|] == gs;
  }

  /** Every group is non-empty; every group after the first, and no other line of a
      group, begins with "From "; and the groups put together are the lines. */
  predicate GroupsPartition(gs: seq<seq<string>>, lines: seq<string>) {
    && Flatten(gs) == lines
    && (forall k :: 0 <= k < |gs| ==> gs[k] != [])
    && (forall k :: 0 < k < |gs| ==> HasPrefix(gs[k][0], FromPrefix))
    && (forall k, j :: 0 <= k < |gs| && 0 < j < |gs[k]| ==> !HasPrefix(gs[k][j], FromPrefix))
  }

  /** A "From " line, or the very first line, opens a new group. */
  lemma NewGroup(gs: seq<seq<string>>, lines: seq<string>, line: string)
    requires GroupsPartition(gs, lines)
    requires gs == [] || HasPrefix(line, FromPrefix)
    ensures GroupsPartition(gs + [[line]], lines + [line])
  {
    FlattenSnoc(gs, [line]);
    var gs2 := gs + [[line]];
    forall k | 0 < k < |gs2| ensures HasPrefix(gs2[k][0], FromPrefix) {
      if k < |gs| {
        assert gs2[k] == gs[k];
      }
    }
    forall k, j | 0 <= k < |gs2| && 0 < j < |gs2[k]| ensures !HasPrefix(gs2[k][j], FromPrefix) {
      assert gs2[k] == gs[k];
    }
  }

  /** Any other line joins the last group. */
  lemma JoinGroup(gs: seq<seq<string>>, lines: seq<string>, line: string)
    requires GroupsPartition(gs, lines)
    requires gs != [] && !HasPrefix(line, FromPrefix)
    ensures var n := |gs| - 1; GroupsPartition(gs[..n] + [gs[n] + [line]], lines + [line])
  {
    var n := |gs| - 1;
    var pre := gs[..n];
    assert gs == pre + [gs[n]];
    FlattenSnoc(pre, gs[n]);
    FlattenSnoc(pre, gs[n] + [line]);
    var gs2 := pre + [gs[n] + [line]];
    forall k | 0 < k < |gs2| ensures HasPrefix(gs2[k][0], FromPrefix) {
      if k < n {
        assert gs2[k] == gs[k];
      } else {
        assert gs2[k][0] == gs[n][0];
      }
    }
    forall k, j | 0 <= k < |gs2| && 0 < j < |gs2[k]| ensures !HasPrefix(gs2[k][j], FromPrefix) {
      if k < n {
        assert gs2[k] == gs[k];
      } else if j < |gs[n]| {
        assert gs2[k][j] == gs[n][j];
      }
    }
  }

  lemma GroupsStep(init: seq<string>, line: string)
    requires GroupsPartition(Groups(init), init)
    ensures GroupsPartition(Groups(init + [line]), init + [line])
  {
    var gs := Groups(init);
    var lines := init + [line];
    assert lines[..|lines| - 1] == init;
    if gs == [] || HasPrefix(line, FromPrefix) {
      NewGroup(gs, init, line);
    } else {
      JoinGroup(gs, init, line);
    }
  }

  lemma {:induction false} GroupsArePartition(lines: seq<string>)
    ensures GroupsPartition(Groups(lines), lines)
    ensures Groups(lines) == [] <==> lines == []
  {
    if lines != [] {
      var init := lines[..|lines| - 1];
      GroupsArePartition(init);
      GroupsStep(init, lines[|lines| - 1]);
      assert init + [lines[|lines| - 1]] == lines;
    }
  }

  /** The state of the loop is the finished groups, written out, and the last group
      being built. */
  lemma {:induction false} ReadLinesAreGroups(lines: seq<string>)
    ensures var st := ReadLines(lines); var gs := Groups(lines);
      && (|st.current| > 0 <==> lines != [])
      && (lines != [] ==>
            && |st.messages| == |gs| - 1
            && (forall k :: 0 <= k < |st.messages| ==> st.messages[k] == Emit(gs[k]))
            && st.current == Emit(gs[|gs| - 1]))
  {
    if lines != [] {
      var init := lines[..|lines| - 1];
      var line := lines[|lines| - 1];
      ReadLinesAreGroups(init);
      GroupsArePartition(init);
      var st := ReadLines(init);
      var gs := Groups(init);
      EmitSnoc([], line);
      if gs != [] {
        var n := |gs| - 1;
        EmitSnoc(gs[n], line);
        var st2 := ReadLines(lines);
        var gs2 := Groups(lines);
        if HasPrefix(line, FromPrefix) {
          forall k | 0 <= k < |st2.messages| ensures st2.messages[k] == Emit(gs2[k]) {
            assert gs2[k] == gs[k];
          }
        } else {
          forall k | 0 <= k < |st2.messages| ensures st2.messages[k] == Emit(gs2[k]) {
            assert gs2[k] == gs[k];
          }
        }
      }
    }
  }

  /** Each message is the text of one group of lines, in order. */
  lemma MessagesAreGroups(lines: seq<string>)
    ensures var ms := Messages(lines); var gs := Groups(lines);
      |ms| == |gs| && forall k :: 0 <= k < |ms| ==> ms[k] == Emit(gs[k])
  {
    ReadLinesAreGroups(lines);
    GroupsArePartition(lines);
  }

  /** Writing out the groups one after the other writes out all the lines. */
  lemma {:induction false} EmitFlatten(gs: seq<seq<string>>, ms: seq<string>)
    requires |ms| == |gs| && forall k :: 0 <= k < |ms| ==> ms[k] == Emit(gs[k])
    ensures Concat(ms) == Emit(Flatten(gs))
  {
    if gs != [] {
      var n := |gs| - 1;
      EmitFlatten(gs[..n], ms[..n]);
      assert ms == ms[..n] + [ms[n]];
      ConcatSnoc(ms[..n], ms[n]);
      EmitAppend(Flatten(gs[..n]), gs[n]);
    }
  }

  lemma {:induction false} EmitAppend(a: seq<string>, b: seq<string>)
    ensures Emit(a + b) == Emit(a) + Emit(b)
  {
    if b != [] {
      var n := |b| - 1;
      EmitAppend(a, b[..n]);
      assert a + b == (a + b[..n]) + [b[n]];
      assert b == b[..n] + [b[n]];
      EmitSnoc(a + b[..n], b[n]);
      EmitSnoc(b[..n], b[n]);
    } else {
      assert a + b == a;
    }
  }

  /** A non-empty group is written starting with its first line. */
  lemma {:induction false} EmitStartsWith(g: seq<string>)
    requires g != []
    ensures HasPrefix(Emit(g), g[0]) && |Emit(g)| > 0 && Emit(g)[|Emit(g)| - 1] == '\n'
  {
    EmitAppend([g[0]], g[1..]);
    assert [g[0]] + g[1..] == g;
    EmitSnoc([], g[0]);
    var rest := g[1..];
    if rest != [] {
      EmitSnoc(rest[..|rest| - 1], rest[|rest| - 1]);
      assert rest[..|rest| - 1] + [rest[|rest| - 1]] == rest;
    }
    assert Emit(g)[..|g[0]|] == g[0];
  }

  /** The messages hold every scanned line, each followed by "\n", in order; empty
      input gives no messages; every message is non-empty and ends with "\n"; and
      every message after the first begins with "From ". */
  lemma MessagesShape(lines: seq<string>)
    ensures var ms := Messages(lines);
      && Concat(ms) == Emit(lines)
      && (ms == [] <==> lines == [])
      && (forall k :: 0 <= k < |ms| ==> |ms[k]| > 0 && ms[k][|ms[k]| - 1] == '\n')
      && (forall k :: 0 < k < |ms| ==> HasPrefix(ms[k], FromPrefix))
  {
    MessagesAreGroups(lines);
    GroupsArePartition(lines);
    EmittedGroupsShape(Groups(lines), Messages(lines), lines);
  }

  /** Texts written out from the groups of a partition have the shape of messages. */
  lemma EmittedGroupsShape(gs: seq<seq<string>>, ms: seq<string>, lines: seq<string>)
    requires GroupsPartition(gs, lines) && (gs == [] <==> lines == [])
    requires |ms| == |gs| && forall k :: 0 <= k < |ms| ==> ms[k] == Emit(gs[k])
    ensures && Concat(ms) == Emit(lines)
      && (ms == [] <==> lines == [])
      && (forall k :: 0 <= k < |ms| ==> |ms[k]| > 0 && ms[k][|ms[k]| - 1] == '\n')
      && (forall k :: 0 < k < |ms| ==> HasPrefix(ms[k], FromPrefix))
  {
    EmitFlatten(gs, ms);
    EmittedEndWithNewline(gs, ms);
    EmittedStartWithFrom(gs, ms);
  }

  /** Each text written out from a non-empty group ends with "\n". */
  lemma EmittedEndWithNewline(gs: seq<seq<string>>, ms: seq<string>)
    requires forall k :: 0 <= k < |gs| ==> gs[k] != []
    requires |ms| == |gs| && forall k :: 0 <= k < |ms| ==> ms[k] == Emit(gs[k])
    ensures forall k :: 0 <= k < |ms| ==> |ms[k]| > 0 && ms[k][|ms[k]| - 1] == '\n'
  {
    forall k | 0 <= k < |ms| ensures |ms[k]| > 0 && ms[k][|ms[k]| - 1] == '\n' {
      EmitStartsWith(gs[k]);
    }
  }

  /** Each text written out from a group that opens with a "From " line begins with "From ". */
  lemma EmittedStartWithFrom(gs: seq<seq<string>>, ms: seq<string>)
    requires forall k :: 0 <= k < |gs| ==> gs[k] != []
    requires forall k :: 0 < k < |gs| ==> HasPrefix(gs[k][0], FromPrefix)
    requires |ms| == |gs| && forall k :: 0 <= k < |ms| ==> ms[k] == Emit(gs[k])
    ensures forall k :: 0 < k < |ms| ==> HasPrefix(ms[k], FromPrefix)
  {
    forall k | 0 < k < |ms| ensures HasPrefix(ms[k], FromPrefix) {
      EmitStartsWith(gs[k]);
      PrefixOfPrefix(ms[k], gs[k][0], FromPrefix);
    }
  }

  lemma PrefixOfPrefix(s: string, p: string, q: string)
    requires HasPrefix(s, p) && HasPrefix(p, q)
    ensures HasPrefix(s, q)
  {
    assert s[..|q|] == p[..|q|];
  }

  // ---------------------------------------------------------------------------
  // Envelope, headers and body

  /** SplitAtFirstNewline: the text before the first "\n" and the text after it, or
      the whole text and "" when there is none. */
  function SplitAtFirstNewline(s: string): (string, string) {
    var i := IndexOf(s, "\n");
    if i != -1 then
      IndexOfCharPrefix(s, '\n');
      (s[..i], s[i + 1..])
    else (s, "")
  }

  /** With a "\n" in s the halves are the newline-free first line and the rest; without
      one, s is returned whole with an empty rest. */
  lemma SplitAtFirstNewlineSpec(s: string)
    ensures var (a, b) := SplitAtFirstNewline(s);
      && (NoneOf(s, '\n') ==> a == s && b == "")
      && (!NoneOf(s, '\n') ==> s == a + "\n" + b && NoneOf(a, '\n'))
  {
    IndexOfCharPrefix(s, '\n');
    var i := IndexOf(s, "\n");
    if i != -1 {
      assert s == s[..i] + "\n" + s[i + 1..];
    }
  }

  /** Splitting a newline-free line joined to a rest by "\n" gives both back. */
  lemma SplitAtFirstNewlineJoin(a: string, b: string)
    requires NoneOf(a, '\n')
    ensures SplitAtFirstNewline(a + "\n" + b) == (a, b)
  {
    var s := a + "\n" + b;
    IndexOfCharPrefix(s, '\n');
    assert s[|a|] == '\n';
    var i := IndexOf(s, "\n");
    assert forall k :: 0 <= k < |a| ==> s[k] == a[k];
    assert s[..i] == a && s[i + 1..] == b;
  }

  /** SplitHeadersFromBody: cut at the first blank line; the header part keeps the
      "\n" that ends its last line and the body starts after the blank line. */
  function SplitHeadersFromBody(s: string): (string, string) {
    var i := IndexOf(s, "\n\n");
    if i != -1 then
      IndexOfSpec(s, "\n\n");
      (s[..i + 1], s[i + 2..])
    else (s, "")
  }

  /** When s holds a blank line, s is the headers, "\n" and the body, the headers end
      with "\n" and contain no blank line; otherwise s is returned whole. */
  lemma SplitHeadersFromBodySpec(s: string)
    ensures var (h, b) := SplitHeadersFromBody(s);
      && ((forall j :: !OccursAt(s, "\n\n", j)) ==> h == s && b == "")
      && ((exists j :: OccursAt(s, "\n\n", j)) ==>
            && s == h + "\n" + b
            && |h| > 0 && h[|h| - 1] == '\n'
            && forall j :: !OccursAt(h, "\n\n", j))
  {
    IndexOfSpec(s, "\n\n");
    var i := IndexOf(s, "\n\n");
    if i != -1 {
      SplitAtBlankLine(s, i);
    } else {
      assert forall j :: !OccursAt(s, "\n\n", j) by {
        forall j ensures !OccursAt(s, "\n\n", j) {
          if 0 <= j <= |s| {
            assert !OccursAt(s, "\n\n", j);
          }
        }
      }
    }
  }

  /** Cut at the first blank line, s is the headers, "\n" and the rest; the headers
      end with "\n" and hold no blank line. */
  lemma SplitAtBlankLine(s: string, i: nat)
    requires OccursAt(s, "\n\n", i) && forall j :: 0 <= j < i ==> !OccursAt(s, "\n\n", j)
    ensures var h := s[..i + 1];
      && s == h + "\n" + s[i + 2..]
      && |h| > 0 && h[|h| - 1] == '\n'
      && forall j :: !OccursAt(h, "\n\n", j)
  {
    var h := s[..i + 1];
    assert s[i..i + 2] == "\n\n";
    assert s == h + "\n" + s[i + 2..];
    forall j ensures !OccursAt(h, "\n\n", j) {
      if 0 <= j && j + 2 <= |h| {
        assert h[j..j + 2] == s[j..j + 2];
        assert !OccursAt(s, "\n\n", j);
      }
    }
  }

  /** The header block of a message: after the envelope line, up to the blank line. */
  function HeadersOf(msg: string): string {
    SplitHeadersFromBody(SplitAtFirstNewline(msg).1).0
  }

  // ---------------------------------------------------------------------------
  // updateStatusHeader

  /** The text the Status header is found by. */
  const StatusTag := "Status: "

  /** The end of the line running from p: p plus the index of the first "\n" in s[p..],
      or |s| when the rest has none. */
  function LineEnd(s: string, p: nat): (e: nat)
    requires p <= |s|
    ensures p <= e <= |s|
  {
    var k := IndexOf(s[p..], "\n");
    IndexOfSpec(s[p..], "\n");
    if k != -1 then p + k else |s|
  }

  /** The first "\n" at or after p is at LineEnd(s, p), when there is one. */
  lemma LineEndSpec(s: string, p: nat)
    requires p <= |s|
    ensures var e := LineEnd(s, p);
      && (e < |s| ==> s[e] == '\n')
      && (forall j :: p <= j < e ==> s[j] != '\n')
  {
    IndexOfCharPrefix(s[p..], '\n');
    var e := LineEnd(s, p);
    forall j | p <= j < e ensures s[j] != '\n' {
      assert s[j] == s[p..][j - p];
    }
  }

  /** Where the status line starts and ends, when the text holds "Status: ". */
  function StatusSpan(headers: string): Option<(nat, nat)> {
    var start := IndexOf(headers, StatusTag);
    if start == -1 then None
    else
      IndexOfSpec(headers, StatusTag);
      var end := LineEnd(headers, start);
      Some((start, end))
  }

  lemma StatusSpanBounds(headers: string)
    ensures var sp := StatusSpan(headers);
      sp.Some? ==> sp.value.0 + |StatusTag| <= sp.value.1 <= |headers|
  {
    var sp := StatusSpan(headers);
    if sp.Some? {
      var start := sp.value.0;
      var end := sp.value.1;
      IndexOfSpec(headers, StatusTag);
      LineEndSpec(headers, start);
      assert headers[start..start + |StatusTag|] == StatusTag;
      forall j | start <= j < start + |StatusTag| ensures headers[j] != '\n' {
        assert headers[j] == StatusTag[j - start];
      }
    }
  }

  /** The status value the header text carries now: the trimmed text after the first
      "Status: " up to the end of its line; None when there is no "Status: ". */
  function CurrentStatus(headers: string): Option<string> {
    match StatusSpan(headers)
    case None => None
    case Some((start, end)) =>
      StatusSpanBounds(headers);
      Some(TrimSpace(headers[start + |StatusTag|..end]))
  }

  /** updateStatusHeader: the new header text and whether it changed; None where the
      Go code indexes past the end of the string and panics (a differing status on a
      last line without "\n", or empty header text without any "Status: "). */
  function UpdateStatusHeader(headers: string, newStatus: string): Option<(string, bool)> {
    match StatusSpan(headers)
    case Some((start, end)) =>
      StatusSpanBounds(headers);
      var nowStatus := TrimSpace(headers[start + |StatusTag|..end]);
      if newStatus == nowStatus then Some((headers, false))
      else if end == |headers| then None
      else
        var cut := if headers[end] == '\n' then end + 1 else end;
        Some((headers[..start] + StatusTag + newStatus + "\n" + headers[cut..], true))
    case None =>
      if headers == [] then None
      else
        var text := if headers[|headers| - 1] != '\n' then headers + "\n" else headers;
        Some((text + StatusTag + newStatus + "\n", true))
  }

  /** The first occurrence: t occurs at p and nowhere before. */
  lemma FirstOccurrence(s: string, t: string, p: nat)
    requires OccursAt(s, t, p)
    requires forall j :: 0 <= j < p ==> !OccursAt(s, t, j)
    ensures IndexOf(s, t) == p
  {
    IndexOfSpec(s, t);
  }

  /** "Status: " cannot overlap a later copy of itself: only its first character is 'S'. */
  lemma TagStartsOnlyAtS(d: int)
    requires 0 < d < |StatusTag|
    ensures StatusTag[d] != 'S'
  {
  }

  /** A text whose first occurrence of "Status: " is at p and whose value on that line
      is v, newline-free, reads back as the trimmed v. */
  lemma ReadsStatus(s: string, p: nat, v: string, rest: string)
    requires p + |StatusTag| + |v| < |s|
    requires s[p..] == StatusTag + v + "\n" + rest
    requires NoneOf(v, '\n')
    requires forall j :: 0 <= j < p ==> !OccursAt(s, StatusTag, j)
    ensures CurrentStatus(s) == Some(TrimSpace(v))
  {
    var q := p + |StatusTag|;
    assert s[p..p + |StatusTag|] == s[p..][..|StatusTag|];
    FirstOccurrence(s, StatusTag, p);
    var e := q + |v|;
    LineEndSpec(s, p);
    assert s[e] == '\n' by {
      assert s[e] == s[p..][e - p];
    }
    forall j | p <= j < e ensures s[j] != '\n' {
      assert s[j] == s[p..][j - p];
    }
    var e2 := LineEnd(s, p);
    assert e2 == e;
    assert s[q..e] == v by {
      assert s[q..e] == s[p..][|StatusTag|..|StatusTag| + |v|];
    }
  }

  /** No occurrence of "Status: " starts before the end of `pre` in pre + rest when
      `pre` has none of its own and `rest` begins with "Status: ". */
  lemma NoEarlierTag(pre: string, rest: string)
    requires forall j :: !OccursAt(pre, StatusTag, j)
    requires HasPrefix(rest, StatusTag)
    ensures forall j :: 0 <= j < |pre| ==> !OccursAt(pre + rest, StatusTag, j)
  {
    var s := pre + rest;
    forall j | 0 <= j < |pre| ensures !OccursAt(s, StatusTag, j) {
      if j + |StatusTag| <= |s| {
        if |pre| < j + |StatusTag| {
          var d := |pre| - j;
          TagStartsOnlyAtS(d);
          assert rest[..|StatusTag|][0] == rest[0];
          assert s[j..j + |StatusTag|][d] == s[|pre|] == 'S';
          assert s[j..j + |StatusTag|] != StatusTag;
        } else {
          assert pre[j..j + |StatusTag|] == s[j..j + |StatusTag|];
          assert !OccursAt(pre, StatusTag, j);
          assert s[j..j + |StatusTag|] != StatusTag;
        }
      }
    }
  }

  /** The text before the first "Status: " holds no "Status: ". */
  lemma NoTagBefore(headers: string, start: nat)
    requires start <= |headers| && forall j :: 0 <= j < start ==> !OccursAt(headers, StatusTag, j)
    ensures forall j :: !OccursAt(headers[..start], StatusTag, j)
  {
    var pre := headers[..start];
    forall j ensures !OccursAt(pre, StatusTag, j) {
      if 0 <= j && j + |StatusTag| <= |pre| {
        assert |StatusTag| == 8 && j < start;
        assert headers[j..j + |StatusTag|] == pre[j..j + |StatusTag|];
        assert !OccursAt(headers, StatusTag, j);
      }
    }
  }

  /** A rewritten status line reads back as the new status. */
  lemma RewriteReadsBack(headers: string, newStatus: string, start: nat, end: nat)
    requires NoneOf(newStatus, '\n')
    requires StatusSpan(headers) == Some((start, end)) && end < |headers|
    ensures var r := headers[..start] + StatusTag + newStatus + "\n" + headers[end + 1..];
      CurrentStatus(r) == Some(TrimSpace(newStatus))
  {
    IndexOfSpec(headers, StatusTag);
    StatusSpanBounds(headers);
    assert start == IndexOf(headers, StatusTag);
    var pre := headers[..start];
    var rest := headers[end + 1..];
    var r := headers[..start] + StatusTag + newStatus + "\n" + headers[end + 1..];
    assert r == pre + (StatusTag + newStatus + "\n" + rest);
    NoTagBefore(headers, start);
    NoEarlierTag(pre, StatusTag + newStatus + "\n" + rest);
    assert r[start..] == StatusTag + newStatus + "\n" + rest;
    ReadsStatus(r, start, newStatus, rest);
  }

  /** Header text without "Status: ", completed with a final "\n", still has none. */
  lemma NoTagInTerminated(headers: string)
    requires headers != []
    requires forall j :: !OccursAt(headers, StatusTag, j)
    ensures var text := if headers[|headers| - 1] != '\n' then headers + "\n" else headers;
      forall j :: !OccursAt(text, StatusTag, j)
  {
    if headers[|headers| - 1] != '\n' {
      var text := headers + "\n";
      forall j ensures !OccursAt(text, StatusTag, j) {
        if 0 <= j && j + |StatusTag| <= |text| {
          if j + |StatusTag| <= |headers| {
            assert headers[j..j + |StatusTag|] == text[j..j + |StatusTag|];
            assert !OccursAt(headers, StatusTag, j);
          } else {
            assert text[j..j + |StatusTag|][|StatusTag| - 1] == '\n';
          }
        }
      }
    }
  }

  /** An appended status line reads back as the new status. */
  lemma AppendReadsBack(headers: string, newStatus: string)
    requires NoneOf(newStatus, '\n')
    requires StatusSpan(headers) == None && headers != []
    ensures var text := if headers[|headers| - 1] != '\n' then headers + "\n" else headers;
      CurrentStatus(text + StatusTag + newStatus + "\n") == Some(TrimSpace(newStatus))
  {
    IndexOfSpec(headers, StatusTag);
    assert IndexOf(headers, StatusTag) == -1;
    NoTagInTerminated(headers);
    var text := if headers[|headers| - 1] != '\n' then headers + "\n" else headers;
    var r := text + StatusTag + newStatus + "\n";
    assert r == text + (StatusTag + newStatus + "\n" + "");
    NoEarlierTag(text, StatusTag + newStatus + "\n" + "");
    assert r[|text|..] == StatusTag + newStatus + "\n" + "";
    ReadsStatus(r, |text|, newStatus, "");
  }

  /** After a call that does not panic, the header text carries the new status. */
  lemma UpdateReadsBack(headers: string, newStatus: string)
    requires NoneOf(newStatus, '\n')
    requires UpdateStatusHeader(headers, newStatus).Some?
    ensures CurrentStatus(UpdateStatusHeader(headers, newStatus).value.0) == Some(TrimSpace(newStatus))
  {
    match StatusSpan(headers)
    case Some((start, end)) =>
      StatusSpanBounds(headers);
      var v := headers[start + |StatusTag|..end];
      assert CurrentStatus(headers) == Some(TrimSpace(v));
      if newStatus == TrimSpace(v) {
        assert UpdateStatusHeader(headers, newStatus) == Some((headers, false));
        TrimSpaceShape(v);
      } else {
        LineEndSpec(headers, start);
        assert end < |headers| && headers[end] == '\n';
        var r := headers[..start] + StatusTag + newStatus + "\n" + headers[end + 1..];
        assert UpdateStatusHeader(headers, newStatus) == Some((r, true));
        RewriteReadsBack(headers, newStatus, start, end);
      }
    case None =>
      var text := if headers[|headers| - 1] != '\n' then headers + "\n" else headers;
      assert UpdateStatusHeader(headers, newStatus) == Some((text + StatusTag + newStatus + "\n", true));
      AppendReadsBack(headers, newStatus);
  }

  /** Setting the same trimmed, newline-free status a second time changes nothing. */
  lemma UpdateIdempotent(headers: string, newStatus: string)
    requires NoneOf(newStatus, '\n') && TrimSpace(newStatus) == newStatus
    requires UpdateStatusHeader(headers, newStatus).Some?
    ensures var r := UpdateStatusHeader(headers, newStatus).value.0;
      UpdateStatusHeader(r, newStatus) == Some((r, false))
  {
    UpdateReadsBack(headers, newStatus);
  }

  /** The status is reported unchanged exactly when it already reads newStatus, and
      then the text is returned as it was; a change is a rewrite of the status line,
      keeping everything before and after it, or an appended line. */
  lemma UpdateStatusHeaderSpec(headers: string, newStatus: string)
    ensures var r := UpdateStatusHeader(headers, newStatus);
      && (r.Some? && !r.value.1 <==> CurrentStatus(headers) == Some(newStatus))
      && (r.Some? && !r.value.1 ==> r.value.0 == headers)
      && (r.None? <==>
            (CurrentStatus(headers).None? && headers == []) ||
            (CurrentStatus(headers).Some? && CurrentStatus(headers) != Some(newStatus)
             && StatusSpan(headers).value.1 == |headers|))
      && (r.Some? && r.value.1 && CurrentStatus(headers).Some? ==>
            var (start, end) := StatusSpan(headers).value;
            r.value.0 == headers[..start] + StatusTag + newStatus + "\n" + headers[end + 1..])
      && (r.Some? && CurrentStatus(headers).None? ==>
            exists pre :: r.value.0 == pre + StatusTag + newStatus + "\n"
              && (pre == headers || pre == headers + "\n") && pre[|pre| - 1] == '\n')
  {
    var r := UpdateStatusHeader(headers, newStatus);
    StatusSpanBounds(headers);
    match StatusSpan(headers)
    case Some((start, end)) =>
      LineEndSpec(headers, start);
    case None =>
      if headers != [] {
        var text := if headers[|headers| - 1] != '\n' then headers + "\n" else headers;
        assert r.value.0 == text + StatusTag + newStatus + "\n";
      }
  }
}
