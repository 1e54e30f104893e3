/** The mboxappend command: one message read line by line from standard input is
    appended to an mbox file. The header lines, up to and including the first empty
    line, are copied as they are; after that every line starting "From " is quoted
    with ">"; one empty line ends the message. */
module MboxAppend {
  import opened Text
  import opened Mbox
  import opened FileStore

  /** The exit status when something goes wrong (EX_TEMPFAIL). */
  const TempFail := 75

  /** A body line as written: a line starting "From " gets a leading ">", any other
      line, one already starting ">From " included, stays as it is. */
  function Escaped(line: string): (r: string)
    ensures !HasPrefix(r, "From ")
    ensures r == line || r == ">" + line
    ensures r == line <==> !HasPrefix(line, "From ")
  {
    if HasPrefix(line, "From ") then
      assert (">" + line)[0] == '>';
      ">" + line
    else line
  }

  /** Every line of a body escaped. */
  function EscapeAll(lines: seq<string>): (r: seq<string>)
    ensures |r| == |lines|
  {
    seq(|lines|, j requires 0 <= j < |lines| => Escaped(lines[j]))
  }

  /** No escaped body line starts "From "; a line already starting ">From " is kept as
      it is, and every escaped line gives back its input once a leading ">" added by
      the escaping is dropped. */
  lemma EscapeAllSpec(lines: seq<string>)
    ensures var r := EscapeAll(lines);
      && (forall j :: 0 <= j < |r| ==> !HasPrefix(r[j], "From "))
      && (forall j :: 0 <= j < |r| && HasPrefix(lines[j], ">From ") ==> r[j] == lines[j])
      && (forall j :: 0 <= j < |r| && HasPrefix(lines[j], "From ") ==> r[j][1..] == lines[j])
  {
  }

  /** What is written for one input line, with inHeader telling whether no empty line
      has been seen before it. */
  function OutputLine(line: string, inHeader: bool): string {
    (if inHeader then line else Escaped(line)) + "\n"
  }

  /** Whether an empty line occurs among the lines, that is, whether the header part
      has ended after them. */
  function BlankSeen(lines: seq<string>): bool {
    if lines == [] then false
    else
      var n := |lines| - 1;
      BlankSeen(lines[..n]) || lines[n] == ""
  }

  lemma {:induction false} BlankSeenSpec(lines: seq<string>)
    ensures BlankSeen(lines) <==> "" in lines
  {
    if lines != [] {
      var n := |lines| - 1;
      BlankSeenSpec(lines[..n]);
      assert lines == lines[..n] + [lines[n]];
      assert "" in lines[..n] ==> "" in lines;
    }
  }

  /** What the line loop writes for the given lines. */
  function AppendOutput(lines: seq<string>): string {
    if lines == [] then ""
    else
      var n := |lines| - 1;
      AppendOutput(lines[..n]) + OutputLine(lines[n], !BlankSeen(lines[..n]))
  }

  /** The whole text appended when nothing fails: the lines, then one empty line. */
  function AppendedText(lines: seq<string>): string {
    AppendOutput(lines) + "\n"
  }

  /** What reaches the file: the lines before the failing write; all lines when the
      read fails or only the closing write fails; otherwise the whole appended text. */
  function WrittenText(lines: seq<string>, failingWrite: int, readFails: bool): string {
    if 0 <= failingWrite < |lines| then AppendOutput(lines[..failingWrite])
    else if readFails || failingWrite == |lines| then AppendOutput(lines)
    else AppendedText(lines)
  }

  /** One loop turn: the line written for line i extends the output, and the header
      part goes on exactly while no empty line has been written. */
  lemma WriteStep(lines: seq<string>, i: nat, inHeader: bool, line: string)
    requires i < |lines|
    requires inHeader == !BlankSeen(lines[..i])
    requires line == if inHeader then lines[i] else Escaped(lines[i])
    ensures AppendOutput(lines[..i + 1]) == AppendOutput(lines[..i]) + (line + "\n")
    ensures !BlankSeen(lines[..i + 1]) == (inHeader && lines[i] != "")
  {
    PrefixStep(lines, i);
    assert lines[..i + 1][..i] == lines[..i];
  }

  /** The scanner loop of main: each input line is written to the open file at path as
      it is read. failingWrite is the index of the first write that fails, if any; a
      failed write stops the loop, leaving what was written so far. */
  method WriteLines(fs: FileSystem, path: string, lines: seq<string>, failingWrite: int)
    returns (ok: bool)
    requires path in fs.files
    modifies fs
    ensures ok == !(0 <= failingWrite < |lines|)
    ensures fs.files == old(fs.files)[path := old(fs.files)[path] +
      if ok then AppendOutput(lines) else AppendOutput(lines[..failingWrite])]
  {
    ghost var before := fs.files;
    ghost var base := before[path];
    assert lines[..0] == [];
    assert base + AppendOutput(lines[..0]) == base;
    var inHeader := true;
    var i := 0;
    while i < |lines|
      invariant 0 <= i <= |lines|
      invariant inHeader == !BlankSeen(lines[..i])
      invariant !(0 <= failingWrite < i)
      invariant fs.files == before[path := base + AppendOutput(lines[..i])]
    {
      var line := lines[i];
      if inHeader {
        WriteStep(lines, i, inHeader, line);
        AppendAssoc(base, AppendOutput(lines[..i]), line + "\n");
        ok := fs.WriteString(path, line + "\n", failingWrite == i);
        if !ok {
          assert lines[..failingWrite] == lines[..i];
          return;
        }
        assert fs.files == before[path := base + AppendOutput(lines[..i + 1])];
        if line == "" {
          inHeader := false;
        }
        i := i + 1;
        continue;
      }
      if HasPrefix(line, "From ") {
        line := ">" + line;
      }
      WriteStep(lines, i, inHeader, line);
      AppendAssoc(base, AppendOutput(lines[..i]), line + "\n");
      ok := fs.WriteString(path, line + "\n", failingWrite == i);
      if !ok {
        assert lines[..failingWrite] == lines[..i];
        return;
      }
      assert fs.files == before[path := base + AppendOutput(lines[..i + 1])];
      i := i + 1;
    }
    assert lines[..i] == lines;
    ok := true;
  }

  /** main: without a path argument the usage message ends the run with status 75;
      otherwise the file is opened for appending (and created if missing), the lines are
      written, and a final empty line ends the message. openFails, failingWrite (the
      closing newline is write |lines|) and readFails come from the environment; a
      failed open, line write or read ends the run with status 75, and the result of
      the closing write is not checked. */
  method AppendMessage(fs: FileSystem, mboxPath: Option<string>, lines: seq<string>,
                       openFails: bool, failingWrite: int, readFails: bool)
    returns (exitCode: int)
    modifies fs
    ensures mboxPath.None? || openFails ==> exitCode == TempFail && fs.files == old(fs.files)
    ensures mboxPath.Some? && !openFails ==>
      var path := mboxPath.value;
      var base := if path in old(fs.files) then old(fs.files)[path] else "";
      && exitCode == (if 0 <= failingWrite < |lines| || readFails then TempFail else 0)
      && fs.files == old(fs.files)[path := base + WrittenText(lines, failingWrite, readFails)]
  {
    if mboxPath.None? {
      return TempFail;
    }
    var path := mboxPath.value;
    var openOk := fs.OpenAppend(path, openFails);
    if !openOk {
      return TempFail;
    }
    ghost var base := fs.files[path];
    var ok := WriteLines(fs, path, lines, failingWrite);
    if !ok {
      return TempFail;
    }
    if readFails {
      return TempFail;
    }
    AppendAssoc(base, AppendOutput(lines), "\n");
    var closed := fs.WriteString(path, "\n", failingWrite == |lines|);
    return 0;
  }

  /** Without an empty line every line belongs to the header, and nothing is quoted. */
  lemma {:induction false} NoBlankNoEscape(lines: seq<string>)
    requires !BlankSeen(lines)
    ensures AppendOutput(lines) == Emit(lines)
  {
    if lines != [] {
      var n := |lines| - 1;
      NoBlankNoEscape(lines[..n]);
    }
  }

  /** Once an empty line has been read, the header part stays over. */
  lemma {:induction false} BlankStaysSeen(lines: seq<string>, h: nat, m: nat)
    requires h < m <= |lines| && lines[h] == ""
    ensures BlankSeen(lines[..m])
  {
    var k := m - 1;
    assert lines[..m][..k] == lines[..k];
    if k > h {
      BlankStaysSeen(lines, h, k);
    }
  }

  /** After an empty line, each further line is written escaped. */
  lemma BodyLineStep(lines: seq<string>, h: nat, n: nat)
    requires h + 1 < n <= |lines| && lines[h] == ""
    ensures AppendOutput(lines[..n]) == AppendOutput(lines[..n - 1]) + (Escaped(lines[n - 1]) + "\n")
  {
    BlankStaysSeen(lines, h, n - 1);
    assert lines[..n][..n - 1] == lines[..n - 1];
  }

  lemma EscapeAllSnoc(lines: seq<string>, a: nat, n: nat)
    requires a < n <= |lines|
    ensures EscapeAll(lines[a..n]) == EscapeAll(lines[a..n - 1]) + [Escaped(lines[n - 1])]
  {
  }

  /** The output up to and including the first empty line, at h, is that header block
      as it was. */
  lemma HeaderBlockShape(lines: seq<string>, h: nat)
    requires h < |lines| && lines[h] == "" && !BlankSeen(lines[..h])
    ensures AppendOutput(lines[..h + 1]) == Emit(lines[..h + 1])
  {
    assert lines[..h + 1][..h] == lines[..h];
    NoBlankNoEscape(lines[..h]);
  }

  /** After an empty line at h, the output up to line n is the output up to and
      including that line, then the later lines so far, escaped. */
  lemma {:induction false} AppendPrefixShape(lines: seq<string>, h: nat, n: nat)
    requires h < n <= |lines| && lines[h] == ""
    ensures AppendOutput(lines[..n]) == AppendOutput(lines[..h + 1]) + Emit(EscapeAll(lines[h + 1..n]))
  {
    if n == h + 1 {
      assert EscapeAll(lines[h + 1..n]) == [];
    } else {
      AppendPrefixShape(lines, h, n - 1);
      BodyLineStep(lines, h, n);
      EscapeAllSnoc(lines, h + 1, n);
      var header := AppendOutput(lines[..h + 1]);
      var body := EscapeAll(lines[h + 1..n - 1]);
      var last := Escaped(lines[n - 1]) + "\n";
      calc {
        AppendOutput(lines[..n]);
        (header + Emit(body)) + last;
        { AppendAssoc(header, Emit(body), last); }
        header + (Emit(body) + last);
        { EmitSnoc(body, Escaped(lines[n - 1])); }
        header + Emit(body + [Escaped(lines[n - 1])]);
        header + Emit(EscapeAll(lines[h + 1..n]));
      }
    }
  }

  /** The appended text: with an empty line at h, the first one, the header block up to
      and including it as it was, each later line escaped, and one closing empty line;
      with no empty line at all, every line as it was and the closing empty line. */
  lemma AppendedShape(lines: seq<string>, h: nat)
    requires h < |lines| && lines[h] == "" && "" !in lines[..h]
    ensures AppendedText(lines) == Emit(lines[..h + 1]) + Emit(EscapeAll(lines[h + 1..])) + "\n"
  {
    BlankSeenSpec(lines[..h]);
    HeaderBlockShape(lines, h);
    AppendPrefixShape(lines, h, |lines|);
    assert lines[..|lines|] == lines;
  }

  lemma AppendedWithoutBlank(lines: seq<string>)
    requires "" !in lines
    ensures AppendedText(lines) == Emit(lines) + "\n"
  {
    BlankSeenSpec(lines);
    NoBlankNoEscape(lines);
  }
}
