/** String helpers with the semantics of the Go standard library calls the
    mailbox code relies on: strings.HasPrefix, strings.Index, strings.Trim*,
    strings.ToLower, strings.Join and the line splitting of bufio.ScanLines. */
module Text {

  /** An optional value: the Go code's (value, ok) and (value, err) pairs. */
  datatype Option<T> = None | Some(value: T)

  /** A Go byte. */
  type Byte = bv8

  /** unicode.IsSpace: the white-space characters strings.TrimSpace removes. */
  predicate IsSpace(c: char) {
    c == '\t' || c == '\n' || c == '\U{0B}' || c == '\U{0C}' || c == '\r' || c == ' '
    || c == '\U{85}' || c == '\U{A0}' || c == '\U{1680}'
    || ('\U{2000}' <= c <= '\U{200A}')
    || c == '\U{2028}' || c == '\U{2029}' || c == '\U{202F}' || c == '\U{205F}' || c == '\U{3000}'
  }

  /** The cut set " \t" of strings.TrimLeft(line, " \t"). */
  predicate IsBlank(c: char) { c == ' ' || c == '\t' }

  /** The cut set "<>" of strings.Trim(msgID, "<>"). */
  predicate IsAngle(c: char) { c == '<' || c == '>' }

  /** The cut sets the mailbox code trims with. */
  datatype CutSet = Spaces | Blanks | Angles

  predicate InCut(c: char, cut: CutSet) {
    match cut
    case Spaces => IsSpace(c)
    case Blanks => IsBlank(c)
    case Angles => IsAngle(c)
  }

  /** Removes the longest prefix of characters in cut. */
  function TrimLeft(s: string, cut: CutSet): string {
    if s != [] && InCut(s[0], cut) then TrimLeft(s[1..], cut) else s
  }

  /** TrimLeft keeps a suffix, which does not begin with a character in cut, and
      everything it removes is in cut. */
  lemma {:induction false} TrimLeftSpec(s: string, cut: CutSet)
    ensures var r := TrimLeft(s, cut);
      && |r| <= |s| && r == s[|s| - |r|..]
      && (r == [] || !InCut(r[0], cut))
      && (forall i :: 0 <= i < |s| - |r| ==> InCut(s[i], cut))
  {
    if s != [] && InCut(s[0], cut) {
      TrimLeftSpec(s[1..], cut);
    }
  }

  /** Removes the longest suffix of characters in cut. */
  function TrimRight(s: string, cut: CutSet): string {
    if s != [] && InCut(s[|s| - 1], cut) then TrimRight(s[..|s| - 1], cut) else s
  }

  /** TrimRight keeps a prefix, which does not end with a character in cut, and
      everything it removes is in cut. */
  lemma {:induction false} TrimRightSpec(s: string, cut: CutSet)
    ensures var r := TrimRight(s, cut);
      && |r| <= |s| && r == s[..|r|]
      && (r == [] || !InCut(r[|r| - 1], cut))
      && (forall i :: |r| <= i < |s| ==> InCut(s[i], cut))
  {
    if s != [] && InCut(s[|s| - 1], cut) {
      TrimRightSpec(s[..|s| - 1], cut);
    }
  }

  /** strings.TrimSpace */
  function TrimSpace(s: string): string {
    TrimRight(TrimLeft(s, Spaces), Spaces)
  }

  /** A string that TrimSpace leaves unchanged. */
  predicate IsTrimmed(s: string) {
    s == [] || (!IsSpace(s[0]) && !IsSpace(s[|s| - 1]))
  }

  lemma TrimSpaceShape(s: string)
    ensures IsTrimmed(TrimSpace(s))
    ensures IsTrimmed(s) ==> TrimSpace(s) == s
  {
    var l := TrimLeft(s, Spaces);
    var r := TrimRight(l, Spaces);
    TrimLeftSpec(s, Spaces);
    TrimRightSpec(l, Spaces);
    if r != [] {
      assert r[0] == l[0];
    }
  }

  /** A character sequence containing no character of the given kind. */
  predicate NoneOf(s: string, c: char) {
    forall i :: 0 <= i < |s| ==> s[i] != c
  }

  /** Trimming only removes characters. */
  lemma TrimSpaceKeepsNoneOf(s: string, c: char)
    requires NoneOf(s, c)
    ensures NoneOf(TrimSpace(s), c)
  {
    var l := TrimLeft(s, Spaces);
    var r := TrimRight(l, Spaces);
    TrimLeftSpec(s, Spaces);
    TrimRightSpec(l, Spaces);
    forall j | 0 <= j < |r| ensures r[j] != c {
      assert r[j] == l[j] == s[|s| - |l| + j];
    }
  }

  /** strings.HasPrefix */
  predicate HasPrefix(s: string, p: string) {
    |p| <= |s| && s[..|p|] == p
  }

  /** t occurs in s at position j. */
  predicate OccursAt(s: string, t: string, j: int) {
    0 <= j && j + |t| <= |s| && s[j..j + |t|] == t
  }

  /** Index of the first occurrence of t in s at or after position k, or -1. */
  function IndexFrom(s: string, t: string, k: nat): int
    requires k <= |s|
    decreases |s| - k
  {
    if OccursAt(s, t, k) then k
    else if k == |s| then -1
    else IndexFrom(s, t, k + 1)
  }

  /** IndexFrom finds the first occurrence at or after k, or reports that there is none. */
  lemma {:induction false} IndexFromSpec(s: string, t: string, k: nat)
    requires k <= |s|
    decreases |s| - k
    ensures var r := IndexFrom(s, t, k);
      && (r == -1 || (k <= r && OccursAt(s, t, r)))
      && (r == -1 ==> forall j :: k <= j <= |s| ==> !OccursAt(s, t, j))
      && (r != -1 ==> forall j :: k <= j < r ==> !OccursAt(s, t, j))
  {
    if !OccursAt(s, t, k) && k < |s| {
      IndexFromSpec(s, t, k + 1);
    }
  }

  /** strings.Index: the first occurrence of t in s, or -1. */
  function IndexOf(s: string, t: string): int {
    IndexFrom(s, t, 0)
  }

  /** IndexOf returns -1 exactly when t does not occur in s, and otherwise the first
      position where it occurs. */
  lemma IndexOfSpec(s: string, t: string)
    ensures var r := IndexOf(s, t);
      && (r == -1 || OccursAt(s, t, r))
      && (r == -1 <==> forall j :: 0 <= j <= |s| ==> !OccursAt(s, t, j))
      && (r != -1 ==> forall j :: 0 <= j < r ==> !OccursAt(s, t, j))
  {
    IndexFromSpec(s, t, 0);
  }

  /** Before the first occurrence of a one-character string, that character does not occur. */
  lemma IndexOfCharPrefix(s: string, c: char)
    ensures var i := IndexOf(s, [c]);
      (i == -1 ==> NoneOf(s, c)) && (i != -1 ==> 0 <= i < |s| && s[i] == c && NoneOf(s[..i], c))
  {
    IndexOfSpec(s, [c]);
    var i := IndexOf(s, [c]);
    var bound := if i == -1 then |s| else i;
    forall j | 0 <= j < bound ensures s[j] != c {
      assert !OccursAt(s, [c], j);
      assert s[j..j + 1] == [s[j]];
    }
    if i != -1 {
      assert s[i..i + 1] == [c];
    }
  }

  /** The ASCII part of strings.ToLower: non-ASCII capitals are left as they are. */
  function LowerChar(c: char): char {
    if 'A' <= c <= 'Z' then (c as int + 32) as char else c
  }

  function ToLower(s: string): string {
    seq(|s|, i requires 0 <= i < |s| => LowerChar(s[i]))
  }

  lemma ToLowerIdempotent(s: string)
    ensures ToLower(ToLower(s)) == ToLower(s)
  {
  }

  /** strings.Join */
  function Join(parts: seq<string>, sep: string): (r: string)
    ensures parts == [] ==> r == []
    ensures |parts| == 1 ==> r == parts[0]
  {
    if parts == [] then []
    else if |parts| == 1 then parts[0]
    else parts[0] + sep + Join(parts[1..], sep)
  }

  /** Joining one more part adds the separator and that part at the end. */
  lemma {:induction false} JoinSnoc(parts: seq<string>, p: string, sep: string)
    requires parts != []
    ensures Join(parts + [p], sep) == Join(parts, sep) + sep + p
  {
    if |parts| == 1 {
      assert (parts + [p])[1..] == [p];
    } else {
      assert (parts + [p])[1..] == parts[1..] + [p];
      JoinSnoc(parts[1..], p, sep);
    }
  }

  /** Concatenation of a sequence of sequences, in order. */
  function Concat<T>(ss: seq<seq<T>>): seq<T> {
    if ss == [] then [] else ss[0] + Concat(ss[1..])
  }

  lemma {:induction false} ConcatAppend<T>(a: seq<seq<T>>, b: seq<seq<T>>)
    ensures Concat(a + b) == Concat(a) + Concat(b)
  {
    if a == [] {
      assert a + b == b;
    } else {
      assert (a + b)[1..] == a[1..] + b;
      ConcatAppend(a[1..], b);
    }
  }

  lemma ConcatSnoc<T>(a: seq<seq<T>>, s: seq<T>)
    ensures Concat(a + [s]) == Concat(a) + s
  {
    ConcatAppend(a, [s]);
  }

  lemma AppendAssoc<T>(a: seq<T>, b: seq<T>, c: seq<T>)
    ensures (a + b) + c == a + (b + c)
  {
  }

  /** A prefix one longer is the shorter prefix and the next element. */
  lemma PrefixStep<T>(s: seq<T>, i: nat)
    requires i < |s|
    ensures s[..i + 1] == s[..i] + [s[i]]
  {
  }

  /** One more element of a prefix adds that element's part at the end. */
  lemma ConcatPrefixStep<T>(ss: seq<seq<T>>, i: nat)
    requires i < |ss|
    ensures Concat(ss[..i + 1]) == Concat(ss[..i]) + ss[i]
  {
    assert ss[..i + 1] == ss[..i] + [ss[i]];
    ConcatSnoc(ss[..i], ss[i]);
  }

  /** The elements that satisfy keep, in their order. */
  function Filter<T>(xs: seq<T>, keep: T -> bool): seq<T> {
    if xs == [] then []
    else
      var n := |xs| - 1;
      Filter(xs[..n], keep) + (if keep(xs[n]) then [xs[n]] else [])
  }

  lemma FilterStep<T>(xs: seq<T>, keep: T -> bool, i: nat)
    requires i < |xs|
    ensures Filter(xs[..i + 1], keep) == Filter(xs[..i], keep) + (if keep(xs[i]) then [xs[i]] else [])
  {
    assert xs[..i + 1][..i] == xs[..i];
  }

  /** Filtering splits over concatenation, so what is kept keeps its order. */
  lemma {:induction false} FilterAppend<T>(a: seq<T>, b: seq<T>, keep: T -> bool)
    ensures Filter(a + b, keep) == Filter(a, keep) + Filter(b, keep)
    decreases |b|
  {
    if b == [] {
      assert a + b == a;
    } else {
      var n := |b| - 1;
      FilterAppend(a, b[..n], keep);
      assert (a + b)[..|a + b| - 1] == a + b[..n];
      assert (a + b)[|a + b| - 1] == b[n];
    }
  }

  /** Exactly the elements satisfying keep remain: each kept element is an input
      element that satisfies keep, each input element that does is kept, and when all
      do nothing is dropped. */
  lemma {:induction false} FilterSpec<T>(xs: seq<T>, keep: T -> bool)
    ensures var f := Filter(xs, keep);
      && |f| <= |xs|
      && (forall j :: 0 <= j < |f| ==> f[j] in xs && keep(f[j]))
      && (forall j :: 0 <= j < |xs| && keep(xs[j]) ==> xs[j] in f)
      && ((forall j :: 0 <= j < |xs| ==> keep(xs[j])) ==> f == xs)
  {
    if xs != [] {
      var n := |xs| - 1;
      var init := xs[..n];
      FilterSpec(init, keep);
      assert xs == init + [xs[n]];
      forall j | 0 <= j < n && keep(xs[j]) ensures xs[j] in Filter(xs, keep) {
        assert xs[j] == init[j];
      }
    }
  }

  /** Each line followed by "\n", as the writers of the mailbox code emit them. */
  function Terminated(lines: seq<string>): (r: seq<string>)
    ensures |r| == |lines|
    ensures forall i :: 0 <= i < |lines| ==> r[i] == lines[i] + "\n"
  {
    if lines == [] then [] else [lines[0] + "\n"] + Terminated(lines[1..])
  }

  lemma TerminatedSnoc(lines: seq<string>, line: string)
    ensures Concat(Terminated(lines + [line])) == Concat(Terminated(lines)) + (line + "\n")
  {
    assert Terminated(lines + [line]) == Terminated(lines) + [line + "\n"];
    ConcatSnoc(Terminated(lines), line + "\n");
  }

  /** Lines written one after the other, each followed by "\n". */
  function Emit(lines: seq<string>): string {
    if lines == [] then [] else Emit(lines[..|lines| - 1]) + (lines[|lines| - 1] + "\n")
  }

  lemma EmitSnoc(lines: seq<string>, line: string)
    ensures Emit(lines + [line]) == Emit(lines) + (line + "\n")
  {
    assert (lines + [line])[..|lines|] == lines;
  }

  /** Writing the lines one by one gives the concatenation of the terminated lines. */
  lemma {:induction false} EmitIsConcat(lines: seq<string>)
    ensures Emit(lines) == Concat(Terminated(lines))
  {
    if lines != [] {
      var init := lines[..|lines| - 1];
      EmitIsConcat(init);
      TerminatedSnoc(init, lines[|lines| - 1]);
      assert init + [lines[|lines| - 1]] == lines;
    }
  }

  /** bufio.ScanLines drops one trailing carriage return from each token. */
  function DropCR(s: string): string {
    if s != [] && s[|s| - 1] == '\r' then s[..|s| - 1] else s
  }

  /** The tokens a bufio.Scanner with ScanLines yields for s: split at every "\n",
      one trailing "\r" dropped per line, a final unterminated fragment kept. */
  function ScanLines(s: string): (lines: seq<string>)
    decreases |s|
    ensures forall i :: 0 <= i < |lines| ==> NoneOf(lines[i], '\n')
  {
    if s == [] then []
    else
      var i := IndexOf(s, "\n");
      IndexOfSpec(s, "\n");
      if i == -1 then
        assert forall j :: 0 <= j < |s| ==> s[j] != '\n' by {
          forall j | 0 <= j < |s| ensures s[j] != '\n' {
            assert !OccursAt(s, "\n", j);
            assert s[j..j + 1] == [s[j]];
          }
        }
        [DropCR(s)]
      else
        assert forall j :: 0 <= j < i ==> s[j] != '\n' by {
          forall j | 0 <= j < i ensures s[j] != '\n' {
            assert !OccursAt(s, "\n", j);
            assert s[j..j + 1] == [s[j]];
          }
        }
        [DropCR(s[..i])] + ScanLines(s[i + 1..])
  }

  /** A line the scanner gives back unchanged once it is terminated by "\n". */
  predicate IsScannable(line: string) {
    NoneOf(line, '\n') && NoneOf(line, '\r')
  }

  /** Scanning text made of newline-terminated lines gives those lines back. */
  lemma {:induction false} ScanTerminatedLines(lines: seq<string>)
    requires forall i :: 0 <= i < |lines| ==> IsScannable(lines[i])
    ensures ScanLines(Concat(Terminated(lines))) == lines
  {
    if lines != [] {
      var l := lines[0];
      var rest := Concat(Terminated(lines[1..]));
      assert Terminated(lines)[1..] == Terminated(lines[1..]);
      var s := Concat(Terminated(lines));
      assert s == l + "\n" + rest;
      assert OccursAt(s, "\n", |l|) by {
        assert s[|l|..|l| + 1] == "\n";
      }
      forall j | 0 <= j < |l| ensures !OccursAt(s, "\n", j) {
        assert s[j] == l[j];
      }
      IndexOfSpec(s, "\n");
      assert IndexOf(s, "\n") == |l|;
      assert s[..|l|] == l;
      assert s[|l| + 1..] == rest;
      assert DropCR(l) == l;
      ScanTerminatedLines(lines[1..]);
    }
  }

  /** Decimal rendering of an integer, as fmt's %d. */
  function DigitChar(d: int): char
    requires 0 <= d < 10
  {
    "0123456789"[d]
  }

  function NatToDecimal(n: nat): (r: string)
    ensures |r| >= 1
    ensures forall i :: 0 <= i < |r| ==> '0' <= r[i] <= '9'
  {
    if n < 10 then [DigitChar(n)] else NatToDecimal(n / 10) + [DigitChar(n % 10)]
  }

  function IntToDecimal(n: int): string {
    if n < 0 then "-" + NatToDecimal(-n) else NatToDecimal(n)
  }
}
