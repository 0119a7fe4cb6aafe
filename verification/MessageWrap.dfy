/** Word wrapping for message boxes (kernel/dwm/windows/message_box.c:33-128). */
module MessageWrap {

  // ---------------------------------------------------------------- what text is made of

  /** The characters since the last line break. */
  function LastLine(t: string): nat {
    if t == "" || t[|t| - 1] == '\n' then 0 else 1 + LastLine(t[..|t| - 1])
  }

  /** The length of the longest line. */
  function Longest(t: string): nat {
    if t == "" then 0
    else
      var before, last := Longest(t[..|t| - 1]), LastLine(t);
      if last > before then last else before
  }

  function Breaks(t: string): nat {
    if t == "" then 0 else Breaks(t[..|t| - 1]) + (if t[|t| - 1] == '\n' then 1 else 0)
  }

  /** The text without its spaces and line breaks. */
  function Ink(t: string): string {
    if t == "" then ""
    else if t[|t| - 1] == ' ' || t[|t| - 1] == '\n' then Ink(t[..|t| - 1])
    else Ink(t[..|t| - 1]) + [t[|t| - 1]]
  }

  ghost predicate NoBreak(s: string) {
    forall i :: 0 <= i < |s| ==> s[i] != '\n'
  }

  ghost predicate Blank(s: string) {
    forall i :: 0 <= i < |s| ==> s[i] == ' ' || s[i] == '\n'
  }

  lemma {:induction false} InkConcat(a: string, b: string)
    ensures Ink(a + b) == Ink(a) + Ink(b)
  {
    if b == "" {
      assert a + b == a;
    } else {
      assert (a + b)[..|a + b| - 1] == a + b[..|b| - 1];
      InkConcat(a, b[..|b| - 1]);
    }
  }

  lemma {:induction false} InkBlank(s: string)
    requires Blank(s)
    ensures Ink(s) == ""
  {
    if s != "" { InkBlank(s[..|s| - 1]); }
  }

  /** One more line without breaks in it. */
  lemma {:induction false} LineAppended(t: string, s: string)
    requires NoBreak(s) && (t == "" || t[|t| - 1] == '\n')
    ensures LastLine(t + s) == |s|
    ensures Longest(t + s) == if |s| > Longest(t) then |s| else Longest(t)
    ensures Breaks(t + s) == Breaks(t)
  {
    if s == "" {
      assert t + s == t;
    } else {
      var s', c := s[..|s| - 1], s[|s| - 1];
      LineAppended(t, s');
      OneMore(t + s', c);
      assert t + s' + [c] == t + s;
      hide LastLine, Longest, Breaks;
    }
  }

  lemma OneMore(t: string, c: char)
    ensures c != '\n' ==> LastLine(t + [c]) == LastLine(t) + 1
    ensures c == '\n' ==> LastLine(t + [c]) == 0
    ensures Longest(t + [c]) == if LastLine(t + [c]) > Longest(t) then LastLine(t + [c]) else Longest(t)
    ensures Breaks(t + [c]) == Breaks(t) + if c == '\n' then 1 else 0
  {
    assert (t + [c])[..|t|] == t;
  }

  lemma BreakAppended(t: string)
    ensures Longest(t + "\n") == Longest(t) && Breaks(t + "\n") == Breaks(t) + 1
    ensures Ink(t + "\n") == Ink(t)
  {
    assert (t + "\n")[..|t|] == t;
  }

  lemma {:induction false} LastLineIs(t: string)
    ensures LastLine(t) <= |t| && LastLine(t) <= Longest(t)
    ensures LastLine(t) < |t| ==> t[|t| - LastLine(t) - 1] == '\n'
    ensures forall i :: |t| - LastLine(t) <= i < |t| ==> t[i] != '\n'
  {
    if t != "" && t[|t| - 1] != '\n' {
      var t' := t[..|t| - 1];
      LastLineIs(t');
      assert forall i :: 0 <= i < |t'| ==> t[i] == t'[i];
      hide Longest;
    }
  }

  /** The longest line is one: a stretch without breaks of that length, and none is longer. */
  lemma {:induction false} LongestIsLongest(t: string)
    ensures exists i, j :: 0 <= i <= j <= |t| && NoBreak(t[i..j]) && j - i == Longest(t)
    ensures forall i, j :: 0 <= i <= j <= |t| && NoBreak(t[i..j]) ==> j - i <= Longest(t)
  {
    LongestStep(t);
    hide NoBreak, Longest, LastLine;
    if t == "" {
      EmptyNoBreak(t);
      assert NoBreak(t[0..0]);
    } else {
      var n := |t| - 1;
      LongestIsLongest(t[..n]);
      LastLineIs(t);
      LastIsNoBreak(t);
      var i, j :| 0 <= i <= j <= n && NoBreak(t[..n][i..j]) && j - i == Longest(t[..n]);
      assert t[..n][i..j] == t[i..j];
      assert t[|t| - LastLine(t)..|t|] == t[|t| - LastLine(t)..];
      forall i, j | 0 <= i <= j <= |t| && NoBreak(t[i..j]) ensures j - i <= Longest(t) {
        if j <= n {
          assert t[..n][i..j] == t[i..j];
        } else {
          NoLongerThanLast(t, i);
        }
      }
    }
  }

  lemma LongestStep(t: string)
    ensures t == "" ==> Longest(t) == 0
    ensures t != "" ==>
      Longest(t) == if LastLine(t) > Longest(t[..|t| - 1]) then LastLine(t) else Longest(t[..|t| - 1])
  {
  }

  lemma EmptyNoBreak(t: string)
    ensures NoBreak(t[0..0])
  {
  }

  lemma LastIsNoBreak(t: string)
    ensures LastLine(t) <= |t| && NoBreak(t[|t| - LastLine(t)..])
  {
    LastLineIs(t);
  }

  lemma {:induction false} NoLongerThanLast(t: string, i: nat)
    requires i <= |t| && NoBreak(t[i..|t|])
    ensures |t| - i <= LastLine(t)
    decreases |t|
  {
    var n := |t| - 1;
    if i <= n {
      FrontOf(t, i);
      hide NoBreak;
      NoLongerThanLast(t[..n], i);
    }
  }

  lemma FrontOf(t: string, i: nat)
    requires i < |t| && NoBreak(t[i..|t|])
    ensures t[|t| - 1] != '\n' && NoBreak(t[..|t| - 1][i..|t| - 1])
  {
    var n := |t| - 1;
    var s := t[i..|t|];
    assert s[n - i] == t[n];
    forall k | 0 <= k < n - i ensures t[..n][i..n][k] != '\n' { assert t[..n][i..n][k] == s[k]; }
  }

  /** Breaks are counted. */
  lemma {:induction false} BreaksAreCounted(t: string)
    ensures Breaks(t) == multiset(t)['\n']
  {
    if t != "" {
      BreaksAreCounted(t[..|t| - 1]);
      assert t == t[..|t| - 1] + [t[|t| - 1]];
    }
  }

  /** mb_longest_line: one pass with the length of the current line and the longest so far. */
  method LongestLine(text: string) returns (longest: nat)
    ensures longest == Longest(text)
  {
    longest := 0;
    var cur := 0;
    for i := 0 to |text|
      invariant longest == Longest(text[..i]) && cur == LastLine(text[..i])
    {
      assert text[..i + 1][..i] == text[..i];
      if text[i] == '\n' {
        cur := 0;
      } else {
        cur := cur + 1;
        if cur > longest { longest := cur; }
      }
    }
    assert text[..|text|] == text;
  }

  // ---------------------------------------------------------------- one line

  ghost predicate Spaces(s: string) {
    forall i :: 0 <= i < |s| ==> s[i] == ' '
  }

  ghost predicate NoSpace(s: string) {
    forall i :: 0 <= i < |s| ==> s[i] != ' '
  }

  /** Up to a line break already in the text. */
  ghost predicate AtBreak(src: string, pos: nat, cols: nat, lineLen: nat, next: nat)
    requires pos + lineLen < |src|
  {
    lineLen <= cols && NoBreak(src[pos..pos + lineLen]) && src[pos + lineLen] == '\n' && next == pos + lineLen + 1
  }

  /** At column brk, the last space that still fits, without the spaces around it. */
  ghost predicate AtSpace(src: string, pos: nat, cols: nat, lineLen: nat, next: nat, brk: nat)
    requires pos + cols < |src|
  {
    && NoBreak(src[pos..pos + cols + 1]) && lineLen <= brk <= cols && pos + brk < next <= |src|
    && src[pos + brk] == ' ' && NoSpace(src[pos + brk + 1..pos + cols + 1])
    && Spaces(src[pos + lineLen..next]) && (lineLen > 0 ==> src[pos + lineLen - 1] != ' ')
    && (next < |src| ==> src[next] != ' ')
  }

  /** In the middle of a word too long for a line. */
  ghost predicate InWord(src: string, pos: nat, cols: nat, lineLen: nat, next: nat)
    requires pos + cols < |src|
  {
    && NoBreak(src[pos..pos + cols + 1]) && NoSpace(src[pos + 1..pos + cols + 1]) && lineLen == cols
    && next == pos + cols
  }

  /** Where the line starting at pos ends and where the next one begins. */
  ghost predicate LineFound(src: string, pos: nat, cols: nat, lineLen: nat, next: nat)
    requires pos < |src|
  {
    if pos + cols < |src| then
      || (pos + lineLen < |src| && AtBreak(src, pos, cols, lineLen, next))
      || (exists brk :: 1 <= brk <= cols && AtSpace(src, pos, cols, lineLen, next, brk))
      || InWord(src, pos, cols, lineLen, next)
    else
      || (pos + lineLen < |src| && AtBreak(src, pos, cols, lineLen, next))
      || (NoBreak(src[pos..]) && pos + lineLen == |src| == next)
  }

  /** A line is never too wide, has no break in it, and what it leaves out is blank. */
  lemma LineIsFit(src: string, pos: nat, cols: nat, lineLen: nat, next: nat)
    requires pos < |src| && cols >= 1 && LineFound(src, pos, cols, lineLen, next)
    ensures pos < next <= |src| && pos + lineLen <= next && lineLen <= cols
    ensures NoBreak(src[pos..pos + lineLen]) && Ink(src[pos..next]) == Ink(src[pos..pos + lineLen])
  {
    assert src[pos..next] == src[pos..pos + lineLen] + src[pos + lineLen..next];
    assert Blank(src[pos + lineLen..next]);
    InkConcat(src[pos..pos + lineLen], src[pos + lineLen..next]);
    InkBlank(src[pos + lineLen..next]);
    if pos + cols < |src| && NoBreak(src[pos..pos + cols + 1]) {
      assert src[pos..pos + lineLen] == src[pos..pos + cols + 1][..lineLen];
    }
  }

  lemma SliceGrows(s: string, from: nat, to: nat)
    requires from <= to < |s|
    ensures s[from..to + 1] == s[from..to] + [s[to]]
  {
  }

  lemma SliceFront(s: string, from: nat, to: nat)
    requires from < to <= |s|
    ensures s[from..to] == [s[from]] + s[from + 1..to]
  {
  }

  lemma NoSpaceHere(s: string, from: nat, to: nat)
    requires from < |s| && from <= to <= |s| && s[from] != ' ' && Spaces(s[from..to])
    ensures to == from
  {
    if from < to { SliceFront(s, from, to); }
  }

  method SkipSpaces(src: string, from: nat, start: nat) returns (next: nat)
    requires from <= start <= |src| && Spaces(src[from..start])
    ensures start <= next <= |src| && Spaces(src[from..next]) && (next < |src| ==> src[next] != ' ')
  {
    next := start;
    while next < |src| && src[next] == ' '
      invariant start <= next <= |src| && Spaces(src[from..next])
    {
      SliceGrows(src, from, next);
      next := next + 1;
    }
  }

  /** The last column up to cols that holds a space, or 0. */
  method LastSpace(src: string, pos: nat, cols: nat) returns (brk: nat)
    requires pos + cols < |src|
    ensures brk <= cols && NoSpace(src[pos + brk + 1..pos + cols + 1]) && (brk > 0 ==> src[pos + brk] == ' ')
  {
    brk := cols;
    while brk > 0 && src[pos + brk] != ' '
      invariant 0 <= brk <= cols && NoSpace(src[pos + brk + 1..pos + cols + 1])
    {
      SliceFront(src, pos + brk, pos + cols + 1);
      brk := brk - 1;
    }
  }

  /** The length of the line without its trailing spaces. */
  method TrimLine(src: string, pos: nat, brk: nat) returns (lineLen: nat)
    requires pos + brk < |src| && src[pos + brk] == ' '
    ensures lineLen <= brk && Spaces(src[pos + lineLen..pos + brk + 1]) && (lineLen > 0 ==> src[pos + lineLen - 1] != ' ')
  {
    lineLen := brk;
    while lineLen > 0 && src[pos + lineLen - 1] == ' '
      invariant 0 <= lineLen <= brk && Spaces(src[pos + lineLen..pos + brk + 1])
    {
      SliceFront(src, pos + lineLen - 1, pos + brk + 1);
      lineLen := lineLen - 1;
    }
  }

  /** A line too long for its columns and without a break: at the last space, or in mid-word. */
  method BreakLine(src: string, pos: nat, cols: nat) returns (lineLen: nat, next: nat, brk: nat)
    requires pos + cols < |src| && cols >= 1 && NoBreak(src[pos..pos + cols + 1])
    ensures brk <= cols && if brk > 0 then AtSpace(src, pos, cols, lineLen, next, brk) else InWord(src, pos, cols, lineLen, next)
  {
    brk := LastSpace(src, pos, cols);
    if brk > 0 {
      lineLen := TrimLine(src, pos, brk);
      next := pos + brk + 1;
    } else {
      lineLen, next := cols, pos + cols;
      assert src[pos + 1..pos + cols + 1][cols - 1] == src[next];
    }
    hide NoBreak, NoSpace, Spaces;
    EmptySpaces(src, pos + lineLen);
    next := SkipSpaces(src, pos + lineLen, next);
    if brk == 0 { NoSpaceHere(src, pos + cols, next); }
  }

  lemma EmptySpaces(s: string, at: nat)
    requires at <= |s|
    ensures Spaces(s[at..at])
  {
  }

  method FindLine(src: string, pos: nat, cols: nat) returns (lineLen: nat, next: nat)
    requires pos < |src| && cols >= 1
    ensures LineFound(src, pos, cols, lineLen, next)
  {
    hide AtSpace, InWord;
    var remaining := |src| - pos;
    var limit := if remaining < cols + 1 then remaining else cols + 1;
    var nl := 0;
    while nl < limit && src[pos + nl] != '\n'
      invariant nl <= limit && NoBreak(src[pos..pos + nl])
    {
      SliceGrows(src, pos, pos + nl);
      nl := nl + 1;
    }
    if nl < limit { return nl, pos + nl + 1; }
    if remaining <= cols {
      assert src[pos..pos + nl] == src[pos..];
      return remaining, |src|;
    }
    var brk;
    lineLen, next, brk := BreakLine(src, pos, cols);
  }

  // ---------------------------------------------------------------- the whole message

  method Put(out: array<char>, o: nat, s: string)
    requires o + |s| <= out.Length
    modifies out
    ensures out[..o + |s|] == old(out[..o]) + s
  {
    forall i | 0 <= i < |s| { out[o + i] := s[i]; }
    assert out[..o + |s|] == out[..o] + out[o..o + |s|];
    assert out[..o] == old(out[..o]) && out[o..o + |s|] == s;
  }

  /** A line, with a break before it unless it is the first. */
  method PutLine(out: array<char>, o: nat, more: bool, s: string) returns (end: nat)
    requires o + 1 + |s| <= out.Length
    modifies out
    ensures end <= out.Length && out[..end] == (if more then old(out[..o]) + "\n" else old(out[..o])) + s
    ensures end == o + |s| + if more then 1 else 0
  {
    end := o;
    if more {
      Put(out, end, "\n");
      end := end + 1;
    }
    Put(out, end, s);
    end := end + |s|;
  }

  /** So many lines, the longest of that length, none too long. */
  ghost predicate Wrapped(text: string, lines: nat, longest: nat, cols: nat) {
    && longest == Longest(text) <= cols
    && (if lines == 0 then text == "" else Breaks(text) + 1 == lines)
  }

  /** Where each line starts, its length, and where the next one starts. */
  type Rows = seq<(nat, nat, nat)>

  /** The i-th line starts where the one before left off and is as FindLine finds it. */
  ghost predicate RowOk(src: string, cols: nat, rows: Rows, i: nat)
    requires i < |rows|
  {
    && rows[i].0 == (if i == 0 then 0 else rows[i - 1].2) && rows[i].0 < |src|
    && LineFound(src, rows[i].0, cols, rows[i].1, rows[i].2) && rows[i].0 + rows[i].1 <= |src|
  }

  ghost predicate RowsOk(src: string, cols: nat, rows: Rows) {
    forall i :: 0 <= i < |rows| ==> RowOk(src, cols, rows, i)
  }

  ghost function RowsEnd(rows: Rows): nat {
    if rows == [] then 0 else rows[|rows| - 1].2
  }

  /** The lines put under one another. */
  ghost function Laid(src: string, rows: Rows): string
    requires RowsFit(src, rows)
  {
    if rows == [] then ""
    else
      var init, row := rows[..|rows| - 1], rows[|rows| - 1];
      (if init == [] then "" else Laid(src, init) + "\n") + src[row.0..row.0 + row.1]
  }

  lemma RowAdded(src: string, cols: nat, rows: Rows, lineLen: nat, next: nat)
    requires RowsOk(src, cols, rows) && RowsEnd(rows) < |src| && RowsEnd(rows) + lineLen <= |src|
    requires LineFound(src, RowsEnd(rows), cols, lineLen, next)
    ensures var more := rows + [(RowsEnd(rows), lineLen, next)];
            && RowsOk(src, cols, more) && RowsEnd(more) == next && RowsFit(src, rows) && RowsFit(src, more)
            && Laid(src, more) == (if rows == [] then "" else Laid(src, rows) + "\n") + src[RowsEnd(rows)..RowsEnd(rows) + lineLen]
  {
    hide LineFound, Laid;
    var row := (RowsEnd(rows), lineLen, next);
    var more: Rows := rows + [row];
    RowsOkFit(src, cols, rows);
    LaidStep(src, rows, row);
    forall i | 0 <= i < |rows| ensures RowOk(src, cols, more, i) { assert RowOk(src, cols, rows, i); }
    assert RowOk(src, cols, more, |rows|);
  }

  lemma LaidStep(src: string, rows: Rows, row: (nat, nat, nat))
    requires RowsFit(src, rows) && row.0 + row.1 <= |src|
    ensures RowsFit(src, rows + [row])
    ensures Laid(src, rows + [row]) == (if rows == [] then "" else Laid(src, rows) + "\n") + src[row.0..row.0 + row.1]
  {
    var more: Rows := rows + [row];
    assert more[..|more| - 1] == rows;
  }

  lemma LineAdded(text: string, lines: nat, longest: nat, cols: nat, s: string)
    requires Wrapped(text, lines, longest, cols) && NoBreak(s) && |s| <= cols
    ensures var t := (if lines > 0 then text + "\n" else text) + s;
            && Wrapped(t, lines + 1, if |s| > longest then |s| else longest, cols)
            && Ink(t) == Ink(text) + Ink(s)
  {
    BreakAppended(text);
    var t := if lines > 0 then text + "\n" else text;
    LineAppended(t, s);
    InkConcat(t, s);
    hide Longest, LastLine, Ink;
  }

  /** Where the last line begins. */
  ghost function LineStart(t: string): (k: nat)
    ensures k <= |t|
  {
    LastLineIs(t);
    |t| - LastLine(t)
  }

  lemma LineStartIs(t: string)
    ensures NoBreak(t[LineStart(t)..]) && |t| - LineStart(t) <= Longest(t)
    ensures LineStart(t) > 0 ==> t[LineStart(t) - 1] == '\n'
  {
    LastLineIs(t);
  }

  /** The last line cut short where "..." begins. */
  ghost function CutAt(text: string, cols: nat): (k: nat)
    ensures LineStart(text) <= k <= |text|
  {
    var cur := |text| - LineStart(text);
    |text| - if cur + 3 <= cols then 0 else if cols <= 3 then cur else cur + 3 - cols
  }

  /** As much of the last line is kept as leaves room for the dots; none of it if there is no room. */
  lemma CutAtIs(text: string, cols: nat)
    ensures var kept, line := CutAt(text, cols) - LineStart(text), |text| - LineStart(text);
            && 0 <= kept <= line && (kept > 0 ==> kept + 3 <= cols)
            && (kept == line || kept + 3 == cols || (kept == 0 && cols < 3))
  {
    hide LineStart;
  }

  /** Swapping the last line for another one, at least as long. */
  lemma LastLineSwapped(text: string, s: string)
    requires NoBreak(s) && |s| >= |text| - LineStart(text)
    ensures var t := text[..LineStart(text)] + s;
            && Breaks(t) == Breaks(text)
            && Longest(t) == if |s| > Longest(text) then |s| else Longest(text)
  {
    hide Longest, Breaks, LastLine, NoBreak, LineStart;
    LineStartIs(text);
    var start := LineStart(text);
    var before, last := text[..start], text[start..];
    assert before + last == text;
    LineAppended(before, last);
    LineAppended(before, s);
  }

  lemma MarkedNoBreak(s: string, k: nat)
    requires NoBreak(s) && k <= |s|
    ensures NoBreak(s[..k] + "...")
  {
  }

  /** The kept part of the last line and the mark fit, and with them the text is as said. */
  lemma CutMarked(text: string, lines: nat, longest: nat, cols: nat)
    requires Wrapped(text, lines, longest, cols) && lines > 0
    ensures var t := text[..CutAt(text, cols)] + "..."; var cur := CutAt(text, cols) - LineStart(text) + 3;
            && Breaks(t) + 1 == lines && Longest(t) == (if cur > longest then cur else longest)
            && (cols >= 3 ==> Longest(t) <= cols)
  {
    hide Longest, Breaks, LastLine, NoBreak, LineStart;
    LineStartIs(text);
    var start := LineStart(text);
    var k := CutAt(text, cols) - start;
    MarkedNoBreak(text[start..], k);
    LastLineSwapped(text, text[start..][..k] + "...");
    CutParts(text, start, k);
  }

  lemma CutParts(text: string, start: nat, k: nat)
    requires start + k <= |text|
    ensures text[..start] + (text[start..][..k] + "...") == text[..start + k] + "..."
  {
  }

  lemma InkPrefix(s: string, k: nat)
    requires k <= |s|
    ensures Ink(s[..k]) <= Ink(s)
  {
    assert s == s[..k] + s[k..];
    InkConcat(s[..k], s[k..]);
  }

  /** Back to the start of the last line, and from there forward as far as leaves room for "..." */
  method FindCut(out: array<char>, o: nat, cols: nat) returns (at: nat, cur: nat)
    requires o <= out.Length
    ensures at == CutAt(out[..o], cols) && cur == at - LineStart(out[..o])
  {
    hide LineStart;
    ghost var text := out[..o];
    LineStartChars(text);
    at := o;
    var lineStart := at;
    while lineStart > 0 && out[lineStart - 1] != '\n'
      invariant LineStart(text) <= lineStart <= at
    {
      lineStart := lineStart - 1;
    }
    cur := at - lineStart;
    while cur > 0 && cur + 3 > cols
      invariant 0 <= cur <= o - lineStart && at == lineStart + cur
      invariant cur == o - lineStart || cur + 3 >= cols
    {
      at, cur := at - 1, cur - 1;
    }
  }

  /** Makes room in the last line and puts "..." there. */
  method MarkCut(out: array<char>, o: nat, lines: nat, was: nat, cols: nat) returns (at: nat, longest: nat)
    requires o + 3 < out.Length && lines > 0 && Wrapped(out[..o], lines, was, cols)
    modifies out
    ensures at <= o + 3 && out[..at] == old(out[..o])[..CutAt(old(out[..o]), cols)] + "..."
    ensures longest == Longest(out[..at]) && Breaks(out[..at]) + 1 == lines && (cols >= 3 ==> longest <= cols)
  {
    ghost var text := out[..o];
    CutMarked(text, lines, was, cols);
    hide Longest, Breaks, NoBreak, LineStart, CutAt, LastLine;
    var cur;
    at, cur := FindCut(out, o, cols);
    assert out[..at] == text[..at];
    Put(out, at, "...");
    at, cur := at + 3, cur + 3;
    longest := if cur > was then cur else was;
  }

  lemma LineStartChars(t: string)
    ensures LineStart(t) > 0 ==> t[LineStart(t) - 1] == '\n'
    ensures forall i :: LineStart(t) <= i < |t| ==> t[i] != '\n'
  {
    LastLineIs(t);
  }

  /** The text so far: laid out from the rows, with all it is to say about it. */
  ghost predicate LaidOut(src: string, text: string, rows: Rows, lines: nat, longest: nat, cols: nat) {
    && RowsOk(src, cols, rows) && RowsFit(src, rows) && |rows| == lines && RowsEnd(rows) <= |src|
    && text == Laid(src, rows) && |text| <= 2 * RowsEnd(rows)
    && Wrapped(text, lines, longest, cols) && Ink(text) == Ink(src[..RowsEnd(rows)])
  }

  lemma LaidOutMore(src: string, text: string, rows: Rows, lines: nat, longest: nat, cols: nat, lineLen: nat, next: nat)
    requires LaidOut(src, text, rows, lines, longest, cols) && cols >= 1 && RowsEnd(rows) < |src|
    requires LineFound(src, RowsEnd(rows), cols, lineLen, next)
    ensures RowsEnd(rows) + lineLen <= next <= |src|
    ensures var t := (if lines > 0 then text + "\n" else text) + src[RowsEnd(rows)..RowsEnd(rows) + lineLen];
            var more := rows + [(RowsEnd(rows), lineLen, next)];
            RowsEnd(more) == next && |t| <= 2 * next && LaidOut(src, t, more, lines + 1, if lineLen > longest then lineLen else longest, cols)
  {
    hide LineFound, Longest, Breaks, LastLine, Ink, NoBreak, RowsOk, Laid;
    var pos := RowsEnd(rows);
    LineIsFit(src, pos, cols, lineLen, next);
    LineAdded(text, lines, longest, cols, src[pos..pos + lineLen]);
    RowAdded(src, cols, rows, lineLen, next);
    RowsOkFit(src, cols, rows + [(pos, lineLen, next)]);
    assert src[..next] == src[..pos] + src[pos..next];
    InkConcat(src[..pos], src[pos..next]);
    if lines == 0 { assert rows == []; } else { assert rows != []; }
  }

  /** mb_wrap. rows says where the lines are; cut, that lines ran out before the text did. */
  method Wrap(src: string, out: array<char>, maxCols: nat, maxLines: nat)
    returns (lines: nat, longest: nat, ghost o: nat, ghost rows: Rows, ghost cut: bool)
    requires out.Length >= 2 * |src| + 8
    modifies out
    ensures o < out.Length && out[o] == '\0' && longest == Longest(out[..o])
    ensures var cols := if maxCols == 0 then 1 else maxCols;
            && RowsOk(src, cols, rows) && RowsFit(src, rows) && |rows| == lines <= maxLines
            && out[..o] == if cut && lines > 0 then Laid(src, rows)[..CutAt(Laid(src, rows), cols)] + "..." else Laid(src, rows)
    ensures cut == (RowsEnd(rows) < |src|) && (cut ==> lines == maxLines)
    ensures if lines == 0 then o == 0 else Breaks(out[..o]) + 1 == lines
    ensures !cut ==> Ink(out[..o]) == Ink(src) && (maxCols > 0 ==> longest <= maxCols)
    ensures cut && lines > 0 ==> o >= 3 && Ink(out[..o - 3]) <= Ink(src) && (maxCols >= 3 ==> longest <= maxCols)
  {
    hide LineFound, Longest, Breaks, LastLine, Ink, NoBreak, RowsOk, Laid, CutAt, LaidOut, RowsEnd;
    var pos: nat, at: nat := 0, 0;
    lines, longest, rows := 0, 0, [];
    var cols := if maxCols == 0 then 1 else maxCols;
    EmptyText(src, cols);
    while pos < |src| && lines < maxLines
      invariant lines <= maxLines && pos == RowsEnd(rows) <= |src| && at <= 2 * pos
      invariant LaidOut(src, out[..at], rows, lines, longest, cols)
    {
      var lineLen, next := FindLine(src, pos, cols);
      LaidOutMore(src, out[..at], rows, lines, longest, cols, lineLen, next);
      at := PutLine(out, at, lines > 0, src[pos..pos + lineLen]);
      if lineLen > longest { longest := lineLen; }
      rows := rows + [(pos, lineLen, next)];
      lines, pos := lines + 1, next;
    }
    LaidOutIs(src, out[..at], rows, lines, longest, cols);
    cut := pos < |src|;
    ghost var text := out[..at];
    at, longest := EndText(out, at, lines, longest, cols, pos < |src| && lines > 0);
    o := at;
    EndInk(src, pos, text, out[..o], cut && lines > 0);
    if cut && lines > 0 { assert out[..o][..o - 3] == out[..o - 3]; }
  }

  /** The mark, if the text was cut, and the terminator. */
  method EndText(out: array<char>, at: nat, lines: nat, was: nat, cols: nat, marked: bool) returns (o: nat, longest: nat)
    requires at + 3 < out.Length && (marked ==> lines > 0) && Wrapped(out[..at], lines, was, cols)
    modifies out
    ensures o < out.Length && out[o] == '\0' && longest == Longest(out[..o])
    ensures out[..o] == if marked then old(out[..at])[..CutAt(old(out[..at]), cols)] + "..." else old(out[..at])
    ensures if lines == 0 then o == 0 else Breaks(out[..o]) + 1 == lines
    ensures if marked then cols >= 3 ==> longest <= cols else longest <= cols
  {
    hide Longest, Breaks, CutAt;
    o, longest := at, was;
    assert |out[..at]| == at;
    if marked {
      o, longest := MarkCut(out, at, lines, was, cols);
    }
    ghost var text := out[..o];
    out[o] := '\0';
    assert out[..o] == text;
  }

  /** What the finished text keeps of the ink. */
  lemma EndInk(src: string, pos: nat, text: string, end: string, marked: bool)
    requires pos <= |src| && Ink(text) == Ink(src[..pos])
    requires if marked then |end| >= 3 && |end| - 3 <= |text| && end[..|end| - 3] == text[..|end| - 3] else end == text
    ensures pos == |src| && !marked ==> Ink(end) == Ink(src)
    ensures marked ==> Ink(end[..|end| - 3]) <= Ink(src)
  {
    hide Ink;
    assert src[..|src|] == src;
    InkPrefix(src, pos);
    if marked { InkPrefix(text, |end| - 3); }
  }

  ghost predicate RowsFit(src: string, rows: Rows) {
    forall i :: 0 <= i < |rows| ==> rows[i].0 + rows[i].1 <= |src|
  }

  lemma RowsOkFit(src: string, cols: nat, rows: Rows)
    requires RowsOk(src, cols, rows)
    ensures RowsFit(src, rows)
  {
    forall i | 0 <= i < |rows| ensures rows[i].0 + rows[i].1 <= |src| { assert RowOk(src, cols, rows, i); }
  }

  lemma EmptyText(src: string, cols: nat)
    ensures Longest("") == 0 && Ink("") == "" && LastLine("") == 0
    ensures RowsEnd([]) == 0 && LaidOut(src, "", [], 0, 0, cols)
  {
  }

  lemma LaidOutIs(src: string, text: string, rows: Rows, lines: nat, longest: nat, cols: nat)
    requires LaidOut(src, text, rows, lines, longest, cols)
    ensures RowsOk(src, cols, rows) && RowsFit(src, rows) && |rows| == lines && text == Laid(src, rows)
    ensures Wrapped(text, lines, longest, cols) && Ink(text) == Ink(src[..RowsEnd(rows)])
  {
  }
}
