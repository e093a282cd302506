/**
  The line reader of httpd.c and the header skipper built on it. A socket is
  the text the peer has sent; where the C code would wait for more text
  forever, the methods report `blocked`.
 */
module LineReader {
  import opened Arithmetic
  import opened Wrappers

  const BUFF_SIZE: nat := 1024

  // ----- the reference: normalise, then split

  /** CRLF and bare CR each become one LF. */
  function Normalize(t: string): string {
    if t == [] then []
    else if t[0] == '\r' then ['\n'] + Normalize(if |t| > 1 && t[1] == '\n' then t[2..] else t[1..])
    else [t[0]] + Normalize(t[1..])
  }

  /** The beginning of n up to and including its first newline, but at most m characters. */
  function NextLine(n: string, m: nat): (line: string)
    ensures |line| <= m && line <= n
  {
    if m == 0 || n == [] then []
    else if n[0] == '\n' then ['\n']
    else [n[0]] + NextLine(n[1..], m - 1)
  }

  /** Nothing is missing: the line is full or ends in a newline. */
  predicate Complete(line: string, m: nat) {
    |line| == m || (line != [] && line[|line| - 1] == '\n')
  }

  /** All complete lines of n, and what is left after them. */
  function Split(n: string, m: nat): (seq<string>, string)
    requires m != 0
    decreases |n|
  {
    var line := NextLine(n, m);
    if !Complete(line, m) then ([], n)
    else
      var (lines, left) := Split(n[|line|..], m);
      ([line] + lines, left)
  }

  function Concat(lines: seq<string>): string {
    if lines == [] then [] else lines[0] + Concat(lines[1..])
  }

  /** A line of a splitting: newline only at the end, none only when full. */
  ghost predicate WellShaped(line: string, m: nat) {
    && 0 < |line| <= m
    && (forall k :: 0 <= k < |line| - 1 ==> line[k] != '\n')
    && (line[|line| - 1] != '\n' ==> |line| == m)
  }

  // ----- what one call of get_line takes off the stream

  /** The next character of a stream as the reader sees it, and the stream after it: a CR, and an LF after it, is LF. */
  function TakeChar(t: string): (r: (char, string))
    requires t != []
    ensures |r.1| < |t|
  {
    if t[0] == '\r' then ('\n', if |t| > 1 && t[1] == '\n' then t[2..] else t[1..]) else (t[0], t[1..])
  }

  /** The text one call delivers from the stream t, and the stream after it. */
  function RawLine(t: string, m: nat): (r: (string, string))
    ensures |r.1| + |r.0| <= |t|
    decreases m
  {
    if m == 0 || t == [] then ([], t)
    else
      var (c, rest) := TakeChar(t);
      if c == '\n' then ([c], rest)
      else
        var (text, after) := RawLine(rest, m - 1);
        ([c] + text, after)
  }

  /** What is known of the call's result once `before` has been taken and t is still to come. */
  ghost predicate Remaining(before: string, t: string, m: nat, all: (string, string)) {
    before + RawLine(t, m).0 == all.0 && RawLine(t, m).1 == all.1
  }

  lemma RemainingStep(before: string, t: string, m: nat, all: (string, string))
    requires t != [] && m != 0 && Remaining(before, t, m, all)
    ensures var (c, rest) := TakeChar(t);
            if c == '\n' then (before + [c], rest) == all else Remaining(before + [c], rest, m - 1, all)
  {
    var (c, rest) := TakeChar(t);
    assert before + ([c] + RawLine(rest, m - 1).0) == before + [c] + RawLine(rest, m - 1).0;
  }

  lemma RemainingStart(t: string, m: nat)
    ensures Remaining([], t, m, RawLine(t, m))
  {
  }

  lemma RemainingEnd(before: string, t: string, m: nat, all: (string, string))
    requires (t == [] || m == 0) && Remaining(before, t, m, all)
    ensures (before, t) == all
  {
    assert before + [] == before;
  }

  /** The texts of successive calls as long as they complete, and the stream after them. */
  function RawLines(t: string, m: nat): (seq<string>, string)
    requires m != 0
    decreases |t|
  {
    var (text, rest) := RawLine(t, m);
    if !Complete(text, m) then ([], t)
    else
      var (lines, left) := RawLines(rest, m);
      ([text] + lines, left)
  }

  // ----- the stream reader refines the reference

  /** One call delivers the next line of the normalised stream and leaves the rest of it: CRLF is never torn apart. */
  lemma {:induction false} RawLineIsNextLine(t: string, m: nat)
    ensures RawLine(t, m).0 == NextLine(Normalize(t), m)
    ensures Normalize(t) == RawLine(t, m).0 + Normalize(RawLine(t, m).1)
    decreases m
  {
    hide *;
    if m == 0 || t == [] {
      NothingToRead(t, m);
    } else {
      var (c, rest) := TakeChar(t);
      NormalizeStep(t);
      RawLineStep(t, m);
      NextLineStep(c, Normalize(rest), m);
      if c != '\n' {
        RawLineIsNextLine(rest, m - 1);
        ConsConcat(c, RawLine(rest, m - 1).0, Normalize(RawLine(rest, m - 1).1));
      }
    }
  }

  lemma ConsConcat(c: char, a: string, b: string)
    ensures [c] + (a + b) == [c] + a + b
  {
  }

  lemma NothingToRead(t: string, m: nat)
    requires m == 0 || t == []
    ensures RawLine(t, m) == ([], t) && NextLine(Normalize(t), m) == [] && Normalize(t) == [] + Normalize(t)
  {
  }

  lemma NormalizeStep(t: string)
    requires t != []
    ensures var (c, rest) := TakeChar(t);
            Normalize(t) == [c] + Normalize(rest)
  {
  }

  lemma RawLineStep(t: string, m: nat)
    requires t != [] && m != 0
    ensures var (c, rest) := TakeChar(t);
            RawLine(t, m) ==
              if c == '\n' then ([c], rest) else ([c] + RawLine(rest, m - 1).0, RawLine(rest, m - 1).1)
  {
    hide TakeChar;
  }

  lemma NextLineStep(c: char, n: string, m: nat)
    requires m != 0
    ensures NextLine([c] + n, m) == if c == '\n' then [c] else [c] + NextLine(n, m - 1)
  {
    assert ([c] + n)[1..] == n;
  }

  lemma {:induction false} NextLineShape(n: string, m: nat)
    requires m != 0
    ensures var line := NextLine(n, m);
            if Complete(line, m) then WellShaped(line, m) else line == n && forall k :: 0 <= k < |n| ==> n[k] != '\n'
  {
    if n != [] && n[0] != '\n' && m > 1 {
      NextLineShape(n[1..], m - 1);
      ConsShape(n[0], NextLine(n[1..], m - 1), m);
    }
  }

  lemma ConsShape(c: char, line: string, m: nat)
    requires c != '\n' && m > 1
    ensures Complete([c] + line, m) == Complete(line, m - 1)
    ensures WellShaped(line, m - 1) ==> WellShaped([c] + line, m)
  {
    assert ([c] + line)[1..] == line;
  }

  /** Successive calls deliver the normalised stream split into lines, for every stream and every buffer size. */
  lemma {:induction false} RawLinesAreSplit(t: string, m: nat)
    requires m != 0
    ensures RawLines(t, m).0 == Split(Normalize(t), m).0
    ensures Normalize(RawLines(t, m).1) == Split(Normalize(t), m).1
    decreases |t|
  {
    RawLineIsNextLine(t, m);
    var (text, rest) := RawLine(t, m);
    if Complete(text, m) {
      assert Normalize(t)[|text|..] == Normalize(rest);
      RawLinesAreSplit(rest, m);
    }
  }

  ghost predicate AllWellShaped(lines: seq<string>, m: nat) {
    forall k :: 0 <= k < |lines| ==> WellShaped(lines[k], m)
  }

  ghost predicate ShortOfLine(left: string, m: nat) {
    |left| < m && forall k :: 0 <= k < |left| ==> left[k] != '\n'
  }

  lemma ConsLine(line: string, lines: seq<string>, left: string, m: nat)
    requires WellShaped(line, m) && AllWellShaped(lines, m)
    ensures AllWellShaped([line] + lines, m)
    ensures Concat([line] + lines) + left == line + (Concat(lines) + left)
  {
  }

  /** The lines concatenate to the text, are well shaped, and what is left over is short of a line. */
  lemma {:induction false} SplitIsDivision(n: string, m: nat)
    requires m != 0
    ensures var (lines, left) := Split(n, m);
            n == Concat(lines) + left && AllWellShaped(lines, m) && ShortOfLine(left, m)
    decreases |n|
  {
    hide *;
    NextLineShape(n, m);
    SplitStep(n, m);
    var line := NextLine(n, m);
    if Complete(line, m) {
      SplitIsDivision(n[|line|..], m);
      var (lines, left) := Split(n[|line|..], m);
      ConsLine(line, lines, left, m);
    } else {
      NoLines(n, m);
    }
  }

  lemma SplitStep(n: string, m: nat)
    requires m != 0
    ensures var line := NextLine(n, m);
            && |line| <= |n| && n == line + n[|line|..]
            && (Complete(line, m) ==> |n[|line|..]| < |n|)
            && Split(n, m) ==
                 if Complete(line, m) then
                   var (lines, left) := Split(n[|line|..], m);
                   ([line] + lines, left)
                 else ([], n)
  {
    hide NextLine;
  }

  lemma NoLines(n: string, m: nat)
    requires NextLine(n, m) == n && !Complete(n, m) && forall k :: 0 <= k < |n| ==> n[k] != '\n'
    ensures n == Concat([]) + n && AllWellShaped([], m) && ShortOfLine(n, m)
  {
  }

  lemma {:induction false} NextLineIsOnlyShape(line: string, rest: string, m: nat)
    requires WellShaped(line, m)
    ensures NextLine(line + rest, m) == line && Complete(line, m) && line != []
  {
    hide *;
    ShapeStep(line, m);
    var c, after := line[0], line[1..];
    assert line + rest == [c] + (after + rest);
    NextLineStep(c, after + rest, m);
    if |line| > 1 {
      NextLineIsOnlyShape(after, rest, m - 1);
    }
  }

  lemma ShapeStep(line: string, m: nat)
    requires WellShaped(line, m)
    ensures m != 0 && line != [] && line == [line[0]] + line[1..] && Complete(line, m)
    ensures if |line| > 1 then line[0] != '\n' && WellShaped(line[1..], m - 1)
            else line[0] == '\n' || m == 1
  {
  }

  /** There is no other way to divide a text into such lines. */
  lemma {:induction false} DivisionIsUnique(lines: seq<string>, left: string, m: nat)
    requires m != 0
    requires AllWellShaped(lines, m) && ShortOfLine(left, m)
    ensures Split(Concat(lines) + left, m) == (lines, left)
    decreases |lines|
  {
    hide *;
    SplitStep(Concat(lines) + left, m);
    if lines == [] {
      ShortIsIncomplete(left, m);
      assert Concat([]) + left == left by { NothingToConcat(left); }
    } else {
      var rest := Concat(lines[1..]) + left;
      FirstOfLines(lines, left, m);
      NextLineIsOnlyShape(lines[0], rest, m);
      assert (lines[0] + rest)[|lines[0]|..] == rest;
      DivisionIsUnique(lines[1..], left, m);
      assert lines == [lines[0]] + lines[1..];
    }
  }

  lemma NothingToConcat(left: string)
    ensures Concat([]) + left == left
  {
  }

  lemma FirstOfLines(lines: seq<string>, left: string, m: nat)
    requires lines != [] && AllWellShaped(lines, m)
    ensures WellShaped(lines[0], m) && AllWellShaped(lines[1..], m)
    ensures Concat(lines) + left == lines[0] + (Concat(lines[1..]) + left)
  {
    hide WellShaped;
  }

  lemma ShortIsIncomplete(left: string, m: nat)
    requires m != 0 && ShortOfLine(left, m)
    ensures !Complete(NextLine(left, m), m)
  {
    NextLineShape(left, m);
  }

  // ----- where clear_header stops

  /** The stream after the first line that is a newline alone, if there is one. */
  function SkipHeader(t: string, m: nat): (string, bool)
    requires m != 0
    decreases |t|
  {
    var (text, rest) := RawLine(t, m);
    if !Complete(text, m) then (rest, false)
    else if text == "\n" then (rest, true)
    else SkipHeader(rest, m)
  }

  /** One round of `clear_header`: a line that begins with a newline is that newline alone. */
  lemma SkipHeaderStep(t: string, m: nat)
    requires m >= 2
    ensures var (text, rest) := RawLine(t, m);
            if Complete(text, m) then
              && 0 < |text| && |rest| < |t| && (|text| == 1 <==> text[0] == '\n')
              && SkipHeader(t, m) == if |text| == 1 then (rest, true) else SkipHeader(rest, m)
            else SkipHeader(t, m) == (rest, false)
  {
    hide RawLine, NextLine, Normalize;
    RawLineIsNextLine(t, m);
    NextLineShape(Normalize(t), m);
  }

  /** The length of the first logical line, without its newline. */
  function FirstNewline(n: string): (k: nat)
    ensures k <= |n| && (k < |n| ==> n[k] == '\n')
  {
    if n == [] || n[0] == '\n' then 0 else 1 + FirstNewline(n[1..])
  }

  lemma {:induction false} NoNewlineBefore(n: string, i: nat)
    requires i < FirstNewline(n)
    ensures n[i] != '\n'
  {
    if i != 0 {
      NoNewlineBefore(n[1..], i - 1);
    }
  }

  predicate IsMultiple(k: nat, m: nat)
    requires m != 0
  {
    k % m == 0
  }

  /** What comes behind character k. */
  function Behind(n: string, k: nat): (rest: string)
    requires k < |n|
    ensures |rest| == |n| - k - 1
  {
    n[k + 1..]
  }

  /** The text after the first logical line whose length is a multiple of m. */
  function AfterFullLine(n: string, m: nat): Option<string>
    requires m != 0
    decreases |n|
  {
    var k := FirstNewline(n);
    if k == |n| then None
    else if IsMultiple(k, m) then Some(Behind(n, k))
    else AfterFullLine(Behind(n, k), m)
  }

  /** The text after the first blank line: the end of an HTTP header. */
  function AfterBlankLine(n: string): Option<string>
    decreases |n|
  {
    var k := FirstNewline(n);
    if k == |n| then None
    else if k == 0 then Some(Behind(n, k))
    else AfterBlankLine(Behind(n, k))
  }

  /** No logical line up to the first blank one, or up to the end, has a positive multiple of m characters. */
  ghost predicate NoFullLineBeforeBlank(n: string, m: nat)
    requires m != 0
    decreases |n|
  {
    var k := FirstNewline(n);
    k == |n| || k == 0 || (!IsMultiple(k, m) && NoFullLineBeforeBlank(Behind(n, k), m))
  }

  lemma {:induction false} NextLineBeforeNewline(n: string, m: nat)
    ensures var k := FirstNewline(n);
            NextLine(n, m) == if k < m && k < |n| then n[..k + 1] else if k < m then n else n[..m]
  {
    if m != 0 && n != [] && n[0] != '\n' {
      NextLineBeforeNewline(n[1..], m - 1);
    }
  }

  lemma {:induction false} FirstNewlineDrop(n: string, d: nat)
    requires d <= FirstNewline(n)
    ensures FirstNewline(n[d..]) == FirstNewline(n) - d
  {
    if d != 0 {
      FirstNewlineDrop(n[1..], d - 1);
      assert n[1..][d - 1..] == n[d..];
    }
  }

  lemma AfterFullLineStep(n: string, m: nat)
    requires m != 0
    ensures var k := FirstNewline(n);
            AfterFullLine(n, m) ==
              if k == |n| then None
              else if IsMultiple(k, m) then Some(Behind(n, k))
              else AfterFullLine(Behind(n, k), m)
  {
    hide IsMultiple, FirstNewline, Behind;
  }

  lemma MultipleDrop(k: nat, m: nat)
    requires 0 < m <= k
    ensures IsMultiple(k, m) <==> IsMultiple(k - m, m)
  {
    ModMinus(k, m);
  }

  lemma SmallMultiple(k: nat, m: nat)
    requires k < m
    ensures IsMultiple(k, m) <==> k == 0
  {
    ModIsUnique(k, m, 0, k);
  }

  lemma DropDrop(n: string, a: nat, b: nat)
    requires a + b <= |n|
    ensures n[a..][b..] == n[a + b..]
  {
  }

  /** Dropping m characters of a long logical line does not move the place looked for. */
  lemma AfterFullLineDrop(n: string, m: nat)
    requires m != 0 && m <= FirstNewline(n)
    ensures AfterFullLine(n, m) == AfterFullLine(n[m..], m)
  {
    hide IsMultiple, AfterFullLine, FirstNewline;
    var k := FirstNewline(n);
    FirstNewlineDrop(n, m);
    MultipleDrop(k, m);
    AfterFullLineStep(n, m);
    AfterFullLineStep(n[m..], m);
    if k < |n| {
      DropDrop(n, m, k - m + 1);
    }
  }

  /** The header skipper stops after the first logical line whose length is a multiple of the line capacity. */
  lemma {:induction false} SkipHeaderStops(t: string, m: nat)
    requires m >= 2
    ensures var (rest, found) := SkipHeader(t, m);
            AfterFullLine(Normalize(t), m) == if found then Some(Normalize(rest)) else None
    decreases |t|
  {
    hide IsMultiple, Normalize, RawLine, NextLine;
    var n := Normalize(t);
    var (text, rest) := RawLine(t, m);
    RawLineIsNextLine(t, m);
    NextLineBeforeNewline(n, m);
    var k := FirstNewline(n);
    assert n[|text|..] == Normalize(rest);
    if k < m && k < |n| {
      assert text == n[..k + 1] && text[k] == '\n';
      SmallMultiple(k, m);
      if k != 0 {
        assert text[0] != '\n';
        SkipHeaderStops(rest, m);
      }
    } else if k < m {
      assert text == n;
      if n != [] {
        NoNewlineBefore(n, |n| - 1);
      }
    } else {
      assert text == n[..m] && text[0] == n[0];
      AfterFullLineDrop(n, m);
      SkipHeaderStops(rest, m);
    }
  }

  lemma {:induction false} AfterBlankLineIsShorter(n: string)
    ensures AfterBlankLine(n).Some? ==> |AfterBlankLine(n).value| < |n|
    decreases |n|
  {
    hide Behind;
    var k := FirstNewline(n);
    if k != |n| && k != 0 {
      AfterBlankLineIsShorter(Behind(n, k));
    }
  }

  /**
    That is the end of the header exactly when no line of the header has a
    positive multiple of m characters; otherwise the skipper stops too early.
   */
  lemma {:induction false} StopsAtBlankLineExactlyWhen(n: string, m: nat)
    requires m != 0
    ensures AfterFullLine(n, m) == AfterBlankLine(n) <==> NoFullLineBeforeBlank(n, m)
    decreases |n|
  {
    hide Behind;
    var k := FirstNewline(n);
    if k != |n| && k != 0 {
      if IsMultiple(k, m) {
        AfterBlankLineIsShorter(Behind(n, k));
      } else {
        StopsAtBlankLineExactlyWhen(Behind(n, k), m);
      }
    } else if k == 0 {
      assert IsMultiple(0, m);
    }
  }

  /** For example: a header line of exactly m characters ends the skipping, whatever header lines follow it. */
  lemma {:induction false} FullLineEndsSkipping(line: string, rest: string, m: nat)
    requires |line| == m != 0 && forall i :: 0 <= i < |line| ==> line[i] != '\n'
    ensures AfterFullLine(line + "\n" + rest, m) == Some(rest)
  {
    LineThenNewline(line, rest);
    var n := line + "\n" + rest;
    assert n[m + 1..] == rest;
    ModIsUnique(m, m, 1, 0);
  }

  lemma {:induction false} LineThenNewline(line: string, rest: string)
    requires forall i :: 0 <= i < |line| ==> line[i] != '\n'
    ensures FirstNewline(line + "\n" + rest) == |line|
  {
    if line != [] {
      LineThenNewline(line[1..], rest);
      assert (line + "\n" + rest)[1..] == line[1..] + "\n" + rest;
    }
  }

  // ----- the code

  class Socket {
    const input: string
    var pos: nat

    constructor (input: string)
      ensures Valid() && Rest() == input
    {
      this.input := input;
      pos := 0;
      new;
      assert this.input[0..] == this.input;
    }

    ghost predicate Valid()
      reads this
    {
      pos <= |input|
    }

    ghost function Rest(): string
      reads this
      requires Valid()
    {
      input[pos..]
    }

    /** `recv` of one character; `None` for a result of zero or less. */
    method Recv() returns (c: Option<char>)
      requires Valid()
      modifies this
      ensures Valid()
      ensures old(Rest()) == [] ==> c == None && Rest() == []
      ensures old(Rest()) != [] ==> c == Some(old(Rest())[0]) && Rest() == old(Rest())[1..]
    {
      if pos == |input| {
        return None;
      }
      c := Some(input[pos]);
      pos := pos + 1;
    }

    /** `recv` with MSG_PEEK */
    method Peek() returns (c: Option<char>)
      requires Valid()
      ensures c == if Rest() == [] then None else Some(Rest()[0])
    {
      c := if pos == |input| then None else Some(input[pos]);
    }

    /**
      The body of the loop of `get_line` up to the store: one character, with a CR, and
      an LF after it, turned into LF.
     */
    method RecvLineChar() returns (c: Option<char>)
      requires Valid()
      modifies this
      ensures Valid()
      ensures old(Rest()) == [] ==> c == None && Rest() == []
      ensures old(Rest()) != [] ==> c.Some? && (c.value, Rest()) == TakeChar(old(Rest()))
    {
      c := Recv();
      if c == Some('\r') {
        var next := Peek();
        if next == Some('\n') {
          c := Recv();
        } else {
          c := Some('\n');
        }
      }
    }

    /** `get_line` */
    method GetLine(buf: array<char>, len: int) returns (i: nat, blocked: bool)
      requires Valid() && 1 <= len <= buf.Length
      modifies this, buf
      ensures Valid() && i <= len - 1
      ensures (buf[..i], Rest()) == RawLine(old(Rest()), len - 1)
      ensures blocked <==> !Complete(buf[..i], len - 1)
      ensures !blocked ==> buf[i] == '\0'
    {
      hide TakeChar, RawLine, Remaining;
      var ch := '\0';
      i := 0;
      ghost var m, all := len - 1, RawLine(Rest(), len - 1);
      assert Remaining([], Rest(), m, all) by { RemainingStart(Rest(), m); }
      while i < len - 1 && ch != '\n'
        invariant Valid() && 0 <= i <= m
        invariant i > 0 ==> ch == buf[i - 1]
        invariant if ch == '\n' then i > 0 && (buf[..i], Rest()) == all else Remaining(buf[..i], Rest(), m - i, all)
        decreases m - i
      {
        ghost var before, t := buf[..i], Rest();
        var c := RecvLineChar();
        if c.None? {
          RemainingEnd(before, t, m - i, all);
          return i, true;
        }
        RemainingStep(before, t, m - i, all);
        ch := c.value;
        buf[i] := ch;
        i := i + 1;
        assert buf[..i] == before + [ch];
      }
      if ch != '\n' {
        RemainingEnd(buf[..i], Rest(), m - i, all);
      }
      assert (buf[..i], Rest()) == all;
      buf[i] := '\0';
      return i, false;
    }

    /** `strcmp(line, "\n") == 0` for a line that ends at its first NUL character. */
    method IsNewlineString(line: array<char>, ret: nat) returns (same: bool)
      requires ret < line.Length && line[ret] == '\0'
      ensures same <==> ret > 0 && line[0] == '\n' && line[1] == '\0'
    {
      same := line[0] == '\n' && ret > 0 && line[1] == '\0';
    }

    /** `clear_header` */
    method ClearHeader() returns (ret: int, blocked: bool)
      requires Valid()
      modifies this
      ensures Valid() && (Rest(), !blocked) == SkipHeader(old(Rest()), BUFF_SIZE - 1)
      ensures !blocked ==> ret == 1
    {
      hide RawLine, Complete, SkipHeader;
      var line := new char[BUFF_SIZE];
      while true
        invariant Valid() && fresh(line) && line.Length == BUFF_SIZE
        invariant SkipHeader(Rest(), BUFF_SIZE - 1) == SkipHeader(old(Rest()), BUFF_SIZE - 1)
        decreases |Rest()|
      {
        ghost var t := Rest();
        var i, stuck := GetLine(line, BUFF_SIZE);
        ret := i;
        SkipHeaderStep(t, BUFF_SIZE - 1);
        ghost var text := line[..i];
        assert i > 0 ==> text[0] == line[0];
        if stuck {
          return ret, true;
        }
        var same := IsNewlineString(line, i);
        if !(ret != 1 && !same) {
          return ret, false;
        }
      }
    }
  }
}
