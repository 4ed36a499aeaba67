/** Line reading of TextFile in Common/file_ops.cpp, over the bytes of a file. */
module TextLines {

  /** Position after the line that starts at pos: past '\n' in LF mode, past '\r' and one more
      character in CRLF mode, or the end of the file. */
  function LineEnd(s: string, pos: nat, crlf: bool): (e: nat)
    requires pos < |s|
    ensures pos < e <= |s|
    decreases |s| - pos
  {
    if crlf && s[pos] == '\r' then (if pos + 1 < |s| then pos + 2 else pos + 1)
    else if !crlf && s[pos] == '\n' then pos + 1
    else if pos + 1 < |s| then LineEnd(s, pos + 1, crlf)
    else pos + 1
  }

  function Lines(s: string, pos: nat, crlf: bool): seq<string>
    requires pos <= |s|
    decreases |s| - pos
  {
    if pos == |s| then []
    else [s[pos..LineEnd(s, pos, crlf)]] + Lines(s, LineEnd(s, pos, crlf), crlf)
  }

  function Concat(parts: seq<string>): string {
    if parts == [] then "" else parts[0] + Concat(parts[1..])
  }

  function Count(s: string, c: char): nat {
    if s == "" then 0 else (if s[0] == c then 1 else 0) + Count(s[1..], c)
  }

  /** Where a line ends: k is the position of the first LF in LF mode, or of the first CR in CRLF mode, or the
      end of the file. The LF belongs to the line, or the CR and the character after it. */
  lemma {:induction false} LineEndIs(s: string, pos: nat, crlf: bool, k: nat)
    requires pos < |s| && pos <= k <= |s|
    requires forall i | pos <= i < k :: s[i] != if crlf then '\r' else '\n'
    requires k < |s| ==> s[k] == if crlf then '\r' else '\n'
    ensures LineEnd(s, pos, crlf) == if k < |s| && crlf && k + 1 < |s| then k + 2 else if k < |s| then k + 1 else |s|
    decreases k - pos
  {
    if pos < k && pos + 1 < |s| { LineEndIs(s, pos + 1, crlf, k); }
  }

  // ----- nothing is lost, nothing is empty

  lemma {:induction false} LinesConcat(s: string, pos: nat, crlf: bool)
    requires pos <= |s|
    ensures Concat(Lines(s, pos, crlf)) == s[pos..]
    ensures forall i | 0 <= i < |Lines(s, pos, crlf)| :: Lines(s, pos, crlf)[i] != ""
    decreases |s| - pos
  {
    hide LineEnd, Lines, Concat;
    LinesStep(s, pos, crlf);
    if pos < |s| {
      var e := LineEnd(s, pos, crlf);
      LinesConcat(s, e, crlf);
      ConcatFront(s[pos..e], Lines(s, e, crlf));
      assert s[pos..] == s[pos..e] + s[e..];
    } else {
      ConcatNone();
    }
  }

  lemma ConcatFront(line: string, rest: seq<string>)
    ensures Concat([line] + rest) == line + Concat(rest)
  {
    assert ([line] + rest)[1..] == rest;
  }

  lemma ConcatNone()
    ensures Concat([]) == ""
  {
  }

  // ----- how many lines there are

  lemma {:induction false} CountJoin(a: string, b: string, c: char)
    ensures Count(a + b, c) == Count(a, c) + Count(b, c)
  {
    if a == "" {
      assert a + b == b;
    } else {
      assert (a + b)[1..] == a[1..] + b;
      CountJoin(a[1..], b, c);
    }
  }

  function Breaker(crlf: bool): char { if crlf then '\r' else '\n' }

  lemma {:induction false} CountHas(s: string, c: char, i: nat)
    requires i < |s| && s[i] == c
    ensures Count(s, c) >= 1
  {
    if i > 0 { CountHas(s[1..], c, i - 1); }
  }

  /** A line that is not the last one contains a line break. */
  lemma {:induction false} LineHasBreak(s: string, pos: nat, crlf: bool)
    requires pos < |s| && LineEnd(s, pos, crlf) < |s|
    ensures Count(s[pos..LineEnd(s, pos, crlf)], Breaker(crlf)) >= 1
    decreases |s| - pos
  {
    var e := LineEnd(s, pos, crlf);
    if s[pos] == Breaker(crlf) {
      CountHas(s[pos..e], Breaker(crlf), 0);
    } else {
      LineHasBreak(s, pos + 1, crlf);
      assert s[pos..e] == [s[pos]] + s[pos + 1..e];
    }
  }

  /** There is at most one line more than line breaks. */
  lemma {:induction false} LinesBounded(s: string, pos: nat, crlf: bool)
    requires pos <= |s|
    ensures |Lines(s, pos, crlf)| <= Count(s[pos..], Breaker(crlf)) + 1
    decreases |s| - pos
  {
    hide LineEnd, Count;
    if pos < |s| {
      var e := LineEnd(s, pos, crlf);
      if e < |s| {
        LineHasBreak(s, pos, crlf);
        LinesBounded(s, e, crlf);
        assert s[pos..] == s[pos..e] + s[e..];
        CountJoin(s[pos..e], s[e..], Breaker(crlf));
      }
    }
  }

  /** The vector of lines is large enough, from any position on. */
  lemma LinesFit(s: string, pos: nat, crlf: bool)
    requires pos <= |s|
    ensures |Lines(s, pos, crlf)| <= Count(s, Breaker(crlf)) + 1
  {
    LinesBounded(s, pos, crlf);
    assert s == s[..pos] + s[pos..];
    CountJoin(s[..pos], s[pos..], Breaker(crlf));
  }

  lemma LinesStep(s: string, pos: nat, crlf: bool)
    requires pos <= |s|
    ensures pos == |s| ==> Lines(s, pos, crlf) == []
    ensures pos < |s| ==>
      Lines(s, pos, crlf) == [s[pos..LineEnd(s, pos, crlf)]] + Lines(s, LineEnd(s, pos, crlf), crlf)
  {
  }

  lemma TakeOne(all: seq<string>, i: nat, line: string, rest: seq<string>)
    requires i <= |all| && all[i..] == [line] + rest
    ensures i < |all| && all[i] == line && all[i + 1..] == rest
  {
    assert all[i] == all[i..][0];
    assert all[i + 1..] == all[i..][1..];
  }

  lemma {:induction false} ConcatPadded(lines: seq<string>, n: nat)
    requires n <= |lines| && forall i | n <= i < |lines| :: lines[i] == ""
    ensures Concat(lines) == Concat(lines[..n])
  {
    if lines != [] {
      if n == 0 {
        ConcatPadded(lines[1..], 0);
      } else {
        ConcatPadded(lines[1..], n - 1);
        assert lines[..n][1..] == lines[1..][..n - 1];
      }
    }
  }

  // ----- the file object

  datatype OpenError = FileEmpty | InconsistentLineEndings

  datatype Opened = Failed(error: OpenError) | Ok(file: TextFile)

  /** The constructor of TextFile: it fails on an empty file and on unequal numbers of '\r' and '\n'. */
  method Open(content: string) returns (r: Opened)
    ensures r.Failed? && r.error == FileEmpty <==> content == ""
    ensures r.Failed? && r.error == InconsistentLineEndings <==>
      content != "" && Count(content, '\r') > 0 && Count(content, '\n') > 0
      && Count(content, '\r') != Count(content, '\n')
    ensures r.Ok? ==> r.file.Valid() && fresh(r.file) && r.file.readPos == 0 && r.file.content == content
    ensures r.Ok? ==> r.file.crlf == (Count(content, '\r') > 0 && Count(content, '\n') > 0)
    ensures r.Ok? ==> r.file.lineCount == Count(content, '\n') + 1
  {
    if content == "" {
      return Failed(FileEmpty);
    }
    var rCnt, nCnt := Count(content, '\r'), Count(content, '\n');
    var crlf := false;
    if rCnt > 0 && nCnt > 0 {
      if rCnt != nCnt {
        return Failed(InconsistentLineEndings);
      }
      crlf := true;
    }
    var f := new TextFile(content, crlf, nCnt + 1);
    return Ok(f);
  }

  class TextFile {
    const content: string
    const crlf: bool
    const lineCount: nat
    var readPos: nat

    constructor (content: string, crlf: bool, lineCount: nat)
      ensures this.content == content && this.crlf == crlf && this.lineCount == lineCount && readPos == 0
    {
      this.content, this.crlf, this.lineCount, readPos := content, crlf, lineCount, 0;
    }

    ghost predicate Valid()
      reads this
    {
      readPos <= |content| && lineCount == Count(content, Breaker(crlf)) + 1
    }

    method Reset()
      modifies this
      ensures readPos == 0
    {
      readPos := 0;
    }

    /** The rest of the current line, or "" at the end of the file. */
    method ReadLine() returns (line: string)
      requires Valid()
      modifies this
      ensures Valid()
      ensures old(readPos) == |content| ==> line == "" && readPos == old(readPos)
      ensures old(readPos) < |content| ==>
        readPos == LineEnd(content, old(readPos), crlf) && line == content[old(readPos)..readPos]
    {
      if readPos == |content| {
        return "";
      }
      var ptr := readPos;
      while ptr < |content|
        invariant readPos <= ptr <= |content|
        invariant ptr < |content| ==> LineEnd(content, ptr, crlf) == LineEnd(content, readPos, crlf)
        invariant ptr == |content| ==> LineEnd(content, readPos, crlf) == |content|
      {
        if crlf && content[ptr] == '\r' {
          ptr := ptr + 1;
          break;
        } else if !crlf && content[ptr] == '\n' {
          break;
        }
        ptr := ptr + 1;
      }
      if ptr < |content| {
        ptr := ptr + 1;
      }
      line := content[readPos..ptr];
      readPos := ptr;
    }

    /** All lines from the current position on, in a vector of GetLineCount() entries. */
    method ReadLines() returns (lines: seq<string>)
      requires Valid()
      modifies this
      ensures Valid() && readPos == |content|
      ensures |lines| == lineCount && |Lines(content, old(readPos), crlf)| <= lineCount
      ensures lines[..|Lines(content, old(readPos), crlf)|] == Lines(content, old(readPos), crlf)
      ensures forall i | |Lines(content, old(readPos), crlf)| <= i < lineCount :: lines[i] == ""
      ensures Concat(lines) == content[old(readPos)..]
    {
      ghost var start, all := readPos, Lines(content, readPos, crlf);
      LinesFit(content, start, crlf);
      hide LineEnd, Count, Lines, Concat;
      lines := seq(lineCount, _ => "");
      var lineIndex := 0;
      while true
        invariant Valid() && |lines| == lineCount && 0 <= lineIndex <= |all| <= lineCount
        invariant all[lineIndex..] == Lines(content, readPos, crlf)
        invariant forall i | 0 <= i < lineIndex :: lines[i] == all[i]
        invariant forall i | lineIndex <= i < lineCount :: lines[i] == ""
        decreases |content| - readPos
      {
        LinesStep(content, readPos, crlf);
        var line := ReadLine();
        if line == "" {
          break;
        }
        TakeOne(all, lineIndex, line, Lines(content, readPos, crlf));
        lines := lines[lineIndex := line];
        lineIndex := lineIndex + 1;
      }
      assert lineIndex == |all| && lines[..lineIndex] == all;
      LinesConcat(content, start, crlf);
      ConcatPadded(lines, lineIndex);
    }
  }
}
