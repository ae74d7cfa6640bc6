/** Rebuilding log lines from reads that can end anywhere, with a cap on an unfinished line and file rotation. */
module LogTailer {

  const MAX_LINE: nat := 64 * 1024

  /** What one `ReadString('\n')` brings: a chunk that ends in its only newline, or, at end of file, text without one;
      after the latter the tailer may find the file rotated or truncated and start over. */
  datatype Read = Chunk(text: string) | Eof(text: string, rotated: bool)

  predicate NoNewline(s: string) {
    forall i | 0 <= i < |s| :: s[i] != '\n'
  }

  predicate ValidRead(r: Read) {
    match r
    case Chunk(text) => text != "" && text[|text| - 1] == '\n' && NoNewline(text[..|text| - 1])
    case Eof(text, _) => NoNewline(text)
  }

  predicate ValidReads(input: seq<Read>) {
    forall i | 0 <= i < |input| :: ValidRead(input[i])
  }

  function TrimRight(s: string): string {
    if s != "" && (s[|s| - 1] == '\n' || s[|s| - 1] == '\r') then TrimRight(s[..|s| - 1]) else s
  }

  predicate LineEnd(c: char) {
    c == '\n' || c == '\r'
  }

  /** What is handled is the line without the carriage returns and newlines at its end, and nothing else is lost. */
  lemma {:induction false} TrimRightMeans(s: string)
    ensures var t := TrimRight(s);
            && t <= s
            && (forall i | |t| <= i < |s| :: LineEnd(s[i]))
            && (t != "" ==> !LineEnd(t[|t| - 1]))
  {
    if s != "" && LineEnd(s[|s| - 1]) {
      TrimRightMeans(s[..|s| - 1]);
    }
  }

  // ---- what the tailer does ----

  /** The complete lines it has put together, and the unfinished one it keeps. */
  datatype State = State(lines: seq<string>, partial: string)

  function Step(s: State, r: Read): State {
    match r
    case Chunk(text) => State(s.lines + [s.partial + text], "")
    case Eof(text, rotated) =>
      State(s.lines, if rotated || |s.partial| + |text| > MAX_LINE then "" else s.partial + text)
  }

  function Tail(input: seq<Read>): State {
    if input == [] then State([], "") else Step(Tail(input[..|input| - 1]), input[|input| - 1])
  }

  // ---- what the bytes say ----

  /** The newline-terminated segments of a byte stream, and what is left over, byte by byte. */
  function Segments(s: string): State {
    if s == "" then State([], "")
    else
      var before := Segments(s[..|s| - 1]);
      var c := s[|s| - 1];
      if c == '\n' then State(before.lines + [before.partial + [c]], "") else before.(partial := before.partial + [c])
  }

  /** The bytes read of the current file, and of the files before it. */
  datatype Files = Files(earlier: seq<string>, current: string)

  function BytesOf(input: seq<Read>): Files {
    if input == [] then Files([], "")
    else
      var f := BytesOf(input[..|input| - 1]);
      match input[|input| - 1]
      case Chunk(text) => f.(current := f.current + text)
      case Eof(text, rotated) =>
        if rotated then Files(f.earlier + [f.current + text], "") else f.(current := f.current + text)
  }

  function AllSegments(files: seq<string>): seq<string> {
    if files == [] then [] else AllSegments(files[..|files| - 1]) + Segments(files[|files| - 1]).lines
  }

  lemma SegmentsSnoc(s: string, c: char)
    ensures Segments(s + [c]) == if c == '\n' then State(Segments(s).lines + [Segments(s).partial + [c]], "")
                                 else State(Segments(s).lines, Segments(s).partial + [c])
  {
    assert (s + [c])[..|s|] == s;
  }

  lemma {:induction false} SegmentsWithoutNewline(s: string, t: string)
    requires NoNewline(t)
    ensures Segments(s + t) == State(Segments(s).lines, Segments(s).partial + t)
  {
    if t == "" {
      assert s + t == s && Segments(s).partial + t == Segments(s).partial;
    } else {
      var n := |t| - 1;
      SegmentsWithoutNewline(s, t[..n]);
      SegmentsSnoc(s + t[..n], t[n]);
      SnocConcat(s, t);
      SnocConcat(Segments(s).partial, t);
    }
  }

  lemma SnocConcat(s: string, t: string)
    requires t != ""
    ensures s + t[..|t| - 1] + [t[|t| - 1]] == s + t
  {
  }

  const NEWLINE := "\n"

  lemma SegmentsLine(s: string, line: string)
    requires NoNewline(line)
    ensures Segments(s + line + NEWLINE) ==
            State(Segments(s).lines + [Segments(s).partial + line + NEWLINE], "")
  {
    SegmentsWithoutNewline(s, line);
    SegmentsSnoc(s + line, '\n');
  }

  lemma SegmentsWithChunk(s: string, text: string)
    requires ValidRead(Chunk(text))
    ensures Segments(s + text) == State(Segments(s).lines + [Segments(s).partial + text], "")
  {
    var line := text[..|text| - 1];
    SegmentsLine(s, line);
    ChunkConcat(s, text);
    ChunkConcat(Segments(s).partial, text);
  }

  lemma ChunkConcat(s: string, text: string)
    requires text != "" && text[|text| - 1] == '\n'
    ensures s + text[..|text| - 1] + NEWLINE == s + text
  {
  }

  /** The unfinished line stays within the cap at every end of file. */
  predicate Fits(input: seq<Read>) {
    if input == [] then true
    else
      var n := |input| - 1;
      && Fits(input[..n])
      && (input[n].Eof? ==> |Tail(input[..n]).partial| + |input[n].text| <= MAX_LINE)
  }

  /** However the bytes were split into reads: the lines are the newline-terminated segments of each file in order,
      unterminated tails of rotated files dropped, and the rest of the current file is kept. */
  lemma {:induction false} TailReassembles(input: seq<Read>)
    requires ValidReads(input) && Fits(input)
    ensures var f := BytesOf(input);
            Tail(input) == State(AllSegments(f.earlier) + Segments(f.current).lines, Segments(f.current).partial)
  {
    if input != [] {
      var n := |input| - 1;
      TailReassembles(input[..n]);
      var f, f' := BytesOf(input[..n]), BytesOf(input);
      if input[n].Chunk? {
        SegmentsWithChunk(f.current, input[n].text);
      } else {
        SegmentsWithoutNewline(f.current, input[n].text);
        if input[n].rotated {
          assert f'.earlier[..|f'.earlier| - 1] == f.earlier;
        }
      }
    }
  }

  /** Reassembly does not depend on the chunking: the same bytes, read in any two ways, give the same lines and the
      same unfinished line. */
  lemma ChunkingIndependent(x: seq<Read>, y: seq<Read>)
    requires ValidReads(x) && ValidReads(y) && Fits(x) && Fits(y) && BytesOf(x) == BytesOf(y)
    ensures Tail(x) == Tail(y)
  {
    TailReassembles(x);
    TailReassembles(y);
  }

  /** Whatever the files hold, no more than 64 KiB of an unfinished line are ever kept. */
  lemma {:induction false} PartialIsBounded(input: seq<Read>)
    ensures |Tail(input).partial| <= 65_536
  {
    if input != [] {
      PartialIsBounded(input[..|input| - 1]);
    }
  }

  predicate Suffix(t: string, s: string) {
    |t| <= |s| && t == s[|s| - |t|..]
  }

  /** Without the cap: one line per newline, and each is a suffix of the segment it stands for; the unfinished line is
      a suffix of what is left over. */
  lemma {:induction false} OverlongLinesLoseOnlyTheirFront(input: seq<Read>, i: nat)
    requires ValidReads(input)
    ensures var f := BytesOf(input); var all := AllSegments(f.earlier) + Segments(f.current).lines;
            && |Tail(input).lines| == |all|
            && (i < |all| ==> Suffix(Tail(input).lines[i], all[i]))
            && Suffix(Tail(input).partial, Segments(f.current).partial)
  {
    if input != [] {
      var n := |input| - 1;
      OverlongLinesLoseOnlyTheirFront(input[..n], i);
      var f, f' := BytesOf(input[..n]), BytesOf(input);
      var text := input[n].text;
      SuffixAppend(Tail(input[..n]).partial, Segments(f.current).partial, text);
      if input[n].Chunk? {
        SegmentsWithChunk(f.current, text);
      } else {
        SegmentsWithoutNewline(f.current, text);
        if input[n].rotated {
          assert f'.earlier[..|f'.earlier| - 1] == f.earlier;
        }
      }
    }
  }

  lemma SuffixAppend(t: string, s: string, u: string)
    requires Suffix(t, s)
    ensures Suffix(t + u, s + u)
  {
  }

  // ---- the tailer, edited in place ----

  /** The non-empty lines among those handled, recognised or not, by position. */
  ghost function Recognised(handled: seq<string>, parses: string -> bool): set<nat> {
    set i: nat | i < |handled| && handled[i] != "" && parses(handled[i])
  }

  ghost function Unrecognised(handled: seq<string>, parses: string -> bool): set<nat> {
    set i: nat | i < |handled| && handled[i] != "" && !parses(handled[i])
  }

  lemma OneMoreRecognised(handled: seq<string>, line: string, parses: string -> bool)
    ensures |Recognised(handled + [line], parses)| ==
            |Recognised(handled, parses)| + if line != "" && parses(line) then 1 else 0
  {
    assert forall i | 0 <= i < |handled| :: (handled + [line])[i] == handled[i];
    assert Recognised(handled + [line], parses) ==
           Recognised(handled, parses) + if line != "" && parses(line) then {|handled|} else {};
  }

  lemma OneMoreUnrecognised(handled: seq<string>, line: string, parses: string -> bool)
    ensures |Unrecognised(handled + [line], parses)| ==
            |Unrecognised(handled, parses)| + if line != "" && !parses(line) then 1 else 0
  {
    assert forall i | 0 <= i < |handled| :: (handled + [line])[i] == handled[i];
    assert Unrecognised(handled + [line], parses) ==
           Unrecognised(handled, parses) + if line != "" && !parses(line) then {|handled|} else {};
  }

  class LogTailer {
    /** Whether some pattern recognises a line. */
    const parses: string -> bool
    var partial: string
    var matched: nat
    var unmatched: nat

    constructor (parses: string -> bool)
      ensures this.parses == parses && partial == "" && matched == 0 && unmatched == 0
    {
      this.parses, partial, matched, unmatched := parses, "", 0, 0;
    }

    method HandleLine(line: string)
      modifies `matched, `unmatched
      ensures matched == old(matched) + (if line != "" && parses(line) then 1 else 0)
      ensures unmatched == old(unmatched) + (if line != "" && !parses(line) then 1 else 0)
    {
      if line == "" {
        return;
      }
      if !parses(line) {
        unmatched := unmatched + 1;
        return;
      }
      matched := matched + 1;
    }

    /** The read loop over whatever reads come, from a fresh start. Every complete line is handled once, in order; the
        counters are the recognised and the other non-empty lines. */
    method Run(input: seq<Read>) returns (handled: seq<string>)
      requires partial == "" && matched == 0 && unmatched == 0
      modifies this
      ensures partial == Tail(input).partial
      ensures |handled| == |Tail(input).lines|
      ensures forall i | 0 <= i < |handled| :: handled[i] == TrimRight(Tail(input).lines[i])
      ensures matched == |Recognised(handled, parses)| && unmatched == |Unrecognised(handled, parses)|
    {
      handled := [];
      for k := 0 to |input|
        invariant partial == Tail(input[..k]).partial
        invariant |handled| == |Tail(input[..k]).lines|
        invariant forall i | 0 <= i < |handled| :: handled[i] == TrimRight(Tail(input[..k]).lines[i])
        invariant matched == |Recognised(handled, parses)| && unmatched == |Unrecognised(handled, parses)|
      {
        assert input[..k + 1][..k] == input[..k];
        ghost var before := Tail(input[..k]);
        match input[k] {
          case Eof(text, rotated) =>
            if |partial| + |text| <= MAX_LINE {
              partial := partial + text;
            } else {
              partial := "";
            }
            if rotated {
              partial := "";
            }
          case Chunk(text) =>
            var line := text;
            if |partial| > 0 {
              line := partial + text;
              partial := "";
            }
            assert line == before.partial + text;
            assert (before.lines + [line])[..|before.lines|] == before.lines;
            HandleLine(TrimRight(line));
            OneMoreRecognised(handled, TrimRight(line), parses);
            OneMoreUnrecognised(handled, TrimRight(line), parses);
            handled := handled + [TrimRight(line)];
        }
      }
      assert input[..|input|] == input;
    }
  }
}
