/** Parsing one SIP message: split into lines, read the first line, then headers up to the first blank line. Strings are
    bytes; letters and white space are ASCII. */
module SipParser {

  datatype SIPMessage = SIPMessage(isResponse: bool, method_: string, responseCode: int, reason: string,
                                   callID: string, userAgent: string, fromUser: string, toUser: string, hasAuth: bool)

  datatype Parsed = Ok(msg: SIPMessage) | TooFewLines | BadFirstLine

  // ---- lines ----

  /** A line break starts at `i`: CR LF, or a bare LF. */
  predicate BreakAt(s: string, i: nat, crlf: bool) {
    if crlf then i + 1 < |s| && s[i] == '\r' && s[i + 1] == '\n' else i < |s| && s[i] == '\n'
  }

  function FirstBreak(s: string, crlf: bool, i: nat): (k: nat)
    requires i <= |s|
    ensures i <= k <= |s| && (forall j | i <= j < k :: !BreakAt(s, j, crlf)) && (k == |s| || BreakAt(s, k, crlf))
    decreases |s| - i
  {
    if i == |s| || BreakAt(s, i, crlf) then i else FirstBreak(s, crlf, i + 1)
  }

  function Split(s: string, crlf: bool): (lines: seq<string>)
    ensures lines != []
  {
    var k := FirstBreak(s, crlf, 0);
    if k == |s| then [s] else [s[..k]] + Split(s[if crlf then k + 2 else k + 1..], crlf)
  }

  function Lines(s: string): seq<string> {
    var lines := Split(s, true);
    if |lines| < 2 then Split(s, false) else lines
  }

  // ---- characters ----

  function LowerChar(c: char): char {
    if 'A' <= c <= 'Z' then c - 'A' + 'a' else c
  }

  function UpperChar(c: char): char {
    if 'a' <= c <= 'z' then c - 'a' + 'A' else c
  }

  function Lower(s: string): (r: string)
    ensures |r| == |s|
  {
    seq(|s|, i requires 0 <= i < |s| => LowerChar(s[i]))
  }

  function Upper(s: string): string {
    seq(|s|, i requires 0 <= i < |s| => UpperChar(s[i]))
  }

  predicate IsSpace(c: char) {
    c == ' ' || '\t' <= c <= '\r'
  }

  /** `\s` leaves out vertical tab. */
  predicate IsBlank(c: char) {
    IsSpace(c) && c != 0xB as char
  }

  predicate IsDigit(c: char) {
    '0' <= c <= '9'
  }

  predicate IsWord(c: char) {
    IsDigit(c) || 'a' <= c <= 'z' || 'A' <= c <= 'Z' || c == '_'
  }

  /** The length of the longest prefix of such characters. */
  function Span(s: string, p: char -> bool): (n: nat)
    ensures n <= |s|
  {
    if s == [] || !p(s[0]) then 0 else 1 + Span(s[1..], p)
  }

  function TrimRight(s: string): string {
    if s != [] && IsSpace(s[|s| - 1]) then TrimRight(s[..|s| - 1]) else s
  }

  function TrimSpace(s: string): string {
    TrimRight(s[Span(s, IsSpace)..])
  }

  const MAX_INT: int := 0x7FFF_FFFF_FFFF_FFFF

  function Value(digits: string): nat
    requires forall i | 0 <= i < |digits| :: IsDigit(digits[i])
  {
    if digits == [] then 0
    else
      var c := digits[|digits| - 1];
      assert IsDigit(c);
      Value(digits[..|digits| - 1]) * 10 + (c as int - '0' as int)
  }

  lemma {:induction false} SpanHolds(s: string, p: char -> bool)
    ensures forall i | 0 <= i < Span(s, p) :: p(s[i])
  {
    if s != [] && p(s[0]) {
      SpanHolds(s[1..], p);
      assert forall i | 0 < i < Span(s, p) :: s[i] == s[1..][i - 1];
    }
  }

  /** `strconv.Atoi` saturates; its range error is dropped. */
  function Number(s: string): int {
    var n := Span(s, IsDigit);
    SpanHolds(s, IsDigit);
    var v := Value(s[..n]);
    if v > MAX_INT then MAX_INT else v
  }

  // ---- the first line ----

  /** `^(\w+)\s+sip:` */
  function RequestMethod(line: string): string {
    var n := Span(line, IsWord);
    var m := Span(line[n..], IsBlank);
    if n > 0 && m > 0 && "sip:" <= line[n + m..] then line[..n] else ""
  }

  /** `^SIP/2\.0\s+(\d+)\s*(.*)$`: where the code starts, or 0. */
  function StatusStart(line: string): (k: nat)
    ensures k <= |line|
  {
    if "SIP/2.0" <= line then
      var after := line[7..];
      var m := Span(after, IsBlank);
      var rest := after[m..];
      var d := Span(rest, IsDigit);
      var tail := rest[d..][Span(rest[d..], IsBlank)..];
      if m > 0 && d > 0 && '\n' !in tail then 7 + m else 0
    else 0
  }

  const EMPTY := SIPMessage(false, "", 0, "", "", "", "", "", false)

  function StatusMessage(s: string): SIPMessage {
    EMPTY.(isResponse := true, responseCode := Number(s), reason := TrimSpace(s[Span(s, IsDigit)..]))
  }

  function FirstLine(line: string): Parsed {
    if StatusStart(line) > 0 then Ok(StatusMessage(line[StatusStart(line)..]))
    else if RequestMethod(line) != "" then Ok(EMPTY.(method_ := RequestMethod(line)))
    else BadFirstLine
  }

  // ---- headers ----

  predicate HasName(line: string, name: string) {
    name <= Lower(line)
  }

  predicate IsCallId(line: string) {
    HasName(line, "call-id:") || HasName(line, "i:")
  }

  predicate IsCredentials(line: string) {
    HasName(line, "authorization:") || HasName(line, "proxy-authorization:")
  }

  function Colon(line: string): (k: nat)
    ensures k <= |line|
  {
    Span(line, c => c != ':')
  }

  function AfterColon(line: string): string {
    if Colon(line) < |line| then line[Colon(line) + 1..] else line
  }

  /** `sip:([^@]+)@`, leftmost match. */
  function ExtractUser(h: string): string {
    if |h| < 4 then ""
    else
      var n := Span(h[4..], c => c != '@');
      if "sip:" <= h && 0 < n && 4 + n < |h| then h[4..4 + n] else ExtractUser(h[1..])
  }

  /** `(?i)^CSeq:\s*\d+\s+(\w+)` */
  function CSeqMethod(line: string): string {
    if HasName(line, "cseq:") then MethodAfterNumber(line[5..]) else ""
  }

  function MethodAfterNumber(s: string): string {
    var a := s[Span(s, IsBlank)..];
    var d := Span(a, IsDigit);
    var b := a[d..];
    var m := Span(b, IsBlank);
    if d > 0 && m > 0 then b[m..][..Span(b[m..], IsWord)] else ""
  }

  function Header(msg: SIPMessage, line: string): SIPMessage {
    if IsCallId(line) then msg.(callID := TrimSpace(AfterColon(line)))
    else if IsCredentials(line) then msg.(hasAuth := true)
    else if HasName(line, "user-agent:") then msg.(userAgent := TrimSpace(AfterColon(line)))
    else if HasName(line, "from:") || HasName(line, "f:") then msg.(fromUser := ExtractUser(AfterColon(line)))
    else if HasName(line, "to:") || HasName(line, "t:") then
      var name := TrimSpace(line[..Colon(line)]);
      if Lower(name) == "to" || name == "t" then msg.(toUser := ExtractUser(AfterColon(line))) else msg
    else if CSeqMethod(line) != "" && msg.isResponse then msg.(method_ := Upper(CSeqMethod(line)))
    else msg
  }

  function Headers(msg: SIPMessage, lines: seq<string>): SIPMessage
    decreases |lines|
  {
    if lines == [] || lines[0] == "" then msg else Headers(Header(msg, lines[0]), lines[1..])
  }

  function Parse(text: string): Parsed {
    var lines := Lines(text);
    if |lines| < 2 then TooFewLines
    else
      match FirstLine(lines[0])
      case Ok(msg) => Ok(Headers(msg, lines[1..]))
      case other => other
  }

  method ParseSIPMessage(text: string) returns (r: Parsed)
    ensures r == Parse(text)
  {
    var lines := Split(text, true);
    if |lines| < 2 {
      lines := Split(text, false);
    }
    if |lines| < 2 {
      return TooFewLines;
    }
    r := FirstLine(lines[0]);
    if r.Ok? {
      var msg := ReadHeaders(r.msg, lines[1..]);
      r := Ok(msg);
    }
  }

  method ReadHeaders(first: SIPMessage, lines: seq<string>) returns (msg: SIPMessage)
    ensures msg == Headers(first, lines)
  {
    msg := first;
    for i := 0 to |lines|
      invariant Headers(msg, lines[i..]) == Headers(first, lines)
    {
      if lines[i] == "" {
        break;
      }
      assert lines[i..][1..] == lines[i + 1..];
      msg := Header(msg, lines[i]);
    }
  }

  // ---- the body does not matter ----

  const CRLF := "\r\n"

  /** Line splitting goes through a CR LF: no break can straddle the end of what comes before it. */
  lemma {:induction false} SplitThroughBreak(h: string, r: string)
    ensures Split(h + CRLF + r, true) == Split(h, true) + Split(r, true)
    decreases |h|
  {
    var s := h + CRLF + r;
    var k := FirstBreak(h, true, 0);
    var m := FirstBreak(s, true, 0);
    if k == |h| {
      assert BreakAt(s, |h|, true);
      forall j | 0 <= j < |h|
        ensures !BreakAt(s, j, true)
      {
        assert !BreakAt(h, j, true);
      }
      assert m == |h|;
      assert s[..m] == h && s[m + 2..] == r;
    } else {
      assert BreakAt(s, k, true);
      forall j | 0 <= j < k
        ensures !BreakAt(s, j, true)
      {
        assert !BreakAt(h, j, true);
      }
      assert m == k;
      SplitThroughBreak(h[k + 2..], r);
      assert s[..k] == h[..k] && s[k + 2..] == h[k + 2..] + CRLF + r;
    }
  }

  /** Headers stop at the first blank line, so what follows one is never read. */
  lemma {:induction false} HeadersStopAtBlank(msg: SIPMessage, head: seq<string>, x: seq<string>, y: seq<string>)
    ensures Headers(msg, head + [""] + x) == Headers(msg, head + [""] + y)
    decreases |head|
  {
    if head == [] {
      assert (head + [""] + x)[0] == "" && (head + [""] + y)[0] == "";
    } else {
      HeadersStopAtBlank(Header(msg, head[0]), head[1..], x, y);
      assert (head + [""] + x)[1..] == head[1..] + [""] + x;
      assert (head + [""] + y)[1..] == head[1..] + [""] + y;
    }
  }

  lemma BlankFirst(r: string)
    ensures Split(CRLF + r, true) == [""] + Split(r, true)
  {
    var s := CRLF + r;
    assert BreakAt(s, 0, true);
    assert s[..0] == "" && s[2..] == r;
  }

  lemma LinesWithBody(h: string, b: string)
    ensures Lines(h + CRLF + CRLF + b) == Split(h, true) + ([""] + Split(b, true))
  {
    assert h + CRLF + CRLF + b == h + CRLF + (CRLF + b);
    SplitThroughBreak(h, CRLF + b);
    BlankFirst(b);
  }

  lemma ParseOfLines(text: string, head: seq<string>, rest: seq<string>)
    requires head != [] && Lines(text) == head + ([""] + rest)
    ensures Parse(text) == match FirstLine(head[0])
                           case Ok(msg) => Ok(Headers(msg, head[1..] + [""] + rest))
                           case other => other
  {
    assert Lines(text)[0] == head[0];
    assert Lines(text)[1..] == head[1..] + [""] + rest;
  }

  /** Section 7 of RFC 3261: a blank line separates headers from the body, and the body never changes the result. */
  lemma BodyIndependent(h: string, b: string, b': string)
    ensures Parse(h + CRLF + CRLF + b) == Parse(h + CRLF + CRLF + b')
  {
    LinesWithBody(h, b);
    LinesWithBody(h, b');
    var head := Split(h, true);
    ParseOfLines(h + CRLF + CRLF + b, head, Split(b, true));
    ParseOfLines(h + CRLF + CRLF + b', head, Split(b', true));
    if FirstLine(head[0]).Ok? {
      HeadersStopAtBlank(FirstLine(head[0]).msg, head[1..], Split(b, true), Split(b', true));
    }
  }

  // ---- what the headers say ----

  /** Line `i` is a header line: a non-blank line after the first, with no blank line before it. */
  ghost predicate IsHeaderLine(lines: seq<string>, i: nat) {
    i < |lines| && forall j | 0 <= j <= i :: lines[j] != ""
  }

  /** No two of the recognised names are prefixes of one line. */
  lemma CredentialsAreNoCallId(line: string)
    requires IsCredentials(line)
    ensures !IsCallId(line)
  {
    assert Lower(line)[0] == 'a' || Lower(line)[0] == 'p';
  }

  lemma HeaderHasAuth(msg: SIPMessage, line: string)
    ensures Header(msg, line).hasAuth <==> msg.hasAuth || IsCredentials(line)
  {
    if IsCredentials(line) {
      CredentialsAreNoCallId(line);
    }
  }

  ghost predicate HasCredentials(lines: seq<string>) {
    exists i: nat :: IsHeaderLine(lines, i) && IsCredentials(lines[i])
  }

  lemma HasCredentialsStep(lines: seq<string>)
    requires lines != [] && lines[0] != ""
    ensures HasCredentials(lines) <==> IsCredentials(lines[0]) || HasCredentials(lines[1..])
  {
    forall i: nat | i < |lines| - 1
      ensures IsHeaderLine(lines, i + 1) <==> IsHeaderLine(lines[1..], i)
    {
      assert forall j | 0 <= j <= i :: lines[1..][j] == lines[j + 1];
      assert forall j | 0 < j <= i + 1 :: lines[j] == lines[1..][j - 1];
    }
    if i: nat :| IsHeaderLine(lines, i) && IsCredentials(lines[i]) && i > 0 {
      assert IsHeaderLine(lines[1..], i - 1) && IsCredentials(lines[1..][i - 1]);
    }
    if i: nat :| IsHeaderLine(lines[1..], i) && IsCredentials(lines[1..][i]) {
      assert IsHeaderLine(lines, i + 1) && IsCredentials(lines[i + 1]);
    }
    assert IsHeaderLine(lines, 0);
  }

  lemma {:induction false} HeadersHasAuth(msg: SIPMessage, lines: seq<string>)
    ensures Headers(msg, lines).hasAuth <==> msg.hasAuth || HasCredentials(lines)
    decreases |lines|
  {
    if lines != [] && lines[0] != "" {
      HeaderHasAuth(msg, lines[0]);
      HasCredentialsStep(lines);
      HeadersHasAuth(Header(msg, lines[0]), lines[1..]);
    }
  }

  /** Section 22.2 of RFC 3261: a message carries credentials exactly when a line before the first blank one is an
      Authorization or Proxy-Authorization header. */
  lemma HasAuthIffCredentialsHeader(text: string)
    requires Parse(text).Ok?
    ensures Parse(text).msg.hasAuth <==> HasCredentials(Lines(text)[1..])
  {
    HeadersHasAuth(FirstLine(Lines(text)[0]).msg, Lines(text)[1..]);
  }

  /** The value of the last Call-ID header before the first blank line, or what was there before. */
  function LastCallId(before: string, lines: seq<string>): string
    decreases |lines|
  {
    if lines == [] || lines[0] == "" then before
    else LastCallId(if IsCallId(lines[0]) then TrimSpace(AfterColon(lines[0])) else before, lines[1..])
  }

  /** The last Call-ID header before the first blank line wins. */
  lemma {:induction false} HeadersCallId(msg: SIPMessage, lines: seq<string>)
    ensures Headers(msg, lines).callID == LastCallId(msg.callID, lines)
    decreases |lines|
  {
    if lines != [] && lines[0] != "" {
      HeadersCallId(Header(msg, lines[0]), lines[1..]);
    }
  }
}
