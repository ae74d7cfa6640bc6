/** Writing a SIP message and parsing it: what the parser reads is what was written, whatever the order, number and case
    of the headers. */
module SipRoundTrip {
  import opened SipParser
  import opened Addresses
  import Dedup

  // ---- characters ----

  predicate Spaces(s: string) {
    forall i | 0 <= i < |s| :: s[i] == ' ' || 9 <= s[i] as int <= 13
  }

  /** Spaces as a pattern's `\s` has them: without vertical tab. */
  predicate Blanks(s: string) {
    forall i | 0 <= i < |s| :: s[i] == ' ' || (9 <= s[i] as int <= 13 && s[i] as int != 11)
  }

  predicate Trimmed(s: string) {
    s == "" || (!Spaces(s[..1]) && !Spaces(s[|s| - 1..]))
  }

  predicate WordChar(c: char) {
    'a' <= c <= 'z' || 'A' <= c <= 'Z' || '0' <= c <= '9' || c == '_'
  }

  predicate Word(s: string) {
    s != "" && forall i | 0 <= i < |s| :: WordChar(s[i])
  }

  predicate Digits(s: string) {
    s != "" && forall i | 0 <= i < |s| :: '0' <= s[i] <= '9'
  }

  predicate Without(s: string, c: char) {
    forall i | 0 <= i < |s| :: s[i] != c
  }

  /** The same letters, upper or lower case; `name` is in lower case. */
  predicate SameName(s: string, name: string) {
    |s| == |name| && forall i | 0 <= i < |s| ::
      name[i] == if 'A' <= s[i] <= 'Z' then s[i] - 'A' + 'a' else s[i]
  }

  function Capital(s: string): string {
    seq(|s|, i requires 0 <= i < |s| => if 'a' <= s[i] <= 'z' then s[i] - 'a' + 'A' else s[i])
  }

  // ---- what is written ----

  datatype Field =
    | CallID(value: string)
    | Credentials(value: string)
    | UserAgent(value: string)
    | From(user: string)
    | To(user: string)
    | CSeq(number: string, gap: string, method_: string)
    | Other(value: string)

  /** A header line: name, colon, some text before and after what matters. */
  datatype Line = Line(name: string, lead: string, field: Field, trail: string)

  function Core(f: Field): string {
    match f
    case CallID(v) => v
    case Credentials(v) => v
    case UserAgent(v) => v
    case From(u) => "sip:" + (u + "@")
    case To(u) => "sip:" + (u + "@")
    case CSeq(n, g, m) => n + (g + m)
    case Other(v) => v
  }

  function Value(l: Line): string {
    l.lead + (Core(l.field) + l.trail)
  }

  function Written(l: Line): string {
    l.name + ":" + Value(l)
  }

  predicate Known(name: string) {
    || SameName(name, "call-id") || SameName(name, "i") || SameName(name, "authorization")
    || SameName(name, "proxy-authorization") || SameName(name, "user-agent") || SameName(name, "from")
    || SameName(name, "f") || SameName(name, "to") || SameName(name, "t") || SameName(name, "cseq")
  }

  /** The line is a header of its kind: by its long name or its compact one in any case (the compact form of To in lower
      case only), with a value of the form that header has. */
  predicate Proper(l: Line) {
    && Without(l.name, ':')
    && match l.field
       case CallID(v) =>
         (SameName(l.name, "call-id") || SameName(l.name, "i")) && Spaces(l.lead) && Trimmed(v) && Spaces(l.trail)
       case Credentials(_) => SameName(l.name, "authorization") || SameName(l.name, "proxy-authorization")
       case UserAgent(v) => SameName(l.name, "user-agent") && Spaces(l.lead) && Trimmed(v) && Spaces(l.trail)
       case From(u) => (SameName(l.name, "from") || SameName(l.name, "f")) && UserPart(l.lead, u)
       case To(u) => (SameName(l.name, "to") || l.name == "t") && UserPart(l.lead, u)
       case CSeq(n, g, m) =>
         && SameName(l.name, "cseq") && Blanks(l.lead) && Digits(n) && Blanks(g) && g != "" && Word(m)
         && (l.trail != "" ==> !WordChar(l.trail[0]))
       case Other(_) => !Known(l.name) || l.name == "T"
  }

  predicate UserPart(lead: string, user: string) {
    Without(lead, ':') && user != "" && Without(user, '@')
  }

  datatype First =
    | Request(method_: string, gap: string, target: string)
    | Response(gap: string, code: nat, lead: string, reason: string, trail: string)

  function FirstText(f: First): string {
    match f
    case Request(m, g, t) => m + (g + ("sip:" + t))
    case Response(g, c, lead, r, trail) => "SIP/2.0" + (g + (Dedup.Decimal(c) + (lead + (r + trail))))
  }

  predicate ProperFirst(f: First) {
    && Without(FirstText(f), '\n')
    && match f
       case Request(m, g, _) => Word(m) && Blanks(g) && g != ""
       case Response(g, _, lead, r, trail) =>
         && Blanks(g) && g != "" && Spaces(lead) && Trimmed(r) && Spaces(trail)
         && (lead == "" && r != "" ==> !('0' <= r[0] <= '9'))
  }

  // ---- lines ----

  function Break(crlf: bool): string {
    if crlf then "\r\n" else "\n"
  }

  /** Lines, a blank line, and a body. */
  function Rest(lines: seq<string>, body: string, crlf: bool): string {
    if lines == [] then Break(crlf) + body else lines[0] + Break(crlf) + Rest(lines[1..], body, crlf)
  }

  function Message(first: string, lines: seq<string>, body: string, crlf: bool): string {
    first + Break(crlf) + Rest(lines, body, crlf)
  }

  lemma Assoc<T>(a: seq<T>, b: seq<T>, c: seq<T>)
    ensures a + b + c == a + (b + c)
  {
  }

  lemma {:induction false} SplitThroughNewline(h: string, r: string)
    requires Without(h, '\n')
    ensures Split(h + "\n" + r, false) == [h] + Split(r, false)
  {
    var s := h + "\n" + r;
    assert BreakAt(s, |h|, false);
    assert forall j | 0 <= j < |h| :: !BreakAt(s, j, false);
    assert FirstBreak(s, false, 0) == |h|;
    assert s[..|h|] == h && s[|h| + 1..] == r;
  }

  lemma SplitOfOne(h: string, crlf: bool)
    requires Without(h, '\n')
    ensures Split(h, crlf) == [h]
  {
    var k := FirstBreak(h, crlf, 0);
    assert !BreakAt(h, k, crlf);
  }

  lemma SplitFirst(h: string, r: string, crlf: bool)
    requires Without(h, '\n')
    ensures Split(h + Break(crlf) + r, crlf) == [h] + Split(r, crlf)
  {
    if crlf {
      SplitThroughBreak(h, r);
      SplitOfOne(h, true);
    } else {
      SplitThroughNewline(h, r);
    }
  }

  lemma {:induction false} SplitRest(lines: seq<string>, body: string, crlf: bool)
    requires forall i | 0 <= i < |lines| :: Without(lines[i], '\n')
    ensures Split(Rest(lines, body, crlf), crlf) == lines + ([""] + Split(body, crlf))
  {
    var end := [""] + Split(body, crlf);
    if lines == [] {
      assert "" + Break(crlf) + body == Break(crlf) + body;
      SplitFirst("", body, crlf);
      assert lines + end == end;
    } else {
      SplitFirst(lines[0], Rest(lines[1..], body, crlf), crlf);
      SplitRest(lines[1..], body, crlf);
      Assoc([lines[0]], lines[1..], end);
      assert [lines[0]] + lines[1..] == lines;
    }
  }

  lemma {:induction false} NoReturns(lines: seq<string>, body: string)
    requires Without(body, '\r') && forall i | 0 <= i < |lines| :: Without(lines[i], '\r')
    ensures Without(Rest(lines, body, false), '\r')
  {
    if lines != [] {
      NoReturns(lines[1..], body);
    }
  }

  lemma NoReturnNoSplit(s: string)
    requires Without(s, '\r')
    ensures Split(s, true) == [s]
  {
    var k := FirstBreak(s, true, 0);
    assert !BreakAt(s, k, true);
  }

  /** With CR LF, or with bare newlines and no carriage return anywhere, the lines of a message are those written. */
  lemma LinesOfMessage(first: string, lines: seq<string>, body: string, crlf: bool)
    requires Without(first, '\n') && forall i | 0 <= i < |lines| :: Without(lines[i], '\n')
    requires !crlf ==> Without(first, '\r') && Without(body, '\r') &&
                       forall i | 0 <= i < |lines| :: Without(lines[i], '\r')
    ensures Lines(Message(first, lines, body, crlf)) == [first] + (lines + ([""] + Split(body, crlf)))
  {
    SplitMessage(first, lines, body, crlf);
    if !crlf {
      MessageHasNoReturn(first, lines, body);
      NoReturnNoSplit(Message(first, lines, body, crlf));
    }
  }

  lemma SplitMessage(first: string, lines: seq<string>, body: string, crlf: bool)
    requires Without(first, '\n') && forall i | 0 <= i < |lines| :: Without(lines[i], '\n')
    ensures Split(Message(first, lines, body, crlf), crlf) == [first] + (lines + ([""] + Split(body, crlf)))
  {
    SplitFirst(first, Rest(lines, body, crlf), crlf);
    SplitRest(lines, body, crlf);
  }

  lemma MessageHasNoReturn(first: string, lines: seq<string>, body: string)
    requires Without(first, '\r') && Without(body, '\r') && forall i | 0 <= i < |lines| :: Without(lines[i], '\r')
    ensures Without(Message(first, lines, body, false), '\r')
  {
    NoReturns(lines, body);
  }

  /** A text is refused as too short exactly when it has no newline at all. */
  lemma TooFewLinesIff(text: string)
    ensures Parse(text).TooFewLines? <==> Without(text, '\n')
  {
    if Without(text, '\n') {
      SplitOfOne(text, true);
      SplitOfOne(text, false);
    } else {
      var i :| 0 <= i < |text| && text[i] == '\n';
      assert BreakAt(text, i, false);
      assert FirstBreak(text, false, 0) <= i;
    }
  }

  // ---- scanning ----

  lemma {:induction false} SpanIs(s: string, p: char -> bool, n: nat)
    requires n <= |s| && (forall i | 0 <= i < n :: p(s[i])) && (n < |s| ==> !p(s[n]))
    ensures Span(s, p) == n
  {
    if n > 0 {
      SpanIs(s[1..], p, n - 1);
    }
  }

  lemma {:induction false} TrimRightOf(core: string, trail: string)
    requires Spaces(trail) && (core != "" ==> !Spaces(core[|core| - 1..]))
    ensures TrimRight(core + trail) == core
  {
    if trail == "" {
      assert core + trail == core;
    } else {
      DropLast(core, trail);
      TrimRightOf(core, trail[..|trail| - 1]);
    }
  }

  lemma DropLast(x: string, y: string)
    requires y != ""
    ensures var s := x + y; s[..|s| - 1] == x + y[..|y| - 1] && s[|s| - 1] == y[|y| - 1]
  {
  }

  /** Trimming takes the spaces around a value and nothing else. */
  lemma TrimSpaceOf(lead: string, core: string, trail: string)
    requires Spaces(lead) && Trimmed(core) && Spaces(trail)
    ensures TrimSpace(lead + (core + trail)) == core
  {
    var s := lead + (core + trail);
    if core == "" {
      SpanIs(s, IsSpace, |s|);
      assert s[|s|..] == "";
    } else {
      assert s[|lead|] == core[0] && core[..1][0] == core[0];
      SpanIs(s, IsSpace, |lead|);
      assert s[|lead|..] == core + trail;
      TrimRightOf(core, trail);
    }
  }

  // ---- names ----

  /** A name test on a line looks at the line's name: all of it, in any case. */
  lemma HasNameIff(name: string, rest: string, n: string)
    requires Without(name, ':') && Without(n, ':')
    ensures HasName(name + ":" + rest, n + ":") <==> SameName(name, n)
  {
    var line := name + ":" + rest;
    var low := Lower(line);
    assert forall i | 0 <= i < |name| :: line[i] == name[i];
    assert line[|name|] == ':';
    assert low[|name|] == ':';
    assert |n| < |name| ==> line[|n|] == name[|n|] != ':';
    if HasName(line, n + ":") {
      assert low[..|n| + 1] == n + ":";
      assert low[|n|] == (n + ":")[|n|] == ':';
      assert forall i | 0 <= i < |n| :: low[i] == (n + ":")[i] == n[i];
    }
    if SameName(name, n) {
      assert low[..|n| + 1] == n + ":";
    }
  }

  lemma ColonOf(name: string, rest: string)
    requires Without(name, ':')
    ensures Colon(name + ":" + rest) == |name| && AfterColon(name + ":" + rest) == rest
    ensures (name + ":" + rest)[..|name|] == name
  {
    var line := name + ":" + rest;
    SpanIs(line, c => c != ':', |name|);
  }

  /** Which of the recognised names a line has, all at once. */
  lemma NamesOf(name: string, rest: string)
    requires Without(name, ':')
    ensures var line := name + ":" + rest;
            && (IsCallId(line) <==> SameName(name, "call-id") || SameName(name, "i"))
            && (IsCredentials(line) <==> SameName(name, "authorization") || SameName(name, "proxy-authorization"))
            && (HasName(line, "user-agent:") <==> SameName(name, "user-agent"))
            && (HasName(line, "from:") || HasName(line, "f:") <==> SameName(name, "from") || SameName(name, "f"))
            && (HasName(line, "to:") || HasName(line, "t:") <==> SameName(name, "to") || SameName(name, "t"))
            && (HasName(line, "cseq:") <==> SameName(name, "cseq"))
  {
    HasNameIff(name, rest, "call-id");
    HasNameIff(name, rest, "i");
    HasNameIff(name, rest, "authorization");
    HasNameIff(name, rest, "proxy-authorization");
    HasNameIff(name, rest, "user-agent");
    HasNameIff(name, rest, "from");
    HasNameIff(name, rest, "f");
    HasNameIff(name, rest, "to");
    HasNameIff(name, rest, "t");
    HasNameIff(name, rest, "cseq");
    assert "call-id" + ":" == "call-id:" && "i" + ":" == "i:" && "authorization" + ":" == "authorization:";
    assert "proxy-authorization" + ":" == "proxy-authorization:" && "user-agent" + ":" == "user-agent:";
    assert "from" + ":" == "from:" && "f" + ":" == "f:" && "to" + ":" == "to:" && "t" + ":" == "t:";
    assert "cseq" + ":" == "cseq:";
  }

  // ---- users ----

  /** `sip:` user `@` at position `i` of a header value. */
  predicate UserAt(h: string, i: nat, user: string) {
    && user != "" && Without(user, '@') && i + 4 + |user| < |h|
    && h[i..i + 4] == "sip:" && h[i + 4..i + 4 + |user|] == user && h[i + 4 + |user|] == '@'
  }

  lemma UserAtFront(h: string, user: string)
    requires UserAt(h, 0, user)
    ensures ExtractUser(h) == user
  {
    assert h[4..][..|user|] == user;
    assert forall i | 0 <= i < |user| :: h[4..][i] == user[i];
    SpanIs(h[4..], c => c != '@', |user|);
    assert "sip:" <= h;
  }

  lemma FrontUser(h: string, n: nat)
    requires "sip:" <= h && 0 < n && 4 + n < |h| && h[4 + n] == '@' && Without(h[4..4 + n], '@')
    ensures UserAt(h, 0, h[4..4 + n])
  {
    assert h[0..4] == "sip:";
  }

  lemma NoUserAtFront(h: string)
    requires |h| >= 4 && forall user :: !UserAt(h, 0, user)
    ensures ExtractUser(h) == ExtractUser(h[1..])
  {
    var after := h[4..];
    var n := Span(after, c => c != '@');
    SpanHolds(after, c => c != '@');
    SpanStops(after, c => c != '@');
    assert after[..n] == h[4..4 + n];
    if "sip:" <= h && 0 < n && 4 + n < |h| {
      FrontUser(h, n);
    }
  }

  lemma {:induction false} SpanStops(s: string, p: char -> bool)
    ensures Span(s, p) < |s| ==> !p(s[Span(s, p)])
  {
    if s != [] && p(s[0]) {
      SpanStops(s[1..], p);
    }
  }

  /** The user of an address header is the first `sip:` user `@` in its value. */
  lemma {:induction false} FirstUser(h: string, i: nat, user: string)
    requires UserAt(h, i, user) && forall j: nat, u | j < i :: !UserAt(h, j, u)
    ensures ExtractUser(h) == user
    decreases i
  {
    if i == 0 {
      UserAtFront(h, user);
    } else {
      NoUserAtFront(h);
      assert h[1..][i - 1..i + 3] == h[i..i + 4];
      assert h[1..][i + 3..i + 3 + |user|] == h[i + 4..i + 4 + |user|];
      forall j: nat, u | j < i - 1
        ensures !UserAt(h[1..], j, u)
      {
        UserShifts(h, j, u);
      }
      FirstUser(h[1..], i - 1, user);
    }
  }

  lemma UserShifts(h: string, j: nat, u: string)
    requires h != ""
    ensures UserAt(h[1..], j, u) ==> UserAt(h, j + 1, u)
  {
    if UserAt(h[1..], j, u) {
      assert h[j + 1..j + 5] == h[1..][j..j + 4];
      assert h[j + 5..j + 5 + |u|] == h[1..][j + 4..j + 4 + |u|];
    }
  }

  /** And there is none when no such thing is in it. */
  lemma {:induction false} NoUser(h: string)
    requires forall j: nat, u :: !UserAt(h, j, u)
    ensures ExtractUser(h) == ""
  {
    if |h| >= 4 {
      NoUserAtFront(h);
      forall j: nat, u
        ensures !UserAt(h[1..], j, u)
      {
        UserShifts(h, j, u);
      }
      NoUser(h[1..]);
    }
  }

  lemma UserOf(lead: string, user: string, trail: string)
    requires UserPart(lead, user)
    ensures ExtractUser(lead + ("sip:" + (user + "@") + trail)) == user
  {
    var tail := "sip:" + (user + "@") + trail;
    UserIsThere(lead, user, trail);
    assert tail[..4] == "sip:";
    forall j: nat, u | j < |lead|
      ensures !UserAt(lead + tail, j, u)
    {
      NoEarlierUser(lead, tail, j, u);
    }
    FirstUser(lead + tail, |lead|, user);
  }

  lemma UserIsThere(lead: string, user: string, trail: string)
    requires user != "" && Without(user, '@')
    ensures UserAt(lead + ("sip:" + (user + "@") + trail), |lead|, user)
  {
    var tail := "sip:" + (user + "@") + trail;
    var h, k := lead + tail, |lead|;
    assert h[k..k + 4] == tail[..4] == "sip:";
    assert h[k + 4..k + 4 + |user|] == tail[4..4 + |user|] == user;
    assert h[k + 4 + |user|] == tail[4 + |user|] == '@';
  }

  lemma NoEarlierUser(lead: string, tail: string, j: nat, u: string)
    requires Without(lead, ':') && |tail| >= 4 && tail[..4] == "sip:" && j < |lead|
    ensures !UserAt(lead + tail, j, u)
  {
    var h, k := lead + tail, |lead|;
    assert j + 3 < k ==> h[j + 3] == lead[j + 3];
    assert j + 3 >= k ==> h[j + 3] == tail[..4][j + 3 - k] == "sip:"[j + 3 - k];
    assert h[j + 3] != ':' == "sip:"[3];
    assert h[j..j + 4][3] == h[j + 3];
  }

  // ---- CSeq ----

  lemma PrefixSpan(x: string, y: string, p: char -> bool)
    requires (forall i | 0 <= i < |x| :: p(x[i])) && (y != "" ==> !p(y[0]))
    ensures Span(x + y, p) == |x| && (x + y)[..|x|] == x && (x + y)[|x|..] == y
  {
    SpanIs(x + y, p, |x|);
  }

  lemma MethodOf(lead: string, n: string, g: string, m: string, trail: string)
    requires Blanks(lead) && Digits(n) && Blanks(g) && g != "" && Word(m)
    requires trail != "" ==> !WordChar(trail[0])
    ensures MethodAfterNumber(lead + (n + (g + (m + trail)))) == m
  {
    var c := m + trail;
    var b := g + c;
    var a := n + b;
    PrefixSpan(m, trail, IsWord);
    PrefixSpan(g, c, IsBlank);
    PrefixSpan(n, b, IsDigit);
    PrefixSpan(lead, a, IsBlank);
  }

  ghost predicate NumberAndMethod(s: string, lead: string, n: string, g: string, m: string, trail: string) {
    && s == lead + (n + (g + (m + trail)))
    && Blanks(lead) && Digits(n) && Blanks(g) && g != "" && Word(m) && (trail != "" ==> !WordChar(trail[0]))
  }

  lemma SpanParts(s: string, p: char -> bool) returns (x: string, y: string)
    ensures x == s[..Span(s, p)] && y == s[Span(s, p)..] && s == x + y
    ensures (forall i | 0 <= i < |x| :: p(x[i])) && (y != "" ==> !p(y[0]))
  {
    SpanHolds(s, p);
    SpanStops(s, p);
    x, y := s[..Span(s, p)], s[Span(s, p)..];
  }

  /** A CSeq value has a method exactly when a number, blanks and a word are all there. */
  lemma MethodIff(s: string)
    ensures MethodAfterNumber(s) != "" <==> exists lead, n, g, m, trail :: NumberAndMethod(s, lead, n, g, m, trail)
  {
    if lead, n, g, m, trail :| NumberAndMethod(s, lead, n, g, m, trail) {
      MethodOf(lead, n, g, m, trail);
    }
    if MethodAfterNumber(s) != "" {
      var lead, n, g, m, trail := MethodParts(s);
    }
  }

  lemma MethodParts(s: string) returns (lead: string, n: string, g: string, m: string, trail: string)
    requires MethodAfterNumber(s) != ""
    ensures NumberAndMethod(s, lead, n, g, m, trail)
  {
    var a, b, c;
    lead, a := SpanParts(s, IsBlank);
    n, b := SpanParts(a, IsDigit);
    g, c := SpanParts(b, IsBlank);
    m, trail := SpanParts(c, IsWord);
    SpanCharacters(lead, n, g, m);
    assert n != "" && g != "" && m != "";
  }

  lemma SpanCharacters(lead: string, n: string, g: string, m: string)
    ensures (forall i | 0 <= i < |lead| :: IsBlank(lead[i])) ==> Blanks(lead)
    ensures n != "" && (forall i | 0 <= i < |n| :: IsDigit(n[i])) ==> Digits(n)
    ensures (forall i | 0 <= i < |g| :: IsBlank(g[i])) ==> Blanks(g)
    ensures m != "" && (forall i | 0 <= i < |m| :: IsWord(m[i])) ==> Word(m)
  {
  }

  // ---- one header ----

  /** What a header line means. */
  function Effect(msg: SIPMessage, f: Field): SIPMessage {
    match f
    case CallID(v) => msg.(callID := v)
    case Credentials(_) => msg.(hasAuth := true)
    case UserAgent(v) => msg.(userAgent := v)
    case From(u) => msg.(fromUser := u)
    case To(u) => msg.(toUser := u)
    case CSeq(_, _, m) => if msg.isResponse then msg.(method_ := Capital(m)) else msg
    case Other(_) => msg
  }

  datatype Kind = IsCallID | IsAuth | IsAgent | IsFrom | IsTo | IsCSeq | IsOther

  function KindOf(name: string): Kind {
    if SameName(name, "call-id") || SameName(name, "i") then IsCallID
    else if SameName(name, "authorization") || SameName(name, "proxy-authorization") then IsAuth
    else if SameName(name, "user-agent") then IsAgent
    else if SameName(name, "from") || SameName(name, "f") then IsFrom
    else if SameName(name, "to") || SameName(name, "t") then IsTo
    else if SameName(name, "cseq") then IsCSeq
    else IsOther
  }

  /** No two recognised names are the same. */
  lemma NameKinds(name: string)
    ensures SameName(name, "call-id") || SameName(name, "i") <==> KindOf(name) == IsCallID
    ensures SameName(name, "authorization") || SameName(name, "proxy-authorization") <==> KindOf(name) == IsAuth
    ensures SameName(name, "user-agent") <==> KindOf(name) == IsAgent
    ensures SameName(name, "from") || SameName(name, "f") <==> KindOf(name) == IsFrom
    ensures SameName(name, "to") || SameName(name, "t") <==> KindOf(name) == IsTo
    ensures SameName(name, "cseq") <==> KindOf(name) == IsCSeq
  {
    assert "from"[0] == "f"[0] == 'f' && "cseq"[0] == 'c' && "t"[0] == 't' && "i"[0] == 'i';
    assert name != "" ==> name[0] == name[0];
  }

  /** The kind of a line decides what the parser does with it. */
  lemma KindOfLine(name: string, rest: string) returns (k: Kind)
    requires Without(name, ':')
    ensures k == KindOf(name)
    ensures var line := name + ":" + rest;
            && (IsCallId(line) <==> k == IsCallID) && (IsCredentials(line) <==> k == IsAuth)
            && (HasName(line, "user-agent:") <==> k == IsAgent)
            && (HasName(line, "from:") || HasName(line, "f:") <==> k == IsFrom)
            && (HasName(line, "to:") || HasName(line, "t:") <==> k == IsTo)
            && (HasName(line, "cseq:") <==> k == IsCSeq)
  {
    k := KindOf(name);
    NamesOf(name, rest);
    NameKinds(name);
  }

  lemma ProperKind(l: Line)
    requires Proper(l)
    ensures match l.field
            case CallID(_) => KindOf(l.name) == IsCallID
            case Credentials(_) => KindOf(l.name) == IsAuth
            case UserAgent(_) => KindOf(l.name) == IsAgent
            case From(_) => KindOf(l.name) == IsFrom
            case To(_) => KindOf(l.name) == IsTo
            case CSeq(_, _, _) => KindOf(l.name) == IsCSeq
            case Other(_) => KindOf(l.name) == IsOther || l.name == "T"
  {
    NameKinds(l.name);
  }

  lemma ToNames(name: string)
    requires SameName(name, "to") || name == "t" || name == "T"
    ensures TrimSpace(name) == name
    ensures SameName(name, "to") ==> Lower(name) == "to"
    ensures name == "t" || name == "T" ==> Lower(name) != "to" && SameName(name, "t")
  {
    ToNameLetters(name);
    LettersTrimmed(name);
    TrimmedItself(name);
    assert |Lower(name)| == |name|;
  }

  lemma ToNameLetters(name: string)
    requires SameName(name, "to") || name == "t" || name == "T"
    ensures name != "" && forall i | 0 <= i < |name| :: WordChar(name[i])
  {
  }

  lemma LettersTrimmed(s: string)
    requires Word(s)
    ensures Trimmed(s)
  {
    assert s[..1][0] == s[0] && s[|s| - 1..][0] == s[|s| - 1];
  }

  lemma TrimmedItself(s: string)
    requires Trimmed(s)
    ensures TrimSpace(s) == s
  {
    TrimSpaceOf("", s, "");
    assert "" + (s + "") == s;
  }

  lemma ToHeader(msg: SIPMessage, name: string, rest: string)
    requires Without(name, ':') && (SameName(name, "to") || name == "t" || name == "T")
    ensures Header(msg, name + ":" + rest) == if name == "T" then msg else msg.(toUser := ExtractUser(rest))
  {
    var k := KindOfLine(name, rest);
    ColonOf(name, rest);
    NameKinds(name);
    ToNames(name);
  }

  lemma AfterName(name: string, rest: string)
    ensures (name + ":" + rest)[|name| + 1..] == rest
  {
  }

  lemma CSeqMethodOf(name: string, rest: string)
    requires Without(name, ':') && SameName(name, "cseq")
    ensures CSeqMethod(name + ":" + rest) == MethodAfterNumber(rest)
  {
    HasNameIff(name, rest, "cseq");
    assert "cseq" + ":" == "cseq:";
    AfterName(name, rest);
  }

  lemma CSeqHeader(msg: SIPMessage, name: string, rest: string)
    requires Without(name, ':') && SameName(name, "cseq")
    ensures Header(msg, name + ":" + rest) ==
            if msg.isResponse && MethodAfterNumber(rest) != "" then msg.(method_ := Capital(MethodAfterNumber(rest)))
            else msg
  {
    var k := KindOfLine(name, rest);
    NameKinds(name);
    CSeqMethodOf(name, rest);
    UpperIsCapital(MethodAfterNumber(rest));
  }

  lemma UpperIsCapital(s: string)
    ensures Upper(s) == Capital(s)
  {
  }

  /** The other headers, by kind. */
  lemma PlainHeader(msg: SIPMessage, name: string, rest: string)
    requires Without(name, ':')
    ensures var h := Header(msg, name + ":" + rest);
            match KindOf(name)
            case IsCallID => h == msg.(callID := TrimSpace(rest))
            case IsAuth => h == msg.(hasAuth := true)
            case IsAgent => h == msg.(userAgent := TrimSpace(rest))
            case IsFrom => h == msg.(fromUser := ExtractUser(rest))
            case IsTo => true
            case IsCSeq => true
            case IsOther => h == msg
  {
    var k := KindOfLine(name, rest);
    ColonOf(name, rest);
  }

  lemma HeaderOf(msg: SIPMessage, l: Line)
    requires Proper(l)
    ensures Header(msg, Written(l)) == Effect(msg, l.field)
  {
    PlainHeader(msg, l.name, Value(l));
    ProperKind(l);
    match l.field
    case CallID(v) => TrimSpaceOf(l.lead, v, l.trail);
    case Credentials(_) =>
    case UserAgent(v) => TrimSpaceOf(l.lead, v, l.trail);
    case From(u) => UserOf(l.lead, u, l.trail);
    case To(u) =>
      UserOf(l.lead, u, l.trail);
      ToHeader(msg, l.name, Value(l));
    case CSeq(n, g, m) =>
      Assoc(n, g + m, l.trail);
      Assoc(g, m, l.trail);
      MethodOf(l.lead, n, g, m, l.trail);
      CSeqHeader(msg, l.name, Value(l));
    case Other(_) =>
      if l.name == "T" {
        ToHeader(msg, l.name, Value(l));
      }
  }

  // ---- the first line ----

  lemma {:induction false} DecimalIsDigits(n: nat)
    ensures Digits(Dedup.Decimal(n))
  {
    Dedup.DecimalDigits(n);
  }

  /** The number written is the number read. */
  lemma {:induction false} DecimalValue(n: nat)
    ensures Digits(Dedup.Decimal(n)) && SipParser.Value(Dedup.Decimal(n)) == n
  {
    DecimalIsDigits(n);
    if n >= 10 {
      var d := Dedup.Decimal(n);
      DecimalValue(n / 10);
      assert d[..|d| - 1] == Dedup.Decimal(n / 10) && d[|d| - 1] == Dedup.Digit(n % 10);
    }
  }

  lemma DecimalOf401()
    ensures Dedup.Decimal(401) == "401"
  {
    assert Dedup.Decimal(4) == "4" && Dedup.Decimal(40) == "40";
  }

  lemma NumberOf(n: nat, rest: string)
    requires rest != "" ==> !('0' <= rest[0] <= '9')
    ensures Number(Dedup.Decimal(n) + rest) == if n > MAX_INT then MAX_INT else n
    ensures Span(Dedup.Decimal(n) + rest, IsDigit) == |Dedup.Decimal(n)|
    ensures (Dedup.Decimal(n) + rest)[|Dedup.Decimal(n)|..] == rest
  {
    DecimalValue(n);
    PrefixSpan(Dedup.Decimal(n), rest, IsDigit);
  }

  /** What the first line says. */
  function Started(f: First): SIPMessage {
    match f
    case Request(m, _, _) => SIPMessage(false, m, 0, "", "", "", "", "", false)
    case Response(_, c, _, r, _) => SIPMessage(true, "", if c > MAX_INT then MAX_INT else c, r, "", "", "", "", false)
  }

  lemma RequestMethodOf(m: string, g: string, t: string)
    requires Word(m) && Blanks(g) && g != ""
    ensures RequestMethod(m + (g + ("sip:" + t))) == m
  {
    var rest := "sip:" + t;
    PrefixSpan(m, g + rest, IsWord);
    PrefixSpan(g, rest, IsBlank);
    assert "sip:" <= rest;
  }

  lemma RequestIsNoStatus(m: string, g: string, t: string)
    requires Word(m) && Blanks(g) && g != ""
    ensures StatusStart(m + (g + ("sip:" + t))) == 0
  {
    var line := m + (g + ("sip:" + t));
    assert |m| <= 3 ==> line[|m|] == g[0];
    assert |m| > 3 ==> line[3] == m[3];
    assert "SIP/2.0"[0] == 'S' && "SIP/2.0"[1] == 'I' && "SIP/2.0"[2] == 'P' && "SIP/2.0"[3] == '/';
  }

  lemma RequestLine(m: string, g: string, t: string)
    requires Word(m) && Blanks(g) && g != ""
    ensures FirstLine(m + (g + ("sip:" + t))) == Ok(Started(Request(m, g, t)))
  {
    RequestMethodOf(m, g, t);
    RequestIsNoStatus(m, g, t);
  }

  lemma StatusStartOf(g: string, digits: string, rest: string)
    requires Blanks(g) && g != "" && Digits(digits) && Without(rest, '\n')
    requires rest != "" ==> !('0' <= rest[0] <= '9')
    ensures StatusStart("SIP/2.0" + (g + (digits + rest))) == 7 + |g|
  {
    var line := "SIP/2.0" + (g + (digits + rest));
    assert line[7..] == g + (digits + rest);
    PrefixSpan(g, digits + rest, IsBlank);
    assert line[7 + |g|..] == digits + rest;
    PrefixSpan(digits, rest, IsDigit);
  }

  lemma StatusLine(g: string, c: nat, lead: string, r: string, trail: string)
    requires ProperFirst(Response(g, c, lead, r, trail))
    ensures FirstLine("SIP/2.0" + (g + (Dedup.Decimal(c) + (lead + (r + trail))))) ==
            Ok(Started(Response(g, c, lead, r, trail)))
  {
    var rest := lead + (r + trail);
    RestOfStatus(g, c, lead, r, trail);
    DecimalIsDigits(c);
    StatusStartOf(g, Dedup.Decimal(c), rest);
    DropTwo("SIP/2.0", g, Dedup.Decimal(c) + rest);
    StatusMessageOf(c, lead, r, trail);
  }

  lemma DropTwo(x: string, y: string, z: string)
    ensures (x + (y + z))[|x| + |y|..] == z
  {
  }

  lemma StatusMessageOf(c: nat, lead: string, r: string, trail: string)
    requires Spaces(lead) && Trimmed(r) && Spaces(trail)
    requires var rest := lead + (r + trail); rest != "" ==> !('0' <= rest[0] <= '9')
    ensures StatusMessage(Dedup.Decimal(c) + (lead + (r + trail))) == Started(Response("", c, lead, r, trail))
  {
    NumberOf(c, lead + (r + trail));
    TrimSpaceOf(lead, r, trail);
  }

  lemma RestOfStatus(g: string, c: nat, lead: string, r: string, trail: string)
    requires ProperFirst(Response(g, c, lead, r, trail))
    ensures var rest := lead + (r + trail);
            Without(rest, '\n') && (rest != "" ==> !('0' <= rest[0] <= '9'))
  {
    var rest := lead + (r + trail);
    var text := FirstText(Response(g, c, lead, r, trail));
    var k := |text| - |rest|;
    assert forall i | 0 <= i < |rest| :: rest[i] == text[k + i];
    assert lead != "" ==> rest[0] == lead[0];
    assert lead == "" && r != "" ==> rest[0] == r[0];
    assert lead == "" && r == "" && trail != "" ==> rest[0] == trail[0];
  }

  lemma FirstLineOf(f: First)
    requires ProperFirst(f)
    ensures FirstLine(FirstText(f)) == Ok(Started(f))
  {
    match f
    case Request(m, g, t) => RequestLine(m, g, t);
    case Response(g, c, lead, r, trail) => StatusLine(g, c, lead, r, trail);
  }

  // ---- the whole message ----

  function WrittenAll(ls: seq<Line>): seq<string> {
    seq(|ls|, i requires 0 <= i < |ls| => Written(ls[i]))
  }

  /** The last field of its kind decides. */
  function LastOf<T>(ls: seq<Line>, pick: Field -> Option<T>, otherwise: T): T {
    if ls == [] then otherwise
    else
      match pick(ls[|ls| - 1].field)
      case Some(v) => v
      case None => LastOf(ls[..|ls| - 1], pick, otherwise)
  }

  function AsCallID(f: Field): Option<string> {
    if f.CallID? then Some(f.value) else None
  }

  function AsAgent(f: Field): Option<string> {
    if f.UserAgent? then Some(f.value) else None
  }

  function AsFrom(f: Field): Option<string> {
    if f.From? then Some(f.user) else None
  }

  function AsTo(f: Field): Option<string> {
    if f.To? then Some(f.user) else None
  }

  function AsMethod(f: Field): Option<string> {
    if f.CSeq? then Some(Capital(f.method_)) else None
  }

  function AsCredentials(f: Field): Option<bool> {
    if f.Credentials? then Some(true) else None
  }

  /** What a message says: each field from the last header of its kind, a response's method from CSeq. */
  function Meant(start: SIPMessage, ls: seq<Line>): SIPMessage {
    SIPMessage(start.isResponse,
               if start.isResponse then LastOf(ls, AsMethod, start.method_) else start.method_,
               start.responseCode, start.reason,
               LastOf(ls, AsCallID, start.callID), LastOf(ls, AsAgent, start.userAgent),
               LastOf(ls, AsFrom, start.fromUser), LastOf(ls, AsTo, start.toUser),
               LastOf(ls, AsCredentials, start.hasAuth))
  }

  lemma {:induction false} LastOfCons<T>(l: Line, ls: seq<Line>, pick: Field -> Option<T>, otherwise: T)
    ensures LastOf([l] + ls, pick, otherwise) ==
            LastOf(ls, pick, match pick(l.field) case Some(v) => v case None => otherwise)
  {
    if ls == [] {
      assert [l] + ls == [l] && [l][..0] == [];
    } else {
      var n := |ls| - 1;
      LastOfCons(l, ls[..n], pick, otherwise);
      assert ([l] + ls)[..n + 1] == [l] + ls[..n];
    }
  }

  lemma MeantCons(start: SIPMessage, l: Line, ls: seq<Line>)
    ensures Meant(start, [l] + ls) == Meant(Effect(start, l.field), ls)
  {
    LastOfCons(l, ls, AsMethod, start.method_);
    LastOfCons(l, ls, AsCallID, start.callID);
    LastOfCons(l, ls, AsAgent, start.userAgent);
    LastOfCons(l, ls, AsFrom, start.fromUser);
    LastOfCons(l, ls, AsTo, start.toUser);
    LastOfCons(l, ls, AsCredentials, start.hasAuth);
  }

  lemma WrittenCons(ls: seq<Line>, rest: seq<string>)
    requires ls != []
    ensures WrittenAll(ls) + rest == [Written(ls[0])] + (WrittenAll(ls[1..]) + rest)
  {
    assert WrittenAll(ls) == [Written(ls[0])] + WrittenAll(ls[1..]);
  }

  lemma HeadersCons(msg: SIPMessage, line: string, rest: seq<string>)
    requires line != ""
    ensures Headers(msg, [line] + rest) == Headers(Header(msg, line), rest)
  {
    assert ([line] + rest)[1..] == rest;
  }

  lemma {:induction false} HeadersOf(start: SIPMessage, ls: seq<Line>, rest: seq<string>)
    requires forall i | 0 <= i < |ls| :: Proper(ls[i])
    ensures Headers(start, WrittenAll(ls) + ([""] + rest)) == Meant(start, ls)
    decreases |ls|
  {
    if ls == [] {
      assert (WrittenAll(ls) + ([""] + rest))[0] == "";
    } else {
      HeadersOf(Effect(start, ls[0].field), ls[1..], rest);
      HeadersStep(start, ls, [""] + rest);
    }
  }

  lemma HeadersStep(start: SIPMessage, ls: seq<Line>, rest: seq<string>)
    requires ls != [] && Proper(ls[0])
    requires var next := Effect(start, ls[0].field); Headers(next, WrittenAll(ls[1..]) + rest) == Meant(next, ls[1..])
    ensures Headers(start, WrittenAll(ls) + rest) == Meant(start, ls)
  {
    WrittenCons(ls, rest);
    HeadersCons(start, Written(ls[0]), WrittenAll(ls[1..]) + rest);
    HeaderOf(start, ls[0]);
    MeantCons(start, ls[0], ls[1..]);
    assert [ls[0]] + ls[1..] == ls;
  }

  /** Sections 7 and 7.3 of RFC 3261: writing a request or a response and parsing it gives back what was written, for
      any number of headers in any order, long or compact, in any case, with other headers between them; where a header
      comes more than once the last one counts. Lines end in CR LF, or all of them in a bare newline. */
  lemma ParseWritten(f: First, ls: seq<Line>, body: string, crlf: bool)
    requires ProperFirst(f) && forall i | 0 <= i < |ls| :: Proper(ls[i]) && Without(Written(ls[i]), '\n')
    requires !crlf ==> Without(FirstText(f), '\r') && Without(body, '\r') &&
                       forall i | 0 <= i < |ls| :: Without(Written(ls[i]), '\r')
    ensures Parse(Message(FirstText(f), WrittenAll(ls), body, crlf)) == Ok(Meant(Started(f), ls))
  {
    var text := Message(FirstText(f), WrittenAll(ls), body, crlf);
    var rest := WrittenAll(ls) + ([""] + Split(body, crlf));
    LinesOfMessage(FirstText(f), WrittenAll(ls), body, crlf);
    FirstLineOf(f);
    HeadersOf(Started(f), ls, Split(body, crlf));
    assert Lines(text)[0] == FirstText(f) && Lines(text)[1..] == rest;
  }

  // ---- which first lines are read ----

  predicate RequestStart(line: string, m: string, g: string) {
    Word(m) && Blanks(g) && g != "" && m + (g + "sip:") <= line
  }

  predicate StatusStartsWith(line: string, g: string, digits: string) {
    Blanks(g) && g != "" && Digits(digits) && "SIP/2.0" + (g + digits) <= line
  }

  lemma RequestStartIsRead(line: string, m: string, g: string)
    requires RequestStart(line, m, g)
    ensures FirstLine(line).Ok?
  {
    var t := line[|m + (g + "sip:")|..];
    assert line == m + (g + "sip:") + t;
    Assoc(m, g + "sip:", t);
    Assoc(g, "sip:", t);
    RequestLine(m, g, t);
  }

  lemma StatusStartIsRead(line: string, g: string, digits: string)
    requires Without(line, '\n') && StatusStartsWith(line, g, digits)
    ensures FirstLine(line).Ok?
  {
    var start := "SIP/2.0" + (g + digits);
    var rest := line[|start|..];
    var more := Span(rest, IsDigit);
    SpanHolds(rest, IsDigit);
    SpanStops(rest, IsDigit);
    PrefixRest(start, line);
    PrefixRest(rest[..more], rest);
    StatusInParts(line, g, digits, rest[..more], rest[more..]);
  }

  lemma PrefixRest(x: string, s: string)
    requires x <= s
    ensures s == x + s[|x|..]
  {
  }

  lemma StatusInParts(line: string, g: string, digits: string, more: string, tail: string)
    requires Blanks(g) && g != "" && Digits(digits) && Without(line, '\n')
    requires line == "SIP/2.0" + (g + digits) + (more + tail)
    requires (forall i | 0 <= i < |more| :: IsDigit(more[i])) && (tail != "" ==> !IsDigit(tail[0]))
    ensures FirstLine(line).Ok?
  {
    Regroup("SIP/2.0", g, digits, more, tail);
    WithoutInSuffix(line, tail, '\n');
    StatusStartOf(g, digits + more, tail);
  }

  lemma Regroup(a: string, b: string, c: string, d: string, e: string)
    ensures a + (b + c) + (d + e) == a + (b + ((c + d) + e))
  {
  }

  lemma WithoutInSuffix(s: string, t: string, c: char)
    requires Without(s, c) && |t| <= |s| && t == s[|s| - |t|..]
    ensures Without(t, c)
  {
  }

  lemma ReadIsRequestStart(line: string)
    requires RequestMethod(line) != ""
    ensures exists m, g :: RequestStart(line, m, g)
  {
    var m, rest := SpanParts(line, IsWord);
    var g, target := SpanParts(rest, IsBlank);
    PrefixRest("sip:", target);
    LongerPrefix(m, g, "sip:", target[4..]);
    SpanCharacters(g, m, g, m);
    assert RequestStart(line, m, g);
  }

  lemma ReadIsStatusStart(line: string)
    requires StatusStart(line) > 0
    ensures exists g, digits :: StatusStartsWith(line, g, digits)
  {
    var g, rest := SpanParts(line[7..], IsBlank);
    var digits, tail := SpanParts(rest, IsDigit);
    PrefixRest("SIP/2.0", line);
    LongerPrefix("SIP/2.0", g, digits, tail);
    SpanCharacters(g, digits, g, digits);
    assert StatusStartsWith(line, g, digits);
  }

  lemma LongerPrefix(a: string, b: string, c: string, d: string)
    ensures a + (b + c) <= a + (b + (c + d))
  {
  }

  /** A first line is accepted exactly when it starts as a request (a word, blanks, `sip:`) or as a response
      (`SIP/2.0`, blanks, a digit). */
  lemma FirstLineIff(line: string)
    requires Without(line, '\n')
    ensures FirstLine(line).Ok? <==>
            (exists m, g :: RequestStart(line, m, g)) || (exists g, digits :: StatusStartsWith(line, g, digits))
  {
    if m, g :| RequestStart(line, m, g) {
      RequestStartIsRead(line, m, g);
    }
    if g, digits :| StatusStartsWith(line, g, digits) {
      StatusStartIsRead(line, g, digits);
    }
    if RequestMethod(line) != "" {
      ReadIsRequestStart(line);
    }
    if StatusStart(line) > 0 {
      ReadIsStatusStart(line);
    }
  }
}
