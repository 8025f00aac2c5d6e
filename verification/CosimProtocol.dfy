/** What the cosimulation monitor answers to every stream of requests, and how the
    client's requests and the answers to them are understood at the other end. */
module CosimProtocol {
  import opened Bytes
  import opened CosimText

  const STATE_WORDS: nat := 95
  const SCRATCH_WORDS: nat := 64
  const REGISTERS: nat := 31
  const LINE_SIZE: nat := 4096

  /** The size of the code slot that the monitor is linked with. */
  const CODE_SLOT: nat := 512
  const GREETING: string := "READY 1 rv32im 95"

  /** What running the code left behind: the trap status, the transported state, the
      scratch memory and the trap registers. */
  datatype Execution = Execution(status: u32, state: seq<u32>, scratch: seq<u32>, cause: u32, value: u32)

  type Outcome = e: Execution | |e.state| == STATE_WORDS && |e.scratch| == SCRATCH_WORDS
    witness Execution(0, seq(STATE_WORDS, _ => 0), seq(SCRATCH_WORDS, _ => 0), 0, 0)

  /** Runs what the code slot holds from a state and a scratch memory. */
  type Backend = (seq<u8>, seq<u32>, seq<u32>) -> Outcome

  /** The little-endian encoding of the breakpoint instruction 0x00100073. */
  const EBREAK: seq<u8> := [0x73, 0x00, 0x10, 0x00]

  /* Answers */

  function Decimals(ws: seq<u32>): (r: seq<string>)
    ensures |r| == |ws|
  {
    if ws == [] then [] else Decimals(ws[..|ws| - 1]) + [DecimalOf(ws[|ws| - 1] as int)]
  }

  /** The words in decimal, a space before each. */
  function Payload(ws: seq<u32>): string {
    if ws == [] then "" else Payload(ws[..|ws| - 1]) + " " + DecimalOf(ws[|ws| - 1] as int)
  }

  function OkText(ws: seq<u32>): string {
    "OK" + Payload(ws)
  }

  function TrapText(cause: u32, value: u32): string {
    "TRAP mcause-" + DecimalOf(cause as int) + " mtval-" + DecimalOf(value as int)
  }

  function ErrorText(reason: string): string {
    "ERROR " + reason
  }

  /** The state transported back: the registers and then the scratch memory. */
  function FinalState(e: Outcome): (r: seq<u32>)
    ensures |r| == STATE_WORDS
  {
    e.state[..REGISTERS] + e.scratch
  }

  function OutcomeText(e: Outcome): string {
    if e.status == 0 then OkText(FinalState(e)) else TrapText(e.cause, e.value)
  }

  /** The first n of the texts as state words, if there are n and all are words. */
  function ParseWords(ts: seq<string>, n: nat): (r: Option<seq<u32>>)
    ensures r.Some? ==> |r.value| == n
    decreases n
  {
    if n == 0 then Some([])
    else if |ts| < n then None
    else
      var init := ParseWords(ts, n - 1);
      var last := ParseWord(ts[n - 1]);
      if init.Some? && last.Some? then Some(init.value + [last.value]) else None
  }

  /** The code slot after code has been copied to its start with the breakpoint behind it:
      what lay further on stays. */
  function Installed(slot: seq<u8>, code: seq<u8>): (r: seq<u8>)
    requires |code| + 4 <= |slot|
    ensures |r| == |slot|
  {
    code + EBREAK + slot[|code| + 4..]
  }

  /** The answer to a request that has been parsed. */
  function ParsedText(code: seq<u8>, state: seq<u32>, slot: seq<u8>, run: Backend): string
    requires |state| == STATE_WORDS
  {
    if |code| + 4 > |slot| then ErrorText("unsupported-code")
    else OutcomeText(run(Installed(slot, code), state, state[REGISTERS..]))
  }

  /** The answer to RUN with a well-formed code argument and the given further arguments. */
  function RunCodeText(code: seq<u8>, words: seq<string>, slot: seq<u8>, run: Backend): string {
    var state := ParseWords(words, STATE_WORDS);
    if state.None? then ErrorText("malformed-input-state")
    else if |words| > STATE_WORDS then ErrorText("wrong-input-state-size")
    else if state.value[0] != 0 then ErrorText("invalid-initial-state")
    else ParsedText(code, state.value, slot, run)
  }

  /** The answer to RUN with the given arguments and the given contents of the code slot. */
  function RunText(args: seq<string>, slot: seq<u8>, run: Backend): string {
    if args == [] || DecodeHex(args[0]).None? then ErrorText("malformed-code")
    else RunCodeText(DecodeHex(args[0]).value, args[1..], slot, run)
  }

  /** The code slot after a request that has been parsed, after RUN with a well-formed code
      argument, and after RUN: it changes exactly when code is installed. */
  function ParsedSlot(code: seq<u8>, slot: seq<u8>): (r: seq<u8>)
    ensures |r| == |slot|
  {
    if |code| + 4 > |slot| then slot else Installed(slot, code)
  }

  function RunCodeSlot(code: seq<u8>, words: seq<string>, slot: seq<u8>): (r: seq<u8>)
    ensures |r| == |slot|
  {
    var state := ParseWords(words, STATE_WORDS);
    if state.None? || |words| > STATE_WORDS || state.value[0] != 0 then slot else ParsedSlot(code, slot)
  }

  function RunSlot(args: seq<string>, slot: seq<u8>): (r: seq<u8>)
    ensures |r| == |slot|
  {
    if args == [] || DecodeHex(args[0]).None? then slot
    else RunCodeSlot(DecodeHex(args[0]).value, args[1..], slot)
  }

  /** The answer to the text of a request line, or None when the request ends the session. */
  function LineText(line: string, slot: seq<u8>, run: Backend): Option<string> {
    var tokens := Tokens(line);
    if tokens == [] then Some(ErrorText("empty-command"))
    else if tokens[0] == "QUIT" then None
    else if tokens[0] == "RUN" then Some(RunText(tokens[1..], slot, run))
    else Some(ErrorText("unknown-command"))
  }

  function LineSlot(line: string, slot: seq<u8>): (r: seq<u8>)
    ensures |r| == |slot|
  {
    var tokens := Tokens(line);
    if tokens != [] && tokens[0] == "RUN" then RunSlot(tokens[1..], slot) else slot
  }

  /** The answer to one request line, which ends at its first NUL, and the code slot after it. */
  function AnswerText(line: string, slot: seq<u8>, run: Backend): Option<string> {
    LineText(CString(line, 0), slot, run)
  }

  function NextSlot(line: string, slot: seq<u8>): (r: seq<u8>)
    ensures |r| == |slot|
  {
    LineSlot(CString(line, 0), slot)
  }

  /* Sessions */

  /** Where the first newline is, or the length if there is none. */
  function LineEnd(stream: string): (r: nat)
    ensures r <= |stream|
    ensures '\n' !in stream[..r]
    ensures r < |stream| ==> stream[r] == '\n'
  {
    if stream == "" || stream[0] == '\n' then 0 else 1 + LineEnd(stream[1..])
  }

  function WithoutReturns(s: string): (r: string)
    ensures |r| <= |s|
  {
    if s == "" then ""
    else WithoutReturns(s[..|s| - 1]) + if s[|s| - 1] == '\r' then "" else [s[|s| - 1]]
  }

  /** The first line of the stream without its newline and carriage returns, and the
      rest of the stream; None at the end of the stream or when the line does not fit. */
  function FirstLine(stream: string): (r: Option<(string, string)>)
    ensures r.Some? ==> |r.value.1| < |stream| && |r.value.0| < LINE_SIZE
  {
    var e := LineEnd(stream);
    if e == |stream| then None
    else
      var line := WithoutReturns(stream[..e]);
      if |line| + 1 > LINE_SIZE then None else Some((line, stream[e + 1..]))
  }

  /** Everything the monitor sends in answer to a stream of requests, from the given contents
      of the code slot on. */
  function Answers(stream: string, slot: seq<u8>, run: Backend): seq<string>
    decreases |stream|
  {
    var first := FirstLine(stream);
    if first.None? then []
    else
      var (line, rest) := first.value;
      var answer := AnswerText(line, slot, run);
      if answer.None? then [] else [answer.value + "\n"] + Answers(rest, NextSlot(line, slot), run)
  }

  /* The client */

  /** A request the client may send: whole instructions and a state whose word 0 is zero. */
  datatype Request = Request(code: seq<u8>, words: seq<u32>) {
    predicate Valid() {
      && 0 < |code| <= MAX_CODE && |code| % 4 == 0
      && |words| == STATE_WORDS && words[0] == 0
    }
  }

  /** The request line the client writes, without its newline. */
  function RequestLine(q: Request): string {
    "RUN " + HexOfBytes(q.code) + " " + Join(Decimals(q.words))
  }

  datatype Response = Ok(words: seq<string>) | Trap(details: seq<string>) | Failure

  /** How the client reads an answer, given the number of words it expects. */
  function Understand(line: string, stateWords: nat): Response {
    var words := CosimWords(line);
    if words == [] then Failure
    else if words[0] == "OK" then (if |words| - 1 == stateWords then Ok(words[1..]) else Failure)
    else if words[0] == "TRAP" then Trap(words[1..])
    else Failure
  }

  /** A whole session: the requests and then the request to stop. */
  function Script(qs: seq<Request>): string {
    if qs == [] then "QUIT\n" else RequestLine(qs[0]) + "\n" + Script(qs[1..])
  }

  /** What a session of valid requests should be answered with. */
  function ExpectedAll(qs: seq<Request>, slot: seq<u8>, run: Backend): seq<string>
    requires forall q :: q in qs ==> q.Valid()
  {
    if qs == [] then []
    else assert qs[0].Valid();
         [ParsedText(qs[0].code, qs[0].words, slot, run) + "\n"] +
         ExpectedAll(qs[1..], ParsedSlot(qs[0].code, slot), run)
  }

  /** Running any of the requests does not depend on what lies behind its breakpoint. */
  ghost predicate StopsAtBreak(qs: seq<Request>, run: Backend) {
    forall q, rest: seq<u8> | q in qs && q.Valid() ::
      run(q.code + EBREAK + rest, q.words, q.words[REGISTERS..]) == run(q.code + EBREAK, q.words, q.words[REGISTERS..])
  }

  /* Words */

  lemma {:induction false} DecimalsAreWords(ws: seq<u32>)
    ensures forall w :: w in Decimals(ws) ==> IsWord(w)
  {
    if ws == [] {
    } else {
      var init, last := Decimals(ws[..|ws| - 1]), DecimalOf(ws[|ws| - 1] as int);
      DecimalsAreWords(ws[..|ws| - 1]);
      DecimalRoundTrip(ws[|ws| - 1] as int);
      assert Decimals(ws) == init + [last];
      hide *;
      forall w | w in Decimals(ws)
        ensures IsWord(w)
      {
        assert w in init || w == last;
      }
    }
  }

  /** Words printed in decimal are parsed as themselves. */
  lemma {:induction false} ParseDecimals(ws: seq<u32>, ts: seq<string>)
    requires Decimals(ws) <= ts
    ensures ParseWords(ts, |ws|) == Some(ws)
  {
    if ws == [] {
    } else {
      var init := ws[..|ws| - 1];
      ParseDecimals(init, ts);
      ParseDecimal(ws[|ws| - 1]);
      assert ts[|ws| - 1] == Decimals(ws)[|ws| - 1] == DecimalOf(ws[|ws| - 1] as int);
      assert ws == init + [ws[|ws| - 1]];
    }
  }

  lemma {:induction false} JoinAppend(ws: seq<string>, w: string)
    requires ws != []
    ensures Join(ws + [w]) == Join(ws) + " " + w
  {
    if |ws| == 1 {
      assert (ws + [w])[1..] == [w];
    } else {
      JoinAppend(ws[1..], w);
      assert (ws + [w])[1..] == ws[1..] + [w];
    }
  }

  /** An OK answer is its head and its words joined by spaces. */
  lemma {:induction false} OkIsJoin(ws: seq<u32>)
    ensures OkText(ws) == Join(["OK"] + Decimals(ws))
  {
    if ws == [] {
    } else {
      hide Join, DecimalOf;
      var init, last := ws[..|ws| - 1], DecimalOf(ws[|ws| - 1] as int);
      OkIsJoin(init);
      JoinAppend(["OK"] + Decimals(init), last);
      assert ["OK"] + Decimals(ws) == ["OK"] + Decimals(init) + [last];
      assert OkText(ws) == OkText(init) + " " + last;
    }
  }

  /** Characters that neither end a line or a string nor count as tabs. */
  predicate Plain(s: string) {
    forall i :: 0 <= i < |s| ==> s[i] != '\n' && s[i] != '\r' && s[i] != NUL && s[i] != '\t'
  }

  lemma DecimalPlain(w: u32)
    ensures Plain(DecimalOf(w as int)) && 0 < |DecimalOf(w as int)| <= 10
  {
    DecimalRoundTrip(w as int);
    WordLength(w);
  }

  lemma {:induction false} PayloadPlain(ws: seq<u32>)
    ensures Plain(Payload(ws)) && |Payload(ws)| <= 11 * |ws|
  {
    if ws == [] {
    } else {
      PayloadPlain(ws[..|ws| - 1]);
      DecimalPlain(ws[|ws| - 1]);
    }
  }

  lemma {:induction false} HexPlain(b: seq<u8>)
    ensures Plain(HexOfBytes(b))
  {
    HexRoundTrip(b);
    var s := HexOfBytes(b);
    forall i | 0 <= i < |s|
      ensures s[i] != '\n' && s[i] != '\r' && s[i] != NUL && s[i] != '\t'
    {
      assert HexDigit(s[i]) >= 0;
    }
  }

  lemma OkPlain(ws: seq<u32>)
    ensures Plain(OkText(ws)) && |OkText(ws)| <= 2 + 11 * |ws|
  {
    PayloadPlain(ws);
  }

  /** Every answer fits the response buffer with its newline and closing NUL. */
  lemma OutcomeFits(e: Outcome)
    ensures |OutcomeText(e)| + 2 <= LINE_SIZE && Plain(OutcomeText(e))
  {
    OkPlain(FinalState(e));
    hide OkText;
    DecimalPlain(e.cause);
    DecimalPlain(e.value);
  }

  /* Round trips */

  lemma {:induction false} PlainCString(s: string, p: nat)
    requires p <= |s| && forall i :: 0 <= i < |s| ==> s[i] != NUL
    ensures CString(s, p) == s[p..]
    decreases |s| - p
  {
    if p == |s| {
    } else {
      PlainCString(s, p + 1);
      assert s[p..] == [s[p]] + s[p + 1..];
    }
  }

  /** The request line as words joined by spaces. */
  lemma RequestIsJoin(q: Request)
    requires q.words != []
    ensures RequestLine(q) == Join(["RUN", HexOfBytes(q.code)] + Decimals(q.words))
  {
    var ws := [HexOfBytes(q.code)] + Decimals(q.words);
    assert ws[1..] == Decimals(q.words);
    assert (["RUN"] + ws)[1..] == ws;
    assert ["RUN", HexOfBytes(q.code)] + Decimals(q.words) == ["RUN"] + ws;
  }

  lemma RequestTokens(q: Request)
    requires q.code != [] && q.words != []
    ensures Tokens(RequestLine(q)) == ["RUN", HexOfBytes(q.code)] + Decimals(q.words)
  {
    var ts := ["RUN", HexOfBytes(q.code)] + Decimals(q.words);
    RequestIsJoin(q);
    HexIsWord(q.code);
    DecimalsAreWords(q.words);
    forall w | w in ts
      ensures IsWord(w)
    {
      assert w == "RUN" || w == HexOfBytes(q.code) || w in Decimals(q.words);
    }
    TokensOfJoin(ts);
  }

  lemma {:induction false} JoinPlain(ws: seq<u32>)
    ensures Plain(Join(Decimals(ws))) && |Join(Decimals(ws))| <= 11 * |ws|
  {
    if |ws| <= 1 {
      if |ws| == 1 {
        DecimalPlain(ws[0]);
        assert Decimals(ws) == [DecimalOf(ws[0] as int)];
      }
    } else {
      var init := ws[..|ws| - 1];
      JoinPlain(init);
      JoinAppend(Decimals(init), DecimalOf(ws[|ws| - 1] as int));
      DecimalPlain(ws[|ws| - 1]);
    }
  }

  lemma RequestPlain(q: Request)
    requires q.Valid()
    ensures Plain(RequestLine(q)) && |RequestLine(q)| < LINE_SIZE
  {
    HexPlain(q.code);
    JoinPlain(q.words);
  }

  lemma RequestLineTokens(q: Request)
    requires q.Valid()
    ensures CString(RequestLine(q), 0) == RequestLine(q)
    ensures Tokens(RequestLine(q)) == ["RUN", HexOfBytes(q.code)] + Decimals(q.words)
  {
    var line := RequestLine(q);
    RequestPlain(q);
    PlainCString(line, 0);
    assert line[0..] == line;
    RequestTokens(q);
  }

  /** The monitor understands the line for a valid request as that request. */
  lemma RequestUnderstood(q: Request, slot: seq<u8>, run: Backend)
    requires q.Valid()
    ensures AnswerText(RequestLine(q), slot, run) == Some(ParsedText(q.code, q.words, slot, run))
    ensures NextSlot(RequestLine(q), slot) == ParsedSlot(q.code, slot)
  {
    hide Tokens, CString, RequestLine, ParsedText, ParsedSlot, DecodeHex, HexOfBytes, Decimals, ParseWords;
    RequestLineTokens(q);
    var tokens := Tokens(RequestLine(q));
    var args := tokens[1..];
    assert tokens[0] == "RUN";
    assert args[0] == HexOfBytes(q.code) && args[1..] == Decimals(q.words);
    DecodeIff(q.code);
    ParseDecimals(q.words, args[1..]);
  }

  lemma OkTokens(ws: seq<u32>)
    ensures Tokens(OkText(ws)) == ["OK"] + Decimals(ws)
  {
    OkIsJoin(ws);
    DecimalsAreWords(ws);
    var ts := ["OK"] + Decimals(ws);
    hide Tokens, OkText, Join, Decimals;
    forall w | w in ts
      ensures IsWord(w)
    {
      assert w == "OK" || w in Decimals(ws);
    }
    TokensOfJoin(ts);
  }

  lemma PlainTokens(s: string)
    requires Plain(s)
    ensures CosimWords(s) == Tokens(s)
  {
    CosimWordsAreTokens(s);
  }

  /** The client finds in an OK answer as many words as it expects, and they are the
      decimal texts of the words sent. */
  lemma AnswerUnderstood(ws: seq<u32>)
    ensures Understand(OkText(ws), |ws|) == Ok(Decimals(ws))
    ensures ParseWords(Decimals(ws), |ws|) == Some(ws)
  {
    hide CosimWords, Tokens, OkText, Decimals, ParseWords, Plain;
    OkPlain(ws);
    PlainTokens(OkText(ws));
    OkTokens(ws);
    ParseDecimals(ws, Decimals(ws));
    assert (["OK"] + Decimals(ws))[1..] == Decimals(ws);
  }

  lemma {:induction false} PlainLine(s: string, rest: string)
    requires Plain(s)
    ensures LineEnd(s + "\n" + rest) == |s|
  {
    if s == "" {
      assert s + "\n" + rest == "\n" + rest;
    } else {
      PlainLine(s[1..], rest);
      assert (s + "\n" + rest)[1..] == s[1..] + "\n" + rest;
    }
  }

  lemma {:induction false} PlainHasNoReturns(s: string)
    requires Plain(s)
    ensures WithoutReturns(s) == s
  {
    if s == "" {
    } else {
      PlainHasNoReturns(s[..|s| - 1]);
    }
  }

  lemma FirstLineIs(s: string, rest: string)
    requires Plain(s) && |s| < LINE_SIZE
    ensures FirstLine(s + "\n" + rest) == Some((s, rest))
  {
    var stream := s + "\n" + rest;
    PlainLine(s, rest);
    PlainHasNoReturns(s);
    assert stream[..|s|] == s && stream[|s| + 1..] == rest;
  }

  lemma QuitAnswered(slot: seq<u8>, run: Backend)
    ensures Answers("QUIT\n", slot, run) == []
  {
    hide FirstLine, CString, Tokens, RunText, NextSlot;
    assert "QUIT" + "\n" + "" == "QUIT\n";
    FirstLineIs("QUIT", "");
    PlainCString("QUIT", 0);
    assert "QUIT"[0..] == "QUIT";
    TokensOfWordFirst("QUIT", "");
  }

  /** In every session of valid requests, each request is answered, in order, with the
      outcome of running exactly its code on exactly its state. */
  lemma {:induction false} SessionAnswered(qs: seq<Request>, slot: seq<u8>, run: Backend)
    requires forall q :: q in qs ==> q.Valid()
    ensures Answers(Script(qs), slot, run) == ExpectedAll(qs, slot, run)
    decreases |qs|
  {
    hide FirstLine, AnswerText, NextSlot, ParsedText, ParsedSlot, RequestLine;
    if qs == [] {
      QuitAnswered(slot, run);
    } else {
      RequestPlain(qs[0]);
      FirstLineIs(RequestLine(qs[0]), Script(qs[1..]));
      RequestUnderstood(qs[0], slot, run);
      SessionAnswered(qs[1..], ParsedSlot(qs[0].code, slot), run);
    }
  }

  lemma {:induction false} ExpectedIndependent(qs: seq<Request>, slot: seq<u8>, other: seq<u8>, run: Backend)
    requires forall q :: q in qs ==> q.Valid()
    requires StopsAtBreak(qs, run) && |slot| == |other|
    ensures ExpectedAll(qs, slot, run) == ExpectedAll(qs, other, run)
    decreases |qs|
  {
    if qs != [] {
      var q := qs[0];
      assert q.Valid();
      ExpectedIndependent(qs[1..], ParsedSlot(q.code, slot), ParsedSlot(q.code, other), run);
      if |q.code| + 4 <= |slot| {
        hide OutcomeText;
        assert run(q.code + EBREAK + slot[|q.code| + 4..], q.words, q.words[REGISTERS..]) ==
               run(q.code + EBREAK, q.words, q.words[REGISTERS..]) ==
               run(q.code + EBREAK + other[|q.code| + 4..], q.words, q.words[REGISTERS..]);
      }
    }
  }

  /** If the runs of a session's own requests stop at their breakpoints, what is sent does not
      depend on what the code slot held before, so no request influences a later answer,
      although the slot keeps what lies behind the breakpoint. */
  lemma RequestsIndependent(qs: seq<Request>, slot: seq<u8>, other: seq<u8>, run: Backend)
    requires forall q :: q in qs ==> q.Valid()
    requires StopsAtBreak(qs, run) && |slot| == |other|
    ensures Answers(Script(qs), slot, run) == Answers(Script(qs), other, run)
  {
    SessionAnswered(qs, slot, run);
    SessionAnswered(qs, other, run);
    ExpectedIndependent(qs, slot, other, run);
  }

  lemma OutcomeIsNoError(e: Outcome, reason: string)
    ensures OutcomeText(e) != ErrorText(reason)
  {
    assert ErrorText(reason)[0] == 'E';
    if e.status == 0 {
      assert OutcomeText(e)[0] == 'O';
    } else {
      assert OutcomeText(e)[0] == 'T';
    }
  }

  /** A valid request is refused as unsupported if and only if its code and the breakpoint do
      not fit the code slot; whatever the backend does. */
  lemma RefusedIff(q: Request, slot: seq<u8>, run: Backend)
    requires q.Valid()
    ensures AnswerText(RequestLine(q), slot, run) == Some(ErrorText("unsupported-code")) <==> |q.code| + 4 > |slot|
  {
    hide AnswerText, RequestLine, OutcomeText, ErrorText;
    RequestUnderstood(q, slot, run);
    if |q.code| + 4 <= |slot| {
      OutcomeIsNoError(run(Installed(slot, q.code), q.words, q.words[REGISTERS..]), "unsupported-code");
    }
  }

  /** In the slot the monitor is linked with, of all codes that the code buffer takes only
      those of full size are refused. */
  lemma FullSizeRefused(q: Request, slot: seq<u8>, run: Backend)
    requires q.Valid() && |slot| == CODE_SLOT
    ensures AnswerText(RequestLine(q), slot, run) == Some(ErrorText("unsupported-code")) <==> |q.code| == MAX_CODE
  {
    RefusedIff(q, slot, run);
  }

  lemma HeadWord(w: string, rest: string)
    requires IsWord(w) && Plain(w) && Plain(rest)
    ensures CosimWords(w + " " + rest) == [w] + Tokens(rest)
  {
    hide CosimWords, Tokens;
    TokensOfWordFirst(w, rest);
    PlainTokens(w + " " + rest);
  }

  lemma ErrorUnderstood(reason: string)
    requires Plain(reason)
    ensures Understand(ErrorText(reason), STATE_WORDS) == Failure
  {
    hide CosimWords, Tokens;
    HeadWord("ERROR", reason);
    assert ErrorText(reason) == "ERROR" + " " + reason;
  }

  /** A field of a TRAP answer is one word. */
  lemma FieldIsWord(name: string, w: u32)
    requires IsWord(name) && Plain(name)
    ensures IsWord(name + DecimalOf(w as int)) && Plain(name + DecimalOf(w as int))
  {
    DecimalRoundTrip(w as int);
    DecimalPlain(w);
    hide DecimalOf;
  }

  lemma TwoWords(c: string, v: string)
    requires IsWord(c) && IsWord(v)
    ensures Tokens(c + " " + v) == [c, v]
  {
    hide Tokens;
    TokensOfWordFirst(c, v);
    TokensOfWordFirst(v, "");
  }

  lemma TrapFields(c: string, v: string)
    requires IsWord(c) && IsWord(v) && Plain(c) && Plain(v)
    ensures Understand("TRAP" + " " + (c + " " + v), STATE_WORDS) == Trap([c, v])
  {
    hide CosimWords, Tokens;
    HeadWord("TRAP", c + " " + v);
    TwoWords(c, v);
  }

  /** The client finds the cause and the value, in this order, in a TRAP answer. */
  lemma TrapUnderstood(cause: u32, value: u32)
    ensures Understand(TrapText(cause, value), STATE_WORDS) ==
            Trap(["mcause-" + DecimalOf(cause as int), "mtval-" + DecimalOf(value as int)])
  {
    hide CosimWords, Tokens, DecimalOf;
    var (c, v) := ("mcause-" + DecimalOf(cause as int), "mtval-" + DecimalOf(value as int));
    FieldIsWord("mcause-", cause);
    FieldIsWord("mtval-", value);
    assert TrapText(cause, value) == "TRAP" + " " + (c + " " + v);
    hide IsWord, Plain, TrapText;
    TrapFields(c, v);
  }

  lemma {:induction false} DecimalsAt(ws: seq<u32>, i: nat)
    requires i < |ws|
    ensures Decimals(ws)[i] == DecimalOf(ws[i] as int)
  {
    if i < |ws| - 1 {
      DecimalsAt(ws[..|ws| - 1], i);
    }
  }

  /** The client reads an OK answer to a run as the registers and the scratch memory it left. */
  lemma FinalUnderstood(e: Outcome)
    ensures var r := Understand(OkText(FinalState(e)), STATE_WORDS);
      && r.Ok? && |r.words| == 95
      && (forall i :: 0 <= i < 31 ==> r.words[i] == DecimalOf(e.state[i] as int))
      && (forall i :: 0 <= i < 64 ==> r.words[31 + i] == DecimalOf(e.scratch[i] as int))
  {
    hide Decimals, OkText, DecimalOf, Understand;
    var ws := FinalState(e);
    AnswerUnderstood(ws);
    forall i | 0 <= i < 31
      ensures Decimals(ws)[i] == DecimalOf(e.state[i] as int)
    {
      DecimalsAt(ws, i);
    }
    forall i | 0 <= i < 64
      ensures Decimals(ws)[31 + i] == DecimalOf(e.scratch[i] as int)
    {
      DecimalsAt(ws, 31 + i);
    }
  }

  /** A valid request that is not refused is executed, from its state, on its code with the
      breakpoint instruction behind it: the client sees OK exactly when the run ends at the
      breakpoint, and then 31 registers and 64 words of scratch memory; and otherwise the trap. */
  lemma ExecutedIff(q: Request, slot: seq<u8>, run: Backend)
    requires q.Valid()
    ensures var answer := AnswerText(RequestLine(q), slot, run);
      && answer.Some?
      && var r := Understand(answer.value, STATE_WORDS);
      && (|q.code| + 4 > |slot| ==> r == Failure)
      && (|q.code| + 4 <= |slot| ==>
            var e := run(q.code + [0x73, 0x00, 0x10, 0x00] + slot[|q.code| + 4..], q.words, q.words[31..]);
            if e.status == 0 then
              && r.Ok? && |r.words| == 95
              && (forall i :: 0 <= i < 31 ==> r.words[i] == DecimalOf(e.state[i] as int))
              && (forall i :: 0 <= i < 64 ==> r.words[31 + i] == DecimalOf(e.scratch[i] as int))
            else
              r == Trap(["mcause-" + DecimalOf(e.cause as int), "mtval-" + DecimalOf(e.value as int)]))
  {
    hide AnswerText, RequestLine, OkText, TrapText, ErrorText, Understand, FinalState, DecimalOf;
    RequestUnderstood(q, slot, run);
    if |q.code| + 4 > |slot| {
      ErrorUnderstood("unsupported-code");
    } else {
      var e := run(Installed(slot, q.code), q.words, q.words[REGISTERS..]);
      if e.status == 0 {
        FinalUnderstood(e);
      } else {
        TrapUnderstood(e.cause, e.value);
      }
    }
  }
}
