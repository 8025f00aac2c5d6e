/** The monitor's protocol case by case: what each input line is answered with, spelled out in the
    characters that go over the wire. */
module CosimCases {
  import opened Bytes
  import opened CosimText
  import opened CosimProtocol

  /* Lines */

  lemma {:induction false} LineEndAt(line: string, rest: string)
    requires '\n' !in line
    ensures LineEnd(line + "\n" + rest) == |line|
  {
    if line == "" {
      assert line + "\n" + rest == "\n" + rest;
    } else {
      LineEndAt(line[1..], rest);
      assert (line + "\n" + rest)[1..] == line[1..] + "\n" + rest;
      assert line[0] in line;
    }
  }

  lemma {:induction false} LineEndNowhere(line: string)
    requires '\n' !in line
    ensures LineEnd(line) == |line|
  {
    if line != "" {
      LineEndNowhere(line[1..]);
      assert line[0] in line;
    }
  }

  /** Only the newline ends a line; carriage returns in it are dropped. */
  lemma LinesAre(line: string, rest: string)
    requires '\n' !in line
    ensures FirstLine(line + "\n" + rest) ==
      if |WithoutReturns(line)| < 4096 then Some((WithoutReturns(line), rest)) else None
    ensures FirstLine(line) == None
  {
    LineEndAt(line, rest);
    LineEndNowhere(line);
    var stream := line + "\n" + rest;
    assert stream[..|line|] == line && stream[|line| + 1..] == rest;
    hide WithoutReturns;
  }

  lemma {:induction false} NoReturns(s: string)
    ensures '\r' !in s ==> WithoutReturns(s) == s
  {
    if s != "" && '\r' !in s {
      NoReturns(s[..|s| - 1]);
      assert s[|s| - 1] in s;
    }
  }

  /** A carriage return is dropped wherever it is, and nothing else. */
  lemma {:induction false} ReturnsDropped(s: string, t: string)
    ensures WithoutReturns(s + "\r" + t) == WithoutReturns(s + t)
    ensures '\r' !in s ==> WithoutReturns(s) == s
  {
    if t == "" {
      assert (s + "\r" + t)[..|s|] == s && s + t == s;
      NoReturns(s);
    } else {
      var u := t[..|t| - 1];
      ReturnsDropped(s, u);
      assert (s + "\r" + t)[..|s + "\r" + t| - 1] == s + "\r" + u;
      assert (s + t)[..|s + t| - 1] == s + u;
    }
  }

  lemma {:induction false} CutAt(s: string, p: nat, q: nat)
    requires p <= q < |s| && s[q] == '\0' && forall i :: p <= i < q ==> s[i] != '\0'
    ensures CString(s, p) == s[p..q]
    decreases q - p
  {
    if p < q {
      CutAt(s, p + 1, q);
      assert s[p..q] == [s[p]] + s[p + 1..q];
    }
  }

  /** A line counts up to its first NUL. */
  lemma {:induction false} StringsEnd(s: string, t: string)
    requires '\0' !in s
    ensures CString(s, 0) == s && CString(s + "\0" + t, 0) == s
  {
    PlainCString(s, 0);
    assert s[0..] == s;
    CutAt(s + "\0" + t, 0, |s|);
    assert (s + "\0" + t)[0..|s|] == s;
  }

  /* Words */

  lemma {:induction false} WordThen(w: string, c: char, s: string)
    requires (forall i :: 0 <= i < |w| ==> !Blank(w[i])) && Blank(c)
    ensures Word(w + [c] + s) == w && AfterWord(w + [c] + s) == s
    ensures Word(w) == w && AfterWord(w) == ""
  {
    if w == "" {
      assert "" + [c] + s == [c] + s;
      assert ([c] + s)[1..] == s;
    } else {
      WordThen(w[1..], c, s);
      assert (w + [c] + s)[1..] == w[1..] + [c] + s;
    }
  }

  /** Blanks and tabs separate words, any number of them, and nothing else does. */
  lemma TokensAre(w: string, c: char, s: string)
    requires w != "" && ' ' !in w && '\t' !in w && (c == ' ' || c == '\t')
    ensures Tokens("") == []
    ensures Tokens([c] + s) == Tokens(s)
    ensures Tokens(w) == [w]
    ensures Tokens(w + [c] + s) == [w] + Tokens(s)
  {
    assert ([c] + s)[1..] == s;
    forall i | 0 <= i < |w|
      ensures !Blank(w[i])
    {
      assert w[i] in w;
    }
    WordThen(w, c, s);
    var t := w + [c] + s;
    assert t[0] == w[0];
    assert SkipBlanks(t) == t && SkipBlanks(w) == w;
  }

  /** Decimal notation, highest digit first. */
  lemma DecimalNotation(n: nat, d: nat, s: string)
    requires d < 10 && AllDigits(s)
    ensures DecimalOf(d) == ["0123456789"[d]]
    ensures n > 0 ==> DecimalOf(10 * n + d) == DecimalOf(n) + ["0123456789"[d]]
    ensures DecimalValue("") == 0
    ensures AllDigits(s + ["0123456789"[d]]) && DecimalValue(s + ["0123456789"[d]]) == 10 * DecimalValue(s) + d
  {
    assert "0123456789"[d] == ('0' as int + d) as char;
    AppendDigit(s, d);
    assert (10 * n + d) / 10 == n && (10 * n + d) % 10 == d;
  }

  /** c is a digit of value d, in either case. */
  predicate SpellsDigit(c: char, d: nat)
    requires d < 16
  {
    c == "0123456789abcdef"[d] || c == "0123456789ABCDEF"[d]
  }

  /** t is a code argument that means these bytes. */
  ghost predicate SpellsCode(t: string, code: seq<u8>) {
    && 0 < |code| <= 512 && |code| % 4 == 0 && |t| == 2 * |code|
    && forall i :: 0 <= i < |code| ==>
         SpellsDigit(t[2 * i], code[i] as int / 16) && SpellsDigit(t[2 * i + 1], code[i] as int % 16)
  }

  /** t is a state word in decimal. */
  ghost predicate SpellsWord(t: string, w: u32) {
    t != "" && (forall i :: 0 <= i < |t| ==> '0' <= t[i] <= '9') && DecimalValue(t) == w as int
  }

  lemma DigitIs(c: char, d: nat)
    requires d < 16
    ensures SpellsDigit(c, d) <==> HexDigit(c) == d
  {
  }

  lemma FirstPair(t: string)
    requires AllHex(t) && |t| >= 2
    ensures AllHex(t[2..]) && HexDigit(t[0]) >= 0 && HexDigit(t[1]) >= 0
    ensures HexValue(t)[0] as int == 16 * HexDigit(t[0]) + HexDigit(t[1])
    ensures HexValue(t)[1..] == HexValue(t[2..])
  {
    hide HexDigit;
  }

  lemma {:induction false} BytesAt(t: string, i: nat)
    requires AllHex(t) && |t| % 2 == 0 && i < |t| / 2
    ensures HexValue(t)[i] as int == 16 * HexDigit(t[2 * i]) + HexDigit(t[2 * i + 1])
  {
    FirstPair(t);
    hide HexValue, HexDigit, AllHex;
    if i > 0 {
      BytesAt(t[2..], i - 1);
      assert HexValue(t)[i] == HexValue(t)[1..][i - 1];
      assert t[2..][2 * (i - 1)] == t[2 * i] && t[2..][2 * (i - 1) + 1] == t[2 * i + 1];
    }
  }

  lemma DigitsAre(b: u8, h: nat, l: nat)
    requires h < 16 && l < 16 && b as int == 16 * h + l
    ensures b as int / 16 == h && b as int % 16 == l
  {
  }

  lemma SpelledDecodes(t: string, code: seq<u8>)
    requires SpellsCode(t, code)
    ensures DecodeHex(t) == Some(code)
  {
    hide SpellsDigit, HexDigit, HexValue;
    forall k | 0 <= k < |t|
      ensures HexDigit(t[k]) >= 0
    {
      var i := k / 2;
      DigitIs(t[2 * i], code[i] as int / 16);
      DigitIs(t[2 * i + 1], code[i] as int % 16);
    }
    assert AllHex(t);
    forall i | 0 <= i < |code|
      ensures HexValue(t)[i] == code[i]
    {
      DigitIs(t[2 * i], code[i] as int / 16);
      DigitIs(t[2 * i + 1], code[i] as int % 16);
      BytesAt(t, i);
    }
    assert HexValue(t) == code;
  }

  lemma DecodedSpells(t: string, code: seq<u8>)
    requires DecodeHex(t) == Some(code)
    ensures SpellsCode(t, code)
  {
    hide SpellsDigit, HexDigit, HexValue;
    forall i | 0 <= i < |code|
      ensures SpellsDigit(t[2 * i], code[i] as int / 16) && SpellsDigit(t[2 * i + 1], code[i] as int % 16)
    {
      BytesAt(t, i);
      DigitsAre(code[i], HexDigit(t[2 * i]), HexDigit(t[2 * i + 1]));
      DigitIs(t[2 * i], code[i] as int / 16);
      DigitIs(t[2 * i + 1], code[i] as int % 16);
    }
  }

  /** The monitor takes as code exactly the texts that spell 1 to 512 bytes of whole words. */
  lemma CodeIs(t: string, code: seq<u8>)
    ensures SpellsCode(t, code) <==> DecodeHex(t) == Some(code)
  {
    hide *;
    if SpellsCode(t, code) {
      SpelledDecodes(t, code);
    }
    if DecodeHex(t) == Some(code) {
      DecodedSpells(t, code);
    }
  }

  /** It takes as a word exactly the decimal numerals below 2^32. */
  lemma WordIs(t: string, w: u32)
    ensures SpellsWord(t, w) <==> ParseWord(t) == Some(w)
  {
    hide DecimalValue;
  }

  /** And as a state exactly that many numerals in order. */
  lemma {:induction false} WordsAre(ts: seq<string>, n: nat, state: seq<u32>)
    ensures ParseWords(ts, n) == Some(state) <==>
      |state| == n <= |ts| && forall i :: 0 <= i < n ==> SpellsWord(ts[i], state[i])
  {
    hide SpellsWord, ParseWord;
    if n > 0 && n <= |ts| {
      if |state| == n {
        WordsAre(ts, n - 1, state[..n - 1]);
        WordIs(ts[n - 1], state[n - 1]);
        assert state == state[..n - 1] + [state[n - 1]];
      }
    }
  }

  lemma {:induction false} NotParsed(ts: seq<string>, i: nat, n: nat)
    requires i < n <= |ts| && forall w :: !SpellsWord(ts[i], w)
    ensures ParseWords(ts, n) == None
    decreases n
  {
    hide SpellsWord, ParseWord;
    if i < n - 1 {
      NotParsed(ts, i, n - 1);
    } else if ParseWord(ts[i]).Some? {
      WordIs(ts[i], ParseWord(ts[i]).value);
    }
  }

  lemma TooFew(ts: seq<string>, n: nat)
    requires |ts| < n
    ensures ParseWords(ts, n) == None
  {
  }

  /* Answers */

  /** A line of the protocol: what it is answered with depends on its words alone. */
  ghost predicate IsLine(line: string) {
    '\n' !in line && '\r' !in line && '\0' !in line && |line| < 4096
  }

  /** Nothing comes after the last newline or after a line that is too long. */
  lemma Silence(line: string, rest: string, slot: seq<u8>, run: Backend)
    requires '\n' !in line
    ensures Answers(line, slot, run) == []
    ensures '\r' !in line && |line| >= 4096 ==> Answers(line + "\n" + rest, slot, run) == []
  {
    hide FirstLine, WithoutReturns;
    LinesAre(line, rest);
    NoReturns(line);
  }

  lemma {:induction false} NoneLeft(s: string)
    requires '\n' !in s
    ensures '\n' !in WithoutReturns(s) && '\r' !in WithoutReturns(s)
  {
    if s != "" {
      NoneLeft(s[..|s| - 1]);
      assert s[|s| - 1] in s;
    }
  }

  lemma {:induction false} PartOf(s: string, p: nat)
    requires p <= |s| && '\n' !in s && '\r' !in s
    ensures '\n' !in CString(s, p) && '\r' !in CString(s, p) && |CString(s, p)| <= |s| - p
    decreases |s| - p
  {
    if p < |s| && s[p] != NUL {
      PartOf(s, p + 1);
      assert s[p] in s;
    }
  }

  lemma IsLineIs(line: string)
    requires '\n' !in line && '\r' !in line && '\0' !in line && |line| < 4096
    ensures IsLine(line)
  {
  }

  lemma OneAnswer(line: string, rest: string, slot: seq<u8>, run: Backend)
    requires IsLine(line)
    ensures var answer := LineText(line, slot, run);
      Answers(line + "\n" + rest, slot, run) ==
        if answer.None? then [] else [answer.value + "\n"] + Answers(rest, LineSlot(line, slot), run)
  {
    hide FirstLine, WithoutReturns, CString, LineText, LineSlot;
    LinesAre(line, rest);
    NoReturns(line);
    StringsEnd(line, "");
  }

  /** Of a line that is not too long without its carriage returns, what comes before its first
      NUL counts. */
  lemma LineCounts(line: string, rest: string, slot: seq<u8>, run: Backend)
    requires '\n' !in line && |WithoutReturns(line)| < 4096
    ensures var counts := CString(WithoutReturns(line), 0);
      IsLine(counts) && Answers(line + "\n" + rest, slot, run) == Answers(counts + "\n" + rest, slot, run)
  {
    hide FirstLine, WithoutReturns, CString, LineText, LineSlot, IsLine;
    var counts := CString(WithoutReturns(line), 0);
    LinesAre(line, rest);
    NoneLeft(line);
    PartOf(WithoutReturns(line), 0);
    assert IsLine(counts) by {
      IsLineIs(counts);
    }
    OneAnswer(counts, rest, slot, run);
  }

  /** The commands: an empty line, QUIT, anything but RUN, and RUN without well-formed code. */
  lemma CommandsAnswered(line: string, ts: seq<string>, rest: string, slot: seq<u8>, run: Backend)
    requires IsLine(line) && Tokens(line) == ts
    ensures var (sent, later) := (Answers(line + "\n" + rest, slot, run), Answers(rest, slot, run));
      && (ts == [] ==> sent == ["ERROR " + "empty-command" + "\n"] + later)
      && (ts != [] && ts[0] == "QUIT" ==> sent == [])
      && (ts != [] && ts[0] != "QUIT" && ts[0] != "RUN" ==> sent == ["ERROR " + "unknown-command" + "\n"] + later)
      && (ts != [] && ts[0] == "RUN" && (|ts| == 1 || forall code :: !SpellsCode(ts[1], code)) ==>
            sent == ["ERROR " + "malformed-code" + "\n"] + later)
  {
    hide Tokens, DecodeHex, SpellsCode, Answers, RunCodeText, RunCodeSlot;
    OneAnswer(line, rest, slot, run);
    if |ts| > 1 && DecodeHex(ts[1]).Some? {
      CodeIs(ts[1], DecodeHex(ts[1]).value);
    }
  }

  lemma RunDispatched(line: string, ts: seq<string>, code: seq<u8>, rest: string, slot: seq<u8>, run: Backend)
    requires IsLine(line) && Tokens(line) == ts && |ts| >= 2 && ts[0] == "RUN" && SpellsCode(ts[1], code)
    ensures Answers(line + "\n" + rest, slot, run) ==
      [RunCodeText(code, ts[2..], slot, run) + "\n"] + Answers(rest, RunCodeSlot(code, ts[2..], slot), run)
  {
    hide Tokens, DecodeHex, SpellsCode, Answers, RunCodeText, RunCodeSlot;
    OneAnswer(line, rest, slot, run);
    CodeIs(ts[1], code);
  }

  /** RUN with well-formed code and too few or malformed words of state; nothing is installed. */
  lemma MalformedStateAnswered(line: string, ts: seq<string>, code: seq<u8>, i: nat, rest: string, slot: seq<u8>,
                               run: Backend)
    requires IsLine(line) && Tokens(line) == ts && |ts| >= 2 && ts[0] == "RUN" && SpellsCode(ts[1], code)
    requires |ts| < 97 || (2 <= i < 97 && forall w :: !SpellsWord(ts[i], w))
    ensures Answers(line + "\n" + rest, slot, run) ==
      ["ERROR " + "malformed-input-state" + "\n"] + Answers(rest, slot, run)
  {
    hide Tokens, SpellsCode, SpellsWord, Answers, ParseWords, ParsedText, ParsedSlot;
    RunDispatched(line, ts, code, rest, slot, run);
    if |ts| >= 97 {
      NotParsed(ts[2..], i - 2, 95);
    } else {
      TooFew(ts[2..], 95);
    }
  }

  /** RUN with well-formed code and 95 words of state, in the order of the checks: more words, a
      first word that is not zero, and code that does not fit the slot with the breakpoint. */
  lemma RunRefused(line: string, ts: seq<string>, code: seq<u8>, state: seq<u32>, rest: string, slot: seq<u8>,
                   run: Backend)
    requires IsLine(line) && Tokens(line) == ts && |ts| >= 97 && ts[0] == "RUN" && SpellsCode(ts[1], code)
    requires |state| == 95 && forall i :: 0 <= i < 95 ==> SpellsWord(ts[2..][i], state[i])
    ensures var (sent, later) := (Answers(line + "\n" + rest, slot, run), Answers(rest, slot, run));
      && (|ts| > 97 ==> sent == ["ERROR " + "wrong-input-state-size" + "\n"] + later)
      && (|ts| == 97 && state[0] != 0 ==> sent == ["ERROR " + "invalid-initial-state" + "\n"] + later)
      && (|ts| == 97 && state[0] == 0 && |code| + 4 > |slot| ==> sent == ["ERROR " + "unsupported-code" + "\n"] + later)
  {
    hide Tokens, SpellsCode, SpellsWord, Answers, ParseWords, OutcomeText, Installed;
    RunDispatched(line, ts, code, rest, slot, run);
    WordsAre(ts[2..], 95, state);
  }

  /** The text of an answer to a run: OK, the 31 registers and the 64 words of scratch memory, or
      TRAP, the cause and the value. */
  ghost predicate Reports(text: string, e: Outcome) {
    if e.status == 0 then
      exists ws: seq<string> ::
        && |ws| == 95 && text == Join(["OK"] + ws)
        && (forall i :: 0 <= i < 31 ==> ws[i] == DecimalOf(e.state[i] as int))
        && (forall i :: 0 <= i < 64 ==> ws[31 + i] == DecimalOf(e.scratch[i] as int))
    else
      text == "TRAP mcause-" + DecimalOf(e.cause as int) + " mtval-" + DecimalOf(e.value as int)
  }

  lemma OutcomeReports(e: Outcome)
    ensures Reports(OutcomeText(e), e)
  {
    hide DecimalOf, Join, OkText;
    if e.status == 0 {
      var words := FinalState(e);
      var ws := Decimals(words);
      OkIsJoin(words);
      forall i | 0 <= i < 95
        ensures ws[i] == DecimalOf(words[i] as int)
      {
        DecimalsAt(words, i);
      }
      assert forall i :: 0 <= i < 64 ==> words[31 + i] == e.scratch[i];
    }
  }

  /** Every other RUN is executed: on a slot that holds the code, the breakpoint instruction and
      behind it what was there before, from the state, with words 31 to 94 of it as the scratch
      memory. The answer reports what came out, and the next line finds the slot so filled. */
  lemma RunAnswered(line: string, ts: seq<string>, code: seq<u8>, state: seq<u32>, rest: string, slot: seq<u8>,
                    run: Backend)
    returns (text: string)
    requires IsLine(line) && Tokens(line) == ts && |ts| == 97 && ts[0] == "RUN" && SpellsCode(ts[1], code)
    requires |state| == 95 && forall i :: 0 <= i < 95 ==> SpellsWord(ts[2..][i], state[i])
    requires state[0] == 0 && |code| + 4 <= |slot|
    ensures var filled := code + [0x73, 0x00, 0x10, 0x00] + slot[|code| + 4..];
      && Answers(line + "\n" + rest, slot, run) == [text + "\n"] + Answers(rest, filled, run)
      && Reports(text, run(filled, state, state[31..]))
  {
    hide Tokens, SpellsCode, SpellsWord, Answers, ParseWords, OutcomeText, Reports;
    RunDispatched(line, ts, code, rest, slot, run);
    WordsAre(ts[2..], 95, state);
    var e := run(Installed(slot, code), state, state[31..]);
    text := OutcomeText(e);
    OutcomeReports(e);
  }

  /* The client */

  lemma {:induction false} HexAt(b: seq<u8>, i: nat)
    requires i < |b|
    ensures HexOfBytes(b)[2 * i] == "0123456789abcdef"[b[i] / 16]
    ensures HexOfBytes(b)[2 * i + 1] == "0123456789abcdef"[b[i] % 16]
  {
    if i > 0 {
      HexAt(b[1..], i - 1);
    }
  }

  /** The line the client sends: RUN, two lower-case hexadecimal digits for every byte of the
      code, and the state in decimal. */
  lemma RequestSpelled(q: Request) returns (h: string, ws: seq<string>)
    requires q.words != []
    ensures RequestLine(q) == Join(["RUN", h] + ws) && |h| == 2 * |q.code| && |ws| == |q.words|
    ensures forall i :: 0 <= i < |q.code| ==>
      h[2 * i] == "0123456789abcdef"[q.code[i] / 16] && h[2 * i + 1] == "0123456789abcdef"[q.code[i] % 16]
    ensures forall i :: 0 <= i < |q.words| ==> ws[i] == DecimalOf(q.words[i] as int)
  {
    hide RequestLine, Join, HexOfBytes, DecimalOf, Decimals;
    h, ws := HexOfBytes(q.code), Decimals(q.words);
    RequestIsJoin(q);
    forall i | 0 <= i < |q.code|
      ensures h[2 * i] == "0123456789abcdef"[q.code[i] / 16] && h[2 * i + 1] == "0123456789abcdef"[q.code[i] % 16]
    {
      HexAt(q.code, i);
    }
    forall i | 0 <= i < |q.words|
      ensures ws[i] == DecimalOf(q.words[i] as int)
    {
      DecimalsAt(q.words, i);
    }
  }

  /** Words joined by single spaces. */
  lemma JoinIs(w: string, ws: seq<string>)
    ensures Join([]) == "" && Join([w]) == w
    ensures ws != [] ==> Join([w] + ws) == w + " " + Join(ws)
  {
    assert ([w] + ws)[1..] == ws;
  }

  /** Whether a client for the given architecture and number of state words accepts a greeting. */
  predicate Accepts(line: string, arch: string, stateWords: nat) {
    var ready := CosimWords(line);
    && |ready| >= 4 && ready[0] == "READY" && ready[1] == "1" && ready[2] == arch
    && ready[3] != "" && AllDigits(ready[3]) && DecimalValue(ready[3]) == stateWords
  }

  lemma GreetingWords()
    ensures CosimWords(GREETING) == ["READY", "1", "rv32im", "95"]
  {
    hide Tokens, CosimWords;
    assert GREETING == "READY" + " " + ("1" + " " + ("rv32im" + " " + "95"));
    CosimWordsAreTokens(GREETING);
    TokensOfWordFirst("95", "");
    TokensOfWordFirst("rv32im", "95");
    TokensOfWordFirst("1", "rv32im" + " " + "95");
    TokensOfWordFirst("READY", "1" + " " + ("rv32im" + " " + "95"));
  }

  /** The client of the RV32IM simulator, and no other, accepts the monitor's greeting. */
  lemma GreetingAccepted(arch: string, stateWords: nat)
    ensures Accepts(GREETING, arch, stateWords) <==> arch == "rv32im" && stateWords == 95
  {
    hide CosimWords, DecimalValue;
    GreetingWords();
    DecimalNotation(1, 9, "");
    DecimalNotation(1, 5, "9");
    assert "" + ["0123456789"[9]] == "9" && "9" + ["0123456789"[5]] == "95";
  }
}
