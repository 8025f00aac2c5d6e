/** The cosimulation monitor: fixed buffers changed in place, proved to answer as
    CosimProtocol says. */
module CosimRunner {
  import opened Bytes
  import opened CosimText
  import opened CosimProtocol

  /* C strings in buffers */

  lemma {:induction false} CStringFrame(s: string, t: string, p: nat)
    requires p <= |s| == |t| && forall i :: p <= i < |s| ==> s[i] == t[i]
    ensures CString(s, p) == CString(t, p)
    decreases |s| - p
  {
    if p < |s| && s[p] != NUL {
      CStringFrame(s, t, p + 1);
    }
  }

  /** A NUL placed at q ends the string that ran through q. */
  lemma {:induction false} CStringCut(s: string, p: nat, q: nat)
    requires p <= q < |s| && s[q] == NUL && NUL !in s[p..q]
    ensures CString(s, p) == s[p..q]
    decreases q - p
  {
    if p < q {
      assert s[p] == s[p..q][0] && s[p + 1..q] == s[p..q][1..];
      CStringCut(s, p + 1, q);
    }
  }

  /** A NUL stored at q cuts the string at p in two. */
  lemma SplitAt(s: string, p: nat, q: nat)
    requires p <= q < |s| && NUL !in s[p..q]
    ensures CString(s[q := NUL], p) == s[p..q]
    ensures CString(s[q := NUL], q + 1) == CString(s, q + 1)
  {
    var t := s[q := NUL];
    assert t[p..q] == s[p..q];
    CStringCut(t, p, q);
    CStringFrame(s, t, q + 1);
  }

  lemma CStringStep(s: string, p: nat)
    requires p < |s|
    ensures CString(s, p) == if s[p] == NUL then "" else [s[p]] + CString(s, p + 1)
  {
  }

  lemma SkipStep(s: string, p: nat)
    requires p < |s|
    ensures Blank(s[p]) ==> SkipBlanks(CString(s, p)) == SkipBlanks(CString(s, p + 1))
    ensures !Blank(s[p]) ==> SkipBlanks(CString(s, p)) == CString(s, p)
  {
  }

  lemma WordStep(s: string, p: nat)
    requires p < |s|
    ensures s[p] != NUL && !Blank(s[p]) ==>
      && Word(CString(s, p)) == [s[p]] + Word(CString(s, p + 1))
      && AfterWord(CString(s, p)) == AfterWord(CString(s, p + 1))
    ensures s[p] == NUL || Blank(s[p]) ==> Word(CString(s, p)) == ""
    ensures s[p] != NUL && Blank(s[p]) ==> AfterWord(CString(s, p)) == CString(s, p + 1)
    ensures s[p] == NUL ==> AfterWord(CString(s, p)) == ""
  {
  }

  /** The first position from cursor on that is not a blank. */
  method SkipSpaces(line: array<char>, cursor: nat) returns (next: nat)
    requires Ends(line[..], cursor)
    ensures cursor <= next < line.Length && Ends(line[..], next) && !Blank(line[next])
    ensures CString(line[..], next) == SkipBlanks(CString(line[..], cursor))
  {
    hide CString, SkipBlanks;
    ghost var text := line[..];
    ghost var end :| cursor <= end < |text| && text[end] == NUL;
    next := cursor;
    while line[next] == ' ' || line[next] == '\t'
      invariant cursor <= next <= end
      invariant SkipBlanks(CString(text, cursor)) == SkipBlanks(CString(text, next))
      decreases end - next
    {
      SkipStep(text, next);
      next := next + 1;
    }
    SkipStep(text, next);
    assert text[end] == NUL;
  }

  /** Where the token that starts at start ends. */
  method TokenEnd(line: array<char>, start: nat) returns (next: nat)
    requires Ends(line[..], start)
    ensures start <= next < line.Length && Ends(line[..], next)
    ensures NUL !in line[start..next] && (line[next] == NUL || Blank(line[next]))
    ensures Word(CString(line[..], start)) == line[start..next]
    ensures AfterWord(CString(line[..], start)) ==
            if line[next] == NUL then "" else CString(line[..], next + 1)
  {
    hide CString, Word, AfterWord;
    ghost var text := line[..];
    ghost var end :| start <= end < |text| && text[end] == NUL;
    ghost var s := CString(text, start);
    next := start;
    while line[next] != NUL && line[next] != ' ' && line[next] != '\t'
      invariant start <= next <= end
      invariant NUL !in text[start..next]
      invariant Word(s) == text[start..next] + Word(CString(text, next))
      invariant AfterWord(s) == AfterWord(CString(text, next))
      decreases end - next
    {
      WordStep(text, next);
      assert text[start..next + 1] == text[start..next] + [text[next]];
      next := next + 1;
    }
    WordStep(text, next);
    assert text[end] == NUL;
  }

  /** Splits the next token off the string at cursor, in place. */
  method NextToken(line: array<char>, cursor: nat) returns (token: Option<nat>, next: nat)
    requires Ends(line[..], cursor)
    modifies line
    ensures cursor <= next < line.Length && Ends(line[..], next)
    ensures forall i :: 0 <= i < cursor ==> line[i] == old(line[i])
    ensures token.None? <==> SkipBlanks(CString(old(line[..]), cursor)) == ""
    ensures token.Some? ==>
      var s := SkipBlanks(CString(old(line[..]), cursor));
      && cursor <= token.value < line.Length && Ends(line[..], token.value)
      && CString(line[..], token.value) == Word(s)
      && CString(line[..], next) == AfterWord(s)
  {
    hide CString, SkipBlanks, Word, AfterWord;
    ghost var text := line[..];
    next := SkipSpaces(line, cursor);
    CStringStep(text, next);
    if line[next] == NUL {
      return None, next;
    }
    var start := next;
    next := TokenEnd(line, start);
    token := Some(start);
    ghost var end :| next <= end < |text| && text[end] == NUL;
    CStringStep(text, next);
    if line[next] != NUL {
      line[next] := NUL;
      SplitAt(text, start, next);
      assert line[..] == text[next := NUL];
      assert line[..][next] == NUL;
      next := next + 1;
    } else {
      CStringCut(text, start, next);
    }
    assert line[..][end] == NUL;
  }

  lemma EmptyDigits()
    ensures AllDigits("") && DecimalValue("") == 0
  {
  }

  /** Character i of the C string at p, and the characters read when it has been. */
  lemma NextCharacter(s: string, p: nat, i: nat)
    requires p <= i < |s| && s[i] != NUL && CString(s, p) == s[p..i] + CString(s, i)
    ensures s[p..i + 1] == s[p..i] + [s[i]]
    ensures CString(s, p) == s[p..i + 1] + CString(s, i + 1)
    ensures i - p < |CString(s, p)| && CString(s, p)[i - p] == s[i]
  {
    hide CString;
    CStringStep(s, i);
    assert s[p..i + 1] == s[p..i] + [s[i]];
  }

  lemma NotAWord(s: string, i: nat)
    requires s == "" || (i < |s| && !IsDigit(s[i]))
    ensures ParseWord(s) == None
  {
  }

  lemma ParsesAs(s: string, value: u32)
    requires s != "" && AllDigits(s) && DecimalValue(s) == value as int
    ensures ParseWord(s) == Some(value)
  {
  }

  lemma ReadDigit(s: string, c: char)
    requires AllDigits(s) && IsDigit(c)
    ensures AllDigits(s + [c]) && DecimalValue(s + [c]) == DecimalValue(s) * 10 + (c as int - '0' as int)
  {
    assert (s + [c])[..|s|] == s;
  }

  lemma Overflow(s: string, r: string)
    requires AllDigits(s) && DecimalValue(s) >= 0x1_0000_0000
    ensures ParseWord(s + r) == None
  {
    if AllDigits(s + r) {
      DecimalGrows(s, r);
    }
  }

  /** The bound check before a digit is added: with that digit the value would not fit. */
  lemma BoundCheck(value: u32, digit: u32)
    requires digit <= 9
    ensures value > (0xffff_ffff - digit) / 10 <==> value as int * 10 + digit as int >= 0x1_0000_0000
  {
    var room := 0xffff_ffff - digit as int;
    assert ((0xffff_ffff - digit) / 10) as int == room / 10;
  }

  /** Parses the C string at text as an unsigned 32-bit word. */
  method ParseU32(line: array<char>, text: nat) returns (result: Option<u32>)
    requires Ends(line[..], text)
    ensures result == ParseWord(CString(line[..], text))
  {
    hide CString, DecimalValue, ParseWord, AllDigits;
    ghost var s := line[..];
    ghost var end :| text <= end < |s| && s[end] == NUL;
    ghost var whole := CString(s, text);
    CStringStep(s, text);
    if line[text] == NUL {
      NotAWord(whole, 0);
      return None;
    }
    var value: u32 := 0;
    var i := text;
    EmptyDigits();
    assert s[text..text] == "";
    while line[i] != NUL
      invariant text <= i <= end
      invariant AllDigits(s[text..i]) && DecimalValue(s[text..i]) == value as int
      invariant whole == s[text..i] + CString(s, i)
      decreases end - i
    {
      var c := line[i];
      NextCharacter(s, text, i);
      if c < '0' || c > '9' {
        NotAWord(whole, i - text);
        return None;
      }
      var digit := (c as int - '0' as int) as u32;
      assert DecimalValue(s[text..i + 1]) == value as int * 10 + digit as int by {
        ReadDigit(s[text..i], c);
      }
      assert AllDigits(s[text..i + 1]) by {
        ReadDigit(s[text..i], c);
      }
      BoundCheck(value, digit);
      if value > (0xffff_ffff - digit) / 10 {
        Overflow(s[text..i + 1], CString(s, i + 1));
        return None;
      }
      value := value * 10 + digit;
      i := i + 1;
    }
    CStringStep(s, i);
    assert whole == s[text..i];
    ParsesAs(whole, value);
    return Some(value);
  }

  lemma OneMoreEqual(s: string, p: nat, right: string, i: nat)
    requires p + i < |s| && i < |right| && s[p + i] == right[i] != NUL
    requires CString(s, p) == right[..i] + CString(s, p + i)
    ensures CString(s, p) == right[..i + 1] + CString(s, p + (i + 1))
  {
    hide CString;
    CStringStep(s, p + i);
    assert right[..i + 1] == right[..i] + [right[i]];
  }

  /** Where a comparison stops decides it. */
  lemma FirstDifference(s: string, p: nat, right: string, i: nat)
    requires p + i < |s| && i <= |right| && NUL !in right
    requires CString(s, p) == right[..i] + CString(s, p + i)
    requires s[p + i] == NUL || i == |right| || s[p + i] != right[i]
    ensures CString(s, p) == right <==> s[p + i] == NUL && i == |right|
  {
    hide CString;
    CStringStep(s, p + i);
    assert right == right[..i] + right[i..];
    if s[p + i] != NUL {
      assert |CString(s, p)| > i && CString(s, p)[i] == s[p + i];
    } else {
      assert |CString(s, p)| == i;
    }
  }

  /** Compares the C string at p with a text. */
  method StringEqual(line: array<char>, p: nat, right: string) returns (equal: bool)
    requires Ends(line[..], p) && NUL !in right
    ensures equal <==> CString(line[..], p) == right
  {
    hide CString;
    ghost var s := line[..];
    ghost var end :| p <= end < |s| && s[end] == NUL;
    var i := 0;
    assert right[..0] + CString(s, p) == CString(s, p);
    while line[p + i] != NUL && i < |right| && line[p + i] == right[i]
      invariant p + i <= end && i <= |right|
      invariant CString(s, p) == right[..i] + CString(s, p + i)
      decreases end - i
    {
      OneMoreEqual(s, p, right, i);
      i := i + 1;
    }
    equal := if line[p + i] == NUL then i == |right| else false;
    FirstDifference(s, p, right, i);
  }

  lemma LastCharacter(s: string, p: nat, i: nat)
    requires p <= i < |s| && s[i] == NUL && CString(s, p) == s[p..i] + CString(s, i)
    ensures CString(s, p) == s[p..i]
  {
    hide CString;
    CStringStep(s, i);
  }

  method StringLength(line: array<char>, p: nat) returns (length: nat)
    requires Ends(line[..], p)
    ensures p + length < line.Length && CString(line[..], p) == line[p..p + length]
  {
    hide CString;
    ghost var s := line[..];
    ghost var end :| p <= end < |s| && s[end] == NUL;
    length := 0;
    while line[p + length] != NUL
      invariant p + length <= end
      invariant CString(s, p) == s[p..p + length] + CString(s, p + length)
      decreases end - length
    {
      NextCharacter(s, p, p + length);
      assert p + (length + 1) == p + length + 1;
      length := length + 1;
    }
    LastCharacter(s, p, p + length);
    assert s[p..p + length] == line[p..p + length];
  }

  function Reversed(s: string): string {
    if s == "" then "" else [s[|s| - 1]] + Reversed(s[..|s| - 1])
  }

  /** What the response buffer keeps of a text. */
  function Clip(s: string): string {
    if |s| < LINE_SIZE then s else s[..LINE_SIZE - 1]
  }

  lemma ClipAppend(s: string, t: string)
    ensures Clip(Clip(s) + t) == Clip(s + t)
  {
  }

  /** The last digit of a word and the digits before it. */
  lemma DecimalStep(value: u32)
    ensures DecimalOf(value as int) ==
            (if value / 10 == 0 then "" else DecimalOf((value / 10) as int)) +
            [('0' as int + (value % 10) as int) as char]
    ensures DecimalOf(value as int) != ""
  {
  }

  lemma ReversedOne(s: string)
    requires |s| == 1
    ensures Reversed(s) == s
  {
  }

  lemma ReversedAppend(s: string, c: char)
    ensures Reversed(s + [c]) == [c] + Reversed(s)
  {
    assert (s + [c])[..|s|] == s;
  }

  lemma {:induction false} ReversedLength(s: string)
    ensures |Reversed(s)| == |s|
  {
    if s != "" {
      ReversedLength(s[..|s| - 1]);
    }
  }

  /** Stores the decimal digits of a word, lowest first. */
  method DecimalDigits(word: u32, digits: array<char>) returns (count: nat)
    requires digits.Length == 10
    modifies digits
    ensures 0 < count <= 10 && DecimalOf(word as int) == Reversed(digits[..count])
  {
    hide DecimalOf, Reversed;
    WordLength(word);
    digits[0] := ('0' as int + (word % 10) as int) as char;
    var value := word / 10;
    count := 1;
    DecimalStep(word);
    ReversedOne(digits[..1]);
    while value != 0
      invariant 1 <= count <= 10
      invariant DecimalOf(word as int) ==
                (if value == 0 then "" else DecimalOf(value as int)) + Reversed(digits[..count])
      decreases value
    {
      ghost var low := digits[..count];
      ReversedLength(low);
      DecimalStep(value);
      digits[count] := ('0' as int + (value % 10) as int) as char;
      assert digits[..count + 1] == low + [digits[count]];
      ReversedAppend(low, digits[count]);
      count := count + 1;
      value := value / 10;
    }
  }

  lemma {:induction false} ReversedCons(s: string)
    requires s != ""
    ensures Reversed(s) == Reversed(s[1..]) + [s[0]]
  {
    if |s| > 1 {
      ReversedCons(s[..|s| - 1]);
      assert s[1..][..|s| - 2] == s[..|s| - 1][1..];
    }
  }

  lemma AppendReversed(before: string, total: string, count: nat)
    requires count < |total|
    ensures Clip(Clip(before + Reversed(total[count + 1..])) + [total[count]]) ==
            Clip(before + Reversed(total[count..]))
  {
    hide Clip;
    ClipAppend(before + Reversed(total[count + 1..]), [total[count]]);
    ReversedCons(total[count..]);
    assert total[count..][1..] == total[count + 1..];
    assert before + Reversed(total[count + 1..]) + [total[count]] == before + Reversed(total[count..]);
  }

  lemma NothingAppended(before: string, s: string)
    requires |before| < LINE_SIZE && s == ""
    ensures before == Clip(before + Reversed(s))
  {
    assert before + "" == before;
  }

  ghost predicate Apart(a: object, b: object) {
    a != b
  }

  lemma TokensStep(s: string)
    ensures SkipBlanks(s) == "" ==> Tokens(s) == []
    ensures SkipBlanks(s) != "" ==> Tokens(s) == [Word(SkipBlanks(s))] + Tokens(AfterWord(SkipBlanks(s)))
  {
  }

  lemma ParseNothing(ts: seq<string>)
    ensures ParseWords(ts, 0) == Some([])
  {
  }

  lemma ParseNext(ts: seq<string>, i: nat)
    requires i < |ts| && ParseWords(ts, i).Some? && ParseWord(ts[i]).Some?
    ensures ParseWords(ts, i + 1) == Some(ParseWords(ts, i).value + [ParseWord(ts[i]).value])
  {
  }

  lemma ParseMissing(ts: seq<string>)
    requires |ts| < STATE_WORDS
    ensures ParseWords(ts, STATE_WORDS) == None
  {
  }

  lemma {:induction false} ParseFails(ts: seq<string>, i: nat, n: nat)
    requires i < |ts| && i < n && ParseWord(ts[i]) == None
    ensures ParseWords(ts, n) == None
    decreases n
  {
    if i < n - 1 {
      ParseFails(ts, i, n - 1);
    }
  }

  lemma FirstLineShorter(stream: string)
    ensures FirstLine(stream).Some? ==> |FirstLine(stream).value.1| < |stream|
  {
  }

  lemma LineEndIs(stream: string, i: nat)
    requires i <= LineEnd(stream) && i < |stream|
    ensures stream[i] == '\n' <==> i == LineEnd(stream)
  {
    if i < LineEnd(stream) {
      assert stream[..LineEnd(stream)][i] == stream[i];
    }
  }

  lemma WithoutReturnsEmpty()
    ensures WithoutReturns("") == ""
  {
  }

  lemma WithoutReturnsStep(s: string, i: nat)
    requires i < |s|
    ensures WithoutReturns(s[..i + 1]) == WithoutReturns(s[..i]) + if s[i] == '\r' then "" else [s[i]]
  {
    assert s[..i + 1][..i] == s[..i];
  }

  lemma {:induction false} WithoutReturnsGrows(s: string, i: nat, j: nat)
    requires i <= j <= |s|
    ensures |WithoutReturns(s[..i])| <= |WithoutReturns(s[..j])|
    decreases j
  {
    if i < j {
      WithoutReturnsGrows(s, i, j - 1);
      WithoutReturnsStep(s, j - 1);
    }
  }

  lemma {:induction false} StoredFrom(s: string, length: nat, p: nat)
    requires p <= length < |s| && s[length] == NUL
    ensures CString(s, p) == CString(s[..length], p)
    decreases length - p
  {
    if p < length && s[p] != NUL {
      StoredFrom(s, length, p + 1);
    }
  }

  /** A stored line is the same C string as the line. */
  lemma StoredLine(s: string, length: nat)
    requires length < |s| && s[length] == NUL
    ensures Ends(s, 0) && CString(s, 0) == CString(s[..length], 0)
  {
    StoredFrom(s, length, 0);
  }

  lemma ClipFits(s: string)
    requires |s| < LINE_SIZE
    ensures Clip(s) == s
  {
  }

  lemma TrapTextIs(cause: u32, value: u32)
    ensures TrapText(cause, value) == "TRAP mcause-" + DecimalOf(cause as int) + " mtval-" + DecimalOf(value as int)
  {
  }

  lemma OkEmpty()
    ensures OkText([]) == "OK"
  {
  }

  /** Appending a space and the next word to an OK answer leaves room to spare. */
  lemma OkStep(words: seq<u32>, i: nat)
    requires i < |words| <= STATE_WORDS
    ensures OkText(words[..i]) + [' '] + DecimalOf(words[i] as int) == OkText(words[..i + 1])
    ensures |OkText(words[..i + 1])| + 1 < LINE_SIZE
  {
    hide DecimalOf;
    var next := words[..i + 1];
    assert next[..|next| - 1] == words[..i] && next[|next| - 1] == words[i];
    OkPlain(next);
  }

  lemma HexNothing()
    ensures AllHex("") && HexValue("") == []
  {
  }

  lemma HexFirst(s: string)
    requires |s| >= 2 && AllHex(s)
    ensures AllHex(s[2..]) && HexDigit(s[0]) >= 0 && HexDigit(s[1]) >= 0
    ensures HexValue(s) == [(16 * HexDigit(s[0]) + HexDigit(s[1])) as u8] + HexValue(s[2..])
  {
  }

  lemma AppendHex(s: string, c: char, d: char)
    requires AllHex(s) && HexDigit(c) >= 0 && HexDigit(d) >= 0
    ensures AllHex(s + [c, d])
  {
  }

  lemma {:induction false} HexAppend(s: string, c: char, d: char)
    requires |s| % 2 == 0 && AllHex(s) && HexDigit(c) >= 0 && HexDigit(d) >= 0
    ensures AllHex(s + [c, d])
    ensures HexValue(s + [c, d]) == HexValue(s) + [(16 * HexDigit(c) + HexDigit(d)) as u8]
  {
    hide *;
    var t := s + [c, d];
    AppendHex(s, c, d);
    HexFirst(t);
    if s == "" {
      assert t[2..] == "";
      HexNothing();
    } else {
      HexFirst(s);
      HexAppend(s[2..], c, d);
      assert t[2..] == s[2..] + [c, d];
      assert t[0] == s[0] && t[1] == s[1];
    }
  }

  /** The first digit pairs and the next one. */
  lemma {:induction false} HexSoFar(s: string, i: nat)
    requires i <= |s| && i % 2 == 0
    requires i >= 2 ==> AllHex(s[..i - 2]) && HexDigit(s[i - 2]) >= 0 && HexDigit(s[i - 1]) >= 0
    ensures AllHex(s[..i])
    ensures HexValue(s[..i]) == if i == 0 then [] else
              HexValue(s[..i - 2]) + [(16 * HexDigit(s[i - 2]) + HexDigit(s[i - 1])) as u8]
  {
    if i >= 2 {
      HexAppend(s[..i - 2], s[i - 2], s[i - 1]);
      assert s[..i] == s[..i - 2] + [s[i - 2], s[i - 1]];
    }
  }

  lemma NotHex(s: string, i: nat)
    requires i < |s| && HexDigit(s[i]) < 0
    ensures !AllHex(s)
  {
  }

  lemma LowByteFirst(v: nat, n: nat)
    ensures ToLittleEndian(v, n + 1) == [(v % 256) as u8] + ToLittleEndian(v / 256, n)
  {
  }

  lemma NoBytes(v: nat)
    ensures ToLittleEndian(v, 0) == []
  {
  }

  lemma FourBytes(value: u32)
    ensures ToLittleEndian(value as int, 4) ==
            [(value % 256) as u8, (value / 256 % 256) as u8, (value / 256 / 256 % 256) as u8,
             (value / 256 / 256 / 256) as u8]
  {
    hide ToLittleEndian;
    var v := value as int;
    LowByteFirst(v, 3);
    LowByteFirst(v / 256, 2);
    LowByteFirst(v / 256 / 256, 1);
    LowByteFirst(v / 256 / 256 / 256, 0);
    NoBytes(v / 256 / 256 / 256 / 256);
  }

  /** The stored word is the breakpoint instruction. */
  lemma BreakBytes()
    ensures ToLittleEndian(0x0010_0073, 4) == EBREAK
  {
    FourBytes(0x0010_0073);
  }

  class Monitor {
    const input: array<char>
    const code: array<u8>
    const slot: array<u8>
    const state: array<u32>
    const scratch: array<u32>
    const response: array<char>
    var responseLength: nat

    ghost predicate Valid()
      reads this
    {
      && input.Length == LINE_SIZE && response.Length == LINE_SIZE && input != response
      && code.Length == MAX_CODE && code != slot
      && state.Length == STATE_WORDS && scratch.Length == SCRATCH_WORDS && state != scratch
      && responseLength < LINE_SIZE
      && Apart(input, code) && Apart(input, slot) && Apart(input, state) && Apart(input, scratch)
      && Apart(response, code) && Apart(response, slot) && Apart(response, state) && Apart(response, scratch)
      && Apart(code, state) && Apart(code, scratch) && Apart(slot, state) && Apart(slot, scratch)
    }

    /** The text in the response buffer. */
    ghost function Text(): string
      requires Valid()
      reads this, response
    {
      response[..responseLength]
    }

    constructor (slotSize: nat)
      ensures Valid() && slot.Length == slotSize
      ensures fresh(input) && fresh(code) && fresh(slot) && fresh(state) && fresh(scratch) && fresh(response)
    {
      input := new char[LINE_SIZE](_ => NUL);
      response := new char[LINE_SIZE](_ => NUL);
      code := new u8[MAX_CODE](_ => 0);
      slot := new u8[slotSize](_ => 0);
      state := new u32[STATE_WORDS](_ => 0);
      scratch := new u32[SCRATCH_WORDS](_ => 0);
      responseLength := 0;
    }

    /* Responses */

    method ResponseReset()
      requires Valid()
      modifies this`responseLength
      ensures Valid() && Text() == ""
    {
      responseLength := 0;
    }

    method ResponseCharacter(c: char)
      requires Valid()
      modifies this`responseLength, response
      ensures Valid() && Text() == Clip(old(Text()) + [c])
      ensures Text() == if |old(Text())| + 1 < LINE_SIZE then old(Text()) + [c] else old(Text())
    {
      if responseLength + 1 < response.Length {
        response[responseLength] := c;
        responseLength := responseLength + 1;
      }
    }

    method ResponseString(text: string)
      requires Valid()
      modifies this`responseLength, response
      ensures Valid() && Text() == Clip(old(Text()) + text)
      ensures |old(Text())| + |text| < LINE_SIZE ==> Text() == old(Text()) + text
    {
      hide Clip;
      ghost var before := Text();
      assert before + "" == before;
      ClipFits(before);
      for i := 0 to |text|
        invariant Valid() && Text() == Clip(before + text[..i])
      {
        ResponseCharacter(text[i]);
        ClipAppend(before + text[..i], [text[i]]);
        assert before + text[..i] + [text[i]] == before + text[..i + 1];
      }
      assert text[..|text|] == text;
      if |before + text| < LINE_SIZE {
        ClipFits(before + text);
      }
    }

    method ResponseU32(word: u32)
      requires Valid()
      modifies this`responseLength, response
      ensures Valid() && Text() == Clip(old(Text()) + DecimalOf(word as int))
      ensures |old(Text())| + |DecimalOf(word as int)| < LINE_SIZE ==> Text() == old(Text()) + DecimalOf(word as int)
    {
      hide DecimalOf, Reversed, Clip;
      ghost var before := Text();
      var digits := new char[10](_ => NUL);
      var count := DecimalDigits(word, digits);
      ghost var total := digits[..count];
      NothingAppended(before, total[count..]);
      while count != 0
        invariant 0 <= count <= 10 && count <= |total| && digits[..count] == total[..count]
        invariant Valid() && Text() == Clip(before + Reversed(total[count..]))
        decreases count
      {
        count := count - 1;
        ResponseCharacter(digits[count]);
        AppendReversed(before, total, count);
      }
      assert total[0..] == total;
      if |before + DecimalOf(word as int)| < LINE_SIZE {
        ClipFits(before + DecimalOf(word as int));
      }
    }

    /** Ends the line and hands the C string in the buffer to the output call. */
    method ResponseSend() returns (out: string)
      requires Valid() && NUL !in Text()
      modifies this`responseLength, response
      ensures Valid() && out == Clip(old(Text()) + "\n")
      ensures |old(Text())| + 1 < LINE_SIZE ==> out == old(Text()) + "\n"
    {
      ResponseCharacter('\n');
      response[responseLength] := NUL;
      CStringCut(response[..], 0, responseLength);
      out := CString(response[..], 0);
    }

    method ResponseError(reason: string) returns (out: string)
      requires Valid() && NUL !in reason && |reason| < 100
      modifies this`responseLength, response
      ensures Valid() && out == ErrorText(reason) + "\n"
    {
      hide Clip;
      ResponseReset();
      ResponseString("ERROR ");
      ResponseString(reason);
      out := ResponseSend();
    }

    method SendReady() returns (out: string)
      requires Valid()
      modifies this`responseLength, response
      ensures Valid() && out == GREETING + "\n"
    {
      hide Clip;
      ResponseReset();
      ResponseString(GREETING);
      out := ResponseSend();
    }

    /** Sends the whole state: the buffer never runs out. */
    method SendState() returns (out: string)
      requires Valid()
      modifies this`responseLength, response
      ensures Valid() && out == OkText(state[..]) + "\n"
    {
      hide Clip, DecimalOf, OkText;
      ResponseReset();
      ResponseString("OK");
      ghost var words := state[..];
      OkEmpty();
      assert words[..0] == [];
      for i := 0 to STATE_WORDS
        invariant Valid() && state[..] == words && Text() == OkText(words[..i])
      {
        OkStep(words, i);
        ResponseCharacter(' ');
        ResponseU32(state[i]);
      }
      assert words[..STATE_WORDS] == words;
      OkPlain(words);
      out := ResponseSend();
    }

    /** Appends a name and a word to a text with room for both. */
    method ResponseField(name: string, word: u32)
      requires Valid() && |Text()| + |name| + 10 < LINE_SIZE
      modifies this`responseLength, response
      ensures Valid() && Text() == old(Text()) + name + DecimalOf(word as int)
    {
      hide Clip, DecimalOf;
      WordLength(word);
      ResponseString(name);
      ResponseU32(word);
    }

    method SendTrap(cause: u32, value: u32) returns (out: string)
      requires Valid()
      modifies this`responseLength, response
      ensures Valid() && out == TrapText(cause, value) + "\n"
    {
      hide Clip, DecimalOf, TrapText;
      TrapTextIs(cause, value);
      DecimalPlain(cause);
      DecimalPlain(value);
      ResponseReset();
      ResponseField("TRAP mcause-", cause);
      ResponseField(" mtval-", value);
      assert Text() == "TRAP mcause-" + DecimalOf(cause as int) + " mtval-" + DecimalOf(value as int);
      out := ResponseSend();
    }

    /* Requests */

    /** Turns every two characters into one byte, stopping at the first that is not
        hexadecimal. */
    method DecodePairs(p: nat, length: nat) returns (ok: bool)
      requires Valid() && p + length <= input.Length && length % 2 == 0 && length / 2 <= MAX_CODE
      modifies code
      ensures Valid()
      ensures ok <==> AllHex(input[p..p + length])
      ensures ok ==> code[..length / 2] == HexValue(input[p..p + length])
    {
      hide HexValue, AllHex, HexDigit;
      ghost var s := input[p..p + length];
      HexSoFar(s, 0);
      assert code[..0] == [];
      var i := 0;
      while i < length
        invariant 0 <= i <= length && i % 2 == 0
        invariant AllHex(s[..i]) && code[..i / 2] == HexValue(s[..i])
        decreases length - i
      {
        assert s[i] == input[p + i] && s[i + 1] == input[p + (i + 1)];
        var high := HexDigit(input[p + i]);
        var low := HexDigit(input[p + i + 1]);
        if high < 0 || low < 0 {
          NotHex(s, if high < 0 then i else i + 1);
          return false;
        }
        HexSoFar(s, i + 2);
        assert s[..i + 2][..i] == s[..i];
        ghost var done := code[..i / 2];
        code[i / 2] := (16 * high + low) as u8;
        assert code[..i / 2 + 1] == done + [code[i / 2]];
        assert (i + 2) / 2 == i / 2 + 1;
        i := i + 2;
      }
      assert s[..length] == s;
      return true;
    }

    /** Decodes the hexadecimal C string at p into the code buffer. */
    method DecodeCode(p: nat) returns (codeSize: Option<nat>)
      requires Valid() && Ends(input[..], p)
      modifies code
      ensures Valid()
      ensures var s := CString(input[..], p);
        if DecodeHex(s).None? then codeSize == None
        else codeSize == Some(|s| / 2) && |s| / 2 <= MAX_CODE && code[..|s| / 2] == DecodeHex(s).value
    {
      hide HexValue, AllHex, CString, HexDigit;
      var length := StringLength(input, p);
      ghost var s := CString(input[..], p);
      assert |s| == length;
      if length == 0 || length % 8 != 0 || length / 2 > code.Length {
        return None;
      }
      var ok := DecodePairs(p, length);
      assert CString(input[..], p) == s && (ok <==> AllHex(s));
      codeSize := if ok then Some(length / 2) else None;
    }

    /** Stores one word in the code slot, lowest byte first. */
    method StoreU32(at: nat, value: u32)
      requires Valid() && at + 4 <= slot.Length
      modifies slot
      ensures slot[at..at + 4] == ToLittleEndian(value as int, 4)
      ensures forall i :: 0 <= i < slot.Length && !(at <= i < at + 4) ==> slot[i] == old(slot[i])
    {
      slot[at] := (value % 256) as u8;
      slot[at + 1] := (value / 256 % 256) as u8;
      slot[at + 2] := (value / 256 / 256 % 256) as u8;
      slot[at + 3] := (value / 256 / 256 / 256) as u8;
      FourBytes(value);
    }

    /** Copies the code into the slot with the breakpoint behind it. */
    method InstallCode(codeSize: nat) returns (ok: bool)
      requires Valid() && codeSize <= MAX_CODE
      modifies slot
      ensures Valid() && (ok <==> codeSize + 4 <= slot.Length)
      ensures slot[..] == ParsedSlot(code[..codeSize], old(slot[..]))
    {
      if codeSize + 4 > slot.Length {
        return false;
      }
      ghost var was := slot[..];
      for i := 0 to codeSize
        invariant slot[..i] == code[..i]
        invariant forall k :: i <= k < slot.Length ==> slot[k] == was[k]
      {
        slot[i] := code[i];
        assert slot[..i + 1] == slot[..i] + [slot[i]] && code[..i + 1] == code[..i] + [code[i]];
      }
      StoreU32(codeSize, 0x0010_0073);
      BreakBytes();
      assert slot[..codeSize] == code[..codeSize];
      assert slot[codeSize + 4..] == was[codeSize + 4..];
      assert slot[..] == slot[..codeSize] + slot[codeSize..codeSize + 4] + slot[codeSize + 4..];
      return true;
    }

    /** Runs the code in the slot: the registers and the scratch memory may come back
        changed in any way. */
    method Execute(run: Backend) returns (ghost e: Outcome, status: u32, cause: u32, value: u32)
      requires Valid()
      modifies state, scratch
      ensures Valid()
      ensures e == run(slot[..], old(state[..]), old(state[REGISTERS..]))
      ensures status == e.status && cause == e.cause && value == e.value
      ensures state[..] == FinalState(e)
    {
      ghost var installed, before := slot[..], state[..];
      for i := 0 to SCRATCH_WORDS
        invariant state[..] == before
        invariant scratch[..i] == before[REGISTERS..REGISTERS + i]
      {
        scratch[i] := state[REGISTERS + i];
        assert scratch[..i + 1] == scratch[..i] + [scratch[i]];
      }
      assert scratch[..] == scratch[..SCRATCH_WORDS] == before[REGISTERS..];
      assert old(state[REGISTERS..]) == before[REGISTERS..];
      var outcome := run(slot[..], state[..], scratch[..]);
      assert outcome == run(installed, before, before[REGISTERS..]);
      e := outcome;
      forall i | 0 <= i < STATE_WORDS {
        state[i] := outcome.state[i];
      }
      forall i | 0 <= i < SCRATCH_WORDS {
        scratch[i] := outcome.scratch[i];
      }
      assert scratch[..] == outcome.scratch;
      for i := 0 to SCRATCH_WORDS
        invariant scratch[..] == outcome.scratch
        invariant state[..REGISTERS] == outcome.state[..REGISTERS]
        invariant state[REGISTERS..REGISTERS + i] == outcome.scratch[..i]
      {
        state[REGISTERS + i] := scratch[i];
        assert state[REGISTERS..REGISTERS + i + 1] == state[REGISTERS..REGISTERS + i] + [state[REGISTERS + i]];
      }
      assert state[..] == state[..REGISTERS] + state[REGISTERS..REGISTERS + SCRATCH_WORDS];
      assert outcome.scratch[..SCRATCH_WORDS] == outcome.scratch;
      assert state[..] == FinalState(e);
      assert slot[..] == installed;
      status, cause, value := outcome.status, outcome.cause, outcome.value;
    }

    /** Parses the state words of a request into the state buffer: word i of the
        request goes to element i. */
    method ParseState(cursor: nat) returns (ok: bool, next: nat)
      requires Valid() && Ends(input[..], cursor)
      modifies input, state
      ensures Valid() && next < input.Length && Ends(input[..], next)
      ensures var ts := Tokens(CString(old(input[..]), cursor));
        && (ok <==> ParseWords(ts, STATE_WORDS).Some?)
        && (ok ==> |ts| >= STATE_WORDS && ParseWords(ts, STATE_WORDS) == Some(state[..]))
        && (ok ==> Tokens(CString(input[..], next)) == ts[STATE_WORDS..])
    {
      hide Tokens, CString, ParseWords, ParseWord, SkipBlanks, Word, AfterWord;
      ghost var ts := Tokens(CString(input[..], cursor));
      next := cursor;
      var i := 0;
      ParseNothing(ts);
      assert state[..0] == [];
      while i < STATE_WORDS
        invariant i <= STATE_WORDS && i <= |ts| && next < input.Length && Ends(input[..], next)
        invariant Tokens(CString(input[..], next)) == ts[i..]
        invariant ParseWords(ts, i) == Some(state[..i])
      {
        TokensStep(CString(input[..], next));
        var word;
        word, next := NextToken(input, next);
        if word.None? {
          ParseMissing(ts);
          return false, next;
        }
        var value := ParseU32(input, word.value);
        if value.None? {
          ParseFails(ts, i, STATE_WORDS);
          return false, next;
        }
        ParseNext(ts, i);
        ghost var done := state[..i];
        state[i] := value.value;
        assert state[..i + 1] == done + [state[i]];
        assert ts[i..][1..] == ts[i + 1..];
        i := i + 1;
      }
      assert state[..] == state[..STATE_WORDS];
      return true, next;
    }

    /** Executes and answers a request that has been parsed into the buffers. */
    method ExecuteParsed(codeSize: nat, run: Backend) returns (out: string)
      requires Valid() && codeSize <= MAX_CODE
      modifies this`responseLength, slot, state, scratch, response
      ensures Valid()
      ensures out == ParsedText(code[..codeSize], old(state[..]), old(slot[..]), run) + "\n"
      ensures slot[..] == ParsedSlot(code[..codeSize], old(slot[..]))
    {
      hide Installed;
      var installed := InstallCode(codeSize);
      if !installed {
        out := ResponseError("unsupported-code");
        return;
      }
      assert state[REGISTERS..] == state[..][REGISTERS..];
      hide OkText, TrapText, ErrorText, FinalState;
      var e, status, cause, value := Execute(run);
      if status == 0 {
        out := SendState();
      } else {
        out := SendTrap(cause, value);
      }
    }

    /** Parses the state of a request whose code is in the code buffer, executes and
        answers it. */
    method ExecuteWithCode(codeSize: nat, cursor: nat, run: Backend) returns (out: string)
      requires Valid() && codeSize <= MAX_CODE && Ends(input[..], cursor)
      modifies this`responseLength, input, slot, state, scratch, response
      ensures Valid()
      ensures var words := Tokens(CString(old(input[..]), cursor));
        && out == RunCodeText(code[..codeSize], words, old(slot[..]), run) + "\n"
        && slot[..] == RunCodeSlot(code[..codeSize], words, old(slot[..]))
    {
      hide Tokens, CString, ParseWords, SkipBlanks, Word, AfterWord, ErrorText, ParsedText, ParsedSlot;
      var ok, next := ParseState(cursor);
      if !ok {
        out := ResponseError("malformed-input-state");
        return;
      }
      TokensStep(CString(input[..], next));
      var extra;
      extra, next := NextToken(input, next);
      if extra.Some? {
        out := ResponseError("wrong-input-state-size");
      } else if state[0] != 0 {
        out := ResponseError("invalid-initial-state");
      } else {
        out := ExecuteParsed(codeSize, run);
      }
    }

    /** Parses, executes and answers one RUN request. */
    method ExecuteRequest(cursor: nat, run: Backend) returns (out: string)
      requires Valid() && Ends(input[..], cursor)
      modifies this`responseLength, input, code, slot, state, scratch, response
      ensures Valid()
      ensures var args := Tokens(CString(old(input[..]), cursor));
        && out == RunText(args, old(slot[..]), run) + "\n"
        && slot[..] == RunSlot(args, old(slot[..]))
    {
      hide Tokens, CString, SkipBlanks, Word, AfterWord, DecodeHex, RunCodeText, RunCodeSlot, ErrorText;
      ghost var args := Tokens(CString(input[..], cursor));
      TokensStep(CString(input[..], cursor));
      var codeText, next := NextToken(input, cursor);
      if codeText.None? {
        out := ResponseError("malformed-code");
        return;
      }
      var codeSize := DecodeCode(codeText.value);
      if codeSize.None? {
        out := ResponseError("malformed-code");
      } else {
        assert code[..codeSize.value] == DecodeHex(args[0]).value;
        out := ExecuteWithCode(codeSize.value, next, run);
      }
    }

    /** Reads one line of the input into the line buffer. */
    method ReadLine(stream: string) returns (ok: bool, rest: string)
      requires Valid()
      modifies input
      ensures Valid()
      ensures ok <==> FirstLine(stream).Some?
      ensures ok ==>
        && rest == FirstLine(stream).value.1 && Ends(input[..], 0)
        && CString(input[..], 0) == CString(FirstLine(stream).value.0, 0)
    {
      hide CString, LineEnd, WithoutReturns;
      ghost var end := LineEnd(stream);
      var length, i := 0, 0;
      WithoutReturnsEmpty();
      while i < |stream|
        invariant i <= end && length < input.Length
        invariant input[..length] == WithoutReturns(stream[..i])
      {
        var c := stream[i];
        ghost var line := input[..length];
        LineEndIs(stream, i);
        if c == '\n' {
          input[length] := NUL;
          assert input[..length] == line;
          StoredLine(input[..], length);
          return true, stream[i + 1..];
        }
        WithoutReturnsStep(stream, i);
        if c != '\r' {
          if length + 1 >= input.Length {
            WithoutReturnsGrows(stream, i + 1, end);
            input[0] := NUL;
            return false, "";
          }
          input[length] := c;
          assert input[..length + 1] == line + [c];
          length := length + 1;
        }
        i := i + 1;
      }
      return false, "";
    }

    /** Answers the request in the line buffer, or says that it ends the session. */
    method Answer(run: Backend) returns (out: string, quit: bool)
      requires Valid() && Ends(input[..], 0)
      modifies this`responseLength, input, code, slot, state, scratch, response
      ensures Valid()
      ensures var (line, was) := (CString(old(input[..]), 0), old(slot[..]));
        && (quit <==> LineText(line, was, run).None?)
        && (!quit ==> out == LineText(line, was, run).value + "\n")
        && slot[..] == LineSlot(line, was)
    {
      hide Tokens, CString, RunText, RunSlot, SkipBlanks, Word, AfterWord, ErrorText;
      TokensStep(CString(input[..], 0));
      out, quit := "", false;
      var command, cursor := NextToken(input, 0);
      if command.None? {
        out := ResponseError("empty-command");
        return;
      }
      quit := StringEqual(input, command.value, "QUIT");
      if quit {
        return;
      }
      var isRun := StringEqual(input, command.value, "RUN");
      if isRun {
        out := ExecuteRequest(cursor, run);
      } else {
        out := ResponseError("unknown-command");
      }
    }

    /** Serves requests until the input ends or a request stops it, and returns
        everything sent, in order. */
    method Serve(stream: string, run: Backend) returns (sent: seq<string>)
      requires Valid()
      modifies this`responseLength, input, code, slot, state, scratch, response
      ensures Valid()
      ensures sent == [GREETING + "\n"] + Answers(stream, old(slot[..]), run)
    {
      hide CString, FirstLine, LineText, LineSlot;
      var out := SendReady();
      sent := [out];
      var rest := stream;
      while true
        invariant Valid()
        invariant sent + Answers(rest, slot[..], run) == [GREETING + "\n"] + Answers(stream, old(slot[..]), run)
        decreases |rest|
      {
        ghost var first, was := FirstLine(rest), slot[..];
        FirstLineShorter(rest);
        var ok, left := ReadLine(rest);
        if !ok {
          assert sent + [] == sent;
          return;
        }
        var quit;
        out, quit := Answer(run);
        if quit {
          assert sent + [] == sent;
          return;
        }
        assert out == AnswerText(first.value.0, was, run).value + "\n";
        assert sent + ([out] + Answers(left, slot[..], run)) == sent + [out] + Answers(left, slot[..], run);
        sent := sent + [out];
        rest := left;
      }
    }
  }
}
