/** The text of the cosimulation protocol: C strings, tokens, decimal words and
    hexadecimal bytes. */
module CosimText {
  import opened Bytes

  datatype Option<+T> = None | Some(value: T)

  newtype u32 = x: int | 0 <= x < 0x1_0000_0000

  const NUL: char := '\0'
  const MAX_CODE: nat := 512

  /* C strings */

  /** The C string that starts at position p of a buffer: up to the first NUL. */
  function CString(s: string, p: nat): (r: string)
    requires p <= |s|
    ensures NUL !in r
    decreases |s| - p
  {
    if p == |s| || s[p] == NUL then "" else [s[p]] + CString(s, p + 1)
  }

  /** Some NUL lies at or after position p, so the C string there ends. */
  ghost predicate Ends(s: string, p: nat) {
    exists q :: p <= q < |s| && s[q] == NUL
  }

  /* Tokens */

  predicate Blank(c: char) {
    c == ' ' || c == '\t'
  }

  function SkipBlanks(s: string): string {
    if s != "" && Blank(s[0]) then SkipBlanks(s[1..]) else s
  }

  /** The longest prefix without a blank. */
  function Word(s: string): string {
    if s == "" || Blank(s[0]) then "" else [s[0]] + Word(s[1..])
  }

  /** What follows the longest prefix without a blank and the one blank after it. */
  function AfterWord(s: string): string {
    if s == "" then "" else if Blank(s[0]) then s[1..] else AfterWord(s[1..])
  }

  lemma {:induction false} SkipBlanksLength(s: string)
    ensures |SkipBlanks(s)| <= |s|
    ensures SkipBlanks(s) != "" ==> !Blank(SkipBlanks(s)[0])
  {
    if s != "" && Blank(s[0]) {
      SkipBlanksLength(s[1..]);
    }
  }

  lemma {:induction false} AfterWordLength(s: string)
    ensures |AfterWord(s)| <= |s|
    ensures s != "" ==> |AfterWord(s)| < |s|
  {
    if s != "" && !Blank(s[0]) {
      AfterWordLength(s[1..]);
    }
  }

  /** The maximal runs of characters that are not blanks. */
  function Tokens(s: string): seq<string>
    decreases |s|
  {
    var t := SkipBlanks(s);
    if t == "" then []
    else SkipBlanksLength(s); AfterWordLength(t); [Word(t)] + Tokens(AfterWord(t))
  }

  /** A string that can stand as one token. */
  predicate IsWord(w: string) {
    w != "" && forall i :: 0 <= i < |w| ==> !Blank(w[i])
  }

  /** The strings one after the other with a space between neighbours. */
  function Join(ws: seq<string>): string {
    if ws == [] then "" else if |ws| == 1 then ws[0] else ws[0] + " " + Join(ws[1..])
  }

  lemma {:induction false} WordOfPrefix(w: string, rest: string)
    requires forall i :: 0 <= i < |w| ==> !Blank(w[i])
    ensures Word(w + " " + rest) == w && AfterWord(w + " " + rest) == rest
    ensures Word(w) == w && AfterWord(w) == ""
  {
    if w == "" {
      assert "" + " " + rest == " " + rest;
      assert (" " + rest)[1..] == rest;
    } else {
      WordOfPrefix(w[1..], rest);
      assert (w + " " + rest)[1..] == w[1..] + " " + rest;
    }
  }

  lemma TokensOfWordFirst(w: string, rest: string)
    requires IsWord(w)
    ensures Tokens(w + " " + rest) == [w] + Tokens(rest)
    ensures Tokens(w) == [w]
  {
    WordOfPrefix(w, rest);
    assert SkipBlanks(w + " " + rest) == w + " " + rest;
    assert SkipBlanks(w) == w;
  }

  /** Words joined by spaces come apart into the same words. */
  lemma {:induction false} TokensOfJoin(ws: seq<string>)
    requires forall w :: w in ws ==> IsWord(w)
    ensures Tokens(Join(ws)) == ws
  {
    if ws == [] {
    } else {
      TokensOfWordFirst(ws[0], if |ws| == 1 then "" else Join(ws[1..]));
      if |ws| > 1 {
        TokensOfJoin(ws[1..]);
      }
    }
  }

  /* The client's splitting */

  /** The pieces between single spaces, empty ones included. */
  function SplitOnSpace(s: string): (r: seq<string>)
    ensures r != []
  {
    if s == "" then [""]
    else
      var r := SplitOnSpace(s[1..]);
      if s[0] == ' ' then [""] + r else [[s[0]] + r[0]] + r[1..]
  }

  function NonEmpty(ss: seq<string>): seq<string> {
    if ss == [] then []
    else if ss[0] == "" then NonEmpty(ss[1..])
    else [ss[0]] + NonEmpty(ss[1..])
  }

  /** How the client takes a response apart. */
  function CosimWords(s: string): seq<string> {
    NonEmpty(SplitOnSpace(s))
  }

  lemma {:induction false} SplitAtWord(s: string)
    requires '\t' !in s
    ensures SplitOnSpace(s)[0] == Word(s)
    ensures SplitOnSpace(s)[1..] == if Word(s) == s then [] else SplitOnSpace(AfterWord(s))
    ensures '\t' !in AfterWord(s)
    ensures Word(s) == s ==> AfterWord(s) == ""
  {
    if s == "" {
    } else {
      SplitAtWord(s[1..]);
      if s[0] != ' ' && Word(s) == s {
        assert Word(s)[1..] == Word(s[1..]);
      }
    }
  }

  lemma SplitSkipsBlank(s: string)
    requires '\t' !in s && s != "" && Blank(s[0])
    ensures CosimWords(s) == CosimWords(s[1..])
    ensures Tokens(s) == Tokens(s[1..])
  {
    assert SplitOnSpace(s)[1..] == SplitOnSpace(s[1..]);
  }

  /** On a line without tabs the client's splitting finds exactly the tokens that the
      monitor's would. */
  lemma {:induction false} CosimWordsAreTokens(s: string)
    requires '\t' !in s
    ensures CosimWords(s) == Tokens(s)
    decreases |s|
  {
    if s == "" {
      assert SplitOnSpace(s)[1..] == [];
    } else if Blank(s[0]) {
      SplitSkipsBlank(s);
      CosimWordsAreTokens(s[1..]);
    } else {
      SplitAtWord(s);
      AfterWordLength(s);
      CosimWordsAreTokens(AfterWord(s));
      assert SkipBlanks(s) == s;
      if Word(s) == s {
        assert Tokens("") == [];
      }
    }
  }

  /* Decimal words */

  predicate IsDigit(c: char) {
    '0' <= c <= '9'
  }

  predicate AllDigits(s: string) {
    forall i :: 0 <= i < |s| ==> IsDigit(s[i])
  }

  /** The number a string of decimal digits stands for. */
  function DecimalValue(s: string): nat
    requires AllDigits(s)
  {
    if s == "" then 0
    else DecimalValue(s[..|s| - 1]) * 10 + (s[|s| - 1] as int - '0' as int)
  }

  /** The decimal digits of n, without leading zeros. */
  function DecimalOf(n: nat): string {
    (if n < 10 then "" else DecimalOf(n / 10)) + [('0' as int + n % 10) as char]
  }

  /** What a state word's text must be, and the word it means. */
  function ParseWord(s: string): Option<u32> {
    if s != "" && AllDigits(s) && DecimalValue(s) < 0x1_0000_0000 then Some(DecimalValue(s) as u32) else None
  }

  lemma AppendDigit(h: string, d: nat)
    requires AllDigits(h) && d < 10
    ensures var s := h + [('0' as int + d) as char];
      AllDigits(s) && IsWord(s) && DecimalValue(s) == DecimalValue(h) * 10 + d
  {
    var s := h + [('0' as int + d) as char];
    assert s[..|s| - 1] == h;
    assert forall i :: 0 <= i < |h| ==> s[i] == h[i];
  }

  /** Printing a number and reading it back gives the number. */
  lemma {:induction false} DecimalRoundTrip(n: nat)
    ensures AllDigits(DecimalOf(n)) && IsWord(DecimalOf(n))
    ensures DecimalValue(DecimalOf(n)) == n
  {
    if n >= 10 {
      DecimalRoundTrip(n / 10);
    }
    var h := if n < 10 then "" else DecimalOf(n / 10);
    AppendDigit(h, n % 10);
    assert DecimalOf(n) == h + [('0' as int + n % 10) as char];
  }

  function PowerOfTen(k: nat): nat {
    if k == 0 then 1 else 10 * PowerOfTen(k - 1)
  }

  /** A number below 10^k has at most k digits. */
  lemma {:induction false} DecimalLength(n: nat, k: nat, bound: nat)
    requires k > 0 && n < bound && bound == PowerOfTen(k)
    ensures 0 < |DecimalOf(n)| <= k
  {
    if n >= 10 {
      DecimalLength(n / 10, k - 1, PowerOfTen(k - 1));
    }
  }

  lemma WordLength(w: u32)
    ensures 0 < |DecimalOf(w as int)| <= 10
  {
    assert PowerOfTen(5) == 100000;
    assert PowerOfTen(10) == 100000 * PowerOfTen(5);
    DecimalLength(w as int, 10, PowerOfTen(10));
  }

  lemma ParseDecimal(w: u32)
    ensures IsWord(DecimalOf(w as int)) && ParseWord(DecimalOf(w as int)) == Some(w)
  {
    DecimalRoundTrip(w as int);
  }

  /** More digits never make a smaller number. */
  lemma {:induction false} DecimalGrows(s: string, r: string)
    requires AllDigits(s + r)
    ensures AllDigits(s) && DecimalValue(s) <= DecimalValue(s + r)
  {
    assert forall i :: 0 <= i < |s| ==> s[i] == (s + r)[i];
    if r == "" {
      assert s + r == s;
    } else {
      var t := r[..|r| - 1];
      assert (s + r)[..|s + r| - 1] == s + t;
      assert forall i :: 0 <= i < |s + t| ==> (s + t)[i] == (s + r)[i];
      DecimalGrows(s, t);
    }
  }

  /* Hexadecimal code */

  /** The value of a hexadecimal digit of either case, or -1. */
  function HexDigit(c: char): (r: int)
    ensures -1 <= r < 16
  {
    if '0' <= c <= '9' then c as int - '0' as int
    else if 'a' <= c <= 'f' then c as int - 'a' as int + 10
    else if 'A' <= c <= 'F' then c as int - 'A' as int + 10
    else -1
  }

  predicate AllHex(s: string) {
    forall i :: 0 <= i < |s| ==> HexDigit(s[i]) >= 0
  }

  /** The bytes a string of hexadecimal digit pairs stands for. */
  function HexValue(s: string): (b: seq<u8>)
    requires AllHex(s)
    ensures |b| == |s| / 2
  {
    if |s| < 2 then [] else [(16 * HexDigit(s[0]) + HexDigit(s[1])) as u8] + HexValue(s[2..])
  }

  /** What a code argument must be, and the bytes it means. */
  function DecodeHex(s: string): Option<seq<u8>> {
    if s != "" && |s| % 8 == 0 && |s| / 2 <= MAX_CODE && AllHex(s) then Some(HexValue(s)) else None
  }

  function HexChar(d: nat): char
    requires d < 16
  {
    if d < 10 then ('0' as int + d) as char else ('a' as int + (d - 10)) as char
  }

  /** Two lower-case hexadecimal digits for every byte. */
  function HexOfBytes(b: seq<u8>): (s: string)
    ensures |s| == 2 * |b|
  {
    if b == [] then "" else [HexChar(b[0] as int / 16), HexChar(b[0] as int % 16)] + HexOfBytes(b[1..])
  }

  lemma {:induction false} HexRoundTrip(b: seq<u8>)
    ensures AllHex(HexOfBytes(b))
    ensures HexValue(HexOfBytes(b)) == b
  {
    if b == [] {
    } else {
      HexRoundTrip(b[1..]);
      var s := HexOfBytes(b);
      assert s[2..] == HexOfBytes(b[1..]);
      assert forall i :: 2 <= i < |s| ==> s[i] == HexOfBytes(b[1..])[i - 2];
    }
  }

  /** The client's rendering of a code sequence is accepted, as the same bytes, exactly
      when the sequence is whole words and fits the monitor's buffer. */
  lemma DecodeIff(b: seq<u8>)
    ensures DecodeHex(HexOfBytes(b)) == if 0 < |b| <= MAX_CODE && |b| % 4 == 0 then Some(b) else None
  {
    HexRoundTrip(b);
    hide HexValue, HexOfBytes, AllHex;
    assert |HexOfBytes(b)| % 8 == 0 <==> |b| % 4 == 0;
  }

  lemma HexIsWord(b: seq<u8>)
    requires b != []
    ensures IsWord(HexOfBytes(b))
  {
    HexRoundTrip(b);
    var s := HexOfBytes(b);
    forall i | 0 <= i < |s|
      ensures !Blank(s[i])
    {
      assert HexDigit(s[i]) >= 0;
    }
  }
}
