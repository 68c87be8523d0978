/** The tokenizer of src/fts/mod.rs. */
module Tokens {

  /** The Unicode White_Space characters. */
  predicate IsWhitespace(c: char) {
    var n := c as int;
    || 0x9 <= n <= 0xD || n == 0x20 || n == 0x85 || n == 0xA0 || n == 0x1680
    || 0x2000 <= n <= 0x200A || n == 0x2028 || n == 0x2029 || n == 0x202F || n == 0x205F || n == 0x3000
  }

  predicate IsAscii(c: char) {
    (c as int) < 128
  }

  predicate IsAsciiAlphanumeric(c: char) {
    'a' <= c <= 'z' || 'A' <= c <= 'Z' || '0' <= c <= '9'
  }

  predicate IsDelimiter(c: char) {
    IsWhitespace(c) || (IsAscii(c) && !IsAsciiAlphanumeric(c))
  }

  function Lower(c: char): char {
    if 'A' <= c <= 'Z' then ((c as int) + 32) as char else c
  }

  /** The pieces between delimiters, empty ones included. */
  function SplitWords(s: string): (ws: seq<string>)
    ensures |ws| > 0
  {
    if s == "" then [""]
    else
      var rest := SplitWords(s[1..]);
      if IsDelimiter(s[0]) then [""] + rest else [[s[0]] + rest[0]] + rest[1..]
  }

  function NonEmpty(ws: seq<string>): seq<string> {
    if ws == [] then []
    else if ws[0] == "" then NonEmpty(ws[1..])
    else [ws[0]] + NonEmpty(ws[1..])
  }

  function LowerWord(w: string): (r: string)
    ensures |r| == |w| && forall i :: 0 <= i < |w| ==> r[i] == Lower(w[i])
  {
    seq(|w|, i requires 0 <= i < |w| => Lower(w[i]))
  }

  function LowerAll(ws: seq<string>): (r: seq<string>)
    ensures |r| == |ws|
  {
    seq(|ws|, i requires 0 <= i < |ws| => LowerWord(ws[i]))
  }

  function Tokenize(s: string): seq<string> {
    LowerAll(NonEmpty(SplitWords(s)))
  }

  /** A word the tokenizer would give back unchanged. */
  predicate IsToken(w: string) {
    w != "" && forall c :: c in w ==> !IsDelimiter(c) && Lower(c) == c
  }

  lemma LowerKeeps(c: char)
    ensures Lower(Lower(c)) == Lower(c) && (!IsDelimiter(c) ==> !IsDelimiter(Lower(c)))
  {
  }

  const UPPER := "ABCDEFGHIJKLMNOPQRSTUVWXYZ"

  const LOWER := "abcdefghijklmnopqrstuvwxyz"

  /** Each capital becomes its small letter, everything else stays. */
  lemma LowerLetters(c: char)
    ensures forall i :: 0 <= i < 26 ==> Lower(UPPER[i]) == LOWER[i]
    ensures c !in UPPER ==> Lower(c) == c
  {
    if 'A' <= c <= 'Z' {
      var i := (c as int) - ('A' as int);
      assert UPPER[i] == c;
    }
  }

  lemma {:induction false} SplitAtDelimiter(a: string, c: char, b: string)
    requires IsDelimiter(c)
    ensures SplitWords(a + [c] + b) == SplitWords(a) + SplitWords(b)
  {
    var s := a + [c] + b;
    if a == "" {
      assert s[0] == c && s[1..] == b;
    } else {
      assert s[0] == a[0] && s[1..] == a[1..] + [c] + b;
      SplitAtDelimiter(a[1..], c, b);
    }
  }

  lemma {:induction false} NonEmptyConcat(a: seq<string>, b: seq<string>)
    ensures NonEmpty(a + b) == NonEmpty(a) + NonEmpty(b)
  {
    if a == [] {
      assert a + b == b;
    } else {
      assert (a + b)[0] == a[0] && (a + b)[1..] == a[1..] + b;
      NonEmptyConcat(a[1..], b);
    }
  }

  /** Every delimiter separates: what stands before it and what stands after it are
      tokenized on their own. */
  lemma TokenizeSplits(a: string, c: char, b: string)
    requires IsDelimiter(c)
    ensures Tokenize(a + [c] + b) == Tokenize(a) + Tokenize(b)
  {
    SplitAtDelimiter(a, c, b);
    NonEmptyConcat(SplitWords(a), SplitWords(b));
  }

  lemma {:induction false} SplitWord(w: string)
    requires forall c :: c in w ==> !IsDelimiter(c)
    ensures SplitWords(w) == [w]
  {
    if w != "" {
      SplitWord(w[1..]);
      assert [w[0]] + w[1..] == w;
    }
  }

  /** A text without delimiters is one token, its capitals made small. */
  lemma TokenizeWord(w: string)
    requires forall c :: c in w ==> !IsDelimiter(c)
    ensures Tokenize(w) == if w == "" then [] else [LowerWord(w)]
  {
    SplitWord(w);
    assert NonEmpty([w]) == if w == "" then [] else [w];
  }

  /** Two words and one delimiter between them, as in `Hello,world` or `foo_bar`. */
  lemma TokenizeTwoWords(a: string, c: char, b: string)
    requires a != "" && b != "" && IsDelimiter(c) && forall x :: x in a || x in b ==> !IsDelimiter(x)
    ensures Tokenize(a + [c] + b) == [LowerWord(a), LowerWord(b)]
  {
    TokenizeSplits(a, c, b);
    TokenizeWord(a);
    TokenizeWord(b);
  }

  /** Of the ASCII characters all but letters and digits separate, of the others white
      space alone. */
  lemma DelimiterIff(c: char)
    ensures (c as int) < 128 ==> (IsDelimiter(c) <==> !('a' <= c <= 'z') && !('A' <= c <= 'Z') && !('0' <= c <= '9'))
    ensures (c as int) >= 128 ==> (IsDelimiter(c) <==> IsWhitespace(c))
    ensures IsWhitespace('\U{A0}') && IsWhitespace('\U{2028}') && IsWhitespace('\U{3000}') && !IsWhitespace('\U{E9}')
  {
  }

  lemma {:induction false} WordsFreeOfDelimiters(s: string, w: string)
    requires w in SplitWords(s)
    ensures forall c :: c in w ==> !IsDelimiter(c)
  {
    if s != "" {
      var rest := SplitWords(s[1..]);
      if w in rest {
        WordsFreeOfDelimiters(s[1..], w);
      } else if w != "" {
        WordsFreeOfDelimiters(s[1..], rest[0]);
      }
    }
  }

  lemma {:induction false} NonEmptyMembers(ws: seq<string>, w: string)
    requires w in NonEmpty(ws)
    ensures w in ws && w != ""
  {
    if w in NonEmpty(ws[1..]) {
      NonEmptyMembers(ws[1..], w);
    }
  }

  lemma TokensAreTokens(s: string)
    ensures forall w :: w in Tokenize(s) ==> IsToken(w)
  {
    var ws := NonEmpty(SplitWords(s));
    forall i | 0 <= i < |ws|
      ensures IsToken(LowerWord(ws[i]))
    {
      NonEmptyMembers(SplitWords(s), ws[i]);
      WordsFreeOfDelimiters(s, ws[i]);
      forall c | c in LowerWord(ws[i])
        ensures !IsDelimiter(c) && Lower(c) == c
      {
        var k :| 0 <= k < |ws[i]| && c == Lower(ws[i][k]);
        LowerKeeps(ws[i][k]);
      }
    }
  }

  function Spaced(ws: seq<string>): string {
    if ws == [] then "" else ws[0] + " " + Spaced(ws[1..])
  }

  lemma {:induction false} SplitAfterWord(w: string, s: string)
    requires forall c :: c in w ==> !IsDelimiter(c)
    ensures SplitWords(w + " " + s) == [w] + SplitWords(s)
  {
    var t := w + " " + s;
    if w == "" {
      assert t[0] == ' ' && t[1..] == s;
    } else {
      assert t[0] == w[0] && t[1..] == w[1..] + " " + s;
      SplitAfterWord(w[1..], s);
      assert [w[0]] + w[1..] == w;
    }
  }

  /** Tokens written out with spaces between them tokenize to themselves. */
  lemma {:induction false} TokenizeSpaced(ws: seq<string>)
    requires forall w :: w in ws ==> IsToken(w)
    ensures Tokenize(Spaced(ws)) == ws
  {
    if ws != [] {
      TokenizeSpaced(ws[1..]);
      assert IsToken(ws[0]);
      SplitAfterWord(ws[0], Spaced(ws[1..]));
      var rest := SplitWords(Spaced(ws[1..]));
      assert ([ws[0]] + rest)[1..] == rest;
      assert LowerWord(ws[0]) == ws[0] by {
        forall i | 0 <= i < |ws[0]|
          ensures LowerWord(ws[0])[i] == ws[0][i]
        {
          assert ws[0][i] in ws[0];
        }
      }
    } else {
      assert SplitWords("") == [""] && [""][1..] == [];
    }
  }

  /** Tokenizing loses nothing that matters to tokenizing. */
  lemma TokenizeStable(s: string)
    ensures Tokenize(Spaced(Tokenize(s))) == Tokenize(s)
  {
    TokensAreTokens(s);
    TokenizeSpaced(Tokenize(s));
  }
}
