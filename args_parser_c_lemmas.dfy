/**
 * Properties of the C tokenizer: its bounds, its quoting and escaping rules,
 * and its agreement with the word splitting of `Text` and with the C++
 * tokenizer on plain input.
 */
module ArgsParserCLemmas {
  import opened Text
  import opened ArgsParserC
  import ArgsParserCpp

  /** Input with no quote, no backslash and no terminator. */
  predicate Plain(s: string)
  {
    forall k | 0 <= k < |s| :: s[k] != '"' && s[k] != '\'' && s[k] != '\\' && s[k] != '\0'
  }

  /** A word as the 256-character buffer keeps it: its first 255 characters. */
  function Truncate(w: string): (t: string)
    ensures |t| < MAX_TOKEN_LEN && |t| <= |w| && t == w[..|t|]
    ensures |w| < MAX_TOKEN_LEN ==> t == w
  {
    if |w| < MAX_TOKEN_LEN then w else w[..MAX_TOKEN_LEN - 1]
  }

  /** The words that fit in the array when `n` slots are taken, each truncated. */
  function Capped(ws: seq<string>, n: nat): (r: seq<string>)
    requires n <= MAX_TOKENS
    ensures |r| <= MAX_TOKENS - n && |r| <= |ws|
    decreases MAX_TOKENS - n
  {
    if ws == [] || n == MAX_TOKENS then [] else [Truncate(ws[0])] + Capped(ws[1..], n + 1)
  }

  /** At most 64 tokens of at most 255 characters from any offset. */
  lemma {:induction false} SplitFromBounds(s: string, p: nat, n: nat)
    requires p <= |s| && n <= MAX_TOKENS
    ensures |SplitFrom(s, p, n)| <= MAX_TOKENS - n
    ensures forall k | 0 <= k < |SplitFrom(s, p, n)| :: |SplitFrom(s, p, n)[k]| < MAX_TOKEN_LEN
    decreases |s| - p
  {
    if n < MAX_TOKENS && At(s, p) != '\0' {
      var q := SkipSpaces(s, p);
      if At(s, q) != '\0' {
        SplitFromBounds(s, Token(s, q).end, n + 1);
      }
    }
  }

  /** `split_args` never yields more than 64 tokens or a token longer than 255 characters. */
  lemma SplitBounds(s: string)
    ensures |Split(s)| <= MAX_TOKENS
    ensures forall k | 0 <= k < |Split(s)| :: |Split(s)[k]| < MAX_TOKEN_LEN
  {
    SplitFromBounds(s, 0, 0);
  }

  /** Skipping blanks from `p` leaves what `TrimLeft` leaves of the rest. */
  lemma {:induction false} SkipSpacesTrim(s: string, p: nat)
    requires p <= |s|
    ensures s[SkipSpaces(s, p)..] == TrimLeft(s[p..])
    decreases |s| - p
  {
    if p < |s| && IsSpace(s[p]) {
      assert s[p..][1..] == s[p + 1..];
      SkipSpacesTrim(s, p + 1);
    }
  }

  /** On plain input the character loop collects the word at `p`, truncated. */
  lemma {:induction false} ReadTokenPlain(s: string, p: nat, tok: string, e: nat)
    requires Plain(s) && p <= |s| && |tok| < MAX_TOKEN_LEN && e == p + |TakeWord(s[p..])|
    ensures ReadToken(s, p, '\0', tok).text == Truncate(tok + TakeWord(s[p..]))
    ensures ReadToken(s, p, '\0', tok).end == e
    decreases |s| - p
  {
    if p < |s| && !IsSpace(s[p]) {
      var p1 := p + 1;
      var tok' := if |tok| < MAX_TOKEN_LEN - 1 then tok + [s[p]] else tok;
      ReadTokenPlainStep(s, p, p1, tok, tok');
      TakeWordCons(s, p, p1);
      ReadTokenPlain(s, p1, tok', e);
      TruncateCons(tok, s[p], TakeWord(s[p1..]));
    } else {
      assert !InToken(s, p, '\0');
      assert TakeWord(s[p..]) == [];
      assert tok + TakeWord(s[p..]) == tok;
    }
  }

  /** On plain input one step of the character loop keeps the character as it is. */
  lemma ReadTokenPlainStep(s: string, p: nat, p1: nat, tok: string, tok': string)
    requires Plain(s) && p < |s| && !IsSpace(s[p]) && p1 == p + 1 && |tok| < MAX_TOKEN_LEN
    requires tok' == if |tok| < MAX_TOKEN_LEN - 1 then tok + [s[p]] else tok
    ensures ReadToken(s, p, '\0', tok) == ReadToken(s, p1, '\0', tok')
  {
    assert InToken(s, p, '\0') && EscapeSkip(s, p) == p;
  }

  /** The word at a non-blank offset is its character and the word after it. */
  lemma TakeWordCons(s: string, p: nat, p1: nat)
    requires p < |s| && !IsSpace(s[p]) && p1 == p + 1
    ensures TakeWord(s[p..]) == [s[p]] + TakeWord(s[p1..])
    ensures |TakeWord(s[p..])| == 1 + |TakeWord(s[p1..])|
  {
    assert s[p..][1..] == s[p1..];
  }

  /** Truncating after one more character agrees with the buffer dropping it when full. */
  lemma TruncateCons(tok: string, c: char, w: string)
    requires |tok| < MAX_TOKEN_LEN
    ensures Truncate(tok + ([c] + w)) == Truncate((if |tok| < MAX_TOKEN_LEN - 1 then tok + [c] else tok) + w)
  {
    if |tok| < MAX_TOKEN_LEN - 1 {
      assert tok + ([c] + w) == tok + [c] + w;
    } else {
      assert (tok + ([c] + w))[..MAX_TOKEN_LEN - 1] == tok;
      if w != [] {
        assert (tok + w)[..MAX_TOKEN_LEN - 1] == tok;
      } else {
        assert tok + w == tok;
      }
    }
  }

  /** On plain input a token is the word at its offset, truncated. */
  lemma PlainToken(s: string, q: nat, e: nat)
    requires Plain(s) && q < |s| && !IsSpace(s[q]) && e == q + |TakeWord(s[q..])|
    ensures Token(s, q).text == Truncate(TakeWord(s[q..]))
    ensures Token(s, q).end == e
  {
    assert Quote(s, q) == '\0';
    ReadTokenPlain(s, q, [], e);
    assert [] + TakeWord(s[q..]) == TakeWord(s[q..]);
  }

  /** The words after the blanks at `p` are the word at `q` and the words after it. */
  lemma WordsAt(s: string, p: nat, q: nat, e: nat)
    requires p <= q < |s| && q == SkipSpaces(s, p) && e == q + |TakeWord(s[q..])|
    ensures Words(s[p..]) == [TakeWord(s[q..])] + Words(s[e..])
  {
    SkipSpacesTrim(s, p);
    var t := TrimLeft(s[p..]);
    var w := TakeWord(t);
    SuffixOfSuffix(s, q, |w|, e);
  }

  lemma SuffixOfSuffix(s: string, q: nat, k: nat, e: nat)
    requires e == q + k <= |s|
    ensures s[q..][k..] == s[e..]
  {
  }

  /**
   * On plain input, `split_args` yields the first 64 words, each truncated
   * to 255 characters.
   */
  lemma {:induction false} SplitFromPlain(s: string, p: nat, n: nat)
    requires Plain(s) && p <= |s| && n <= MAX_TOKENS
    ensures SplitFrom(s, p, n) == Capped(Words(s[p..]), n)
    decreases |s| - p, 1
  {
    if n == MAX_TOKENS {
      assert SplitFrom(s, p, n) == [];
    } else if SkipSpaces(s, p) == |s| {
      SplitFromPlainEnd(s, p, n);
    } else {
      SplitFromPlainStep(s, p, n);
    }
  }

  /** A word at a non-blank offset is not empty. */
  lemma WordAdvances(s: string, q: nat, e: nat)
    requires q < |s| && !IsSpace(At(s, q)) && e == q + |TakeWord(s[q..])|
    ensures q < e <= |s|
  {
    assert s[q..][0] == s[q];
  }

  /** The blanks at the end of a plain input hold no token and no word. */
  lemma SplitFromPlainEnd(s: string, p: nat, n: nat)
    requires Plain(s) && p <= |s| && n <= MAX_TOKENS && SkipSpaces(s, p) == |s|
    ensures SplitFrom(s, p, n) == [] == Capped(Words(s[p..]), n)
  {
    SkipSpacesTrim(s, p);
    assert TrimLeft(s[p..]) == [];
  }

  /** A round of `split_args` on plain input takes one word, truncated. */
  lemma {:induction false} SplitFromPlainStep(s: string, p: nat, n: nat)
    requires Plain(s) && p <= |s| && n < MAX_TOKENS && SkipSpaces(s, p) < |s|
    ensures SplitFrom(s, p, n) == Capped(Words(s[p..]), n)
    decreases |s| - p, 0
  {
    var q := SkipSpaces(s, p);
    var e := q + |TakeWord(s[q..])|;
    WordAdvances(s, q, e);
    SplitFromPlain(s, e, n + 1);
    assert At(s, p) != '\0';
    var w := TakeWord(s[q..]);
    PlainToken(s, q, e);
    WordsAt(s, p, q, e);
    SplitFromUnfold(s, p, q, n);
    CappedCons(w, Words(s[e..]), n);
  }

  /** `Capped` of a non-empty list. */
  lemma CappedCons(w: string, rest: seq<string>, n: nat)
    requires n < MAX_TOKENS
    ensures Capped([w] + rest, n) == [Truncate(w)] + Capped(rest, n + 1)
  {
    assert ([w] + rest)[1..] == rest;
  }

  /** A round of `split_args` that finds a token at `SkipSpaces(s, p)`. */
  lemma SplitFromUnfold(s: string, p: nat, q: nat, n: nat)
    requires p <= |s| && n < MAX_TOKENS && At(s, p) != '\0'
    requires q == SkipSpaces(s, p) && At(s, q) != '\0'
    ensures SplitFrom(s, p, n) == [Token(s, q).text] + SplitFrom(s, Token(s, q).end, n + 1)
  {
  }

  /** On plain input `split_args` is word splitting, capped. */
  lemma SplitPlain(s: string)
    requires Plain(s)
    ensures Split(s) == Capped(Words(s), 0)
  {
    SplitFromPlain(s, 0, 0);
    assert s[0..] == s;
  }

  /** Capping changes nothing when the words are few and short enough. */
  lemma {:induction false} CappedWithin(ws: seq<string>, n: nat)
    requires n <= MAX_TOKENS && |ws| <= MAX_TOKENS - n
    requires forall k | 0 <= k < |ws| :: |ws[k]| < MAX_TOKEN_LEN
    ensures Capped(ws, n) == ws
    decreases |ws|
  {
    if ws != [] {
      CappedWithin(ws[1..], n + 1);
    }
  }

  /**
   * On plain input of at most 64 words of at most 255 characters, the C and
   * the C++ tokenizer agree.
   */
  lemma TokenizersAgree(s: string)
    requires Plain(s)
    requires |Words(s)| <= MAX_TOKENS
    requires forall k | 0 <= k < |Words(s)| :: |Words(s)[k]| < MAX_TOKEN_LEN
    ensures Split(s) == ArgsParserCpp.Tokens(s)
  {
    SplitPlain(s);
    CappedWithin(Words(s), 0);
    ArgsParserCpp.QuoteFreeTokens(s);
  }

  /** Plain input of more than 64 words loses the words after the 64th. */
  lemma SplitDropsExcess(s: string)
    requires Plain(s) && |Words(s)| > MAX_TOKENS
    ensures |Split(s)| == MAX_TOKENS
  {
    SplitPlain(s);
    CappedLength(Words(s), 0);
  }

  /** `Capped` keeps `m` entries of a longer list. */
  lemma {:induction false} CappedLength(ws: seq<string>, n: nat)
    requires n <= MAX_TOKENS && |ws| >= MAX_TOKENS - n
    ensures |Capped(ws, n)| == MAX_TOKENS - n
    decreases MAX_TOKENS - n
  {
    if n < MAX_TOKENS {
      CappedLength(ws[1..], n + 1);
      assert Capped(ws, n) == [Truncate(ws[0])] + Capped(ws[1..], n + 1);
    }
  }
  /**
   * Characters the loop takes as they are: no backslash, no terminator, and
   * not the closing quote (inside quotes) or whitespace (outside). Outside
   * quotes this includes the quote characters themselves.
   */
  predicate Literal(w: string, quoted: char)
  {
    forall k | 0 <= k < |w| ::
      w[k] != '\\' && w[k] != '\0' && (if quoted != '\0' then w[k] != quoted else !IsSpace(w[k]))
  }

  /** The loop copies a run of literal characters into the token and stops where the token ends. */
  lemma {:induction false} ReadLiteral(s: string, p: nat, quoted: char, tok: string, w: string)
    requires p + |w| <= |s| && s[p..p + |w|] == w && Literal(w, quoted)
    requires |tok| + |w| < MAX_TOKEN_LEN && !InToken(s, p + |w|, quoted)
    ensures ReadToken(s, p, quoted, tok) == Scanned(tok + w, p + |w|)
    decreases |w|
  {
    if w != [] {
      assert s[p] == w[0];
      assert s[p + 1..p + |w|] == w[1..];
      ReadLiteral(s, p + 1, quoted, tok + [w[0]], w[1..]);
      assert tok + [w[0]] + w[1..] == tok + w;
    }
  }

  /**
   * A token quoted by `q` ends at the matching quote, which is skipped: for
   * `q w q` at offset `|pre|` with `w` free of `q`, backslashes and
   * terminators, the token is `w` and the scan resumes after the closing quote.
   */
  lemma QuotedToken(pre: string, q: char, w: string, rest: string)
    requires q == '"' || q == '\''
    requires Literal(w, q) && |w| < MAX_TOKEN_LEN
    ensures var s := pre + [q] + w + [q] + rest;
      Token(s, |pre|) == Scanned(w, |pre| + |w| + 2)
  {
    var s := pre + [q] + w + [q] + rest;
    assert s[|pre|] == q;
    assert s[|pre| + 1..|pre| + 1 + |w|] == w;
    assert s[|pre| + 1 + |w|] == q;
    ReadLiteral(s, |pre| + 1, q, [], w);
    assert [] + w == w;
  }

  /**
   * A backslash before any character but the terminator is dropped and that
   * character kept, whatever it is (a quote, a blank, a backslash), inside
   * quotes and outside.
   */
  lemma EscapedChar(s: string, p: nat, quoted: char, tok: string)
    requires p + 1 < |s| && s[p] == '\\' && s[p + 1] != '\0'
    requires quoted != '\\' && |tok| < MAX_TOKEN_LEN - 1
    ensures ReadToken(s, p, quoted, tok) == ReadToken(s, p + 2, quoted, tok + [s[p + 1]])
  {
    ReadTokenStep(s, p, quoted, tok);
  }

  /** A backslash right before the end of the string is kept, and ends the token. */
  lemma TrailingBackslash(s: string, p: nat, quoted: char, tok: string)
    requires p < |s| && s[p] == '\\' && At(s, p + 1) == '\0'
    requires quoted != '\\' && |tok| < MAX_TOKEN_LEN - 1
    ensures ReadToken(s, p, quoted, tok) == Scanned(tok + ['\\'], p + 1)
  {
    ReadTokenStep(s, p, quoted, tok);
  }

  /** A quote after the first character is an ordinary character. */
  lemma MidQuoteExample()
    ensures Split("ab\"cd") == ["ab\"cd"]
  {
    var s := "ab\"cd";
    assert s[0..5] == s;
    ReadLiteral(s, 0, '\0', [], s);
    assert Token(s, 0) == Scanned(s, 5);
    assert SplitFrom(s, 5, 1) == [];
    assert SplitFrom(s, 0, 0) == [s] + SplitFrom(s, 5, 1);
  }

  /** The closing quote ends the token even with no blank after it. */
  lemma QuoteEndsTokenExample()
    ensures Split("\"ab\"cd") == ["ab", "cd"]
  {
    var s := "\"ab\"cd";
    QuotedToken([], '"', "ab", "cd");
    assert [] + ['"'] + "ab" + ['"'] + "cd" == s;
    assert Token(s, 0) == Scanned("ab", 4);
    assert s[4..6] == "cd";
    ReadLiteral(s, 4, '\0', [], "cd");
    assert Token(s, 4) == Scanned("cd", 6);
    assert SplitFrom(s, 6, 2) == [];
    assert SplitFrom(s, 4, 1) == ["cd"] + SplitFrom(s, 6, 2);
    assert SplitFrom(s, 0, 0) == ["ab"] + SplitFrom(s, 4, 1);
  }

  /** An empty quoted token is kept. */
  lemma EmptyQuotedExample()
    ensures Split("\"\"") == [""]
  {
    var s := "\"\"";
    QuotedToken([], '"', "", "");
    assert [] + ['"'] + "" + ['"'] + "" == s;
    assert Token(s, 0) == Scanned("", 2);
    assert SplitFrom(s, 2, 1) == [];
    assert SplitFrom(s, 0, 0) == [""] + SplitFrom(s, 2, 1);
  }

  /** An escaped blank joins two words. */
  lemma EscapedBlankExample()
    ensures Split("a\\ b") == ["a b"]
  {
    assert ['a'][0] == 'a' && ['b'][0] == 'b';
    EscapedBlankJoins('a', 'b');
    assert ['a', '\\', ' ', 'b'] == "a\\ b";
  }

  /** `x\ y` is the single token `x y`, for ordinary characters `x` and `y`. */
  lemma EscapedBlankJoins(x: char, y: char)
    requires x != '"' && x != '\'' && Literal([x], '\0') && Literal([y], '\0')
    ensures Split([x, '\\', ' ', y]) == [[x, ' ', y]]
  {
    var s := [x, '\\', ' ', y];
    assert [x][0] == x && [y][0] == y;
    assert s[0] == x && s[1] == '\\' && s[2] == ' ' && EscapeSkip(s, 0) == 0 && Quote(s, 0) == '\0';
    ReadTokenStep(s, 0, '\0', []);
    assert [] + [x] == [x];
    EscapedChar(s, 1, '\0', [x]);
    assert [x] + [' '] == [x, ' '];
    assert s[3..4] == [y];
    ReadLiteral(s, 3, '\0', [x, ' '], [y]);
    assert [x, ' '] + [y] == [x, ' ', y];
    assert ReadToken(s, 0, '\0', []) == Scanned([x, ' ', y], 4);
    assert Token(s, 0) == Scanned([x, ' ', y], 4);
    assert SplitFrom(s, 4, 1) == [];
    assert SplitFrom(s, 0, 0) == [[x, ' ', y]] + SplitFrom(s, 4, 1);
  }

  /** A trailing backslash is kept. */
  lemma TrailingBackslashExample()
    ensures Split("a\\") == ["a\\"]
  {
    var s := "a\\";
    assert |s| == 2 && s[0] == 'a' && s[1] == '\\';
    assert InToken(s, 0, '\0') && EscapeSkip(s, 0) == 0;
    ReadTokenStep(s, 0, '\0', []);
    assert ReadToken(s, 0, '\0', []) == ReadToken(s, 1, '\0', "a");
    TrailingBackslash(s, 1, '\0', "a");
    assert Token(s, 0) == Scanned("a\\", 2);
    assert SplitFrom(s, 2, 1) == [];
    assert SplitFrom(s, 0, 0) == ["a\\"] + SplitFrom(s, 2, 1);
  }
}
