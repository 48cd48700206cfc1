/**
 * `splitArguments` of src/args_parser.cpp: the quote-aware tokenizer that is
 * the first stage of `parseCommandLine`.
 *
 * Three states: outside quotes whitespace ends a token and a backslash is an
 * ordinary character; inside single quotes everything up to the next `'` is
 * literal; inside double quotes a backslash escapes a following backslash or
 * quote. Quote characters only switch the state: they never end a token, and
 * a token is emitted only when it is non-empty.
 */
module ArgsParserCpp {
  import opened Text

  datatype State = Default | InSingleQuotes | InDoubleQuotes

  /** The characters a backslash escapes inside double quotes. */
  predicate EscapedInDouble(c: char)
  {
    c == '\\' || c == '"' || c == '\''
  }

  /** The token list a non-empty pending token adds at a boundary. */
  function Flush(cur: string): (ts: seq<string>)
    ensures cur == [] ==> ts == []
    ensures cur != [] ==> ts == [cur]
  {
    if cur == [] then [] else [cur]
  }

  /**
   * The tokens still to come when the rest of the input is `s`, the machine is
   * in state `st` and `cur` has been accumulated.
   */
  function Scan(s: string, st: State, cur: string): (ts: seq<string>)
    ensures forall k | 0 <= k < |ts| :: ts[k] != []
    decreases |s|
  {
    if s == [] then Flush(cur)
    else
      var c := s[0];
      match st
      case Default =>
        if IsSpace(c) then Flush(cur) + Scan(s[1..], Default, [])
        else if c == '\'' then Scan(s[1..], InSingleQuotes, cur)
        else if c == '"' then Scan(s[1..], InDoubleQuotes, cur)
        else Scan(s[1..], Default, cur + [c])
      case InSingleQuotes =>
        if c == '\'' then Scan(s[1..], Default, cur)
        else Scan(s[1..], InSingleQuotes, cur + [c])
      case InDoubleQuotes =>
        if c == '"' then Scan(s[1..], Default, cur)
        else if c == '\\' && |s| >= 2 && EscapedInDouble(s[1]) then Scan(s[2..], InDoubleQuotes, cur + [s[1]])
        else Scan(s[1..], InDoubleQuotes, cur + [c])
  }

  /** The tokens of a whole command line. */
  function Tokens(input: string): (ts: seq<string>)
    ensures forall k | 0 <= k < |ts| :: ts[k] != []
  {
    Scan(input, Default, [])
  }

  /** `splitArguments`: the state machine over `input`, one character (or escape pair) per step. */
  method SplitArguments(input: string) returns (tokens: seq<string>)
    ensures tokens == Tokens(input)
    ensures forall k | 0 <= k < |tokens| :: tokens[k] != []
  {
    tokens := [];
    var current := "";
    var state := Default;
    var i := 0;
    while i < |input|
      invariant i <= |input|
      invariant tokens + Scan(input[i..], state, current) == Tokens(input)
      decreases |input| - i
    {
      var c := input[i];
      var next := if i + 1 < |input| then input[i + 1] else '\0';
      ghost var rest := input[i..];
      assert rest[0] == c && rest[1..] == input[i + 1..];
      match state {
        case Default =>
          if IsSpace(c) {
            if current != [] {
              tokens := tokens + [current];
              current := "";
            }
          } else if c == '\'' {
            state := InSingleQuotes;
          } else if c == '"' {
            state := InDoubleQuotes;
          } else {
            current := current + [c];
          }
        case InSingleQuotes =>
          if c == '\'' {
            state := Default;
          } else {
            current := current + [c];
          }
        case InDoubleQuotes =>
          if c == '"' {
            state := Default;
          } else if c == '\\' {
            if EscapedInDouble(next) {
              assert i + 1 < |input| && next == rest[1];
              assert rest[2..] == input[i + 2..];
              current := current + [next];
              i := i + 1;
            } else {
              current := current + [c];
            }
          } else {
            current := current + [c];
          }
      }
      i := i + 1;
    }
    tokens := tokens + Flush(current);
    NoEmptyTokens(input);
  }

  /** No token is ever empty. */
  lemma NoEmptyTokens(input: string)
    ensures forall k | 0 <= k < |Tokens(input)| :: Tokens(input)[k] != []
  {
    ScanNonEmpty(input, Default, []);
  }

  lemma {:induction false} ScanNonEmpty(s: string, st: State, cur: string)
    ensures forall k | 0 <= k < |Scan(s, st, cur)| :: Scan(s, st, cur)[k] != []
    decreases |s|
  {
    if s != [] {
      var c := s[0];
      match st
      case Default =>
        if IsSpace(c) { ScanNonEmpty(s[1..], Default, []); }
        else if c == '\'' { ScanNonEmpty(s[1..], InSingleQuotes, cur); }
        else if c == '"' { ScanNonEmpty(s[1..], InDoubleQuotes, cur); }
        else { ScanNonEmpty(s[1..], Default, cur + [c]); }
      case InSingleQuotes =>
        if c == '\'' { ScanNonEmpty(s[1..], Default, cur); }
        else { ScanNonEmpty(s[1..], InSingleQuotes, cur + [c]); }
      case InDoubleQuotes =>
        if c == '"' { ScanNonEmpty(s[1..], Default, cur); }
        else if c == '\\' && |s| >= 2 && EscapedInDouble(s[1]) { ScanNonEmpty(s[2..], InDoubleQuotes, cur + [s[1]]); }
        else { ScanNonEmpty(s[1..], InDoubleQuotes, cur + [c]); }
    }
  }

  // ---------------------------------------------------------------------------
  // Inputs without quotes

  /** Neither quote character occurs in `s`. */
  predicate QuoteFree(s: string)
  {
    forall k | 0 <= k < |s| :: s[k] != '\'' && s[k] != '"'
  }

  /** The words of a string that starts with a word are that word and the words after it. */
  lemma WordsFromWord(t: string)
    requires TakeWord(t) != []
    ensures Words(t) == [TakeWord(t)] + Words(t[|TakeWord(t)|..])
  {
  }

  /** What the tokens outside quotes are when no quote lies ahead: `cur` joins the first word. */
  function JoinWords(s: string, cur: string): seq<string>
  {
    var w := TakeWord(s);
    if cur + w == [] then Words(s) else [cur + w] + Words(s[|w|..])
  }

  /**
   * Outside quotes, with no quotes ahead, the pending token joins the word
   * that starts the rest of the input, and the remaining tokens are the words.
   */
  lemma {:induction false} ScanQuoteFree(s: string, cur: string)
    requires QuoteFree(s)
    ensures Scan(s, Default, cur) == JoinWords(s, cur)
    decreases |s|
  {
    if s == [] {
      assert TakeWord(s) == [] && cur + [] == cur;
    } else {
      var c := s[0];
      assert QuoteFree(s[1..]) by {
        forall k | 0 <= k < |s[1..]| ensures s[1..][k] != '\'' && s[1..][k] != '"' {
          assert s[1..][k] == s[k + 1];
        }
      }
      if IsSpace(c) {
        ScanQuoteFree(s[1..], []);
        SpaceStep(s, cur);
      } else {
        assert c != '\'' && c != '"';
        ScanQuoteFree(s[1..], cur + [c]);
        WordStep(s, cur);
      }
    }
  }

  /** A space ends the pending token; the rest of the line is its words. */
  lemma SpaceStep(s: string, cur: string)
    requires s != [] && IsSpace(s[0])
    ensures Flush(cur) + JoinWords(s[1..], []) == JoinWords(s, cur)
  {
    JoinNothing(s[1..]);
    WordsSkipSpace(s);
    assert TakeWord(s) == [] && s[0..] == s && cur + [] == cur;
  }

  /** With nothing pending, the tokens ahead are the words. */
  lemma JoinNothing(t: string)
    ensures JoinWords(t, []) == Words(t)
  {
    var w := TakeWord(t);
    assert [] + w == w;
    if w != [] {
      WordsFromWord(t);
    }
  }

  /** Leading whitespace has no words. */
  lemma WordsSkipSpace(s: string)
    requires s != [] && IsSpace(s[0])
    ensures Words(s) == Words(s[1..])
  {
    assert TrimLeft(s) == TrimLeft(s[1..]);
  }

  /** A character of a word joins the pending token. */
  lemma WordStep(s: string, cur: string)
    requires s != [] && !IsSpace(s[0])
    ensures JoinWords(s[1..], cur + [s[0]]) == JoinWords(s, cur)
  {
    var w := TakeWord(s);
    var w' := TakeWord(s[1..]);
    assert w == [s[0]] + w';
    Associative(cur, [s[0]], w');
    assert s[|w|..] == s[1..][|w'|..];
  }

  lemma Associative(a: string, b: string, c: string)
    ensures a + b + c == a + (b + c)
  {
  }

  /**
   * On a line without quotes the tokens are exactly the whitespace-separated
   * words; in particular a backslash is an ordinary character there.
   */
  lemma QuoteFreeTokens(s: string)
    requires QuoteFree(s)
    ensures Tokens(s) == Words(s)
  {
    ScanQuoteFree(s, []);
    var w := TakeWord(s);
    assert Scan(s, Default, []) == JoinWords(s, []);
    assert [] + w == w;
    if w != [] {
      WordsFromWord(s);
    }
  }

  // ---------------------------------------------------------------------------
  // Quoted text

  /** Inside single quotes every character up to the closing quote is copied literally. */
  lemma {:induction false} ScanSingleQuoted(w: string, rest: string, cur: string)
    requires forall k | 0 <= k < |w| :: w[k] != '\''
    ensures Scan(w + ['\''] + rest, InSingleQuotes, cur) == Scan(rest, Default, cur + w)
    decreases |w|
  {
    var s := w + ['\''] + rest;
    if w == [] {
      assert s[1..] == rest;
      assert cur + w == cur;
    } else {
      assert s[1..] == w[1..] + ['\''] + rest;
      ScanSingleQuoted(w[1..], rest, cur + [w[0]]);
      assert cur + [w[0]] + w[1..] == cur + w;
    }
  }

  /** How a string is written inside double quotes: a backslash before each backslash and `"`. */
  function EscapeDouble(w: string): (e: string)
    ensures |e| >= |w|
    ensures forall k | 0 <= k < |e| :: e[k] == '"' ==> k > 0 && e[k - 1] == '\\'
  {
    if w == [] then []
    else (if w[0] == '\\' || w[0] == '"' then ['\\', w[0]] else [w[0]]) + EscapeDouble(w[1..])
  }

  /** Inside double quotes an escaped string reads back as the string, up to the closing quote. */
  lemma {:induction false} ScanDoubleQuoted(w: string, rest: string, cur: string)
    ensures Scan(EscapeDouble(w) + ['"'] + rest, InDoubleQuotes, cur) == Scan(rest, Default, cur + w)
    decreases |w|
  {
    var s := EscapeDouble(w) + ['"'] + rest;
    if w == [] {
      assert s[1..] == rest;
      assert cur + w == cur;
    } else {
      var tail := EscapeDouble(w[1..]) + ['"'] + rest;
      if w[0] == '\\' || w[0] == '"' {
        assert s == ['\\', w[0]] + tail;
        assert s[2..] == tail;
      } else {
        assert s == [w[0]] + tail;
        assert s[1..] == tail;
      }
      ScanDoubleQuoted(w[1..], rest, cur + [w[0]]);
      assert cur + [w[0]] + w[1..] == cur + w;
    }
  }

  /** A single-quoted non-empty string without `'` is one token holding exactly that string. */
  lemma SingleQuotedToken(w: string)
    requires w != [] && forall k | 0 <= k < |w| :: w[k] != '\''
    ensures Tokens(['\''] + w + ['\'']) == [w]
  {
    var s := ['\''] + w + ['\''];
    assert s[1..] == w + ['\''] + [];
    ScanSingleQuoted(w, [], []);
    assert [] + w == w;
  }

  /** Every non-empty string, escaped and put in double quotes, is one token holding exactly that string. */
  lemma DoubleQuotedToken(w: string)
    requires w != []
    ensures Tokens(['"'] + EscapeDouble(w) + ['"']) == [w]
  {
    var s := ['"'] + EscapeDouble(w) + ['"'];
    assert s[1..] == EscapeDouble(w) + ['"'] + [];
    ScanDoubleQuoted(w, [], []);
    assert [] + w == w;
  }

  /** An unclosed single quote still emits what was accumulated, as the last token. */
  lemma {:induction false} UnclosedSingleQuote(w: string, cur: string)
    requires forall k | 0 <= k < |w| :: w[k] != '\''
    ensures Scan(w, InSingleQuotes, cur) == Flush(cur + w)
    decreases |w|
  {
    if w == [] {
      assert cur + w == cur;
    } else {
      UnclosedSingleQuote(w[1..], cur + [w[0]]);
      assert cur + [w[0]] + w[1..] == cur + w;
    }
  }

  /** An unclosed double quote still emits what was accumulated, as the last token. */
  lemma {:induction false} UnclosedDoubleQuote(w: string, cur: string)
    ensures Scan(EscapeDouble(w), InDoubleQuotes, cur) == Flush(cur + w)
    decreases |w|
  {
    var s := EscapeDouble(w);
    if w == [] {
      assert cur + w == cur;
    } else {
      var tail := EscapeDouble(w[1..]);
      if w[0] == '\\' || w[0] == '"' {
        assert s == ['\\', w[0]] + tail;
        assert s[2..] == tail;
      } else {
        assert s == [w[0]] + tail;
        assert s[1..] == tail;
      }
      UnclosedDoubleQuote(w[1..], cur + [w[0]]);
      assert cur + [w[0]] + w[1..] == cur + w;
    }
  }

  // ---------------------------------------------------------------------------
  // Examples

  /** Quotes do not end a token: `a"b c"d` is the single token `ab cd`. */
  lemma QuotesJoinExample()
    ensures Tokens("a\"b c\"d") == ["ab cd"]
  {
    QuotesJoinOpen();
    ScanDoubleQuoted("b c", "d", "a");
    assert "a" + "b c" == "ab c" && "ab c" + ['d'] == "ab cd" && "d"[1..] == [];
    assert Scan("d", Default, "ab c") == Scan([], Default, "ab cd");
  }

  /** The first two steps on `a"b c"d`: `a` is kept, then the double quote opens. */
  lemma QuotesJoinOpen()
    ensures Tokens("a\"b c\"d") == Scan(EscapeDouble("b c") + ['"'] + "d", InDoubleQuotes, "a")
  {
    var s := "a\"b c\"d";
    assert s[1..] == "\"b c\"d" && [] + ['a'] == "a";
    assert Scan(s, Default, []) == Scan("\"b c\"d", Default, "a");
    assert "\"b c\"d"[1..] == EscapeDouble("b c") + ['"'] + "d";
  }

  /** An empty pair of quotes yields no token at all. */
  lemma EmptyQuotesExample()
    ensures Tokens("\"\"") == []
    ensures Tokens("''") == []
  {
    assert "\"\""[1..] == EscapeDouble([]) + ['"'] + [];
    ScanDoubleQuoted([], [], []);
    assert "''"[1..] == [] + ['\''] + [];
    ScanSingleQuoted([], [], []);
  }

  /** Outside quotes a backslash stays and does not protect the next space. */
  lemma BackslashOutsideExample()
    ensures Tokens("a\\ b") == ["a\\", "b"]
  {
    var s := "a\\ b";
    assert s[1..] == "\\ b" && s[1..][1..] == " b" && s[1..][1..][1..] == "b" && "b"[1..] == [];
    assert [] + ['a'] == "a" && "a" + ['\\'] == "a\\" && [] + ['b'] == "b";
    assert Scan(s, Default, []) == Scan(s[1..], Default, "a");
    assert Scan(s[1..], Default, "a") == Scan(s[1..][1..], Default, "a\\");
    assert Scan(s[1..][1..], Default, "a\\") == ["a\\"] + Scan("b", Default, []);
    assert Scan("b", Default, []) == Scan([], Default, "b");
  }

  /** Inside double quotes a backslash before an ordinary character stays. */
  lemma BackslashInDoubleExample()
    ensures Tokens("\"x\\y\"") == ["x\\y"]
  {
    var t := "\"x\\y\"";
    assert t[1..] == "x\\y\"" && t[2..] == "\\y\"" && t[3..] == "y\"" && t[4..] == "\"" && t[5..] == [];
    assert [] + ['x'] == "x" && "x" + ['\\'] == "x\\" && "x\\" + ['y'] == "x\\y";
    assert Scan(t, Default, []) == Scan(t[1..], InDoubleQuotes, []);
    assert Scan(t[1..], InDoubleQuotes, []) == Scan(t[2..], InDoubleQuotes, "x");
    assert Scan(t[2..], InDoubleQuotes, "x") == Scan(t[3..], InDoubleQuotes, "x\\");
    assert Scan(t[3..], InDoubleQuotes, "x\\") == Scan(t[4..], InDoubleQuotes, "x\\y");
  }

  /** A backslash that ends the input inside double quotes stays in the token. */
  lemma TrailingBackslashExample()
    ensures Tokens("\"x\\") == ["x\\"]
  {
    var u := "\"x\\";
    assert u[1..] == "x\\" && u[1..][1..] == "\\" && "\\"[1..] == [];
    assert [] + ['x'] == "x" && "x" + ['\\'] == "x\\";
    assert Scan(u, Default, []) == Scan(u[1..], InDoubleQuotes, []);
    assert Scan(u[1..], InDoubleQuotes, []) == Scan("\\", InDoubleQuotes, "x");
    assert Scan("\\", InDoubleQuotes, "x") == Scan([], InDoubleQuotes, "x\\");
  }
}
