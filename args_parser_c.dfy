/**
 * The legacy C tokenizer of src/args_parser.c: `split_args`, `free_args` and
 * the argument checks of `get_args`.
 *
 * The input is a C string: reading at or past its end yields the terminator
 * `'\0'`, and the scan stops at the first terminator. Unlike the C++
 * tokenizer, a quote only counts as the first character of a token, a
 * backslash escapes the next character inside and outside quotes, an empty
 * quoted token is kept, and there are at most 64 tokens of at most 255
 * characters each.
 */
module ArgsParserC {
  import opened Wrappers
  import opened Text
  import opened Errors

  const MAX_TOKENS: nat := 64
  const MAX_TOKEN_LEN: nat := 256

  /** `*p` for the C string `s` at offset `p`: the terminator at or past the end. */
  function At(s: string, p: nat): char
  {
    if p < |s| then s[p] else '\0'
  }

  /** The whitespace-skipping loop: the first offset from `p` that is not whitespace. */
  function SkipSpaces(s: string, p: nat): (q: nat)
    requires p <= |s|
    ensures p <= q <= |s| && !IsSpace(At(s, q))
    ensures forall k | p <= k < q :: IsSpace(s[k])
    decreases |s| - p
  {
    if p < |s| && IsSpace(s[p]) then SkipSpaces(s, p + 1) else p
  }

  /** `quoted` is `'\0'` outside quotes, else the opening quote character. */
  predicate InToken(s: string, p: nat, quoted: char)
  {
    At(s, p) != '\0' && (if quoted != '\0' then At(s, p) != quoted else !IsSpace(At(s, p)))
  }

  /** A backslash escapes the character after it, unless that is the terminator. */
  function EscapeSkip(s: string, p: nat): nat
  {
    if At(s, p) == '\\' && At(s, p + 1) != '\0' then p + 1 else p
  }

  /** A token's text and the offset where its scan stopped. */
  datatype Scanned = Scanned(text: string, end: nat)

  /**
   * The character loop of one token from offset `p` with `tok` collected:
   * the token and the offset where the loop stops. Characters past the 255th
   * are consumed but dropped.
   */
  function ReadToken(s: string, p: nat, quoted: char, tok: string): (r: Scanned)
    requires p <= |s| && |tok| < MAX_TOKEN_LEN
    ensures p <= r.end <= |s| && |r.text| < MAX_TOKEN_LEN
    ensures InToken(s, p, quoted) ==> p < r.end
    decreases |s| - p
  {
    if !InToken(s, p, quoted) then Scanned(tok, p)
    else
      var p1 := EscapeSkip(s, p);
      var tok' := if |tok| < MAX_TOKEN_LEN - 1 then tok + [At(s, p1)] else tok;
      ReadToken(s, p1 + 1, quoted, tok')
  }

  /** One step of the character loop: escape, keep the character while there is room, move on. */
  lemma ReadTokenStep(s: string, p: nat, quoted: char, tok: string)
    requires p <= |s| && |tok| < MAX_TOKEN_LEN && InToken(s, p, quoted)
    ensures var p1 := EscapeSkip(s, p);
      ReadToken(s, p, quoted, tok)
      == ReadToken(s, p1 + 1, quoted, if |tok| < MAX_TOKEN_LEN - 1 then tok + [At(s, p1)] else tok)
  {
  }

  /** The opening quote of a token starting at `q`, or `'\0'` when it is unquoted. */
  function Quote(s: string, q: nat): char
  {
    if At(s, q) == '"' || At(s, q) == '\'' then At(s, q) else '\0'
  }

  /** One whole token starting at the non-blank offset `q`, and the offset after it. */
  function Token(s: string, q: nat): (r: Scanned)
    requires q < |s| && At(s, q) != '\0' && !IsSpace(At(s, q))
    ensures q < r.end <= |s| && |r.text| < MAX_TOKEN_LEN
  {
    var quoted := Quote(s, q);
    var start := if quoted != '\0' then q + 1 else q;
    var r := ReadToken(s, start, quoted, []);
    Scanned(r.text, if quoted != '\0' && At(s, r.end) == quoted then r.end + 1 else r.end)
  }

  /**
   * The tokens from offset `p` when `n` tokens have been stored already: the
   * scan ends at the terminator or once 64 tokens are stored.
   */
  function SplitFrom(s: string, p: nat, n: nat): (ts: seq<string>)
    requires p <= |s| && n <= MAX_TOKENS
    ensures n + |ts| <= MAX_TOKENS
    decreases |s| - p
  {
    if n == MAX_TOKENS || At(s, p) == '\0' then []
    else
      var q := SkipSpaces(s, p);
      if At(s, q) == '\0' then []
      else
        var t := Token(s, q);
        [t.text] + SplitFrom(s, t.end, n + 1)
  }

  /** The tokens of a whole C string. */
  function Split(s: string): (ts: seq<string>)
    ensures |ts| <= MAX_TOKENS
  {
    SplitFrom(s, 0, 0)
  }

  /** `ArgList`: a count and a heap array of token strings. */
  class ArgList {
    var argc: nat
    var argv: array?<string>

    /** `ArgList result = {0, NULL}`. */
    constructor Empty()
      ensures argc == 0 && argv == null
    {
      argc := 0;
      argv := null;
    }
  }

  /**
   * `split_args`: a null input gives the empty list with no array; otherwise a
   * fresh 64-slot array whose first `argc` entries are the tokens.
   */
  method SplitArgs(input: Option<string>) returns (result: ArgList)
    ensures fresh(result)
    ensures input.None? ==> result.argc == 0 && result.argv == null
    ensures input.Some? ==>
      && result.argv != null && fresh(result.argv) && result.argv.Length == MAX_TOKENS
      && result.argc == |Split(input.value)| <= MAX_TOKENS
      && result.argv[..result.argc] == Split(input.value)
  {
    result := new ArgList.Empty();
    if input.None? {
      return;
    }
    var argv, argc := SplitLoop(input.value);
    result.argc := argc;
    result.argv := argv;
  }

  /** The tokenizing loop of `split_args` over a non-null input, filling a fresh 64-slot array. */
  method SplitLoop(s: string) returns (argv: array<string>, argc: nat)
    ensures fresh(argv) && argv.Length == MAX_TOKENS
    ensures argc <= MAX_TOKENS && argv[..argc] == Split(s)
  {
    argv := new string[MAX_TOKENS];
    argc := 0;
    var p := 0;
    ghost var done: seq<string> := [];
    while At(s, p) != '\0'
      invariant p <= |s| && argc < MAX_TOKENS && |done| == argc
      invariant argv[..argc] == done
      invariant done + SplitFrom(s, p, argc) == Split(s)
      decreases |s| - p
    {
      var found, tok;
      found, tok, p := NextToken(s, p, argc, done);
      if !found {
        break;
      }
      argv[argc] := tok;
      done := done + [tok];
      argc := argc + 1;
      if argc >= MAX_TOKENS {
        break;
      }
    }
  }

  /**
   * One round of the outer loop of `split_args` from offset `p0`: skip the
   * blanks, then read a token if the string has not ended.
   */
  method NextToken(s: string, p0: nat, ghost n: nat, ghost done: seq<string>) returns (found: bool, tok: string, p: nat)
    requires p0 <= |s| && n < MAX_TOKENS && At(s, p0) != '\0'
    requires done + SplitFrom(s, p0, n) == Split(s)
    ensures !found ==> done == Split(s)
    ensures found ==> p0 < p <= |s| && done + [tok] + SplitFrom(s, p, n + 1) == Split(s)
  {
    p := SkipBlank(s, p0);
    if At(s, p) == '\0' {
      SplitEnd(s, p0, n, done);
      return false, [], p;
    }
    ghost var q := p;
    tok, p := ReadOneToken(s, p);
    SplitStep(s, p0, q, n, done);
    found := true;
  }

  /** The whitespace-skipping loop of `split_args`. */
  method SkipBlank(s: string, p0: nat) returns (p: nat)
    requires p0 <= |s|
    ensures p == SkipSpaces(s, p0)
  {
    p := p0;
    while IsSpace(At(s, p))
      invariant p0 <= p <= |s| && SkipSpaces(s, p0) == SkipSpaces(s, p)
      decreases |s| - p
    {
      p := p + 1;
    }
  }

  /** A round of the outer loop that finds only blanks ends the tokens. */
  lemma SplitEnd(s: string, p: nat, n: nat, done: seq<string>)
    requires p <= |s| && n < MAX_TOKENS && At(s, p) != '\0'
    requires At(s, SkipSpaces(s, p)) == '\0'
    requires done + SplitFrom(s, p, n) == Split(s)
    ensures done == Split(s)
  {
  }

  /** One round of the outer loop: the token at the first non-blank offset `q`, then the rest. */
  lemma SplitStep(s: string, p: nat, q: nat, n: nat, done: seq<string>)
    requires p <= |s| && n < MAX_TOKENS && At(s, p) != '\0'
    requires q == SkipSpaces(s, p) && At(s, q) != '\0'
    requires done + SplitFrom(s, p, n) == Split(s)
    ensures done + [Token(s, q).text] + SplitFrom(s, Token(s, q).end, n + 1) == Split(s)
  {
    assert SplitFrom(s, p, n) == [Token(s, q).text] + SplitFrom(s, Token(s, q).end, n + 1);
    assert done + [Token(s, q).text] + SplitFrom(s, Token(s, q).end, n + 1)
      == done + ([Token(s, q).text] + SplitFrom(s, Token(s, q).end, n + 1));
  }

  /**
   * One token of `split_args` from the non-blank offset `q`: an opening quote
   * is noted and skipped, the characters are collected, and a matching
   * closing quote is skipped.
   */
  method ReadOneToken(s: string, q: nat) returns (tok: string, p: nat)
    requires q < |s| && At(s, q) != '\0' && !IsSpace(At(s, q))
    ensures tok == Token(s, q).text && p == Token(s, q).end
  {
    p := q;
    var quoted := '\0';
    if At(s, p) == '"' || At(s, p) == '\'' {
      quoted := At(s, p);
      p := p + 1;
    }
    tok, p := CollectToken(s, p, quoted);
    if quoted != '\0' && At(s, p) == quoted {
      p := p + 1;
    }
  }

  /** The character loop of `split_args`, filling a 256-character buffer from offset `start`. */
  method CollectToken(s: string, start: nat, quoted: char) returns (tok: string, p: nat)
    requires start <= |s|
    ensures tok == ReadToken(s, start, quoted, []).text && p == ReadToken(s, start, quoted, []).end
  {
    p := start;
    var token := new char[MAX_TOKEN_LEN];
    var pos := 0;
    while InToken(s, p, quoted)
      invariant start <= p <= |s| && pos < MAX_TOKEN_LEN
      invariant ReadToken(s, p, quoted, token[..pos]) == ReadToken(s, start, quoted, [])
      decreases |s| - p
    {
      ghost var tok0 := token[..pos];
      ReadTokenStep(s, p, quoted, tok0);
      if At(s, p) == '\\' && At(s, p + 1) != '\0' {
        p := p + 1;
      }
      if pos < MAX_TOKEN_LEN - 1 {
        token[pos] := At(s, p);
        assert token[..pos + 1] == tok0 + [At(s, p)];
        pos := pos + 1;
        p := p + 1;
      } else {
        p := p + 1;
      }
    }
    tok := token[..pos];
  }

  /**
   * `free_args`: a null list or a list without an array is refused with
   * ERR_NULL_POINTER and left alone; otherwise the list becomes empty.
   */
  method FreeArgs(args: ArgList?) returns (err: ErrorCode)
    modifies args
    ensures args == null ==> err == ErrNullPointer
    ensures args != null && old(args.argv) == null ==> err == ErrNullPointer && unchanged(args)
    ensures args != null && old(args.argv) != null ==> err == ErrSuccess && args.argc == 0 && args.argv == null
  {
    if args == null {
      return ErrNullPointer;
    }
    if args.argv == null {
      return ErrNullPointer;
    }
    args.argc := 0;
    args.argv := null;
    return ErrSuccess;
  }

  /**
   * `get_args` without its wildcard stage: `out` stands for the two output
   * locations (null when either is). A missing output or command line is
   * ERR_INVALID_ARGUMENT; otherwise the outputs receive the tokens.
   */
  method GetArgs(out: ArgList?, cmdline: Option<string>) returns (err: ErrorCode)
    modifies out
    ensures out == null || cmdline.None? ==> err == ErrInvalidArgument && (out != null ==> unchanged(out))
    ensures out != null && cmdline.Some? ==>
      && err == ErrSuccess && out.argv != null && fresh(out.argv) && out.argv.Length == MAX_TOKENS
      && out.argc == |Split(cmdline.value)| <= MAX_TOKENS && out.argv[..out.argc] == Split(cmdline.value)
  {
    if out == null || cmdline.None? {
      return ErrInvalidArgument;
    }
    var args := SplitArgs(cmdline);
    out.argc := args.argc;
    out.argv := args.argv;
    return ErrSuccess;
  }
}
