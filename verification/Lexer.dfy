/** Query text to tokens (internal/query/lex.go). Text is bytes, as Go indexes it. */
module Lexer {
  import opened Bits
  import opened Wrappers

  datatype TokKind = EOF | Ident | Num | Str | Punct

  datatype Token = Token(kind: TokKind, s: bytes)

  const QUOTE: byte := 0x27
  const BANG: byte := 0x21
  const DOT: byte := 0x2E
  const EQUALS: byte := 0x3D

  predicate IsSpace(c: byte) {
    c == 0x20 || c == 0x09 || c == 0x0A || c == 0x0D
  }

  predicate IsDigit(c: byte) {
    0x30 <= c <= 0x39
  }

  predicate IsIdentStart(c: byte) {
    c == 0x5F || 0x61 <= c <= 0x7A || 0x41 <= c <= 0x5A
  }

  predicate IsIdentPart(c: byte) {
    IsIdentStart(c) || IsDigit(c) || c == DOT
  }

  predicate IsNumPart(c: byte) {
    IsDigit(c) || c == DOT
  }

  /** = < > ( ) , * */
  predicate IsPunct(c: byte) {
    c == EQUALS || c == 0x3C || c == 0x3E || c == 0x28 || c == 0x29 || c == 0x2C || c == 0x2A
  }

  const END: Token := Token(EOF, [])

  // ----- what lex computes ------------------------------------------------------------------

  /** The length of the longest prefix whose bytes all satisfy a test. */
  function PrefixLength(q: bytes, test: byte -> bool): (n: nat)
    ensures n <= |q| && (forall i :: 0 <= i < n ==> test(q[i])) && (n < |q| ==> !test(q[n]))
  {
    if q != [] && test(q[0]) then 1 + PrefixLength(q[1..], test) else 0
  }

  /** The rest of a string literal, its quote escapes undone, and what follows it. */
  function StringBody(q: bytes): (r: Result<(bytes, bytes)>)
    ensures r.Ok? ==> |r.value.1| < |q|
  {
    if q == [] then Err(Corrupt)
    else if q[0] == QUOTE then
      if |q| > 1 && q[1] == QUOTE then
        var (s, rest) :- StringBody(q[2..]);
        Ok(([QUOTE] + s, rest))
      else Ok(([], q[1..]))
    else
      var (s, rest) :- StringBody(q[1..]);
      Ok(([q[0]] + s, rest))
  }

  /** The token the text starts with, and what follows it. */
  function NextToken(q: bytes): (r: Result<(Token, bytes)>)
    requires q != []
    ensures r.Ok? ==> |r.value.1| < |q|
  {
    var c := q[0];
    if c == QUOTE then
      var (s, rest) :- StringBody(q[1..]);
      Ok((Token(Str, s), rest))
    else if c == BANG then
      if |q| > 1 && q[1] == EQUALS then Ok((Token(Punct, [BANG, EQUALS]), q[2..])) else Err(Corrupt)
    else if IsPunct(c) then Ok((Token(Punct, [c]), q[1..]))
    else if IsDigit(c) then
      var n := PrefixLength(q, IsNumPart);
      Ok((Token(Num, q[..n]), q[n..]))
    else if IsIdentStart(c) then
      var n := PrefixLength(q, IsIdentPart);
      Ok((Token(Ident, q[..n]), q[n..]))
    else Err(Corrupt)
  }

  function Lexed(q: bytes): Result<seq<Token>>
    decreases |q|
  {
    if q == [] then Ok([END])
    else if IsSpace(q[0]) then Lexed(q[1..])
    else
      var (t, rest) :- NextToken(q);
      var toks :- Lexed(rest);
      Ok([t] + toks)
  }

  // ----- lex ---------------------------------------------------------------------------------

  function After(toks: seq<Token>, r: Result<seq<Token>>): Result<seq<Token>> {
    match r
    case Ok(more) => Ok(toks + more)
    case Err(e) => Err(e)
  }

  /** The loop over a string literal, from behind its opening quote. */
  method LexString(q: bytes, start: nat) returns (r: Result<(bytes, nat)>)
    requires start <= |q|
    ensures match StringBody(q[start..])
            case Ok((s, rest)) => r.Ok? && r.value.0 == s && r.value.1 <= |q| && q[r.value.1..] == rest
            case Err(e) => r == Err(e)
  {
    var i := start;
    var sb: bytes := [];
    Shuffle([], QUOTE, q[i..]);
    while i < |q|
      invariant start <= i <= |q|
      invariant StringBody(q[start..]) ==
                match StringBody(q[i..]) case Ok((s, rest)) => Ok((sb + s, rest)) case Err(e) => Err(e)
    {
      assert q[i..][1..] == q[i + 1..];
      if q[i] == QUOTE {
        if i + 1 < |q| && q[i + 1] == QUOTE {
          assert q[i..][2..] == q[i + 2..];
          Shuffle(sb, QUOTE, q[i + 2..]);
          sb := sb + [QUOTE];
          i := i + 2;
          continue;
        }
        break;
      }
      Shuffle(sb, q[i], q[i + 1..]);
      sb := sb + [q[i]];
      i := i + 1;
    }
    if i >= |q| {
      return Err(Corrupt);
    }
    assert sb + [] == sb;
    return Ok((sb, i + 1));
  }

  lemma Shuffle(sb: bytes, c: byte, q: bytes)
    ensures match StringBody(q) case Ok((s, _)) => sb + ([c] + s) == sb + [c] + s && [] + s == s case Err(_) => true
  {
    match StringBody(q) {
      case Ok((s, _)) => assert sb + ([c] + s) == sb + [c] + s;
      case Err(_) =>
    }
  }

  method LexRun(q: bytes, start: nat, test: byte -> bool) returns (end: nat)
    requires start <= |q|
    ensures end == start + PrefixLength(q[start..], test) <= |q|
  {
    end := start;
    while end < |q| && test(q[end])
      invariant start <= end <= |q|
      invariant PrefixLength(q[start..], test) == (end - start) + PrefixLength(q[end..], test)
    {
      assert q[end..][1..] == q[end + 1..];
      end := end + 1;
    }
  }

  method Lex(q: bytes) returns (r: Result<seq<Token>>)
    ensures r == Lexed(q)
  {
    hide PrefixLength, StringBody, IsIdentPart, IsNumPart;
    var toks: seq<Token> := [];
    var i := 0;
    assert q[0..] == q;
    Nothing(Lexed(q));
    while i < |q|
      invariant 0 <= i <= |q|
      invariant Lexed(q) == After(toks, Lexed(q[i..]))
    {
      var c := q[i];
      ghost var rest := q[i..];
      assert rest[0] == c && rest[1..] == q[i + 1..];
      ghost var next := NextToken(rest);
      if IsSpace(c) {
        i := i + 1;
        continue;
      }
      var t, end;
      if c == QUOTE {
        var lit := LexString(q, i + 1);
        if lit.Err? {
          return Err(lit.error);
        }
        t, end := Token(Str, lit.value.0), lit.value.1;
      } else if c == BANG {
        if i + 1 < |q| && q[i + 1] == EQUALS {
          assert rest[2..] == q[i + 2..];
          t, end := Token(Punct, [BANG, EQUALS]), i + 2;
        } else {
          return Err(Corrupt);
        }
      } else if IsPunct(c) {
        t, end := Token(Punct, [c]), i + 1;
      } else if IsDigit(c) {
        end := LexRun(q, i, IsNumPart);
        t := Token(Num, q[i..end]);
        Cut(q, i, end);
      } else if IsIdentStart(c) {
        end := LexRun(q, i, IsIdentPart);
        t := Token(Ident, q[i..end]);
        Cut(q, i, end);
      } else {
        return Err(Corrupt);
      }
      assert next == Ok((t, q[end..]));
      OneMore(toks, t, Lexed(q[end..]));
      toks := toks + [t];
      i := end;
    }
    toks := toks + [END];
    return Ok(toks);
  }

  lemma Nothing(r: Result<seq<Token>>)
    ensures After([], r) == r
  {
    match r {
      case Ok(more) => assert [] + more == more;
      case Err(_) =>
    }
  }

  lemma Cut(q: bytes, i: nat, end: nat)
    requires i <= end <= |q|
    ensures q[i..][..end - i] == q[i..end] && q[i..][end - i..] == q[end..]
  {
  }

  lemma OneMore(toks: seq<Token>, t: Token, r: Result<seq<Token>>)
    ensures After(toks, After([t], r)) == After(toks + [t], r)
  {
    match r {
      case Ok(more) => assert toks + ([t] + more) == toks + [t] + more;
      case Err(_) =>
    }
  }

  // ----- printing ------------------------------------------------------------------------------

  predicate IsIdent(s: bytes) {
    s != [] && IsIdentStart(s[0]) && forall i :: 0 <= i < |s| ==> IsIdentPart(s[i])
  }

  predicate IsNum(s: bytes) {
    s != [] && IsDigit(s[0]) && forall i :: 0 <= i < |s| ==> IsNumPart(s[i])
  }

  /** The tokens text can hold: a string literal may hold anything. */
  predicate TokenOk(t: Token) {
    match t.kind
    case EOF => false
    case Ident => IsIdent(t.s)
    case Num => IsNum(t.s)
    case Str => true
    case Punct => t.s == [BANG, EQUALS] || (|t.s| == 1 && IsPunct(t.s[0]))
  }

  function Doubled(s: bytes): bytes {
    if s == [] then []
    else (if s[0] == QUOTE then [QUOTE, QUOTE] else [s[0]]) + Doubled(s[1..])
  }

  function TokenText(t: Token): bytes {
    if t.kind == Str then [QUOTE] + (Doubled(t.s) + [QUOTE]) else t.s
  }

  predicate IsBlank(g: bytes) {
    forall i :: 0 <= i < |g| ==> IsSpace(g[i])
  }

  /** Each token followed by its gap of white space, which may be empty. */
  function Spaced(toks: seq<Token>, gaps: seq<bytes>): bytes
    requires |toks| == |gaps|
  {
    if toks == [] then [] else TokenText(toks[0]) + (gaps[0] + Spaced(toks[1..], gaps[1..]))
  }

  /** The token would go on into what follows it. */
  predicate Fuses(t: Token, rest: bytes) {
    rest != [] && match t.kind
                  case Ident => IsIdentPart(rest[0])
                  case Num => IsNumPart(rest[0])
                  case Str => rest[0] == QUOTE
                  case _ => false
  }

  /** White space, at least where two tokens would fuse. */
  predicate Separated(toks: seq<Token>, gaps: seq<bytes>)
    requires |toks| == |gaps|
  {
    toks == [] || (&& IsBlank(gaps[0]) && Separated(toks[1..], gaps[1..])
                   && !Fuses(toks[0], gaps[0] + Spaced(toks[1..], gaps[1..])))
  }

  /** White space after every token separates any tokens. */
  lemma {:induction false} GapsSeparate(toks: seq<Token>, gaps: seq<bytes>)
    requires |toks| == |gaps| && forall i :: 0 <= i < |gaps| ==> gaps[i] != [] && IsBlank(gaps[i])
    ensures Separated(toks, gaps)
    decreases |toks|
  {
    hide Spaced;
    if toks != [] {
      GapsSeparate(toks[1..], gaps[1..]);
      var rest := gaps[0] + Spaced(toks[1..], gaps[1..]);
      assert rest[0] == gaps[0][0] && IsSpace(rest[0]);
    }
  }

  lemma {:induction false} StringReads(s: bytes, rest: bytes)
    requires rest == [] || rest[0] != QUOTE
    ensures StringBody(Doubled(s) + ([QUOTE] + rest)) == Ok((s, rest))
  {
    var q := Doubled(s) + ([QUOTE] + rest);
    if s == [] {
      assert q == [QUOTE] + rest;
    } else {
      StringReads(s[1..], rest);
      var tail := Doubled(s[1..]) + ([QUOTE] + rest);
      if s[0] == QUOTE {
        assert q == [QUOTE, QUOTE] + tail;
        assert q[2..] == tail;
      } else {
        assert q == [s[0]] + tail;
        assert q[1..] == tail;
      }
      assert [s[0]] + s[1..] == s;
    }
  }

  lemma {:induction false} PrefixIs(s: bytes, rest: bytes, test: byte -> bool)
    requires forall i :: 0 <= i < |s| ==> test(s[i])
    requires rest == [] || !test(rest[0])
    ensures PrefixLength(s + rest, test) == |s|
  {
    if s == [] {
      assert s + rest == rest;
    } else {
      assert (s + rest)[0] == s[0] && (s + rest)[1..] == s[1..] + rest;
      PrefixIs(s[1..], rest, test);
    }
  }

  /** A token's text is read back as the token, unless it goes on into what follows. */
  lemma TokenReads(t: Token, rest: bytes)
    requires TokenOk(t) && !Fuses(t, rest)
    ensures TokenText(t) != [] && !IsSpace(TokenText(t)[0])
    ensures NextToken(TokenText(t) + rest) == Ok((t, rest))
  {
    var q := TokenText(t) + rest;
    assert TokenText(t) != [] ==> q[0] == TokenText(t)[0];
    match t.kind {
      case Ident =>
        PrefixIs(t.s, rest, IsIdentPart);
        assert q[..|t.s|] == t.s && q[|t.s|..] == rest;
      case Num =>
        PrefixIs(t.s, rest, IsNumPart);
        assert q[..|t.s|] == t.s && q[|t.s|..] == rest;
      case Str =>
        assert q[1..] == Doubled(t.s) + ([QUOTE] + rest);
        StringReads(t.s, rest);
        assert q[0] == QUOTE && NextToken(q) == Ok((Token(Str, t.s), rest));
      case Punct =>
        assert q[|t.s|..] == rest;
        if |t.s| == 1 {
          assert t.s == [t.s[0]];
        } else {
          assert q[1] == t.s[1];
        }
    }
  }

  lemma {:induction false} GapSkipped(g: bytes, rest: bytes)
    requires forall i :: 0 <= i < |g| ==> IsSpace(g[i])
    ensures Lexed(g + rest) == Lexed(rest)
    decreases |g|
  {
    if g == [] {
      assert g + rest == rest;
    } else {
      assert (g + rest)[0] == g[0] && (g + rest)[1..] == g[1..] + rest;
      GapSkipped(g[1..], rest);
    }
  }

  /** Lexing inverts printing: any tokens, printed with quotes doubled and white
      space wherever two would fuse, are read back, with the end marker. */
  lemma {:induction false} LexingInvertsPrinting(toks: seq<Token>, gaps: seq<bytes>)
    requires |toks| == |gaps| && Separated(toks, gaps) && forall i :: 0 <= i < |toks| ==> TokenOk(toks[i])
    ensures Lexed(Spaced(toks, gaps)) == Ok(toks + [END])
    decreases |toks|
  {
    hide NextToken, TokenText, TokenOk, IsSpace, Fuses;
    if toks == [] {
      assert toks + [END] == [END];
    } else {
      var tail := Spaced(toks[1..], gaps[1..]);
      var rest := gaps[0] + tail;
      LexingInvertsPrinting(toks[1..], gaps[1..]);
      TokenReads(toks[0], rest);
      GapSkipped(gaps[0], tail);
      assert (TokenText(toks[0]) + rest)[0] == TokenText(toks[0])[0];
      assert toks + [END] == [toks[0]] + (toks[1..] + [END]);
    }
  }

  /** What lex can produce: printable tokens, then one end marker. */
  ghost predicate Ended(toks: seq<Token>) {
    && toks != [] && toks[|toks| - 1] == END
    && forall i :: 0 <= i < |toks| - 1 ==> toks[i].kind != EOF
  }

  lemma TokenIsOk(q: bytes)
    requires q != [] && NextToken(q).Ok?
    ensures TokenOk(NextToken(q).value.0)
  {
    hide StringBody;
    var n, m := PrefixLength(q, IsNumPart), PrefixLength(q, IsIdentPart);
    assert IsDigit(q[0]) ==> n > 0;
    assert IsIdentStart(q[0]) ==> m > 0;
  }

  /** Every successful lexing yields printable tokens and then one end marker. */
  lemma {:induction false} LexedIsEnded(q: bytes)
    requires Lexed(q).Ok?
    ensures var toks := Lexed(q).value;
            Ended(toks) && forall i :: 0 <= i < |toks| - 1 ==> TokenOk(toks[i])
    decreases |q|
  {
    hide NextToken;
    if q != [] {
      if IsSpace(q[0]) {
        LexedIsEnded(q[1..]);
      } else {
        TokenIsOk(q);
        var (t, rest) := NextToken(q).value;
        LexedIsEnded(rest);
        var toks, more := Lexed(q).value, Lexed(rest).value;
        assert forall i :: 0 < i < |toks| ==> toks[i] == more[i - 1];
      }
    }
  }

  /** Printing what was lexed, with any separating white space, and lexing again
      gives the same. */
  lemma PrintingInvertsLexing(q: bytes, gaps: seq<bytes>)
    requires Lexed(q).Ok? && |gaps| == |Lexed(q).value| - 1 && Separated(Lexed(q).value[..|gaps|], gaps)
    ensures Lexed(Spaced(Lexed(q).value[..|gaps|], gaps)) == Lexed(q)
  {
    hide Lexed, Spaced, Separated, TokenOk;
    LexedIsEnded(q);
    var toks := Lexed(q).value;
    LexingInvertsPrinting(toks[..|gaps|], gaps);
    assert toks[..|gaps|] + [END] == toks;
  }

  // ----- what text lexes ------------------------------------------------------------------------

  /** A text written as these tokens: leading white space, then each token and its gap. */
  ghost predicate IsText(q: bytes, toks: seq<Token>) {
    exists lead: bytes, gaps: seq<bytes> :: IsTextWith(q, toks, lead, gaps)
  }

  ghost predicate IsTextWith(q: bytes, toks: seq<Token>, lead: bytes, gaps: seq<bytes>) {
    && IsBlank(lead) && |gaps| == |toks| && Separated(toks, gaps) && q == lead + Spaced(toks, gaps)
    && forall i :: 0 <= i < |toks| ==> TokenOk(toks[i])
  }

  lemma {:induction false} StringWritten(q: bytes)
    requires StringBody(q).Ok?
    ensures var (s, rest) := StringBody(q).value;
            q == Doubled(s) + ([QUOTE] + rest) && (rest == [] || rest[0] != QUOTE)
  {
    var (s, rest) := StringBody(q).value;
    if q[0] == QUOTE {
      if |q| > 1 && q[1] == QUOTE {
        StringWritten(q[2..]);
        assert s[1..] == StringBody(q[2..]).value.0;
        assert q == [QUOTE, QUOTE] + q[2..];
      } else {
        assert q == [QUOTE] + rest;
      }
    } else {
      StringWritten(q[1..]);
      assert s[1..] == StringBody(q[1..]).value.0;
      assert q == [q[0]] + q[1..];
      NoQuoteFirst(q);
    }
  }

  lemma NoQuoteFirst(q: bytes)
    requires q != [] && q[0] != QUOTE && StringBody(q).Ok?
    ensures StringBody(q).value.0 != [] && StringBody(q).value.0[0] == q[0]
  {
  }

  /** The token taken off a text is its front, and does not go on. */
  lemma TokenWritten(q: bytes)
    requires q != [] && NextToken(q).Ok?
    ensures var (t, rest) := NextToken(q).value;
            q == TokenText(t) + rest && !Fuses(t, rest) && TokenOk(t)
  {
    TokenIsOk(q);
    var (t, rest) := NextToken(q).value;
    if q[0] == QUOTE {
      StringWritten(q[1..]);
      assert q == [QUOTE] + q[1..];
    } else {
      assert q == q[..|t.s|] + rest;
    }
  }

  lemma {:induction false} LexedIsWritten(q: bytes) returns (lead: bytes, gaps: seq<bytes>)
    requires Lexed(q).Ok?
    ensures var n := |Lexed(q).value| - 1;
            n >= 0 && IsTextWith(q, Lexed(q).value[..n], lead, gaps)
    decreases |q|
  {
    hide NextToken, TokenText, TokenOk, Fuses, IsSpace;
    var n := |Lexed(q).value| - 1;
    if q == [] {
      lead, gaps := [], [];
    } else if IsSpace(q[0]) {
      lead, gaps := LexedIsWritten(q[1..]);
      lead := [q[0]] + lead;
      assert q == [q[0]] + q[1..];
    } else {
      TokenWritten(q);
      var (t, rest) := NextToken(q).value;
      var gap, more := LexedIsWritten(rest);
      lead, gaps := [], [gap] + more;
      var toks := Lexed(q).value[..n];
      assert toks == [t] + Lexed(rest).value[..n - 1];
      assert gaps[1..] == more && toks[1..] == Lexed(rest).value[..n - 1];
      assert q == [] + Spaced(toks, gaps);
    }
  }

  /** Lexing is exact: a text lexes to these tokens, behind them the end marker, if
      and only if it is one of the ways to write them. */
  lemma LexesExactly(q: bytes, toks: seq<Token>)
    ensures Lexed(q) == Ok(toks + [END]) <==> IsText(q, toks)
  {
    hide Lexed, Spaced, Separated, TokenOk;
    if Lexed(q) == Ok(toks + [END]) {
      var lead, gaps := LexedIsWritten(q);
      assert (toks + [END])[..|toks|] == toks;
      assert IsTextWith(q, toks, lead, gaps);
    }
    if IsText(q, toks) {
      var lead: bytes, gaps: seq<bytes> :| IsTextWith(q, toks, lead, gaps);
      LexingInvertsPrinting(toks, gaps);
      GapSkipped(lead, Spaced(toks, gaps));
    }
  }

  lemma LexesAlone(t: Token)
    requires TokenOk(t)
    ensures Lexed(TokenText(t)) == Ok([t, END])
  {
    hide TokenText, TokenOk;
    LexingInvertsPrinting([t], [[]]);
    assert TokenText(t) + ([] + Spaced([], [])) == TokenText(t);
    assert [t] + [END] == [t, END];
  }

  lemma LexedAlone(q: bytes, t: Token)
    requires Lexed(q) == Ok([t, END])
    ensures TokenOk(t)
  {
    LexedIsEnded(q);
    assert Lexed(q).value[0] == t;
  }

  /** Inside a literal a quote is written twice, anything else as it is. */
  lemma {:induction false} QuotesAreDoubled(a: bytes, c: byte, b: bytes)
    ensures Doubled(a + [c] + b) == Doubled(a) + (if c == 0x27 then [0x27, 0x27] else [c]) + Doubled(b)
    ensures Doubled([]) == []
    decreases |a|
  {
    var q := a + [c] + b;
    if a == [] {
      assert q == [c] + b;
      assert q[1..] == b;
    } else {
      QuotesAreDoubled(a[1..], c, b);
      assert q[1..] == a[1..] + [c] + b;
    }
  }

  /** What an identifier is: a letter or an underscore, then letters, digits,
      underscores and dots. */
  lemma IdentifiersAre(s: bytes)
    ensures Lexed(s) == Ok([Token(Ident, s), END]) <==>
            && s != []
            && (s[0] == 0x5F || 0x41 <= s[0] <= 0x5A || 0x61 <= s[0] <= 0x7A)
            && forall i :: 0 <= i < |s| ==>
                 s[i] == 0x5F || s[i] == 0x2E || 0x30 <= s[i] <= 0x39 || 0x41 <= s[i] <= 0x5A || 0x61 <= s[i] <= 0x7A
  {
    hide Lexed;
    if IsIdent(s) {
      LexesAlone(Token(Ident, s));
    }
    if Lexed(s) == Ok([Token(Ident, s), END]) {
      LexedAlone(s, Token(Ident, s));
    }
  }

  /** What a number is: a digit, then digits and dots. */
  lemma NumbersAre(s: bytes)
    ensures Lexed(s) == Ok([Token(Num, s), END]) <==>
            s != [] && 0x30 <= s[0] <= 0x39 && forall i :: 0 <= i < |s| ==> s[i] == 0x2E || 0x30 <= s[i] <= 0x39
  {
    hide Lexed;
    if IsNum(s) {
      LexesAlone(Token(Num, s));
    }
    if Lexed(s) == Ok([Token(Num, s), END]) {
      LexedAlone(s, Token(Num, s));
    }
  }

  /** The marks: = < > ( ) , * and !=, whose first byte alone is nothing. */
  lemma MarksAre(s: bytes)
    ensures Lexed(s) == Ok([Token(Punct, s), END]) <==>
            || s == [0x3D] || s == [0x3C] || s == [0x3E] || s == [0x28] || s == [0x29] || s == [0x2C] || s == [0x2A]
            || s == [0x21, 0x3D]
  {
    hide Lexed;
    if TokenOk(Token(Punct, s)) {
      LexesAlone(Token(Punct, s));
    }
    if Lexed(s) == Ok([Token(Punct, s), END]) {
      LexedAlone(s, Token(Punct, s));
      assert |s| == 1 ==> s == [s[0]];
    }
  }

  /** White space: blanks, tabs, line feeds and carriage returns hold no token. */
  lemma {:induction false} BlanksAre(s: bytes)
    ensures Lexed(s) == Ok([END]) <==>
            forall i :: 0 <= i < |s| ==> s[i] == 0x20 || s[i] == 0x09 || s[i] == 0x0A || s[i] == 0x0D
  {
    hide NextToken;
    if s != [] {
      BlanksAre(s[1..]);
      assert s == [s[0]] + s[1..];
      if !IsSpace(s[0]) && Lexed(s).Ok? {
        LexedIsEnded(NextToken(s).value.1);
      }
    }
  }
}
