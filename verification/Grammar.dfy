/** The query language as its grammar (internal/query/parse.go), and the parser
    proved to accept exactly it.

    A Form is a statement as written: every keyword in its own spelling, every
    parenthesis and every literal as it stands. */
module Grammar {
  import opened Bits
  import opened Wrappers
  import opened Limits
  import opened Lexer
  import opened Numerals
  import opened Queries
  import opened Parser

  function Word(s: bytes): Token {
    Token(Ident, s)
  }

  function Mark(s: bytes): Token {
    Token(Punct, s)
  }

  // ----- keywords ----------------------------------------------------------------------------

  lemma KeywordsAreSmall()
    ensures SmallLetters(SELECT) && SmallLetters(FROM) && SmallLetters(WHERE) && SmallLetters(LIMIT)
    ensures SmallLetters(OR) && SmallLetters(AND) && SmallLetters(IN) && SmallLetters(COUNT) && SmallLetters(TOP)
  {
  }

  predicate Is(t: Token, kw: bytes) {
    t.kind == Ident && Spells(t.s, kw)
  }

  lemma Keyword(t: Token)
    ensures IsKeyword(t, SELECT) == Is(t, SELECT) && IsKeyword(t, FROM) == Is(t, FROM)
    ensures IsKeyword(t, WHERE) == Is(t, WHERE) && IsKeyword(t, LIMIT) == Is(t, LIMIT)
    ensures IsKeyword(t, OR) == Is(t, OR) && IsKeyword(t, AND) == Is(t, AND) && IsKeyword(t, IN) == Is(t, IN)
    ensures IsKeyword(t, COUNT) == Is(t, COUNT) && IsKeyword(t, TOP) == Is(t, TOP)
  {
    hide IsKeyword, Is, SmallLetters, Spells;
    KeywordsAreSmall();
    KeywordIs(t, SELECT);
    KeywordIs(t, FROM);
    KeywordIs(t, WHERE);
    KeywordIs(t, LIMIT);
    KeywordIs(t, OR);
    KeywordIs(t, AND);
    KeywordIs(t, IN);
    KeywordIs(t, COUNT);
    KeywordIs(t, TOP);
  }

  lemma KeywordIs(t: Token, kw: bytes)
    requires SmallLetters(kw)
    ensures IsKeyword(t, kw) == Is(t, kw)
  {
    KeywordsAreSpelled(t, kw);
  }

  lemma SpelledApart(w: bytes)
    ensures Spells(w, OR) ==> !Spells(w, AND)
    ensures Spells(w, LIMIT) ==> !Spells(w, WHERE) && !Spells(w, AND) && !Spells(w, OR)
    ensures Spells(w, TOP) ==> !Spells(w, COUNT)
  {
    assert |LIMIT| == |WHERE|;
    assert LIMIT[0] != WHERE[0] && Spells(w, LIMIT) && Spells(w, WHERE) ==> w[0] == LIMIT[0] || w[0] == LIMIT[0] - 0x20;
  }

  // ----- expressions --------------------------------------------------------------------------

  datatype Tree =
    | Disjunction(l: Tree, word: bytes, r: Tree)
    | Conjunction(l: Tree, word: bytes, r: Tree)
    | Parens(inner: Tree)
    | Comparing(col: bytes, op: Comparison, lit: Token)
    | Among(col: bytes, word: bytes, lits: seq<Token>)

  predicate IsLiteral(t: Token) {
    t.kind == Str || t.kind == Num
  }

  /** Level 0 is <expr>, level 1 <and>, level 2 <factor>. */
  predicate Grammatical(t: Tree, level: nat) {
    match t
    case Disjunction(l, w, r) => level == 0 && Spells(w, OR) && Grammatical(l, 0) && Grammatical(r, 1)
    case Conjunction(l, w, r) => level <= 1 && Spells(w, AND) && Grammatical(l, 1) && Grammatical(r, 2)
    case Parens(inner) => Grammatical(inner, 0)
    case Comparing(_, op, lit) => op != In && IsLiteral(lit)
    case Among(_, w, lits) => Spells(w, IN) && lits != [] && forall i :: 0 <= i < |lits| ==> IsLiteral(lits[i])
  }

  function OpMark(op: Comparison): Token
    requires op != In
  {
    match op
    case Eq => Mark([0x3D])
    case Ne => Mark([0x21, 0x3D])
    case Lt => Mark([0x3C])
    case Gt => Mark([0x3E])
  }

  /** Tokens, separated by commas. */
  function Listed(ts: Toks): (out: Toks)
    requires ts != []
  {
    if |ts| == 1 then ts else [ts[0], Mark(COMMA)] + Listed(ts[1..])
  }

  function TreeTokens(t: Tree): (ts: Toks)
    requires Grammatical(t, 0)
    ensures ts != []
  {
    match t
    case Disjunction(l, w, r) => SubTrees(t); TreeTokens(l) + ([Word(w)] + TreeTokens(r))
    case Conjunction(l, w, r) => SubTrees(t); TreeTokens(l) + ([Word(w)] + TreeTokens(r))
    case Parens(inner) => [Mark(LPAREN)] + (TreeTokens(inner) + [Mark(RPAREN)])
    case Comparing(col, op, lit) => [Word(col), OpMark(op), lit]
    case Among(col, w, lits) => [Word(col), Word(w), Mark(LPAREN)] + (Listed(lits) + [Mark(RPAREN)])
  }

  lemma AtLeast(t: Tree, level: nat)
    requires Grammatical(t, level)
    ensures forall k :: 0 <= k <= level ==> Grammatical(t, k)
  {
  }

  lemma SubTrees(t: Tree)
    requires Grammatical(t, 0)
    ensures t.Disjunction? || t.Conjunction? ==> Grammatical(t.l, 0) && Grammatical(t.r, 0)
  {
    if t.Disjunction? {
      AtLeast(t.r, 1);
    }
    if t.Conjunction? {
      AtLeast(t.l, 1);
      AtLeast(t.r, 2);
    }
  }

  /** The literals' texts. */
  function Texts(ts: Toks): (out: seq<bytes>)
    ensures |out| == |ts|
  {
    seq(|ts|, i requires 0 <= i < |ts| => ts[i].s)
  }

  /** What the tree stands for: spelling and parentheses are forgotten. */
  function Meaning(t: Tree): Expr {
    match t
    case Disjunction(l, _, r) => Disj(Meaning(l), Meaning(r))
    case Conjunction(l, _, r) => Conj(Meaning(l), Meaning(r))
    case Parens(inner) => Meaning(inner)
    case Comparing(col, op, lit) => Cmp(col, op, [lit.s])
    case Among(col, _, lits) => Cmp(col, In, Texts(lits))
  }

  // ----- every tree is read --------------------------------------------------------------------

  predicate NoEnd(ts: Toks) {
    forall i :: 0 <= i < |ts| ==> ts[i].kind != EOF
  }

  lemma EndedInFront(ts: Toks, tail: Toks)
    requires NoEnd(ts) && Ended(tail)
    ensures Ended(ts + tail)
  {
  }

  lemma OneInFront(t: Token, tail: Toks)
    requires t.kind != EOF && Ended(tail)
    ensures Ended([t] + tail) && ([t] + tail)[0] == t && ([t] + tail)[1..] == tail
  {
  }

  lemma ValueReads(v: Token, tail: Toks)
    requires Ended(tail) && IsLiteral(v)
    ensures Ended([v] + tail) && ParseValue([v] + tail) == Ok((v.s, tail))
  {
    assert ([v] + tail)[1..] == tail;
  }

  lemma LastReads(v: Token, tail: Toks)
    requires Ended(tail) && !IsMark(tail[0], COMMA) && IsLiteral(v)
    ensures Ended([v] + tail) && ParseValues([v] + tail) == Ok(([v.s], tail))
  {
    hide Ended, ParseValue;
    ValueReads(v, tail);
  }

  lemma CommaReads(v: Token, vs: seq<bytes>, rest: Toks, tail: Toks)
    requires Ended(rest) && ParseValues(rest) == Ok((vs, tail)) && IsLiteral(v)
    ensures Ended([v] + ([Mark(COMMA)] + rest))
    ensures ParseValues([v] + ([Mark(COMMA)] + rest)) == Ok(([v.s] + vs, tail))
  {
    hide Ended, ParseValue;
    var next := [Mark(COMMA)] + rest;
    OneInFront(Mark(COMMA), rest);
    ValueReads(v, next);
  }

  lemma {:induction false} ValuesRead(lits: Toks, tail: Toks)
    requires lits != [] && (forall i :: 0 <= i < |lits| ==> IsLiteral(lits[i]))
    requires Ended(tail) && !IsMark(tail[0], COMMA)
    ensures Ended(Listed(lits) + tail)
    ensures ParseValues(Listed(lits) + tail) == Ok((Texts(lits), tail))
    decreases |lits|
  {
    hide Ended, ParseValues, Listed, Texts, IsMark;
    if |lits| == 1 {
      LastReads(lits[0], tail);
      OneListed(lits[0]);
      assert lits == [lits[0]];
    } else {
      var more := lits[1..];
      var rest := Listed(more) + tail;
      ValuesRead(more, tail);
      CommaReads(lits[0], Texts(more), rest, tail);
      LitListed(lits[0], more);
      assert lits == [lits[0]] + more;
      Glue([lits[0]], [Mark(COMMA)], rest);
      Glue([lits[0], Mark(COMMA)], Listed(more), tail);
      assert [lits[0]] + [Mark(COMMA)] == [lits[0], Mark(COMMA)];
    }
  }

  lemma InReads(col: bytes, lits: Toks, tail: Toks)
    requires lits != [] && (forall i :: 0 <= i < |lits| ==> IsLiteral(lits[i])) && Ended(tail)
    ensures Ended([Mark(LPAREN)] + (Listed(lits) + ([Mark(RPAREN)] + tail)))
    ensures ParseInList(col, [Mark(LPAREN)] + (Listed(lits) + ([Mark(RPAREN)] + tail)))
            == Ok((Cmp(col, In, Texts(lits)), tail))
  {
    hide Ended, ParseValues, Listed, Texts;
    var close := [Mark(RPAREN)] + tail;
    OneInFront(Mark(RPAREN), tail);
    ValuesRead(lits, close);
    OneInFront(Mark(LPAREN), Listed(lits) + close);
  }

  lemma AmongReads(t: Tree, tail: Toks)
    requires t.Among? && Grammatical(t, 0) && Ended(tail)
    ensures Ended(TreeTokens(t) + tail)
    ensures ParseFactor(TreeTokens(t) + tail) == Ok((Meaning(t), tail))
  {
    hide Ended, ParseInList, Listed, Texts, IsKeyword, Spells, ParseValue;
    var list := [Mark(LPAREN)] + (Listed(t.lits) + ([Mark(RPAREN)] + tail));
    InReads(t.col, t.lits, tail);
    OneInFront(Word(t.word), list);
    OneInFront(Word(t.col), [Word(t.word)] + list);
    var ts := [Word(t.col)] + ([Word(t.word)] + list);
    assert TreeTokens(t) + tail == ts;
    Keyword(ts[1]);
    assert ts[2..] == list;
  }

  lemma ComparingReads(t: Tree, tail: Toks)
    requires t.Comparing? && Grammatical(t, 0) && Ended(tail)
    ensures Ended(TreeTokens(t) + tail)
    ensures ParseFactor(TreeTokens(t) + tail) == Ok((Meaning(t), tail))
  {
    hide Ended, IsKeyword, Spells, ParseValue;
    ValueReads(t.lit, tail);
    OneInFront(OpMark(t.op), [t.lit] + tail);
    OneInFront(Word(t.col), [OpMark(t.op)] + ([t.lit] + tail));
    var ts := [Word(t.col)] + ([OpMark(t.op)] + ([t.lit] + tail));
    assert TreeTokens(t) + tail == ts;
    Keyword(ts[1]);
    assert ts[1] == OpMark(t.op) && OpOf(ts[1]) == Some(t.op);
    assert ts[2..] == [t.lit] + tail;
  }

  lemma {:induction false} MeaningShaped(t: Tree, level: nat)
    requires Grammatical(t, level)
    ensures Shaped(Meaning(t))
  {
    match t {
      case Disjunction(l, _, r) =>
        MeaningShaped(l, 0);
        MeaningShaped(r, 1);
      case Conjunction(l, _, r) =>
        MeaningShaped(l, 1);
        MeaningShaped(r, 2);
      case Parens(inner) =>
        MeaningShaped(inner, 0);
      case Comparing(_, _, _) =>
      case Among(_, _, _) =>
    }
  }

  /** A factor is read whole, whatever follows it. */
  lemma {:induction false} FactorReads(t: Tree, tail: Toks)
    requires Grammatical(t, 2) && Ended(tail)
    ensures Grammatical(t, 0) && Ended(TreeTokens(t) + tail)
    ensures ParseFactor(TreeTokens(t) + tail) == Ok((Meaning(t), tail))
    decreases t, 0
  {
    hide Ended, ParseOr, ParseCmp, IsKeyword;
    AtLeast(t, 2);
    if t.Parens? {
      var close := [Mark(RPAREN)] + tail;
      OneInFront(Mark(RPAREN), tail);
      Keyword(close[0]);
      ExprReads(t.inner, close);
      OneInFront(Mark(LPAREN), TreeTokens(t.inner) + close);
      assert TreeTokens(t) + tail == [Mark(LPAREN)] + (TreeTokens(t.inner) + close);
    } else if t.Among? {
      AmongReads(t, tail);
    } else {
      ComparingReads(t, tail);
    }
  }

  /** The parser reads a conjunction and goes on with what follows. */
  lemma {:induction false} AndReads(t: Tree, tail: Toks)
    requires Grammatical(t, 1) && Ended(tail)
    ensures Grammatical(t, 0) && Shaped(Meaning(t)) && Ended(TreeTokens(t) + tail)
    ensures ParseAnd(TreeTokens(t) + tail) == AndTail(Meaning(t), tail)
    decreases t, 1
  {
    hide Ended, ParseFactor, ParseAnd, IsKeyword, Spells, AndTail;
    AtLeast(t, 1);
    MeaningShaped(t, 1);
    if t.Conjunction? {
      FactorReads(t.r, tail);
      AtLeast(t.l, 1);
      var right := TreeTokens(t.r) + tail;
      OneInFront(Word(t.word), right);
      Keyword(Word(t.word));
      AndReads(t.l, [Word(t.word)] + right);
      BothAre(t.l, t.word, t.r, tail);
      AndGoesOn(Meaning(t.l), Meaning(t.r), Word(t.word), right, tail);
    } else {
      FactorReads(t, tail);
      FactorAlone(Meaning(t), TreeTokens(t) + tail, tail);
    }
  }

  lemma AndGoesOn(left: Expr, right: Expr, word: Token, ts: Toks, tail: Toks)
    requires Shaped(left) && Shaped(right) && Ended(ts) && Ended(tail) && Ended([word] + ts) && IsKeyword(word, AND)
    requires ParseFactor(ts) == Ok((right, tail))
    ensures AndTail(left, [word] + ts) == AndTail(Conj(left, right), tail)
  {
    hide Ended, ParseFactor, IsKeyword;
    assert ([word] + ts)[1..] == ts;
  }

  lemma FactorAlone(e: Expr, ts: Toks, tail: Toks)
    requires Ended(ts) && ParseFactor(ts) == Ok((e, tail))
    ensures Shaped(e) && Ended(tail) && ParseAnd(ts) == AndTail(e, tail)
  {
    hide ParseFactor, AndTail;
  }

  lemma {:induction false} OrReads(t: Tree, tail: Toks)
    requires Grammatical(t, 0) && Ended(tail) && !Is(tail[0], AND)
    ensures Shaped(Meaning(t)) && Ended(TreeTokens(t) + tail)
    ensures ParseOr(TreeTokens(t) + tail) == OrTail(Meaning(t), tail)
    decreases t, 2, 1
  {
    Keyword(tail[0]);
    hide Ended, ParseAnd, IsKeyword, Spells;
    MeaningShaped(t, 0);
    if t.Disjunction? {
      AndReads(t.r, tail);
      var right := TreeTokens(t.r) + tail;
      OneInFront(Word(t.word), right);
      Keyword(Word(t.word));
      SpelledApart(t.word);
      OrReads(t.l, [Word(t.word)] + right);
      EitherIs(t.l, t.word, t.r, tail);
      OrGoesOn(Meaning(t.l), Meaning(t.r), Word(t.word), right, tail);
    } else {
      AndAlone(t, tail);
    }
  }

  lemma AndAlone(t: Tree, tail: Toks)
    requires !t.Disjunction? && Grammatical(t, 0) && Ended(tail) && !Is(tail[0], AND)
    ensures Shaped(Meaning(t)) && Ended(TreeTokens(t) + tail)
    ensures ParseOr(TreeTokens(t) + tail) == OrTail(Meaning(t), tail)
    decreases t, 2, 0
  {
    Keyword(tail[0]);
    hide Ended, ParseAnd, IsKeyword, Spells, OrTail;
    MeaningShaped(t, 0);
    AndReads(t, tail);
  }

  lemma OrGoesOn(left: Expr, right: Expr, word: Token, ts: Toks, tail: Toks)
    requires Shaped(left) && Shaped(right) && Ended(ts) && Ended(tail) && Ended([word] + ts) && IsKeyword(word, OR)
    requires ParseAnd(ts) == AndTail(right, tail) && !IsKeyword(tail[0], AND)
    ensures OrTail(left, [word] + ts) == OrTail(Disj(left, right), tail)
  {
    hide Ended, ParseAnd, IsKeyword;
    assert ([word] + ts)[1..] == ts;
  }

  /** Any grammatical expression is read as what it stands for, and exactly its
      tokens, when neither AND nor OR follows. */
  lemma ExprReads(t: Tree, tail: Toks)
    requires Grammatical(t, 0) && Ended(tail) && !Is(tail[0], AND) && !Is(tail[0], OR)
    ensures Ended(TreeTokens(t) + tail)
    ensures ParseOr(TreeTokens(t) + tail) == Ok((Meaning(t), tail))
    decreases t, 3
  {
    Keyword(tail[0]);
    hide Ended, ParseOr, IsKeyword;
    OrReads(t, tail);
  }

  // ----- everything read is a tree -------------------------------------------------------------

  lemma CommaAhead(ts: Toks)
    requires Ended(ts) && |ts| >= 2 && ts[0].kind != EOF && IsMark(ts[1], COMMA)
    ensures Ended(ts[2..]) && ts == [ts[0], Mark(COMMA)] + ts[2..]
  {
  }

  /** One step of a list of values. */
  lemma ValuesStep(ts: Toks)
    requires Ended(ts) && ParseValues(ts).Ok?
    ensures IsLiteral(ts[0]) && Ended(ts[1..]) && ts == [ts[0]] + ts[1..]
    ensures !IsMark(ts[1], COMMA) ==> ParseValues(ts) == Ok(([ts[0].s], ts[1..]))
    ensures IsMark(ts[1], COMMA) ==>
              && Ended(ts[2..]) && ParseValues(ts[2..]).Ok? && ts == [ts[0], Mark(COMMA)] + ts[2..]
              && var (vs, rest) := ParseValues(ts[2..]).value;
                 ParseValues(ts) == Ok(([ts[0].s] + vs, rest))
  {
    assert ParseValue(ts) == Ok((ts[0].s, ts[1..])) && IsLiteral(ts[0]);
    assert |ts| >= 2 && Ended(ts[1..]) && ts == [ts[0]] + ts[1..];
    hide ParseValue, IsMark, IsLiteral;
    assert ts[1..][0] == ts[1] && ts[1..][1..] == ts[2..];
    if IsMark(ts[1], COMMA) {
      CommaAhead(ts);
    }
  }

  /** These literals are what is read off the token list. */
  ghost predicate LitsRead(ts: Toks, lits: Toks)
    requires Ended(ts)
  {
    && ParseValues(ts).Ok? && lits != [] && (forall i :: 0 <= i < |lits| ==> IsLiteral(lits[i]))
    && Texts(lits) == ParseValues(ts).value.0 && ts == Listed(lits) + ParseValues(ts).value.1
  }

  lemma {:induction false} ValuesAre(ts: Toks) returns (lits: Toks)
    requires Ended(ts) && ParseValues(ts).Ok?
    ensures LitsRead(ts, lits)
    decreases |ts|
  {
    ValuesStep(ts);
    if IsMark(ts[1], COMMA) {
      var more := ValuesAre(ts[2..]);
      lits := [ts[0]] + more;
      MoreLits(ts, more);
    } else {
      lits := [ts[0]];
      OneListed(ts[0]);
    }
  }

  lemma MoreLits(ts: Toks, more: Toks)
    requires Ended(ts) && ParseValues(ts).Ok? && IsMark(ts[1], COMMA) && Ended(ts[2..]) && LitsRead(ts[2..], more)
    ensures LitsRead(ts, [ts[0]] + more)
  {
    ValuesStep(ts);
    LitListed(ts[0], more);
    hide ParseValues, Ended, IsMark, Listed, Texts;
    AllLiterals(ts[0], more);
    Glue([ts[0], Mark(COMMA)], Listed(more), ParseValues(ts[2..]).value.1);
  }

  lemma Glue(a: Toks, b: Toks, c: Toks)
    ensures a + (b + c) == (a + b) + c
  {
  }

  lemma AllLiterals(t: Token, ts: Toks)
    requires IsLiteral(t) && forall i :: 0 <= i < |ts| ==> IsLiteral(ts[i])
    ensures forall i :: 0 <= i < |[t] + ts| ==> IsLiteral(([t] + ts)[i])
  {
  }

  lemma OneListed(t: Token)
    ensures Listed([t]) == [t] && Texts([t]) == [t.s]
  {
  }

  lemma LitListed(t: Token, ts: Toks)
    requires ts != []
    ensures Listed([t] + ts) == [t, Mark(COMMA)] + Listed(ts) && Texts([t] + ts) == [t.s] + Texts(ts)
  {
    assert ([t] + ts)[1..] == ts;
  }

  lemma CmpIs(ts: Toks) returns (t: Tree)
    requires Ended(ts) && ParseCmp(ts).Ok?
    ensures Grammatical(t, 0) && Grammatical(t, 2)
    ensures Meaning(t) == ParseCmp(ts).value.0 && ts == TreeTokens(t) + ParseCmp(ts).value.1
  {
    hide IsKeyword, Spells, ParseValues, Listed, Texts;
    var tail := ParseCmp(ts).value.1;
    Keyword(ts[1]);
    if IsKeyword(ts[1], IN) {
      var rest := ParseValues(ts[2..][1..]).value.1;
      var lits := ValuesAre(ts[2..][1..]);
      t := Among(ts[0].s, ts[1].s, lits);
      assert rest == [Mark(RPAREN)] + tail;
      assert ts == [ts[0], ts[1], ts[2]] + ts[2..][1..];
    } else {
      t := Comparing(ts[0].s, OpOf(ts[1]).value, ts[2]);
      assert ts == [ts[0], ts[1], ts[2]] + tail;
    }
  }

  lemma {:induction false} FactorIs(ts: Toks) returns (t: Tree)
    requires Ended(ts) && ParseFactor(ts).Ok?
    ensures Grammatical(t, 0) && Grammatical(t, 2)
    ensures Meaning(t) == ParseFactor(ts).value.0 && ts == TreeTokens(t) + ParseFactor(ts).value.1
    decreases |ts|, 0
  {
    hide ParseOr, ParseCmp;
    if IsMark(ts[0], LPAREN) {
      var rest := ParseOr(ts[1..]).value.1;
      var inner := ExprIs(ts[1..]);
      t := Parens(inner);
      assert rest == [Mark(RPAREN)] + rest[1..];
      assert ts == [ts[0]] + ts[1..];
    } else {
      t := CmpIs(ts);
    }
  }

  lemma {:induction false} AndIs(ts: Toks) returns (t: Tree)
    requires Ended(ts) && ParseAnd(ts).Ok?
    ensures Grammatical(t, 0) && Grammatical(t, 1)
    ensures Meaning(t) == ParseAnd(ts).value.0 && ts == TreeTokens(t) + ParseAnd(ts).value.1
    decreases |ts|, 1
  {
    hide ParseFactor, AndTail;
    var left := FactorIs(ts);
    AtLeast(left, 2);
    t := AndTailIs(left, ParseFactor(ts).value.1);
  }

  lemma BothAre(l: Tree, w: bytes, r: Tree, rest: Toks)
    requires Spells(w, AND) && Grammatical(l, 0) && Grammatical(l, 1) && Grammatical(r, 0) && Grammatical(r, 2)
    ensures var both := Conjunction(l, w, r);
            && Grammatical(both, 0) && Grammatical(both, 1) && Meaning(both) == Conj(Meaning(l), Meaning(r))
            && TreeTokens(both) + rest == TreeTokens(l) + ([Word(w)] + (TreeTokens(r) + rest))
            && (Shaped(Meaning(l)) && Shaped(Meaning(r)) ==> Shaped(Meaning(both)))
  {
    hide Spells;
    var a, b := TreeTokens(l), TreeTokens(r);
    assert (a + ([Word(w)] + b)) + rest == a + ([Word(w)] + (b + rest));
  }

  lemma EitherIs(l: Tree, w: bytes, r: Tree, rest: Toks)
    requires Spells(w, OR) && Grammatical(l, 0) && Grammatical(r, 0) && Grammatical(r, 1)
    ensures var either := Disjunction(l, w, r);
            && Grammatical(either, 0) && Meaning(either) == Disj(Meaning(l), Meaning(r))
            && TreeTokens(either) + rest == TreeTokens(l) + ([Word(w)] + (TreeTokens(r) + rest))
            && (Shaped(Meaning(l)) && Shaped(Meaning(r)) ==> Shaped(Meaning(either)))
  {
    hide Spells;
    var a, b := TreeTokens(l), TreeTokens(r);
    assert (a + ([Word(w)] + b)) + rest == a + ([Word(w)] + (b + rest));
  }

  lemma {:induction false} AndTailIs(left: Tree, ts: Toks) returns (t: Tree)
    requires Ended(ts) && Grammatical(left, 0) && Grammatical(left, 1) && Shaped(Meaning(left))
    requires AndTail(Meaning(left), ts).Ok?
    ensures Grammatical(t, 0) && Grammatical(t, 1)
    ensures Meaning(t) == AndTail(Meaning(left), ts).value.0
    ensures TreeTokens(left) + ts == TreeTokens(t) + AndTail(Meaning(left), ts).value.1
    decreases |ts|, 0
  {
    Keyword(ts[0]);
    hide ParseFactor, IsKeyword, Spells, TreeTokens, Grammatical, Meaning, Shaped;
    if IsKeyword(ts[0], AND) {
      var rest := ParseFactor(ts[1..]).value.1;
      var right := FactorIs(ts[1..]);
      BothAre(left, ts[0].s, right, rest);
      assert ts == [ts[0]] + ts[1..];
      t := AndTailIs(Conjunction(left, ts[0].s, right), rest);
    } else {
      t := left;
    }
  }

  lemma {:induction false} ExprIs(ts: Toks) returns (t: Tree)
    requires Ended(ts) && ParseOr(ts).Ok?
    ensures Grammatical(t, 0)
    ensures Meaning(t) == ParseOr(ts).value.0 && ts == TreeTokens(t) + ParseOr(ts).value.1
    decreases |ts|, 2
  {
    hide ParseAnd, OrTail;
    var left := AndIs(ts);
    t := OrTailIs(left, ParseAnd(ts).value.1);
  }

  lemma {:induction false} OrTailIs(left: Tree, ts: Toks) returns (t: Tree)
    requires Ended(ts) && Grammatical(left, 0) && Shaped(Meaning(left))
    requires OrTail(Meaning(left), ts).Ok?
    ensures Grammatical(t, 0)
    ensures Meaning(t) == OrTail(Meaning(left), ts).value.0
    ensures TreeTokens(left) + ts == TreeTokens(t) + OrTail(Meaning(left), ts).value.1
    decreases |ts|, 0
  {
    Keyword(ts[0]);
    hide ParseAnd, IsKeyword, Spells, TreeTokens, Grammatical, Meaning, Shaped;
    if IsKeyword(ts[0], OR) {
      var rest := ParseAnd(ts[1..]).value.1;
      var right := AndIs(ts[1..]);
      EitherIs(left, ts[0].s, right, rest);
      assert ts == [ts[0]] + ts[1..];
      t := OrTailIs(Disjunction(left, ts[0].s, right), rest);
    } else {
      t := left;
    }
  }

  // ----- statements ------------------------------------------------------------------------------

  datatype SelectForm =
    | Everything
    | Counting(word: bytes)
    | Ranking(word: bytes, col: bytes, digits: Option<bytes>)
    | Naming(names: seq<bytes>)

  /** A statement as written. The table's name is read and forgotten. */
  datatype Form = Form(select: bytes, list: SelectForm, from: bytes, table: bytes,
                       filter: Option<(bytes, Tree)>, limit: Option<(bytes, bytes)>)

  /** Decimal digits of a number in range. */
  predicate IsCount(digits: bytes, least: nat) {
    AllDigits(digits) && least <= DecimalValue(digits) <= MAX_INT
  }

  predicate ListOk(f: SelectForm) {
    match f
    case Everything => true
    case Counting(w) => Spells(w, COUNT)
    case Ranking(w, _, digits) => Spells(w, TOP) && (digits.Some? ==> IsCount(digits.value, 1))
    case Naming(names) => names != [] && !Spells(names[0], COUNT) && !Spells(names[0], TOP)
  }

  predicate FormOk(f: Form) {
    && Spells(f.select, SELECT) && ListOk(f.list) && Spells(f.from, FROM)
    && (f.filter.Some? ==> Spells(f.filter.value.0, WHERE) && Grammatical(f.filter.value.1, 0))
    && (f.limit.Some? ==> Spells(f.limit.value.0, LIMIT) && IsCount(f.limit.value.1, 0))
  }

  function Words(names: seq<bytes>): (ts: Toks)
    ensures |ts| == |names|
  {
    seq(|names|, i requires 0 <= i < |names| => Word(names[i]))
  }

  function ListTokens(f: SelectForm): Toks
    requires ListOk(f)
  {
    match f
    case Everything => [Mark(STAR)]
    case Counting(w) => [Word(w), Mark(LPAREN), Mark(STAR), Mark(RPAREN)]
    case Ranking(w, col, None) => [Word(w), Mark(LPAREN), Word(col), Mark(RPAREN)]
    case Ranking(w, col, Some(d)) => [Word(w), Mark(LPAREN), Word(col), Mark(COMMA), Token(Num, d), Mark(RPAREN)]
    case Naming(names) => Listed(Words(names))
  }

  function WhereTokens(f: Option<(bytes, Tree)>): Toks
    requires f.Some? ==> Grammatical(f.value.1, 0)
  {
    if f.None? then [] else [Word(f.value.0)] + TreeTokens(f.value.1)
  }

  function LimitTokens(f: Option<(bytes, bytes)>): Toks {
    if f.None? then [] else [Word(f.value.0), Token(Num, f.value.1)]
  }

  function FormTokens(f: Form): Toks
    requires FormOk(f)
  {
    [Word(f.select)] + (ListTokens(f.list)
    + ([Word(f.from), Word(f.table)] + (WhereTokens(f.filter) + LimitTokens(f.limit))))
  }

  /** top(col) without a number shows ten values; no LIMIT is limit 0. */
  function FormMeaning(f: Form): Stmt {
    Stmt(match f.list case Counting(_) => Some(Count)
                      case Ranking(_, col, None) => Some(Top(col, 10))
                      case Ranking(_, col, Some(d)) => Some(Top(col, DecimalValue(d)))
                      case _ => None,
         f.list.Everything?,
         if f.list.Naming? then f.list.names else [],
         if f.filter.Some? then Some(Meaning(f.filter.value.1)) else None,
         if f.limit.Some? then DecimalValue(f.limit.value.1) else 0)
  }

  lemma LastNameReads(name: bytes, tail: Toks)
    requires Ended(tail) && !IsMark(tail[0], COMMA)
    ensures Ended([Word(name)] + tail) && ParseNames([Word(name)] + tail) == Ok(([name], tail))
  {
    hide Ended;
    OneInFront(Word(name), tail);
  }

  lemma NextNameReads(name: bytes, names: seq<bytes>, rest: Toks, tail: Toks)
    requires Ended(rest) && ParseNames(rest) == Ok((names, tail))
    ensures Ended([Word(name)] + ([Mark(COMMA)] + rest))
    ensures ParseNames([Word(name)] + ([Mark(COMMA)] + rest)) == Ok(([name] + names, tail))
  {
    hide Ended;
    OneInFront(Mark(COMMA), rest);
    OneInFront(Word(name), [Mark(COMMA)] + rest);
    assert ([Word(name)] + ([Mark(COMMA)] + rest))[2..] == rest;
  }

  lemma {:induction false} NamesRead(names: seq<bytes>, tail: Toks)
    requires names != [] && Ended(tail) && !IsMark(tail[0], COMMA)
    ensures Ended(Listed(Words(names)) + tail)
    ensures ParseNames(Listed(Words(names)) + tail) == Ok((names, tail))
    ensures (Listed(Words(names)) + tail)[0] == Word(names[0])
    decreases |names|
  {
    hide Ended, ParseNames;
    if |names| == 1 {
      LastNameReads(names[0], tail);
      assert names == [names[0]] && Words(names) == [Word(names[0])];
    } else {
      var rest := Listed(Words(names[1..])) + tail;
      NamesRead(names[1..], tail);
      NextNameReads(names[0], names[1..], rest, tail);
      assert Words(names)[1..] == Words(names[1..]);
      assert Listed(Words(names)) + tail == [Word(names[0])] + ([Mark(COMMA)] + rest);
      assert names == [names[0]] + names[1..];
    }
  }

  lemma MoreListed(name: bytes, names: seq<bytes>)
    requires names != []
    ensures Listed(Words([name] + names)) == [Word(name), Mark(COMMA)] + Listed(Words(names))
  {
    assert Words([name] + names)[1..] == Words(names);
  }

  lemma {:induction false} NamesAre(ts: Toks)
    requires Ended(ts) && ParseNames(ts).Ok?
    ensures var (names, rest) := ParseNames(ts).value;
            names != [] && ts[0] == Word(names[0]) && ts == Listed(Words(names)) + rest
    decreases |ts|
  {
    if IsMark(ts[1], COMMA) {
      NamesAre(ts[2..]);
      var (more, rest) := ParseNames(ts[2..]).value;
      MoreListed(ts[0].s, more);
      assert ts == [ts[0], ts[1]] + ts[2..];
      assert [ts[0], ts[1]] + (Listed(Words(more)) + rest) == ([ts[0], ts[1]] + Listed(Words(more))) + rest;
    } else {
      assert Words([ts[0].s]) == [ts[0]];
    }
  }

  lemma CountReads(digits: bytes, least: nat)
    requires IsCount(digits, least)
    ensures Atoi(digits) == Some(DecimalValue(digits))
  {
    hide DecimalValue;
  }

  lemma TopReads(f: SelectForm, tail: Toks)
    requires f.Ranking? && ListOk(f) && Ended(tail)
    ensures Ended(ListTokens(f)[1..] + tail)
    ensures ParseTop(ListTokens(f)[1..] + tail)
            == Ok((Top(f.col, if f.digits.Some? then DecimalValue(f.digits.value) else 10), tail))
  {
    hide Spells, DecimalValue, Ended, Atoi, IsCount;
    var front := ListTokens(f)[1..];
    EndedInFront(front, tail);
    var ts := front + tail;
    if f.digits.Some? {
      CountReads(f.digits.value, 1);
      RankPositive(f);
      assert ts[5..] == tail;
    } else {
      assert ts[3..] == tail;
    }
  }

  lemma RankPositive(f: SelectForm)
    requires f.Ranking? && ListOk(f) && f.digits.Some?
    ensures DecimalValue(f.digits.value) > 0
  {
    hide DecimalValue;
  }

  lemma ListReads(f: SelectForm, tail: Toks)
    requires ListOk(f) && Ended(tail) && tail[0].kind == Ident
    ensures Ended(ListTokens(f) + tail)
    ensures ParseSelectList(ListTokens(f) + tail).Ok?
    ensures var (sel, rest) := ParseSelectList(ListTokens(f) + tail).value;
            && rest == tail && sel.star == f.Everything? && sel.projection == (if f.Naming? then f.names else [])
            && sel.aggregate == match f case Counting(_) => Some(Count)
                                        case Ranking(_, col, None) => Some(Top(col, 10))
                                        case Ranking(_, col, Some(d)) => Some(Top(col, DecimalValue(d)))
                                        case _ => None
  {
    hide IsKeyword, Spells, Ended, ParseNames, ParseTop, Listed, Words, IsCount, DecimalValue;
    var ts := ListTokens(f) + tail;
    match f {
      case Everything =>
        OneInFront(Mark(STAR), tail);
      case Counting(w) =>
        EndedInFront(ListTokens(f), tail);
        Keyword(ts[0]);
        assert ts[4..] == tail;
      case Ranking(w, _, _) =>
        TopReads(f, tail);
        OneInFront(Word(w), ListTokens(f)[1..] + tail);
        assert ts == [Word(w)] + (ListTokens(f)[1..] + tail);
        Keyword(ts[0]);
        SpelledApart(w);
      case Naming(names) =>
        NamesRead(names, tail);
        Keyword(ts[0]);
    }
  }

  lemma WhereReads(f: Option<(bytes, Tree)>, tail: Toks)
    requires f.Some? ==> Spells(f.value.0, WHERE) && Grammatical(f.value.1, 0)
    requires Ended(tail) && !Is(tail[0], WHERE) && !Is(tail[0], AND) && !Is(tail[0], OR)
    ensures Ended(WhereTokens(f) + tail)
    ensures ParseWhere(WhereTokens(f) + tail)
            == Ok((if f.Some? then Some(Meaning(f.value.1)) else None, tail))
  {
    if f.Some? {
      FilterReads(f.value.0, f.value.1, tail);
    } else {
      Keyword(tail[0]);
      assert WhereTokens(f) + tail == tail;
    }
  }

  lemma FilterReads(w: bytes, t: Tree, tail: Toks)
    requires Spells(w, WHERE) && Grammatical(t, 0)
    requires Ended(tail) && !Is(tail[0], AND) && !Is(tail[0], OR)
    ensures Ended(WhereTokens(Some((w, t))) + tail)
    ensures ParseWhere(WhereTokens(Some((w, t))) + tail) == Ok((Some(Meaning(t)), tail))
  {
    hide Ended, IsKeyword, Spells, ParseOr, TreeTokens, Meaning, Grammatical, Shaped;
    ExprReads(t, tail);
    OneInFront(Word(w), TreeTokens(t) + tail);
    Keyword(Word(w));
    assert WhereTokens(Some((w, t))) + tail == [Word(w)] + (TreeTokens(t) + tail);
  }

  lemma LimitReads(f: Option<(bytes, bytes)>)
    requires f.Some? ==> Spells(f.value.0, LIMIT) && IsCount(f.value.1, 0)
    ensures Ended(LimitTokens(f) + [END])
    ensures ParseLimit(LimitTokens(f) + [END]) == Ok((if f.Some? then DecimalValue(f.value.1) else 0, [END]))
    ensures var t := (LimitTokens(f) + [END])[0];
            !Is(t, WHERE) && !Is(t, AND) && !Is(t, OR)
  {
    hide IsKeyword, Spells, DecimalValue, Atoi, IsCount;
    if f.Some? {
      CountReads(f.value.1, 0);
      Keyword(Word(f.value.0));
      SpelledApart(f.value.0);
      var ts := LimitTokens(f) + [END];
      assert ts[0] == Word(f.value.0) && ts[1] == Token(Num, f.value.1) && ts[2..] == [END];
    } else {
      Keyword(END);
      assert LimitTokens(f) + [END] == [END];
    }
  }

  /** Every statement of the grammar is parsed as what it stands for. */
  lemma FormReads(f: Form)
    requires FormOk(f)
    ensures Ended(FormTokens(f) + [END]) && ParseStmt(FormTokens(f) + [END]) == Ok(FormMeaning(f))
  {
    hide Ended, IsKeyword, Spells, ListTokens, WhereTokens, LimitTokens, ParseSelectList, ParseWhere, ParseLimit,
         Grammatical, ListOk, DecimalValue, Meaning, IsCount, ParseStmt, FormTokens, Shaped, IsMark;
    var t3 := LimitTokens(f.limit) + [END];
    LimitReads(f.limit);
    var t2 := WhereTokens(f.filter) + t3;
    WhereReads(f.filter, t3);
    OneInFront(Word(f.table), t2);
    OneInFront(Word(f.from), [Word(f.table)] + t2);
    var t1 := [Word(f.from)] + ([Word(f.table)] + t2);
    Keyword(t1[0]);
    assert t1[2..] == t2;
    ListReads(f.list, t1);
    var t0 := ListTokens(f.list) + t1;
    OneInFront(Word(f.select), t0);
    Keyword(Word(f.select));
    FormSplit(f);
    StmtSteps([Word(f.select)] + t0, t1, t3);
  }

  lemma FormSplit(f: Form)
    requires FormOk(f)
    ensures FormTokens(f) + [END] ==
            [Word(f.select)] + (ListTokens(f.list) + ([Word(f.from)] + ([Word(f.table)]
            + (WhereTokens(f.filter) + (LimitTokens(f.limit) + [END])))))
  {
    hide ListTokens, WhereTokens, LimitTokens, Spells, Grammatical, ListOk, IsCount;
    assert [Word(f.from), Word(f.table)] == [Word(f.from)] + [Word(f.table)];
  }

  /** The parts of a statement, parsed one after the other. */
  lemma StmtSteps(ts: Toks, t1: Toks, t3: Toks)
    requires Ended(ts) && IsKeyword(ts[0], SELECT) && Ended(ts[1..]) && ParseSelectList(ts[1..]).Ok?
    requires t1 == ParseSelectList(ts[1..]).value.1 && |t1| >= 3 && Ended(t1) && IsKeyword(t1[0], FROM)
    requires t1[1].kind == Ident && Ended(t1[2..]) && ParseWhere(t1[2..]).Ok? && t3 == ParseWhere(t1[2..]).value.1
    requires Ended(t3) && ParseLimit(t3).Ok? && ParseLimit(t3).value.1 == [END]
    ensures ParseStmt(ts) ==
            var sel := ParseSelectList(ts[1..]).value.0;
            Ok(Stmt(sel.aggregate, sel.star, sel.projection, ParseWhere(t1[2..]).value.0, ParseLimit(t3).value.0))
  {
    hide Ended, IsKeyword, ParseSelectList, ParseWhere, ParseLimit;
  }

  lemma ListIs(ts: Toks) returns (f: SelectForm)
    requires Ended(ts) && ParseSelectList(ts).Ok?
    ensures ListOk(f) && ts == ListTokens(f) + ParseSelectList(ts).value.1
    ensures var sel := ParseSelectList(ts).value.0;
            && sel.star == f.Everything? && sel.projection == (if f.Naming? then f.names else [])
            && sel.aggregate == match f case Counting(_) => Some(Count)
                                        case Ranking(_, col, None) => Some(Top(col, 10))
                                        case Ranking(_, col, Some(d)) => Some(Top(col, DecimalValue(d)))
                                        case _ => None
  {
    hide IsKeyword, Spells, ParseNames, ParseTop, Listed, Words, DecimalValue;
    Keyword(ts[0]);
    var rest := ParseSelectList(ts).value.1;
    if IsMark(ts[0], STAR) {
      f := Everything;
      assert ts == [ts[0]] + ts[1..];
    } else if IsKeyword(ts[0], COUNT) {
      f := Counting(ts[0].s);
      assert ts == [ts[0], ts[1], ts[2], ts[3]] + ts[4..];
    } else if IsKeyword(ts[0], TOP) {
      f := TopIs(ts);
    } else {
      NamesAre(ts);
      f := Naming(ParseNames(ts).value.0);
    }
  }

  lemma TopIs(ts: Toks) returns (f: SelectForm)
    requires Ended(ts) && IsKeyword(ts[0], TOP) && ParseTop(ts[1..]).Ok?
    ensures f.Ranking? && ListOk(f) && ts == ListTokens(f) + ParseTop(ts[1..]).value.1
    ensures ParseTop(ts[1..]).value.0 == Top(f.col, if f.digits.Some? then DecimalValue(f.digits.value) else 10)
  {
    hide IsKeyword, Spells, DecimalValue;
    Keyword(ts[0]);
    var rest := ts[1..];
    if IsMark(rest[2], COMMA) {
      f := Ranking(ts[0].s, rest[1].s, Some(rest[3].s));
      assert ts == [ts[0], ts[1], ts[2], ts[3], ts[4], ts[5]] + rest[5..];
    } else {
      f := Ranking(ts[0].s, rest[1].s, None);
      assert ts == [ts[0], ts[1], ts[2], ts[3]] + rest[3..];
    }
  }

  lemma WhereIs(ts: Toks) returns (f: Option<(bytes, Tree)>)
    requires Ended(ts) && ParseWhere(ts).Ok?
    ensures f.Some? ==> Spells(f.value.0, WHERE) && Grammatical(f.value.1, 0)
    ensures ts == WhereTokens(f) + ParseWhere(ts).value.1
    ensures ParseWhere(ts).value.0 == if f.Some? then Some(Meaning(f.value.1)) else None
  {
    Keyword(ts[0]);
    WhereStep(ts);
    SomeToken(ts);
    hide IsKeyword, Spells, ParseOr, TreeTokens, Grammatical, Meaning, Shaped, ParseWhere, Ended, EqualFold;
    if IsKeyword(ts[0], WHERE) {
      var t := ExprIs(ts[1..]);
      f := Some((ts[0].s, t));
      assert ts == [ts[0]] + ts[1..] && ts[0] == Word(ts[0].s);
      Glue([ts[0]], TreeTokens(t), ParseOr(ts[1..]).value.1);
    } else {
      f := None;
      assert ts == [] + ts;
    }
  }

  lemma LimitIs(ts: Toks) returns (f: Option<(bytes, bytes)>)
    requires Ended(ts) && ParseLimit(ts).Ok?
    ensures f.Some? ==> Spells(f.value.0, LIMIT) && IsCount(f.value.1, 0)
    ensures ts == LimitTokens(f) + ParseLimit(ts).value.1
    ensures ParseLimit(ts).value.0 == if f.Some? then DecimalValue(f.value.1) else 0
  {
    hide IsKeyword, Spells, DecimalValue;
    Keyword(ts[0]);
    if IsKeyword(ts[0], LIMIT) {
      f := Some((ts[0].s, ts[1].s));
      assert LimitTokens(f) == [ts[0], ts[1]];
      assert ts == [ts[0], ts[1]] + ts[2..];
    } else {
      f := None;
      assert ts == [] + ts;
    }
  }

  lemma StmtIs(ts: Toks) returns (f: Form)
    requires Ended(ts) && ParseStmt(ts).Ok?
    ensures FormOk(f) && ts == FormTokens(f) + [END] && ParseStmt(ts) == Ok(FormMeaning(f))
  {
    hide IsKeyword, Spells, ListTokens, WhereTokens, LimitTokens, ParseSelectList, ParseWhere, ParseLimit, Grammatical,
         ListOk, DecimalValue, Meaning, IsCount, Ended;
    SomeToken(ts);
    Keyword(ts[0]);
    var sel := ListIs(ts[1..]);
    var rest := ParseSelectList(ts[1..]).value.1;
    SomeToken(rest);
    Keyword(rest[0]);
    var filter := WhereIs(rest[2..]);
    var rest2 := ParseWhere(rest[2..]).value.1;
    var limit := LimitIs(rest2);
    var rest3 := ParseLimit(rest2).value.1;
    OnlyEnd(rest3);
    f := Form(ts[0].s, sel, rest[0].s, rest[1].s, filter, limit);
    assert ts == [ts[0]] + ts[1..];
    assert rest == [rest[0], rest[1]] + rest[2..];
    Regroup(ListTokens(sel), [rest[0], rest[1]], WhereTokens(filter), LimitTokens(limit));
  }

  lemma SomeToken(ts: Toks)
    requires Ended(ts)
    ensures ts != []
    ensures ts[0].kind != EOF ==> |ts| >= 2
    ensures |ts| >= 2 && ts[0].kind != EOF && ts[1].kind != EOF ==> |ts| >= 3 && Ended(ts[2..])
    ensures ts[0].kind != EOF ==> Ended(ts[1..])
  {
  }

  lemma OnlyEnd(ts: Toks)
    requires Ended(ts) && ts[0].kind == EOF
    ensures ts == [END]
  {
  }

  lemma Regroup(a: Toks, b: Toks, c: Toks, d: Toks)
    ensures a + (b + (c + (d + [END]))) == (a + (b + (c + d))) + [END]
  {
  }

  /** The parser accepts exactly the grammar: a token list parses to a statement if
      and only if it is one of the ways to write it. */
  lemma ParsesExactly(ts: Toks, st: Stmt)
    requires Ended(ts)
    ensures ParseStmt(ts) == Ok(st) <==>
            exists f: Form :: FormOk(f) && ts == FormTokens(f) + [END] && FormMeaning(f) == st
  {
    hide FormOk, FormTokens, FormMeaning, ParseStmt, Ended;
    if ParseStmt(ts) == Ok(st) {
      var f := StmtIs(ts);
      assert FormOk(f) && ts == FormTokens(f) + [END] && FormMeaning(f) == st;
    }
    if f: Form :| FormOk(f) && ts == FormTokens(f) + [END] && FormMeaning(f) == st {
      FormReads(f);
    }
  }

  /** A query text: a form whose tokens text can hold, written out. */
  ghost predicate Writes(q: bytes, f: Form) {
    FormOk(f) && IsText(q, FormTokens(f))
  }

  /** The query language: a text is parsed to a statement if and only if it writes a
      form of it. */
  lemma QueriesExactly(q: bytes, st: Stmt)
    ensures Parsed(q) == Ok(st) <==> exists f: Form :: Writes(q, f) && FormMeaning(f) == st
  {
    hide FormOk, FormTokens, FormMeaning, ParseStmt, Lexed, IsText, Ended;
    if Parsed(q) == Ok(st) {
      LexedIsEnded(q);
      var f := StmtIs(Lexed(q).value);
      LexesExactly(q, FormTokens(f));
      assert Writes(q, f) && FormMeaning(f) == st;
    }
    if f: Form :| Writes(q, f) && FormMeaning(f) == st {
      LexesExactly(q, FormTokens(f));
      FormReads(f);
    }
  }
}
