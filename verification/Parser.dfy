/** Tokens to statements by recursive descent (internal/query/parse.go).

    The functions say what parsing a token list computes: the tree and the tokens
    left over. The Parser class is the source's, with its moving position. */
module Parser {
  import opened Bits
  import opened Wrappers
  import opened Limits
  import opened Lexer
  import opened Numerals
  import opened Queries

  // ----- keywords and marks -----------------------------------------------------------------

  const SELECT: bytes := [0x73, 0x65, 0x6C, 0x65, 0x63, 0x74]
  const FROM: bytes := [0x66, 0x72, 0x6F, 0x6D]
  const WHERE: bytes := [0x77, 0x68, 0x65, 0x72, 0x65]
  const LIMIT: bytes := [0x6C, 0x69, 0x6D, 0x69, 0x74]
  const OR: bytes := [0x6F, 0x72]
  const AND: bytes := [0x61, 0x6E, 0x64]
  const IN: bytes := [0x69, 0x6E]
  const COUNT: bytes := [0x63, 0x6F, 0x75, 0x6E, 0x74]
  const TOP: bytes := [0x74, 0x6F, 0x70]

  const LPAREN: bytes := [0x28]
  const RPAREN: bytes := [0x29]
  const COMMA: bytes := [0x2C]
  const STAR: bytes := [0x2A]
  const EQ: bytes := [0x3D]
  const NE: bytes := [0x21, 0x3D]
  const LT: bytes := [0x3C]
  const GT: bytes := [0x3E]

  const DEFAULT_TOP: nat := 10

  function LowerCase(c: byte): byte {
    if 0x41 <= c <= 0x5A then c + 0x20 else c
  }

  /** strings.EqualFold on identifiers, which are ASCII. */
  predicate EqualFold(a: bytes, b: bytes) {
    |a| == |b| && forall i :: 0 <= i < |a| ==> LowerCase(a[i]) == LowerCase(b[i])
  }

  predicate IsKeyword(t: Token, kw: bytes) {
    t.kind == Ident && EqualFold(t.s, kw)
  }

  /** The keyword with any of its letters replaced by their capitals. */
  predicate Spells(w: bytes, kw: bytes) {
    |w| == |kw| && forall i :: 0 <= i < |kw| ==> w[i] == kw[i] || (0x61 <= kw[i] <= 0x7A && w[i] == kw[i] - 0x20)
  }

  predicate SmallLetters(s: bytes) {
    forall i :: 0 <= i < |s| ==> 0x61 <= s[i] <= 0x7A
  }

  /** The parser takes a word for a keyword exactly when it spells it. */
  lemma KeywordsAreSpelled(t: Token, kw: bytes)
    requires SmallLetters(kw)
    ensures IsKeyword(t, kw) <==> t.kind == Ident && Spells(t.s, kw)
  {
    if t.kind == Ident && EqualFold(t.s, kw) {
      forall i | 0 <= i < |kw|
        ensures t.s[i] == kw[i] || t.s[i] == kw[i] - 0x20
      {
        assert LowerCase(t.s[i]) == LowerCase(kw[i]);
      }
    }
    if t.kind == Ident && Spells(t.s, kw) {
      forall i | 0 <= i < |kw|
        ensures LowerCase(t.s[i]) == LowerCase(kw[i])
      {
      }
    }
  }

  predicate IsMark(t: Token, s: bytes) {
    t.kind == Punct && t.s == s
  }

  function OpOf(t: Token): Option<Comparison> {
    if IsMark(t, EQ) then Some(Eq)
    else if IsMark(t, NE) then Some(Ne)
    else if IsMark(t, LT) then Some(Lt)
    else if IsMark(t, GT) then Some(Gt)
    else None
  }

  // ----- what parsing computes -----------------------------------------------------------------

  type Toks = seq<Token>

  function ParseValue(ts: Toks): (r: Result<(bytes, Toks)>)
    requires Ended(ts)
    ensures r.Ok? ==> Ended(r.value.1) && |r.value.1| < |ts|
  {
    if ts[0].kind == Str || ts[0].kind == Num then Ok((ts[0].s, ts[1..])) else Err(Corrupt)
  }

  function ParseValues(ts: Toks): (r: Result<(seq<bytes>, Toks)>)
    requires Ended(ts)
    ensures r.Ok? ==> Ended(r.value.1) && |r.value.1| < |ts| && |r.value.0| >= 1
    decreases |ts|
  {
    var (v, rest) :- ParseValue(ts);
    if IsMark(rest[0], COMMA) then
      var (vs, rest') :- ParseValues(rest[1..]);
      Ok(([v] + vs, rest'))
    else Ok(([v], rest))
  }

  function ParseInList(col: bytes, ts: Toks): (r: Result<(Expr, Toks)>)
    requires Ended(ts)
    ensures r.Ok? ==> Ended(r.value.1) && |r.value.1| < |ts| && Shaped(r.value.0)
  {
    if !IsMark(ts[0], LPAREN) then Err(Corrupt)
    else
      var (vals, rest) :- ParseValues(ts[1..]);
      if !IsMark(rest[0], RPAREN) then Err(Corrupt) else Ok((Cmp(col, In, vals), rest[1..]))
  }

  function ParseCmp(ts: Toks): (r: Result<(Expr, Toks)>)
    requires Ended(ts)
    ensures r.Ok? ==> Ended(r.value.1) && |r.value.1| < |ts| && Shaped(r.value.0)
  {
    if ts[0].kind != Ident then Err(Corrupt)
    else if IsKeyword(ts[1], IN) then ParseInList(ts[0].s, ts[2..])
    else if OpOf(ts[1]).None? then Err(Corrupt)
    else
      var (v, rest) :- ParseValue(ts[2..]);
      Ok((Cmp(ts[0].s, OpOf(ts[1]).value, [v]), rest))
  }

  function ParseFactor(ts: Toks): (r: Result<(Expr, Toks)>)
    requires Ended(ts)
    ensures r.Ok? ==> Ended(r.value.1) && |r.value.1| < |ts| && Shaped(r.value.0)
    decreases |ts|, 0
  {
    if IsMark(ts[0], LPAREN) then
      var (e, rest) :- ParseOr(ts[1..]);
      if !IsMark(rest[0], RPAREN) then Err(Corrupt) else Ok((e, rest[1..]))
    else ParseCmp(ts)
  }

  function ParseAnd(ts: Toks): (r: Result<(Expr, Toks)>)
    requires Ended(ts)
    ensures r.Ok? ==> Ended(r.value.1) && |r.value.1| < |ts| && Shaped(r.value.0)
    decreases |ts|, 1
  {
    var (left, rest) :- ParseFactor(ts);
    AndTail(left, rest)
  }

  /** More conjuncts, associated to the left. */
  function AndTail(left: Expr, ts: Toks): (r: Result<(Expr, Toks)>)
    requires Ended(ts) && Shaped(left)
    ensures r.Ok? ==> Ended(r.value.1) && |r.value.1| <= |ts| && Shaped(r.value.0)
    decreases |ts|, 0
  {
    if IsKeyword(ts[0], AND) then
      var (right, rest) :- ParseFactor(ts[1..]);
      AndTail(Conj(left, right), rest)
    else Ok((left, ts))
  }

  function ParseOr(ts: Toks): (r: Result<(Expr, Toks)>)
    requires Ended(ts)
    ensures r.Ok? ==> Ended(r.value.1) && |r.value.1| < |ts| && Shaped(r.value.0)
    decreases |ts|, 2
  {
    var (left, rest) :- ParseAnd(ts);
    OrTail(left, rest)
  }

  /** More disjuncts, associated to the left. */
  function OrTail(left: Expr, ts: Toks): (r: Result<(Expr, Toks)>)
    requires Ended(ts) && Shaped(left)
    ensures r.Ok? ==> Ended(r.value.1) && |r.value.1| <= |ts| && Shaped(r.value.0)
    decreases |ts|, 0
  {
    if IsKeyword(ts[0], OR) then
      var (right, rest) :- ParseAnd(ts[1..]);
      OrTail(Disj(left, right), rest)
    else Ok((left, ts))
  }

  datatype SelectList = SelectList(aggregate: Option<Agg>, star: bool, projection: seq<bytes>)

  function ParseNames(ts: Toks): (r: Result<(seq<bytes>, Toks)>)
    requires Ended(ts)
    ensures r.Ok? ==> Ended(r.value.1) && |r.value.1| < |ts|
    decreases |ts|
  {
    if ts[0].kind != Ident then Err(Corrupt)
    else if IsMark(ts[1], COMMA) then
      var (names, rest) :- ParseNames(ts[2..]);
      Ok(([ts[0].s] + names, rest))
    else Ok(([ts[0].s], ts[1..]))
  }

  /** What follows top. */
  function ParseTop(ts: Toks): (r: Result<(Agg, Toks)>)
    requires Ended(ts)
    ensures r.Ok? ==> Ended(r.value.1) && |r.value.1| < |ts|
  {
    if !IsMark(ts[0], LPAREN) || ts[1].kind != Ident then Err(Corrupt)
    else if IsMark(ts[2], COMMA) then
      if ts[3].kind != Num || Atoi(ts[3].s).None? || Atoi(ts[3].s).value == 0 || !IsMark(ts[4], RPAREN) then
          Err(Corrupt)
      else Ok((Top(ts[1].s, Atoi(ts[3].s).value), ts[5..]))
    else if !IsMark(ts[2], RPAREN) then Err(Corrupt)
    else Ok((Top(ts[1].s, DEFAULT_TOP), ts[3..]))
  }

  function ParseSelectList(ts: Toks): (r: Result<(SelectList, Toks)>)
    requires Ended(ts)
    ensures r.Ok? ==> Ended(r.value.1) && |r.value.1| < |ts|
  {
    if IsMark(ts[0], STAR) then Ok((SelectList(None, true, []), ts[1..]))
    else if IsKeyword(ts[0], COUNT) then
      if !IsMark(ts[1], LPAREN) || !IsMark(ts[2], STAR) || !IsMark(ts[3], RPAREN) then Err(Corrupt)
      else Ok((SelectList(Some(Count), false, []), ts[4..]))
    else if IsKeyword(ts[0], TOP) then
      var (agg, rest) :- ParseTop(ts[1..]);
      Ok((SelectList(Some(agg), false, []), rest))
    else
      var (names, rest) :- ParseNames(ts);
      Ok((SelectList(None, false, names), rest))
  }

  function ParseWhere(ts: Toks): (r: Result<(Option<Expr>, Toks)>)
    requires Ended(ts)
    ensures r.Ok? ==> Ended(r.value.1) && (r.value.0.Some? ==> Shaped(r.value.0.value))
  {
    if IsKeyword(ts[0], WHERE) then
      var (e, rest) :- ParseOr(ts[1..]);
      Ok((Some(e), rest))
    else Ok((None, ts))
  }

  function ParseLimit(ts: Toks): (r: Result<(nat, Toks)>)
    requires Ended(ts)
    ensures r.Ok? ==> Ended(r.value.1)
  {
    if !IsKeyword(ts[0], LIMIT) then Ok((0, ts))
    else if ts[1].kind != Num || Atoi(ts[1].s).None? then Err(Corrupt)
    else Ok((Atoi(ts[1].s).value, ts[2..]))
  }

  function ParseStmt(ts: Toks): (r: Result<Stmt>)
    requires Ended(ts)
    ensures r.Ok? && r.value.filter.Some? ==> Shaped(r.value.filter.value)
  {
    if !IsKeyword(ts[0], SELECT) then Err(Corrupt)
    else
      var (sel, rest) :- ParseSelectList(ts[1..]);
      if !IsKeyword(rest[0], FROM) || rest[1].kind != Ident then Err(Corrupt)
      else
        var (filter, rest2) :- ParseWhere(rest[2..]);
        var (limit, rest3) :- ParseLimit(rest2);
        if rest3[0].kind != EOF then Err(Corrupt)
        else Ok(Stmt(sel.aggregate, sel.star, sel.projection, filter, limit))
  }

  /** Query text to statement. */
  function Parsed(q: bytes): (r: Result<Stmt>)
    ensures r.Ok? && r.value.filter.Some? ==> Shaped(r.value.filter.value)
  {
    var toks :- Lexed(q);
    LexedIsEnded(q);
    ParseStmt(toks)
  }

  // ----- the parser --------------------------------------------------------------------------------

  /** A parse in progress: the source's parser with its position. */
  class TokenParser {
    const toks: Toks
    var pos: nat

    ghost predicate Valid()
      reads this
    {
      pos < |toks| && Ended(toks[pos..])
    }

    ghost function Rest(): Toks
      requires pos <= |toks|
      reads this
    {
      toks[pos..]
    }

    constructor (ts: Toks)
      requires Ended(ts)
      ensures Valid() && toks == ts && Rest() == ts
    {
      toks := ts;
      pos := 0;
    }

    function Cur(): Token
      requires pos < |toks|
      reads this
    {
      toks[pos]
    }

    /** The current token; the position may pass the end marker only here. */
    method Next() returns (t: Token)
      requires Valid()
      modifies this
      ensures t == old(Cur()) && pos == old(pos) + 1
      ensures t.kind != EOF ==> Valid() && Rest() == old(Rest())[1..]
    {
      t := toks[pos];
      pos := pos + 1;
    }

    method EatKeyword(kw: bytes) returns (ok: bool)
      requires Valid()
      modifies this
      ensures Valid() && ok == IsKeyword(old(Cur()), kw)
      ensures SmallLetters(kw) ==> ok == (old(Cur()).kind == Ident && Spells(old(Cur()).s, kw))
      ensures Rest() == if ok then old(Rest())[1..] else old(Rest())
    {
      hide SmallLetters, Spells, EqualFold;
      ghost var t := Cur();
      if SmallLetters(kw) {
        KeywordsAreSpelled(t, kw);
      }
      ok := IsKeyword(Cur(), kw);
      if ok {
        pos := pos + 1;
      }
    }

    method EatPunct(s: bytes) returns (ok: bool)
      requires Valid()
      modifies this
      ensures Valid() && ok == IsMark(old(Cur()), s)
      ensures Rest() == if ok then old(Rest())[1..] else old(Rest())
    {
      ok := IsMark(Cur(), s);
      if ok {
        pos := pos + 1;
      }
    }

    /** The outcome a parsing function calls for: the same value, with the position
        at what the function leaves over, or the same error. */
    ghost predicate Reads<T(!new)>(r: Result<T>, want: Result<(T, Toks)>)
      reads this
    {
      match want
      case Ok((x, rest)) => r == Ok(x) && Valid() && Rest() == rest
      case Err(e) => r == Err(e)
    }

    method ParseValueAt() returns (r: Result<bytes>)
      requires Valid()
      modifies this
      ensures Reads(r, ParseValue(old(Rest())))
    {
      var t := Next();
      if t.kind == Str || t.kind == Num {
        return Ok(t.s);
      }
      return Err(Corrupt);
    }

    /** The values of an IN list, up to its closing parenthesis. */
    method ParseValuesAt() returns (r: Result<seq<bytes>>)
      requires Valid()
      modifies this
      ensures Reads(r, ParseValues(old(Rest())))
    {
      hide Ended, ParseValue;
      var vals: seq<bytes> := [];
      ghost var was := Rest();
      NoFront(ParseValues(was));
      while true
        invariant Valid() && ParseValues(was) == WithFront(vals, ParseValues(Rest()))
        decreases |Rest()|
      {
        ghost var ts := Rest();
        var v := ParseValueAt();
        if v.Err? {
          return Err(v.error);
        }
        ghost var rest := Rest();
        MoreValues(vals, ts);
        vals := vals + [v.value];
        var comma := EatPunct(COMMA);
        if !comma {
          break;
        }
      }
      return Ok(vals);
    }

    method ParseCmpAt() returns (r: Result<Expr>)
      requires Valid()
      modifies this
      ensures Reads(r, ParseCmp(old(Rest())))
    {
      hide Ended, ParseValue, ParseValues, EqualFold, SmallLetters, Spells;
      ghost var was := Rest();
      var col := Next();
      if col.kind != Ident {
        return Err(Corrupt);
      }
      var isIn := EatKeyword(IN);
      if isIn {
        assert Rest() == was[2..];
        var open := EatPunct(LPAREN);
        if !open {
          return Err(Corrupt);
        }
        var vals := ParseValuesAt();
        if vals.Err? {
          return Err(vals.error);
        }
        var close := EatPunct(RPAREN);
        if !close {
          return Err(Corrupt);
        }
        return Ok(Cmp(col.s, In, vals.value));
      }
      var t := Next();
      if !(t.kind == Punct && (t.s == EQ || t.s == NE || t.s == LT || t.s == GT)) {
        return Err(Corrupt);
      }
      assert Rest() == was[2..];
      var v := ParseValueAt();
      if v.Err? {
        return Err(v.error);
      }
      return Ok(Cmp(col.s, OpOf(t).value, [v.value]));
    }

    method ParseFactorAt() returns (r: Result<Expr>)
      requires Valid()
      modifies this
      ensures Reads(r, ParseFactor(old(Rest())))
      decreases |Rest()|, 0
    {
      hide Ended, ParseCmp, ParseOr;
      var open := EatPunct(LPAREN);
      if open {
        var e := ParseExprAt();
        if e.Err? {
          return Err(e.error);
        }
        var close := EatPunct(RPAREN);
        if !close {
          return Err(Corrupt);
        }
        return e;
      }
      r := ParseCmpAt();
    }

    method ParseAndAt() returns (r: Result<Expr>)
      requires Valid()
      modifies this
      ensures Reads(r, ParseAnd(old(Rest())))
      decreases |Rest()|, 1
    {
      hide Ended, ParseFactor, EqualFold, SmallLetters, Spells;
      ghost var was := Rest();
      r := ParseFactorAt();
      if r.Err? {
        return;
      }
      var left := r.value;
      var more := EatKeyword(AND);
      while more
        invariant Valid() && Shaped(left) && |Rest()| < |was|
        invariant ParseAnd(was) == if more then AndStep(left, Rest()) else Ok((left, Rest()))
        decreases |Rest()|, more
      {
        var right := ParseFactorAt();
        if right.Err? {
          return Err(right.error);
        }
        left := Conj(left, right.value);
        more := EatKeyword(AND);
      }
      return Ok(left);
    }

    method ParseOrAt() returns (r: Result<Expr>)
      requires Valid()
      modifies this
      ensures Reads(r, ParseOr(old(Rest())))
      decreases |Rest()|, 2
    {
      hide Ended, ParseAnd, EqualFold, SmallLetters, Spells;
      ghost var was := Rest();
      r := ParseAndAt();
      if r.Err? {
        return;
      }
      var left := r.value;
      var more := EatKeyword(OR);
      while more
        invariant Valid() && Shaped(left) && |Rest()| < |was|
        invariant ParseOr(was) == if more then OrStep(left, Rest()) else Ok((left, Rest()))
        decreases |Rest()|, more
      {
        var right := ParseAndAt();
        if right.Err? {
          return Err(right.error);
        }
        left := Disj(left, right.value);
        more := EatKeyword(OR);
      }
      return Ok(left);
    }

    method ParseExprAt() returns (r: Result<Expr>)
      requires Valid()
      modifies this
      ensures Reads(r, ParseOr(old(Rest())))
      decreases |Rest()|, 3
    {
      r := ParseOrAt();
    }

    method ParseNamesAt() returns (r: Result<seq<bytes>>)
      requires Valid()
      modifies this
      ensures Reads(r, ParseNames(old(Rest())))
    {
      hide Ended;
      var names: seq<bytes> := [];
      ghost var was := Rest();
      NoFront(ParseNames(was));
      while true
        invariant Valid() && ParseNames(was) == WithFront(names, ParseNames(Rest()))
        decreases |Rest()|
      {
        ghost var ts := Rest();
        var id := Next();
        if id.kind != Ident {
          return Err(Corrupt);
        }
        MoreNames(names, ts);
        names := names + [id.s];
        var comma := EatPunct(COMMA);
        if !comma {
          break;
        }
        assert ts[1..][1..] == ts[2..];
      }
      return Ok(names);
    }

    /** Behind the word top. */
    method ParseTopAt() returns (r: Result<Agg>)
      requires Valid()
      modifies this
      ensures Reads(r, ParseTop(old(Rest())))
    {
      hide Ended, Atoi;
      ghost var was := Rest();
      var open := EatPunct(LPAREN);
      if !open {
        return Err(Corrupt);
      }
      var col := Next();
      if col.kind != Ident {
        return Err(Corrupt);
      }
      assert Rest() == was[2..];
      var n := DEFAULT_TOP;
      var comma := EatPunct(COMMA);
      if comma {
        var num := Next();
        if num.kind != Num {
          return Err(Corrupt);
        }
        var v := Atoi(num.s);
        if v.None? || v.value == 0 {
          return Err(Corrupt);
        }
        n := v.value;
        assert Rest() == was[4..];
      }
      var close := EatPunct(RPAREN);
      if !close {
        return Err(Corrupt);
      }
      return Ok(Top(col.s, n));
    }

    method ParseSelectListAt() returns (r: Result<SelectList>)
      requires Valid()
      modifies this
      ensures Reads(r, ParseSelectList(old(Rest())))
    {
      hide Ended, ParseNames, ParseTop, EqualFold, SmallLetters, Spells;
      ghost var was := Rest();
      var t := Cur();
      if IsMark(t, STAR) {
        var _ := Next();
        return Ok(SelectList(None, true, []));
      }
      if IsKeyword(t, COUNT) {
        var _ := Next();
        var ok := EatPunct(LPAREN);
        if !ok {
          return Err(Corrupt);
        }
        assert Rest() == was[2..];
        ok := EatPunct(STAR);
        if !ok {
          return Err(Corrupt);
        }
        assert Rest() == was[3..];
        ok := EatPunct(RPAREN);
        if !ok {
          return Err(Corrupt);
        }
        return Ok(SelectList(Some(Count), false, []));
      }
      if IsKeyword(t, TOP) {
        var _ := Next();
        var agg := ParseTopAt();
        if agg.Err? {
          return Err(agg.error);
        }
        return Ok(SelectList(Some(agg.value), false, []));
      }
      var names := ParseNamesAt();
      if names.Err? {
        return Err(names.error);
      }
      return Ok(SelectList(None, false, names.value));
    }

    method ParseStmtAt() returns (r: Result<Stmt>)
      requires Valid()
      modifies this
      ensures r == ParseStmt(old(Rest()))
    {
      hide Ended, ParseSelectList, ParseOr, IsKeyword, Atoi, SmallLetters, Spells, ParseWhere, ParseLimit;
      var ok := EatKeyword(SELECT);
      if !ok {
        return Err(Corrupt);
      }
      var sel := ParseSelectListAt();
      if sel.Err? {
        return Err(sel.error);
      }
      ghost var rest := Rest();
      ok := EatKeyword(FROM);
      if !ok {
        return Err(Corrupt);
      }
      var table := Next();
      if table.kind != Ident {
        return Err(Corrupt);
      }
      assert Rest() == rest[2..];
      var filter: Option<Expr> := None;
      WhereStep(rest[2..]);
      var isWhere := EatKeyword(WHERE);
      if isWhere {
        var e := ParseExprAt();
        if e.Err? {
          return Err(e.error);
        }
        filter := Some(e.value);
      }
      assert ParseWhere(rest[2..]) == Ok((filter, Rest()));
      ghost var rest2 := Rest();
      var limit := 0;
      LimitStep(rest2);
      var isLimit := EatKeyword(LIMIT);
      if isLimit {
        var t := Next();
        if t.kind != Num {
          return Err(Corrupt);
        }
        var n := Atoi(t.s);
        if n.None? {
          return Err(Corrupt);
        }
        limit := n.value;
        assert Rest() == rest2[2..];
      }
      assert ParseLimit(rest2) == Ok((limit, Rest()));
      if Cur().kind != EOF {
        return Err(Corrupt);
      }
      return Ok(Stmt(sel.value.aggregate, sel.value.star, sel.value.projection, filter, limit));
    }
  }

  /** The two branches of an optional WHERE. */
  lemma WhereStep(ts: Toks)
    requires Ended(ts)
    ensures if IsKeyword(ts[0], WHERE) then
              Ended(ts[1..]) && ParseWhere(ts) == match ParseOr(ts[1..]) case Ok((e, rest)) => Ok((Some(e), rest))
                                                                         case Err(e) => Err(e)
            else ParseWhere(ts) == Ok((None, ts))
  {
    hide ParseOr, EqualFold;
  }

  /** The branches of an optional LIMIT. */
  lemma LimitStep(ts: Toks)
    requires Ended(ts)
    ensures if !IsKeyword(ts[0], LIMIT) then ParseLimit(ts) == Ok((0, ts))
            else && |ts| >= 2 && (ts[1].kind != Num || Atoi(ts[1].s).None? ==> ParseLimit(ts) == Err(Corrupt))
                 && (ts[1].kind == Num && Atoi(ts[1].s).Some? ==> ParseLimit(ts) == Ok((Atoi(ts[1].s).value, ts[2..])))
  {
    hide EqualFold, Atoi;
  }

  /** Parse: lexes, then parses all tokens. */
  method Parse(q: bytes) returns (r: Result<Stmt>)
    ensures r == Parsed(q)
  {
    hide Lexed, ParseStmt, Ended;
    LexThenParse(q);
    var toks := Lex(q);
    if toks.Err? {
      return Err(toks.error);
    }
    var p := new TokenParser(toks.value);
    r := p.ParseStmtAt();
  }

  lemma LexThenParse(q: bytes)
    ensures Lexed(q).Ok? ==> Ended(Lexed(q).value)
  {
    hide Lexed, Ended;
    if Lexed(q).Ok? {
      LexedIsEnded(q);
    }
  }

  // ----- the loops ---------------------------------------------------------------------------------

  function WithFront<T>(front: seq<T>, r: Result<(seq<T>, Toks)>): Result<(seq<T>, Toks)> {
    match r
    case Ok((xs, rest)) => Ok((front + xs, rest))
    case Err(e) => Err(e)
  }

  lemma NoFront<T>(r: Result<(seq<T>, Toks)>)
    ensures WithFront([], r) == r
  {
    match r {
      case Ok((xs, _)) => assert [] + xs == xs;
      case Err(_) =>
    }
  }

  lemma FrontGrows<T>(front: seq<T>, x: T, r: Result<(seq<T>, Toks)>)
    ensures WithFront(front, WithFront([x], r)) == WithFront(front + [x], r)
  {
    match r {
      case Ok((xs, _)) => assert front + ([x] + xs) == front + [x] + xs;
      case Err(_) =>
    }
  }

  lemma MoreValues(vals: seq<bytes>, ts: Toks)
    requires Ended(ts) && ParseValue(ts).Ok?
    ensures var (v, rest) := ParseValue(ts).value;
            WithFront(vals, ParseValues(ts))
            == if IsMark(rest[0], COMMA) then WithFront(vals + [v], ParseValues(rest[1..])) else Ok((vals + [v], rest))
  {
    hide ParseValue;
    var (v, rest) := ParseValue(ts).value;
    if IsMark(rest[0], COMMA) {
      FrontGrows(vals, v, ParseValues(rest[1..]));
    }
  }

  lemma MoreNames(names: seq<bytes>, ts: Toks)
    requires Ended(ts) && ts[0].kind == Ident
    ensures WithFront(names, ParseNames(ts))
            == if IsMark(ts[1], COMMA) then WithFront(names + [ts[0].s], ParseNames(ts[2..]))
               else Ok((names + [ts[0].s], ts[1..]))
  {
    if IsMark(ts[1], COMMA) {
      FrontGrows(names, ts[0].s, ParseNames(ts[2..]));
    }
  }

  /** Behind AND. */
  function AndStep(left: Expr, ts: Toks): Result<(Expr, Toks)>
    requires Ended(ts) && Shaped(left)
  {
    var (right, rest) :- ParseFactor(ts);
    AndTail(Conj(left, right), rest)
  }

  /** Behind OR. */
  function OrStep(left: Expr, ts: Toks): Result<(Expr, Toks)>
    requires Ended(ts) && Shaped(left)
  {
    var (right, rest) :- ParseAnd(ts);
    OrTail(Disj(left, right), rest)
  }
}
