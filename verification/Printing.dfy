/** Printing statements, with parentheses only where precedence and left
    association need them; parsing inverts it. */
module Printing {
  import opened Bits
  import opened Wrappers
  import opened Limits
  import opened Lexer
  import opened Numerals
  import opened Queries
  import opened Parser
  import opened Grammar

  // ----- expressions -------------------------------------------------------------------------

  /** Trees the grammar can write: IN has at least one literal, the rest exactly one. */
  predicate Printable(e: Expr) {
    match e
    case Conj(l, r) => Printable(l) && Printable(r)
    case Disj(l, r) => Printable(l) && Printable(r)
    case Cmp(_, op, vals) => |vals| >= 1 && (op != In ==> |vals| == 1)
  }

  function Quoted(vals: seq<bytes>): (ts: Toks)
    ensures |ts| == |vals|
  {
    seq(|vals|, i requires 0 <= i < |vals| => Token(Str, vals[i]))
  }

  /** Where an expression stands: as a whole or left of OR (0), right of OR or left
      of AND (1), right of AND (2). */
  function TreeOf(e: Expr, level: nat): (t: Tree)
    requires Printable(e)
    decreases e, 1
  {
    if (e.Disj? && level > 0) || (e.Conj? && level > 1) then Parens(BareTree(e)) else BareTree(e)
  }

  function BareTree(e: Expr): Tree
    requires Printable(e)
    decreases e, 0
  {
    match e
    case Disj(l, r) => Disjunction(TreeOf(l, 0), OR, TreeOf(r, 1))
    case Conj(l, r) => Conjunction(TreeOf(l, 1), AND, TreeOf(r, 2))
    case Cmp(col, op, vals) =>
      if op == In then Among(col, IN, Quoted(vals)) else Comparing(col, op, Token(Str, vals[0]))
  }

  lemma SpellsItself(kw: bytes)
    ensures Spells(kw, kw)
  {
  }

  lemma {:induction false} TreeIsGrammatical(e: Expr, level: nat)
    requires Printable(e)
    ensures Grammatical(TreeOf(e, level), level) && Meaning(TreeOf(e, level)) == e
    ensures Grammatical(BareTree(e), if e.Disj? then 0 else if e.Conj? then 1 else 2) && Meaning(BareTree(e)) == e
    ensures Grammatical(TreeOf(e, level), 0) && Grammatical(BareTree(e), 0)
    decreases e
  {
    hide Spells, Texts, Quoted;
    match e {
      case Disj(l, r) =>
        SpellsItself(OR);
        TreeIsGrammatical(l, 0);
        TreeIsGrammatical(r, 1);
      case Conj(l, r) =>
        SpellsItself(AND);
        TreeIsGrammatical(l, 1);
        TreeIsGrammatical(r, 2);
      case Cmp(_, _, vals) =>
        SpellsItself(IN);
        QuotedTexts(vals);
        assert |vals| == 1 ==> [vals[0]] == vals;
    }
  }

  lemma QuotedTexts(vals: seq<bytes>)
    ensures Texts(Quoted(vals)) == vals && forall i :: 0 <= i < |vals| ==> IsLiteral(Quoted(vals)[i])
  {
  }

  function PrintExpr(e: Expr, level: nat): Toks
    requires Printable(e)
  {
    TreeIsGrammatical(e, level);
    TreeTokens(TreeOf(e, level))
  }

  /** Parsing inverts printing on every WHERE tree: the printed tokens, and exactly
      those, are read as the identical tree when what follows is not AND or OR. */
  lemma ExprRoundTrip(e: Expr, tail: Toks)
    requires Printable(e) && Ended(tail) && !IsKeyword(tail[0], AND) && !IsKeyword(tail[0], OR)
    ensures Ended(PrintExpr(e, 0) + tail)
    ensures ParseOr(PrintExpr(e, 0) + tail) == Ok((e, tail))
  {
    Keyword(tail[0]);
    hide Ended, ParseOr, TreeTokens, IsKeyword;
    TreeIsGrammatical(e, 0);
    ExprReads(TreeOf(e, 0), tail);
  }

  // ----- statements ----------------------------------------------------------------------------

  /** Exactly one kind of select list; a projection that does not begin with a word
      the parser takes for an aggregate. */
  predicate SelectPrintable(st: Stmt) {
    match st.aggregate
    case Some(Count) => !st.star && st.projection == []
    case Some(Top(_, n)) => !st.star && st.projection == [] && 1 <= n <= MAX_INT
    case None =>
      if st.star then st.projection == []
      else st.projection != [] && !Spells(st.projection[0], COUNT) && !Spells(st.projection[0], TOP)
  }

  predicate StmtPrintable(st: Stmt) {
    SelectPrintable(st) && (st.filter.Some? ==> Printable(st.filter.value)) && st.limit <= MAX_INT
  }

  function ListOf(st: Stmt): SelectForm {
    match st.aggregate
    case Some(Count) => Counting(COUNT)
    case Some(Top(col, n)) => Ranking(TOP, col, Some(Decimal(n)))
    case None => if st.star then Everything else Naming(st.projection)
  }

  /** A whole statement, over a table of any name, keywords in small letters. */
  function FormOf(st: Stmt, table: bytes): Form
    requires StmtPrintable(st)
  {
    Form(SELECT, ListOf(st), FROM, table,
         if st.filter.Some? then Some((WHERE, TreeOf(st.filter.value, 0))) else None,
         if st.limit == 0 then None else Some((LIMIT, Decimal(st.limit))))
  }

  lemma FormOfIs(st: Stmt, table: bytes)
    requires StmtPrintable(st)
    ensures FormOk(FormOf(st, table)) && FormMeaning(FormOf(st, table)) == st
  {
    hide Spells, TreeOf, Printable, Decimal, DecimalValue, Meaning, Grammatical;
    SpellsItself(SELECT);
    SpellsItself(FROM);
    SpellsItself(WHERE);
    SpellsItself(LIMIT);
    SpellsItself(COUNT);
    SpellsItself(TOP);
    DecimalReads(st.limit);
    if st.filter.Some? {
      TreeIsGrammatical(st.filter.value, 0);
    }
    if st.aggregate.Some? && st.aggregate.value.Top? {
      DecimalReads(st.aggregate.value.n);
    }
  }

  function PrintStmt(st: Stmt, table: bytes): Toks
    requires StmtPrintable(st)
  {
    FormOfIs(st, table);
    FormTokens(FormOf(st, table))
  }

  /** Parsing inverts printing on statements. */
  lemma StmtRoundTrip(st: Stmt, table: bytes)
    requires StmtPrintable(st)
    ensures Ended(PrintStmt(st, table) + [END])
    ensures ParseStmt(PrintStmt(st, table) + [END]) == Ok(st)
  {
    hide Ended, ParseStmt, FormTokens, FormOk, FormMeaning, FormOf;
    FormOfIs(st, table);
    FormReads(FormOf(st, table));
  }

  // ----- capitals --------------------------------------------------------------------------------

  /** The same tree with letters of its keywords replaced by their capitals. */
  predicate TreeInCapitals(t: Tree, u: Tree) {
    match t
    case Disjunction(l, w, r) =>
      u.Disjunction? && Spells(u.word, w) && TreeInCapitals(l, u.l) && TreeInCapitals(r, u.r)
    case Conjunction(l, w, r) =>
      u.Conjunction? && Spells(u.word, w) && TreeInCapitals(l, u.l) && TreeInCapitals(r, u.r)
    case Parens(inner) => u.Parens? && TreeInCapitals(inner, u.inner)
    case Comparing(_, _, _) => u == t
    case Among(col, w, lits) => u.Among? && Spells(u.word, w) && u.col == col && u.lits == lits
  }

  predicate ListInCapitals(f: SelectForm, g: SelectForm) {
    match f
    case Counting(w) => g.Counting? && Spells(g.word, w)
    case Ranking(w, col, digits) => g.Ranking? && Spells(g.word, w) && g.col == col && g.digits == digits
    case _ => g == f
  }

  /** The same form with any letters of its keywords replaced by their capitals. */
  predicate InCapitals(f: Form, g: Form) {
    && Spells(g.select, f.select) && ListInCapitals(f.list, g.list) && Spells(g.from, f.from) && g.table == f.table
    && (if f.filter.None? then g.filter.None?
        else g.filter.Some? && Spells(g.filter.value.0, f.filter.value.0)
             && TreeInCapitals(f.filter.value.1, g.filter.value.1))
    && (if f.limit.None? then g.limit.None?
        else g.limit.Some? && Spells(g.limit.value.0, f.limit.value.0) && g.limit.value.1 == f.limit.value.1)
  }

  lemma {:induction false} TreeCapitals(e: Expr, level: nat, u: Tree)
    requires Printable(e) && TreeInCapitals(TreeOf(e, level), u)
    ensures Grammatical(u, level) && Meaning(u) == e
    decreases e
  {
    hide Spells, Texts, Quoted;
    TreeIsGrammatical(e, level);
    BareCapitals(e, if u.Parens? then u.inner else u);
  }

  lemma {:induction false} BareCapitals(e: Expr, u: Tree)
    requires Printable(e) && TreeInCapitals(BareTree(e), u)
    ensures Grammatical(u, if e.Disj? then 0 else if e.Conj? then 1 else 2) && Grammatical(u, 0) && Meaning(u) == e
    decreases e, 0
  {
    hide Spells, Texts, Quoted;
    match e {
      case Disj(l, r) =>
        TreeCapitals(l, 0, u.l);
        TreeCapitals(r, 1, u.r);
      case Conj(l, r) =>
        TreeCapitals(l, 1, u.l);
        TreeCapitals(r, 2, u.r);
      case Cmp(_, _, vals) =>
        QuotedTexts(vals);
        assert |vals| == 1 ==> [vals[0]] == vals;
    }
  }

  /** Keywords may be written in any mix of small letters and capitals: the statement
      parsed is the same. */
  lemma CapitalsRead(st: Stmt, table: bytes, g: Form)
    requires StmtPrintable(st) && InCapitals(FormOf(st, table), g)
    ensures FormOk(g) && FormMeaning(g) == st
    ensures Ended(FormTokens(g) + [END]) && ParseStmt(FormTokens(g) + [END]) == Ok(st)
  {
    CapitalForm(st, table, g);
    hide Ended, ParseStmt, FormTokens, FormOk, FormMeaning, FormOf, InCapitals, StmtPrintable;
    FormReads(g);
  }

  lemma CapitalForm(st: Stmt, table: bytes, g: Form)
    requires StmtPrintable(st) && InCapitals(FormOf(st, table), g)
    ensures FormOk(g) && FormMeaning(g) == st
  {
    hide Spells, TreeOf, Printable, Decimal, DecimalValue, Meaning, Grammatical, TreeInCapitals;
    FormOfIs(st, table);
    if st.filter.Some? {
      TreeCapitals(st.filter.value, 0, g.filter.value.1);
    }
  }

  // ----- text ----------------------------------------------------------------------------------

  predicate ExprNames(e: Expr) {
    match e
    case Conj(l, r) => ExprNames(l) && ExprNames(r)
    case Disj(l, r) => ExprNames(l) && ExprNames(r)
    case Cmp(col, _, _) => IsIdent(col)
  }

  /** Every column name can be written as an identifier. */
  predicate StmtNames(st: Stmt) {
    && (st.aggregate.Some? && st.aggregate.value.Top? ==> IsIdent(st.aggregate.value.col))
    && (forall i :: 0 <= i < |st.projection| ==> IsIdent(st.projection[i]))
    && (st.filter.Some? ==> ExprNames(st.filter.value))
  }

  ghost predicate AllOk(ts: Toks) {
    forall i :: 0 <= i < |ts| ==> TokenOk(ts[i])
  }

  lemma AllOkJoin(a: Toks, b: Toks)
    ensures AllOk(a + b) <==> AllOk(a) && AllOk(b)
  {
    if AllOk(a + b) {
      assert forall i :: 0 <= i < |a| ==> (a + b)[i] == a[i];
      assert forall i :: 0 <= i < |b| ==> (a + b)[|a| + i] == b[i];
    }
  }

  lemma SpellingOk(w: bytes, kw: bytes)
    requires SmallLetters(kw) && kw != [] && Spells(w, kw)
    ensures AllOk([Word(w)])
  {
    forall i | 0 <= i < |w|
      ensures IsIdentStart(w[i])
    {
      assert w[i] == kw[i] || w[i] == kw[i] - 0x20;
    }
  }

  lemma MarksOk()
    ensures AllOk([Mark(LPAREN)]) && AllOk([Mark(RPAREN)]) && AllOk([Mark(COMMA)]) && AllOk([Mark(STAR)])
  {
  }

  lemma {:induction false} ListedOk(ts: Toks)
    requires ts != []
    ensures AllOk(Listed(ts)) <==> AllOk(ts)
  {
    hide TokenOk;
    if |ts| > 1 {
      ListedOk(ts[1..]);
      MarksOk();
      AllOkJoin([ts[0]], ts[1..]);
      AllOkJoin([ts[0]], [Mark(COMMA)]);
      AllOkJoin([ts[0]] + [Mark(COMMA)], Listed(ts[1..]));
      assert ts == [ts[0]] + ts[1..];
      assert Listed(ts) == ([ts[0]] + [Mark(COMMA)]) + Listed(ts[1..]);
    }
  }

  lemma TwoOk(a: Toks, t: Token, b: Toks)
    ensures AllOk(a + ([t] + b)) <==> AllOk(a) && AllOk([t]) && AllOk(b)
  {
    hide AllOk;
    AllOkJoin([t], b);
    AllOkJoin(a, [t] + b);
  }

  lemma OpOk(op: Comparison)
    requires op != In
    ensures AllOk([OpMark(op)])
  {
  }

  lemma ThreeOk(a: Token, b: Token, c: Token)
    ensures AllOk([a, b, c]) <==> AllOk([a]) && AllOk([b]) && AllOk([c])
  {
    hide TokenOk;
    assert [a, b, c][0] == a && [a, b, c][1] == b && [a, b, c][2] == c;
    assert [a][0] == a && [b][0] == b && [c][0] == c;
  }

  lemma QuotedOk(vals: seq<bytes>)
    ensures AllOk(Quoted(vals))
  {
  }

  /** A tree's tokens can be written exactly when its names and literals can. */
  lemma {:induction false} TreeOk(t: Tree)
    requires Grammatical(t, 0)
    ensures AllOk(TreeTokens(t)) ==> ExprNames(Meaning(t))
    ensures ExprNames(Meaning(t)) && LiteralsOk(t) ==> AllOk(TreeTokens(t))
  {
    hide AllOk, TokenOk, Spells, IsIdent, Texts, Listed, SmallLetters;
    KeywordsAreSmall();
    MarksOk();
    match t {
      case Disjunction(l, w, r) =>
        SubTrees(t);
        TreeOk(l);
        TreeOk(r);
        SpellingOk(w, OR);
        TwoOk(TreeTokens(l), Word(w), TreeTokens(r));
      case Conjunction(l, w, r) =>
        SubTrees(t);
        TreeOk(l);
        TreeOk(r);
        SpellingOk(w, AND);
        TwoOk(TreeTokens(l), Word(w), TreeTokens(r));
      case Parens(inner) =>
        TreeOk(inner);
        AllOkJoin(TreeTokens(inner), [Mark(RPAREN)]);
        AllOkJoin([Mark(LPAREN)], TreeTokens(inner) + [Mark(RPAREN)]);
      case Comparing(col, op, lit) =>
        OpOk(op);
        WordOk(col);
        ThreeOk(Word(col), OpMark(op), lit);
      case Among(col, w, lits) =>
        SpellingOk(w, IN);
        WordOk(col);
        ThreeOk(Word(col), Word(w), Mark(LPAREN));
        ListedOk(lits);
        AllOkJoin(Listed(lits), [Mark(RPAREN)]);
        AllOkJoin([Word(col), Word(w), Mark(LPAREN)], Listed(lits) + [Mark(RPAREN)]);
    }
  }

  lemma WordOk(s: bytes)
    ensures AllOk([Word(s)]) <==> IsIdent(s)
  {
    assert [Word(s)][0] == Word(s);
  }

  /** Numbers among the literals are ones text can hold. */
  ghost predicate LiteralsOk(t: Tree) {
    match t
    case Disjunction(l, _, r) => LiteralsOk(l) && LiteralsOk(r)
    case Conjunction(l, _, r) => LiteralsOk(l) && LiteralsOk(r)
    case Parens(inner) => LiteralsOk(inner)
    case Comparing(_, _, lit) => AllOk([lit])
    case Among(_, _, lits) => AllOk(lits)
  }

  lemma {:induction false} QuotedTree(e: Expr, level: nat, u: Tree)
    requires Printable(e) && TreeInCapitals(TreeOf(e, level), u)
    ensures LiteralsOk(u)
    decreases e, 1
  {
    hide Spells, AllOk, Quoted;
    BareQuoted(e, if u.Parens? then u.inner else u);
  }

  lemma {:induction false} BareQuoted(e: Expr, u: Tree)
    requires Printable(e) && TreeInCapitals(BareTree(e), u)
    ensures LiteralsOk(u)
    decreases e, 0
  {
    hide Spells, AllOk, Quoted;
    match e {
      case Disj(l, r) =>
        QuotedTree(l, 0, u.l);
        QuotedTree(r, 1, u.r);
      case Conj(l, r) =>
        QuotedTree(l, 1, u.l);
        QuotedTree(r, 2, u.r);
      case Cmp(_, _, vals) =>
        QuotedOk(vals);
        StringOk(vals[0]);
    }
  }

  lemma StringOk(s: bytes)
    ensures AllOk([Token(Str, s)])
  {
  }

  /** A select list's tokens can be written exactly when its names can. */
  lemma ListTokensOk(f: SelectForm)
    requires ListOk(f)
    ensures AllOk(ListTokens(f)) <==>
            match f
            case Ranking(_, col, _) => IsIdent(col)
            case Naming(names) => forall i :: 0 <= i < |names| ==> IsIdent(names[i])
            case _ => true
  {
    hide Spells, Listed, IsIdent, IsNum, DecimalValue;
    KeywordsAreSmall();
    match f {
      case Everything =>
      case Counting(w) =>
        SpellingOk(w, COUNT);
        MarksOk();
        CountOk(w);
      case Ranking(w, col, digits) =>
        SpellingOk(w, TOP);
        RankOk(f);
      case Naming(names) =>
        ListedOk(Words(names));
        assert forall i :: 0 <= i < |names| ==> Words(names)[i] == Word(names[i]);
    }
  }

  lemma CountOk(w: bytes)
    requires AllOk([Word(w)])
    ensures AllOk([Word(w), Mark(LPAREN), Mark(STAR), Mark(RPAREN)])
  {
    hide IsIdent, IsNum;
    assert TokenOk([Word(w)][0]);
  }

  lemma RankOk(f: SelectForm)
    requires f.Ranking? && ListOk(f) && AllOk([Word(f.word)])
    ensures AllOk(ListTokens(f)) <==> IsIdent(f.col)
  {
    hide Spells, IsIdent, DecimalValue;
    assert TokenOk([Word(f.word)][0]);
    assert ListTokens(f)[2] == Word(f.col);
    if f.digits.Some? {
      assert IsNum(f.digits.value);
    }
  }

  /** A form's tokens can be written when its names, literals and table can. */
  lemma FormTokensOk(f: Form)
    requires FormOk(f)
    ensures AllOk(FormTokens(f)) ==> StmtNames(FormMeaning(f))
    ensures StmtNames(FormMeaning(f)) && IsIdent(f.table) && (f.filter.Some? ==> LiteralsOk(f.filter.value.1)) ==>
              AllOk(FormTokens(f))
  {
    hide AllOk, Spells, IsIdent, IsCount, ListTokens, TreeTokens, Meaning, ExprNames, Grammatical, LiteralsOk, Words,
         DecimalValue, SmallLetters;
    KeywordsAreSmall();
    SpellingOk(f.select, SELECT);
    SpellingOk(f.from, FROM);
    WordOk(f.table);
    ListTokensOk(f.list);
    if f.filter.Some? {
      SpellingOk(f.filter.value.0, WHERE);
      TreeOk(f.filter.value.1);
      AllOkJoin([Word(f.filter.value.0)], TreeTokens(f.filter.value.1));
    }
    LimitOk(f.limit);
    NoneOk();
    var tail := WhereTokens(f.filter) + LimitTokens(f.limit);
    AllOkJoin(WhereTokens(f.filter), LimitTokens(f.limit));
    assert [Word(f.from), Word(f.table)] == [Word(f.from)] + [Word(f.table)];
    AllOkJoin([Word(f.from)], [Word(f.table)]);
    AllOkJoin([Word(f.from), Word(f.table)], tail);
    AllOkJoin(ListTokens(f.list), [Word(f.from), Word(f.table)] + tail);
    AllOkJoin([Word(f.select)], ListTokens(f.list) + ([Word(f.from), Word(f.table)] + tail));
  }

  lemma NoneOk()
    ensures AllOk([])
  {
  }

  lemma LimitOk(f: Option<(bytes, bytes)>)
    requires f.Some? ==> Spells(f.value.0, LIMIT) && IsCount(f.value.1, 0)
    ensures AllOk(LimitTokens(f))
  {
    hide Spells, IsIdent, DecimalValue;
    KeywordsAreSmall();
    if f.Some? {
      SpellingOk(f.value.0, LIMIT);
      assert TokenOk([Word(f.value.0)][0]);
      assert IsNum(f.value.1);
    }
  }

  /** Parsing query text inverts writing it: any statement, its keywords in any mix
      of capitals, with white space wherever two tokens would fuse, is read back as
      the same statement. */
  lemma TextRoundTrip(st: Stmt, table: bytes, g: Form, gaps: seq<bytes>)
    requires StmtPrintable(st) && StmtNames(st) && IsIdent(table) && InCapitals(FormOf(st, table), g)
    requires (CapitalForm(st, table, g); |gaps| == |FormTokens(g)| && Separated(FormTokens(g), gaps))
    ensures Parsed(Spaced(FormTokens(g), gaps)) == Ok(st)
  {
    CapitalsRead(st, table, g);
    CapitalsNamed(st, table, g);
    hide Lexed, ParseStmt, FormTokens, FormOk, FormMeaning, FormOf, InCapitals, StmtPrintable, StmtNames, IsIdent,
         Spaced, Separated, Ended, TokenOk;
    LexingInvertsPrinting(FormTokens(g), gaps);
  }

  lemma CapitalsNamed(st: Stmt, table: bytes, g: Form)
    requires StmtPrintable(st) && StmtNames(st) && IsIdent(table) && InCapitals(FormOf(st, table), g)
    ensures FormOk(g) && AllOk(FormTokens(g))
  {
    hide Spells, TreeOf, Printable, Decimal, Meaning, Grammatical, TreeInCapitals, FormMeaning, AllOk, IsIdent,
         StmtNames, FormTokens, FormOk, LiteralsOk, ListInCapitals, SelectPrintable;
    CapitalForm(st, table, g);
    FormTokensOk(g);
    if st.filter.Some? {
      QuotedTree(st.filter.value, 0, g.filter.value.1);
    }
  }

  // ----- every parsed statement can be printed ------------------------------------------------

  lemma {:induction false} MeaningPrintable(t: Tree, level: nat)
    requires Grammatical(t, level)
    ensures Printable(Meaning(t))
    decreases t
  {
    hide Spells;
    match t {
      case Disjunction(l, _, r) =>
        MeaningPrintable(l, 0);
        MeaningPrintable(r, 1);
      case Conjunction(l, _, r) =>
        MeaningPrintable(l, 1);
        MeaningPrintable(r, 2);
      case Parens(inner) =>
        MeaningPrintable(inner, 0);
      case Comparing(_, _, _) =>
      case Among(_, _, _) =>
    }
  }

  /** Whatever parses is a statement that can be written. */
  lemma ParsedIsPrintable(q: bytes)
    requires Parsed(q).Ok?
    ensures StmtPrintable(Parsed(q).value) && StmtNames(Parsed(q).value)
  {
    LexedIsEnded(q);
    var f := StmtIs(Lexed(q).value);
    FrontOk(Lexed(q).value, FormTokens(f));
    hide Lexed, ParseStmt, Ended, FormOk, FormMeaning, FormTokens, StmtNames, StmtPrintable, AllOk;
    FormTokensOk(f);
    FormPrintable(f);
  }

  lemma FormPrintable(f: Form)
    requires FormOk(f)
    ensures StmtPrintable(FormMeaning(f))
  {
    hide Spells, Meaning, Grammatical, Printable, DecimalValue;
    if f.filter.Some? {
      MeaningPrintable(f.filter.value.1, 0);
    }
  }

  lemma FrontOk(ts: Toks, front: Toks)
    requires ts == front + [END] && forall i :: 0 <= i < |ts| - 1 ==> TokenOk(ts[i])
    ensures AllOk(front)
  {
    hide TokenOk;
    assert forall i :: 0 <= i < |front| ==> ts[i] == front[i];
  }

  lemma {:induction false} TreeItself(t: Tree)
    ensures TreeInCapitals(t, t)
  {
    hide Spells;
    match t {
      case Disjunction(l, w, r) =>
        SpellsItself(w);
        TreeItself(l);
        TreeItself(r);
      case Conjunction(l, w, r) =>
        SpellsItself(w);
        TreeItself(l);
        TreeItself(r);
      case Parens(inner) =>
        TreeItself(inner);
      case Comparing(_, _, _) =>
      case Among(_, w, _) =>
        SpellsItself(w);
    }
  }

  lemma FormItself(f: Form)
    ensures InCapitals(f, f)
  {
    hide TreeInCapitals;
    if f.filter.Some? {
      TreeItself(f.filter.value.1);
    }
  }

  /** Printing inverts parsing: writing what was parsed, over any table and with any
      separating white space, and parsing again gives the same statement. */
  lemma PrintingInvertsParsing(q: bytes, table: bytes, gaps: seq<bytes>)
    requires Parsed(q).Ok? && IsIdent(table)
    requires (ParsedIsPrintable(q); |gaps| == |PrintStmt(Parsed(q).value, table)|)
    requires Separated(PrintStmt(Parsed(q).value, table), gaps)
    ensures Parsed(Spaced(PrintStmt(Parsed(q).value, table), gaps)) == Parsed(q)
  {
    ParsedIsPrintable(q);
    var st := Parsed(q).value;
    hide Parsed, StmtPrintable, StmtNames, IsIdent, Separated, Spaced, FormTokens, FormOk, FormOf;
    FormOfIs(st, table);
    FormItself(FormOf(st, table));
    TextRoundTrip(st, table, FormOf(st, table), gaps);
  }
}
