/** Printing a tree and reading it back.

    The grammar is the one the grouping answers to: a unary operator takes a member and an even run of
    it is dropped, a member is a primary followed by selections, indexes and member calls, and a sign
    directly before a numeral belongs to the numeral (the rules `Unary`, `Member` and `INT_LIT` of the
    CEL language definition). Everything that prints between its own brackets is one bracketed form
    here, binary operators included, since the printer brackets those itself.
 */
module Printing {
  import opened Cel
  import opened Wrappers
  import opened Grouping
  import opened Seqs
  import Render

  datatype Token =
    | Name(name: string)
    | Num(v: Value)        // a numeral without its sign
    | Const(v: Value)      // any other literal
    | Sign(unary: UnaryOp)
    | Field(f: string)     // .f
    | LBracket | RBracket
    | Begin(op: Op) | BeginHas | BeginDefault
    | DotCall(fn: string) | DotMacro(macro: Macro, iter: string) | DotWhere
    | Comma | End

  type Tokens = seq<Token>

  // ---- The printer ------------------------------------------------------------------------

  predicate IsNumeral(v: Value) {
    (v.VInt? && v.i >= 0) || (v.VDouble? && v.d >= 0.0)
  }

  function Negated(v: Value): Value {
    match v case VInt(i) => VInt(-i) case VDouble(d) => VDouble(-d) case _ => v
  }

  predicate IsNumber(v: Value) {
    v.VInt? || v.VDouble?
  }

  predicate IsMember(e: Expr) {
    e.Node? && e.op.Method? && |e.kids| >= 1
  }

  /** A node that prints between brackets of its own. */
  predicate IsBracketed(op: Op, n: nat) {
    !(op.UnaryCall? && n == 1) && !(op.Method? && n >= 1)
  }

  function Print(e: Expr): Tokens
    decreases e, 0
  {
    match e
    case Lit(v) =>
      if IsNegativeLiteral(e) then [Sign(Negate), Num(Negated(v))]
      else if IsNumeral(v) then [Num(v)]
      else [Const(v)]
    case Ident(n) => [Name(n)]
    case Select(o, f) => Print(o) + [Field(f)]
    case Index(o, k) => Print(o) + ([LBracket] + (Print(k) + [RBracket]))
    case Has(x) => [BeginHas] + (Print(x) + [End])
    case Default(x, y) => [BeginDefault] + (Print(x) + ([Comma] + (Print(y) + [End])))
    case Node(op, kids) =>
      if IsUnaryCall(e) then [Sign(op.unary)] + Print(kids[0])
      else if IsMember(e) then Print(kids[0]) + ([DotCall(op.fn)] + PrintArgs(kids[1..]))
      else [Begin(op)] + PrintArgs(kids)
    case Compr(macro, t, x, bodies) => Print(t) + ([DotMacro(macro, x)] + PrintArgs(bodies))
    case Where(t, args) => Print(t) + ([DotWhere] + PrintArgs(args))
  }

  function PrintArgs(es: seq<Expr>): Tokens
    decreases es, 0
  {
    if es == [] then [End] else Print(es[0]) + if |es| == 1 then [End] else [Comma] + PrintArgs(es[1..])
  }

  // ---- The parser -------------------------------------------------------------------------

  datatype Parse<T> = Fail | Got(value: T, rest: Tokens)

  function RunEnd(ts: Tokens, t: Token, i: nat): (n: nat)
    requires i <= |ts|
    ensures i <= n <= |ts|
    decreases |ts| - i
  {
    if i < |ts| && ts[i] == t then RunEnd(ts, t, i + 1) else i
  }

  predicate SignedNumeral(ts: Tokens) {
    |ts| > 1 && ts[0] == Sign(Negate) && ts[1].Num?
  }

  function ParseExpr(ts: Tokens): (r: Parse<Expr>)
    ensures r.Got? ==> |r.rest| < |ts|
    decreases |ts|, 3
  {
    if ts != [] && ts[0].Sign? && !SignedNumeral(ts) then
      var n := RunEnd(ts, ts[0], 1);
      match ParseMember(ts[n..])
      case Fail => Fail
      case Got(e, rest) => Got(if n % 2 == 1 then Node(UnaryCall(ts[0].unary), [e]) else e, rest)
    else ParseMember(ts)
  }

  function ParseMember(ts: Tokens): (r: Parse<Expr>)
    ensures r.Got? ==> |r.rest| < |ts|
    decreases |ts|, 2
  {
    match ParsePrimary(ts)
    case Fail => Fail
    case Got(e, rest) => ParsePostfix(e, rest)
  }

  function ParsePrimary(ts: Tokens): (r: Parse<Expr>)
    ensures r.Got? ==> |r.rest| < |ts|
    decreases |ts|, 1
  {
    if ts == [] then Fail
    else if SignedNumeral(ts) then if IsNumeral(ts[1].v) then Got(Lit(Negated(ts[1].v)), ts[2..]) else Fail
    else
      match ts[0]
      case Name(n) => Got(Ident(n), ts[1..])
      case Num(v) => if IsNumeral(v) then Got(Lit(v), ts[1..]) else Fail
      case Const(v) => if IsNumber(v) then Fail else Got(Lit(v), ts[1..])
      case Begin(op) =>
        (match ParseArgs(ts[1..])
         case Fail => Fail
         case Got(args, rest) => if IsBracketed(op, |args|) then Got(Node(op, args), rest) else Fail)
      case BeginHas =>
        (match ParseArgs(ts[1..])
         case Fail => Fail
         case Got(args, rest) => if |args| == 1 then Got(Has(args[0]), rest) else Fail)
      case BeginDefault =>
        (match ParseArgs(ts[1..])
         case Fail => Fail
         case Got(args, rest) => if |args| == 2 then Got(Default(args[0], args[1]), rest) else Fail)
      case _ => Fail
  }

  function ParsePostfix(e: Expr, ts: Tokens): (r: Parse<Expr>)
    ensures r.Got? ==> |r.rest| <= |ts|
    decreases |ts|, 0
  {
    if ts == [] then Got(e, ts)
    else
      match ts[0]
      case Field(f) => ParsePostfix(Select(e, f), ts[1..])
      case LBracket =>
        (match ParseExpr(ts[1..])
         case Fail => Fail
         case Got(k, rest) => if rest != [] && rest[0] == RBracket then ParsePostfix(Index(e, k), rest[1..]) else Fail)
      case DotCall(fn) =>
        (match ParseArgs(ts[1..])
         case Fail => Fail
         case Got(args, rest) => ParsePostfix(Node(Method(fn), [e] + args), rest))
      case DotMacro(macro, x) =>
        (match ParseArgs(ts[1..])
         case Fail => Fail
         case Got(args, rest) => ParsePostfix(Compr(macro, e, x, args), rest))
      case DotWhere =>
        (match ParseArgs(ts[1..]) case Fail => Fail case Got(args, rest) => ParsePostfix(Where(e, args), rest))
      case _ => Got(e, ts)
  }

  function ParseArgs(ts: Tokens): (r: Parse<seq<Expr>>)
    ensures r.Got? ==> |r.rest| < |ts|
    decreases |ts|, 5
  {
    if ts != [] && ts[0] == End then Got([], ts[1..]) else ParseMore(ts)
  }

  function ParseMore(ts: Tokens): (r: Parse<seq<Expr>>)
    ensures r.Got? ==> |r.rest| < |ts|
    decreases |ts|, 4
  {
    match ParseExpr(ts)
    case Fail => Fail
    case Got(e, after) =>
      if after == [] then Fail
      else if after[0] == End then Got([e], after[1..])
      else if after[0] != Comma then Fail
      else
        match ParseMore(after[1..])
        case Fail => Fail
        case Got(es, rest) => Got([e] + es, rest)
  }

  // ---- What is read back ------------------------------------------------------------------

  /** The tree prints with a bare numeral first. */
  predicate NumeralRoot(e: Expr)
    decreases e
  {
    match e
    case Lit(v) => IsNumeral(v)
    case Select(o, _) => NumeralRoot(o)
    case Index(o, _) => NumeralRoot(o)
    case Node(op, kids) => op.Method? && |kids| >= 1 && NumeralRoot(kids[0])
    case Compr(_, t, _, _) => NumeralRoot(t)
    case Where(t, _) => NumeralRoot(t)
    case _ => false
  }

  /** The tree prints with a negative literal first. */
  predicate NegativeRoot(e: Expr)
    decreases e
  {
    match e
    case Lit(_) => IsNegativeLiteral(e)
    case Select(o, _) => NegativeRoot(o)
    case Index(o, _) => NegativeRoot(o)
    case Node(op, kids) => op.Method? && |kids| >= 1 && NegativeRoot(kids[0])
    case Compr(_, t, _, _) => NegativeRoot(t)
    case Where(t, _) => NegativeRoot(t)
    case _ => false
  }

  /** The tree can be told from its text: no unary call stands under another, or where a member has to,
      and no negation before a negative literal. */
  predicate Readable(e: Expr)
    decreases e, 0
  {
    match e
    case Lit(_) => true
    case Ident(_) => true
    case Select(o, _) => !IsUnaryCall(o) && Readable(o)
    case Index(o, k) => !IsUnaryCall(o) && Readable(o) && Readable(k)
    case Has(x) => Readable(x)
    case Default(x, y) => Readable(x) && Readable(y)
    case Node(op, kids) =>
      && ReadableSeq(kids)
      && (BindsFirst(op, |kids|) ==> !IsUnaryCall(kids[0]))
      && (IsUnaryCall(e) && op.unary == Negate ==> !NegativeRoot(kids[0]))
    case Compr(_, t, _, bodies) => !IsUnaryCall(t) && Readable(t) && ReadableSeq(bodies)
    case Where(t, args) => !IsUnaryCall(t) && Readable(t) && ReadableSeq(args)
  }

  predicate ReadableSeq(es: seq<Expr>)
    decreases es, 0
  {
    es == [] || (Readable(es[0]) && ReadableSeq(es[1..]))
  }

  /** The grouped form is more than readable: no negative literal is an operand in it at all. */
  lemma {:induction false} PrintableIsReadable(e: Expr)
    requires Printable(e)
    ensures Readable(e) && (NegativeRoot(e) ==> PrintsWithSign(e))
    decreases e, 0
  {
    match e
    case Lit(_) =>
    case Ident(_) =>
    case Select(o, _) => PrintableIsReadable(o);
    case Index(o, k) => PrintableIsReadable(o); PrintableIsReadable(k);
    case Has(x) => PrintableIsReadable(x);
    case Default(x, y) => PrintableIsReadable(x); PrintableIsReadable(y);
    case Node(op, kids) => PrintableIsReadableSeq(kids); if kids != [] { PrintableIsReadable(kids[0]); }
    case Compr(_, t, _, bodies) => PrintableIsReadable(t); PrintableIsReadableSeq(bodies);
    case Where(t, args) => PrintableIsReadable(t); PrintableIsReadableSeq(args);
  }

  lemma {:induction false} PrintableIsReadableSeq(es: seq<Expr>)
    requires PrintableSeq(es)
    ensures ReadableSeq(es)
    decreases es, 0
  {
    if es != [] {
      PrintableIsReadable(es[0]);
      PrintableIsReadableSeq(es[1..]);
    }
  }

  /** A negation right before a numeral is read as part of it; nothing else changes. */
  function Reread(e: Expr, signed: bool): Expr
    requires signed ==> NumeralRoot(e)
    decreases e, 0
  {
    match e
    case Lit(v) => if signed then Lit(Negated(v)) else e
    case Ident(_) => e
    case Select(o, f) => Select(Reread(o, signed), f)
    case Index(o, k) => Index(Reread(o, signed), Reread(k, false))
    case Has(x) => Has(Reread(x, false))
    case Default(x, y) => Default(Reread(x, false), Reread(y, false))
    case Node(op, kids) =>
      if IsUnaryCall(e) then
        if op.unary == Negate && NumeralRoot(kids[0]) then Reread(kids[0], true)
        else Node(op, [Reread(kids[0], false)])
      else if IsMember(e) then Node(op, [Reread(kids[0], signed)] + RereadSeq(kids[1..]))
      else Node(op, RereadSeq(kids))
    case Compr(macro, t, x, bodies) => Compr(macro, Reread(t, signed), x, RereadSeq(bodies))
    case Where(t, args) => Where(Reread(t, signed), RereadSeq(args))
  }

  function RereadSeq(es: seq<Expr>): (out: seq<Expr>)
    ensures |out| == |es|
    decreases es, 0
  {
    if es == [] then [] else [Reread(es[0], false)] + RereadSeq(es[1..])
  }

  // ---- The proof --------------------------------------------------------------------------

  predicate Stops(rest: Tokens) {
    rest == [] || rest[0] in {RBracket, Comma, End}
  }

  lemma PostfixStops(e: Expr, rest: Tokens)
    requires Stops(rest)
    ensures ParsePostfix(e, rest) == Got(e, rest)
  {
  }

  /** What the first token of a printed tree tells. */
  lemma {:induction false} FirstToken(e: Expr)
    requires Readable(e)
    ensures Print(e) != [] && Print(e)[0] != End
    ensures Print(e)[0].Num? <==> NumeralRoot(e)
    ensures Print(e)[0].Sign? <==> IsUnaryCall(e) || NegativeRoot(e)
    ensures NegativeRoot(e) ==> SignedNumeral(Print(e))
    decreases e
  {
    match e
    case Select(o, _) => FirstToken(o);
    case Index(o, _) => FirstToken(o);
    case Compr(_, t, _, _) => FirstToken(t);
    case Where(t, _) => FirstToken(t);
    case Node(op, kids) => if IsMember(e) { FirstToken(kids[0]); }
    case _ =>
  }

  lemma LastArg(ts: Tokens, e: Expr, rest: Tokens)
    requires ParseExpr(ts + ([End] + rest)) == Got(e, [End] + rest)
    ensures ParseMore(ts + ([End] + rest)) == Got([e], rest)
  {
    assert ([End] + rest)[1..] == rest;
  }

  lemma NextArg(ts: Tokens, e: Expr, more: Tokens, es: seq<Expr>, rest: Tokens)
    requires ParseExpr(ts + ([Comma] + more)) == Got(e, [Comma] + more) && ParseMore(more) == Got(es, rest)
    ensures ParseMore(ts + ([Comma] + more)) == Got([e] + es, rest)
  {
    assert ([Comma] + more)[1..] == more;
  }

  function Called(t: Token, target: Expr, args: seq<Expr>): Expr {
    match t
    case DotCall(fn) => Node(Method(fn), [target] + args)
    case DotMacro(macro, x) => Compr(macro, target, x, args)
    case _ => Where(target, args)
  }

  lemma PostfixCalls(e: Expr, t: Token, after: Tokens, args: seq<Expr>, rest: Tokens)
    requires ParseArgs(after) == Got(args, rest) && (t.DotCall? || t.DotMacro? || t.DotWhere?)
    ensures ParsePostfix(e, [t] + after) == ParsePostfix(Called(t, e, args), rest)
  {
    assert ([t] + after)[1..] == after;
  }

  lemma PrimaryBegins(t: Token, after: Tokens, args: seq<Expr>, rest: Tokens)
    requires ParseArgs(after) == Got(args, rest)
    ensures t.Begin? && IsBracketed(t.op, |args|) ==> ParsePrimary([t] + after) == Got(Node(t.op, args), rest)
    ensures t.BeginHas? && |args| == 1 ==> ParsePrimary([t] + after) == Got(Has(args[0]), rest)
    ensures t.BeginDefault? && |args| == 2 ==> ParsePrimary([t] + after) == Got(Default(args[0], args[1]), rest)
  {
    assert ([t] + after)[1..] == after;
  }

  function Signs(signed: bool): Tokens {
    if signed then [Sign(Negate)] else []
  }

  /** Every readable tree is read back from its text, whatever closes it. */
  lemma {:induction false} ExprReads(e: Expr, rest: Tokens)
    requires Readable(e) && Stops(rest)
    ensures ParseExpr(Print(e) + rest) == Got(Reread(e, false), rest)
    decreases e, 3
  {
    if IsUnaryCall(e) {
      UnaryReads(e, rest);
    } else {
      FirstToken(e);
      MemberReads(e, false, rest);
      NothingBefore(Print(e));
      StartsAlike(Print(e), rest);
      PostfixStops(Reread(e, false), rest);
    }
  }

  lemma StartsAlike(a: Tokens, b: Tokens)
    requires a != []
    ensures (a + b)[0] == a[0] && (SignedNumeral(a) ==> SignedNumeral(a + b))
  {
  }

  lemma {:induction false} UnaryReads(e: Expr, rest: Tokens)
    requires IsUnaryCall(e) && Readable(e) && Stops(rest)
    ensures ParseExpr(Print(e) + rest) == Got(Reread(e, false), rest)
    decreases e, 2
  {
    var x, s := e.kids[0], Sign(e.op.unary);
    var ts := [s] + (Print(x) + rest);
    Regroup([s], Print(x), rest);
    FirstToken(x);
    assert ts[0] == s && ts[1] == Print(x)[0] && ts[1..] == Print(x) + rest;
    if e.op.unary == Negate && NumeralRoot(x) {
      MemberReads(x, true, rest);
      assert Signs(true) + Print(x) + rest == ts;
      PostfixStops(Reread(x, true), rest);
    } else {
      MemberReads(x, false, rest);
      assert Signs(false) + Print(x) + rest == Print(x) + rest;
      PostfixStops(Reread(x, false), rest);
      assert RunEnd(ts, s, 1) == 1;
    }
  }

  /** A tree that prints no sign of its own is a member: what is read of it is carried on into what
      follows, and a sign before its numeral goes with the numeral. */
  lemma {:induction false} MemberReads(e: Expr, signed: bool, rest: Tokens)
    requires Readable(e) && !IsUnaryCall(e) && (signed ==> NumeralRoot(e))
    ensures ParseMember(Signs(signed) + Print(e) + rest) == ParsePostfix(Reread(e, signed), rest)
    decreases e, 1
  {
    match e
    case Lit(v) => LiteralReads(e, signed, rest);
    case Ident(n) =>
      var ts := Signs(signed) + Print(e) + rest;
      assert ts[0] == Name(n) && ts[1..] == rest;
    case Select(o, f) =>
      MemberReads(o, signed, [Field(f)] + rest);
      Carried(signed, Print(o), [Field(f)], rest);
      assert ([Field(f)] + rest)[1..] == rest;
    case Index(o, k) => IndexReads(e, signed, rest);
    case Has(x) => HasReads(e, rest);
    case Default(x, y) => DefaultReads(e, rest);
    case Node(op, kids) => if IsMember(e) { MethodReads(e, signed, rest); } else { BracketedReads(e, rest); }
    case Compr(_, _, _, _) => ComprReads(e, signed, rest);
    case Where(_, _) => WhereReads(e, signed, rest);
  }

  lemma {:induction false} ComprReads(e: Expr, signed: bool, rest: Tokens)
    requires e.Compr? && Readable(e) && (signed ==> NumeralRoot(e))
    ensures ParseMember(Signs(signed) + Print(e) + rest) == ParsePostfix(Reread(e, signed), rest)
    decreases e, 0
  {
    var t, dot, list := e.target, DotMacro(e.macro, e.iter), PrintArgs(e.bodies);
    MemberReads(t, signed, [dot] + (list + rest));
    ArgsRead(e.bodies, rest);
    CallReads(Print(t), Reread(t, signed), dot, list, RereadSeq(e.bodies), signed, rest);
  }

  lemma {:induction false} WhereReads(e: Expr, signed: bool, rest: Tokens)
    requires e.Where? && Readable(e) && (signed ==> NumeralRoot(e))
    ensures ParseMember(Signs(signed) + Print(e) + rest) == ParsePostfix(Reread(e, signed), rest)
    decreases e, 0
  {
    var t, list := e.target, PrintArgs(e.args);
    MemberReads(t, signed, [DotWhere] + (list + rest));
    ArgsRead(e.args, rest);
    CallReads(Print(t), Reread(t, signed), DotWhere, list, RereadSeq(e.args), signed, rest);
  }

  /** The member forms with arguments: a target, a dot and a bracketed list. */
  lemma CallReads(target: Tokens, m: Expr, t: Token, list: Tokens, args: seq<Expr>, signed: bool, rest: Tokens)
    requires t.DotCall? || t.DotMacro? || t.DotWhere?
    requires ParseMember(Signs(signed) + target + ([t] + (list + rest))) == ParsePostfix(m, [t] + (list + rest))
    requires ParseArgs(list + rest) == Got(args, rest)
    ensures ParseMember(Signs(signed) + (target + ([t] + list)) + rest) == ParsePostfix(Called(t, m, args), rest)
  {
    Carried(signed, target, [t] + list, rest);
    Regroup([t], list, rest);
    PostfixCalls(m, t, list + rest, args, rest);
  }

  lemma Carried(signed: bool, target: Tokens, tail: Tokens, rest: Tokens)
    ensures Signs(signed) + (target + tail) + rest == Signs(signed) + target + (tail + rest)
  {
  }

  lemma LiteralReads(e: Expr, signed: bool, rest: Tokens)
    requires e.Lit? && (signed ==> NumeralRoot(e))
    ensures ParseMember(Signs(signed) + Print(e) + rest) == ParsePostfix(Reread(e, signed), rest)
  {
    var ts := Signs(signed) + Print(e) + rest;
    if signed {
      assert ts[0] == Sign(Negate) && ts[1] == Num(e.v) && ts[2..] == rest;
    } else if IsNegativeLiteral(e) {
      assert ts[0] == Sign(Negate) && ts[1] == Num(Negated(e.v)) && ts[2..] == rest;
      assert Negated(Negated(e.v)) == e.v && IsNumeral(Negated(e.v));
    } else {
      assert ts[0] == Print(e)[0] && ts[1..] == rest;
    }
  }

  lemma {:induction false} IndexReads(e: Expr, signed: bool, rest: Tokens)
    requires e.Index? && Readable(e) && (signed ==> NumeralRoot(e))
    ensures ParseMember(Signs(signed) + Print(e) + rest) == ParsePostfix(Reread(e, signed), rest)
    decreases e, 0
  {
    var o, k := e.operand, e.key;
    var close := [RBracket] + rest;
    var after := Print(k) + close;
    MemberReads(o, signed, [LBracket] + after);
    Carried(signed, Print(o), [LBracket] + (Print(k) + [RBracket]), rest);
    assert [LBracket] + (Print(k) + [RBracket]) + rest == [LBracket] + after;
    assert ([LBracket] + after)[1..] == after && close[1..] == rest;
    ExprReads(k, close);
  }

  lemma {:induction false} MethodReads(e: Expr, signed: bool, rest: Tokens)
    requires IsMember(e) && Readable(e) && (signed ==> NumeralRoot(e))
    ensures ParseMember(Signs(signed) + Print(e) + rest) == ParsePostfix(Reread(e, signed), rest)
    decreases e, 0
  {
    var t, target, args := DotCall(e.op.fn), e.kids[0], e.kids[1..];
    MemberReads(target, signed, [t] + (PrintArgs(args) + rest));
    ArgsRead(args, rest);
    CallReads(Print(target), Reread(target, signed), t, PrintArgs(args), RereadSeq(args), signed, rest);
  }

  lemma {:induction false} BracketedReads(e: Expr, rest: Tokens)
    requires e.Node? && !IsUnaryCall(e) && !IsMember(e) && Readable(e)
    ensures ParseMember(Signs(false) + Print(e) + rest) == ParsePostfix(Reread(e, false), rest)
    decreases e, 0
  {
    var after := PrintArgs(e.kids) + rest;
    assert Signs(false) + Print(e) + rest == [Begin(e.op)] + after;
    ArgsRead(e.kids, rest);
    PrimaryBegins(Begin(e.op), after, RereadSeq(e.kids), rest);
  }

  lemma {:induction false} HasReads(e: Expr, rest: Tokens)
    requires e.Has? && Readable(e)
    ensures ParseMember(Signs(false) + Print(e) + rest) == ParsePostfix(Reread(e, false), rest)
    decreases e, 0
  {
    var after := Print(e.arg) + ([End] + rest);
    assert Signs(false) + Print(e) + rest == [BeginHas] + after;
    ExprReads(e.arg, [End] + rest);
    LastArg(Print(e.arg), Reread(e.arg, false), rest);
    FirstToken(e.arg);
    assert after[0] == Print(e.arg)[0];
    PrimaryBegins(BeginHas, after, [Reread(e.arg, false)], rest);
  }

  lemma {:induction false} DefaultReads(e: Expr, rest: Tokens)
    requires e.Default? && Readable(e)
    ensures ParseMember(Signs(false) + Print(e) + rest) == ParsePostfix(Reread(e, false), rest)
    decreases e, 0
  {
    var x, y := e.arg, e.fallback;
    var more := Print(y) + ([End] + rest);
    var after := Print(x) + ([Comma] + more);
    DefaultTokens(Print(x), Print(y), rest);
    ExprReads(y, [End] + rest);
    LastArg(Print(y), Reread(y, false), rest);
    ExprReads(x, [Comma] + more);
    NextArg(Print(x), Reread(x, false), more, [Reread(y, false)], rest);
    FirstToken(x);
    assert after[0] == Print(x)[0];
    PrimaryBegins(BeginDefault, after, [Reread(x, false)] + [Reread(y, false)], rest);
  }

  lemma DefaultTokens(x: Tokens, y: Tokens, rest: Tokens)
    ensures Signs(false) + ([BeginDefault] + (x + ([Comma] + (y + [End])))) + rest
         == [BeginDefault] + (x + ([Comma] + (y + ([End] + rest))))
  {
    assert (y + [End]) + rest == y + ([End] + rest);
    assert x + ([Comma] + (y + [End])) + rest == x + ([Comma] + (y + ([End] + rest)));
  }

  lemma {:induction false} ArgsRead(es: seq<Expr>, rest: Tokens)
    requires ReadableSeq(es)
    ensures ParseArgs(PrintArgs(es) + rest) == Got(RereadSeq(es), rest)
    ensures es != [] ==> ParseMore(PrintArgs(es) + rest) == Got(RereadSeq(es), rest)
    decreases es, 0
  {
    if es == [] {
      assert (PrintArgs(es) + rest)[1..] == rest;
    } else {
      var x := es[0];
      FirstToken(x);
      assert (PrintArgs(es) + rest)[0] == Print(x)[0];
      if |es| == 1 {
        ExprReads(x, [End] + rest);
        LastArg(Print(x), Reread(x, false), rest);
        Regroup(Print(x), [End], rest);
        assert RereadSeq(es) == [Reread(x, false)];
      } else {
        var more := PrintArgs(es[1..]) + rest;
        ArgsRead(es[1..], rest);
        ExprReads(x, [Comma] + more);
        NextArg(Print(x), Reread(x, false), more, RereadSeq(es[1..]), rest);
        Regroup([Comma], PrintArgs(es[1..]), rest);
        Regroup(Print(x), [Comma] + PrintArgs(es[1..]), rest);
      }
    }
  }

  // ---- When the very tree comes back ------------------------------------------------------

  /** No negation stands right before a numeral. */
  predicate Signless(e: Expr)
    decreases e, 0
  {
    match e
    case Lit(_) => true
    case Ident(_) => true
    case Select(o, _) => Signless(o)
    case Index(o, k) => Signless(o) && Signless(k)
    case Has(x) => Signless(x)
    case Default(x, y) => Signless(x) && Signless(y)
    case Node(op, kids) => !(IsUnaryCall(e) && op.unary == Negate && NumeralRoot(kids[0])) && SignlessSeq(kids)
    case Compr(_, t, _, bodies) => Signless(t) && SignlessSeq(bodies)
    case Where(t, args) => Signless(t) && SignlessSeq(args)
  }

  predicate SignlessSeq(es: seq<Expr>)
    decreases es, 0
  {
    es == [] || (Signless(es[0]) && SignlessSeq(es[1..]))
  }

  lemma {:induction false} RereadExactly(e: Expr)
    ensures Reread(e, false) == e <==> Signless(e)
    decreases e, 0
  {
    match e
    case Lit(_) =>
    case Ident(_) =>
    case Select(o, _) => RereadExactly(o);
    case Index(o, k) => RereadExactly(o); RereadExactly(k);
    case Has(x) => RereadExactly(x);
    case Default(x, y) => RereadExactly(x); RereadExactly(y);
    case Node(op, kids) =>
      RereadExactlySeq(kids);
      if |kids| >= 1 { assert kids == [kids[0]] + kids[1..]; RereadExactly(kids[0]); }
    case Compr(_, t, _, bodies) => RereadExactly(t); RereadExactlySeq(bodies);
    case Where(t, args) => RereadExactly(t); RereadExactlySeq(args);
  }

  lemma {:induction false} RereadExactlySeq(es: seq<Expr>)
    ensures RereadSeq(es) == es <==> SignlessSeq(es)
    decreases es, 0
  {
    if es != [] {
      RereadExactly(es[0]);
      RereadExactlySeq(es[1..]);
      TailOf(Reread(es[0], false), RereadSeq(es[1..]));
      HeadAndTail(es);
    }
  }

  // ---- What the parser can give -----------------------------------------------------------

  lemma {:induction false} ExprIsReadable(ts: Tokens)
    requires ParseExpr(ts).Got?
    ensures Readable(ParseExpr(ts).value)
    decreases |ts|, 3
  {
    if ts != [] && ts[0].Sign? && !SignedNumeral(ts) {
      var n := RunEnd(ts, ts[0], 1);
      RunStops(ts, ts[0], 1);
      MemberIsReadable(ts[n..]);
    } else {
      MemberIsReadable(ts);
    }
  }

  lemma {:induction false} RunStops(ts: Tokens, t: Token, i: nat)
    requires i <= |ts|
    ensures RunEnd(ts, t, i) < |ts| ==> ts[RunEnd(ts, t, i)] != t
    decreases |ts| - i
  {
    if i < |ts| && ts[i] == t { RunStops(ts, t, i + 1); }
  }

  /** A member is no unary call, and opens with a sign only as a negative literal does. */
  lemma {:induction false} MemberIsReadable(ts: Tokens)
    requires ParseMember(ts).Got?
    ensures var e := ParseMember(ts).value;
      Readable(e) && !IsUnaryCall(e) && (NegativeRoot(e) ==> ts[0] == Sign(Negate))
    decreases |ts|, 2
  {
    PrimaryIsReadable(ts);
    var p := ParsePrimary(ts);
    PostfixIsReadable(p.value, p.rest);
  }

  lemma {:induction false} PrimaryIsReadable(ts: Tokens)
    requires ParsePrimary(ts).Got?
    ensures var e := ParsePrimary(ts).value;
      Readable(e) && !IsUnaryCall(e) && (NegativeRoot(e) ==> ts[0] == Sign(Negate))
    decreases |ts|, 1
  {
    if !SignedNumeral(ts) && (ts[0].Begin? || ts[0].BeginHas? || ts[0].BeginDefault?) {
      ArgsAreReadable(ts[1..]);
      var args := ParseArgs(ts[1..]).value;
      if |args| == 2 { assert args[1..][0] == args[1]; }
    }
  }

  lemma {:induction false} PostfixIsReadable(m: Expr, ts: Tokens)
    requires Readable(m) && !IsUnaryCall(m) && ParsePostfix(m, ts).Got?
    ensures var e := ParsePostfix(m, ts).value; Readable(e) && !IsUnaryCall(e) && (NegativeRoot(e) <==> NegativeRoot(m))
    decreases |ts|, 0
  {
    if ts != [] {
      match ts[0]
      case Field(f) => PostfixIsReadable(Select(m, f), ts[1..]);
      case LBracket =>
        ExprIsReadable(ts[1..]);
        var k := ParseExpr(ts[1..]);
        PostfixIsReadable(Index(m, k.value), k.rest[1..]);
      case DotCall(_) => CalledIsReadable(m, ts);
      case DotMacro(_, _) => CalledIsReadable(m, ts);
      case DotWhere => CalledIsReadable(m, ts);
      case _ =>
    }
  }

  lemma {:induction false} CalledIsReadable(m: Expr, ts: Tokens)
    requires Readable(m) && !IsUnaryCall(m) && ParsePostfix(m, ts).Got?
    requires ts != [] && (ts[0].DotCall? || ts[0].DotMacro? || ts[0].DotWhere?)
    ensures var e := ParsePostfix(m, ts).value; Readable(e) && !IsUnaryCall(e) && (NegativeRoot(e) <==> NegativeRoot(m))
    decreases |ts|, -1
  {
    ArgsAreReadable(ts[1..]);
    var args := ParseArgs(ts[1..]);
    TailOf(m, args.value);
    PostfixIsReadable(Called(ts[0], m, args.value), args.rest);
  }

  lemma {:induction false} ArgsAreReadable(ts: Tokens)
    requires ParseArgs(ts).Got?
    ensures ReadableSeq(ParseArgs(ts).value)
    decreases |ts|, 5
  {
    if !(ts != [] && ts[0] == End) { MoreAreReadable(ts); }
  }

  lemma {:induction false} MoreAreReadable(ts: Tokens)
    requires ParseMore(ts).Got?
    ensures ReadableSeq(ParseMore(ts).value)
    decreases |ts|, 4
  {
    ExprIsReadable(ts);
    var e := ParseExpr(ts);
    if e.rest[0] == Comma {
      MoreAreReadable(e.rest[1..]);
      TailOf(e.value, ParseMore(e.rest[1..]).value);
    }
  }

  /** Of any tree at all: printed and parsed it is that tree again if and only if it is readable and
      negates no numeral. */
  lemma SurvivesExactly(t: Expr)
    ensures ParseExpr(Print(t)) == Got(t, []) <==> Readable(t) && Signless(t)
  {
    NothingAfter(Print(t));
    if Readable(t) {
      ExprReads(t, []);
      RereadExactly(t);
    } else if ParseExpr(Print(t)).Got? {
      ExprIsReadable(Print(t));
    }
  }

  /** A grouped tree survives exactly when it negates no numeral. */
  lemma GroupedSurvives(e: Expr)
    ensures var g := GroupForParser(e); ParseExpr(Print(g)) == Got(g, []) <==> Signless(g)
  {
    GroupingIsPrintable(e);
    PrintableIsReadable(GroupForParser(e));
    SurvivesExactly(GroupForParser(e));
  }

  // ---- The meaning comes back always ------------------------------------------------------

  /** Numbers negate as numbers do, and have neither elements nor member functions. */
  ghost predicate NumbersAreNumbers(ops: Ops) {
    && (forall v :: IsNumeral(v) ==> ops.call(UnaryCall(Negate), [v]) == Val(Negated(v)))
    && (forall v, k :: IsNumber(v) ==> ops.index(v, k) == Err)
    && (forall fn, vs :: |vs| >= 1 && IsNumber(vs[0]) ==> ops.call(Method(fn), vs) == Err)
  }

  predicate NumberOrError(o: Outcome) {
    o.Err? || IsNumber(o.v)
  }

  /** Anything asked of a number is an error, with the sign on either side. */
  lemma {:induction false} NumeralYields(e: Expr, signed: bool, act: Activation, env: Scope, ops: Ops)
    requires NumeralRoot(e) && NumbersAreNumbers(ops)
    ensures NumberOrError(Eval(e, act, env, ops)) && NumberOrError(Eval(Reread(e, signed), act, env, ops))
    ensures !e.Lit? ==> Eval(e, act, env, ops) == Err && Eval(Reread(e, signed), act, env, ops) == Err
    decreases e, 1
  {
    match e
    case Lit(_) =>
    case Select(o, _) => NumeralYields(o, signed, act, env, ops);
    case Index(o, _) =>
      NumeralYields(o, signed, act, env, ops);
      NumberHasNone(o, e, act, env, ops);
      NumberHasNone(Reread(o, signed), Reread(e, signed), act, env, ops);
    case Compr(_, t, _, _) =>
      NumeralYields(t, signed, act, env, ops);
      NumberHasNone(t, e, act, env, ops);
      NumberHasNone(Reread(t, signed), Reread(e, signed), act, env, ops);
    case Where(t, _) =>
    case Node(op, kids) => NumeralMethodFails(e, signed, act, env, ops);
  }

  /** A number has no elements, to index or to run over. */
  lemma NumberHasNone(x: Expr, e: Expr, act: Activation, env: Scope, ops: Ops)
    requires NumbersAreNumbers(ops) && NumberOrError(Eval(x, act, env, ops))
    requires (e.Index? && e.operand == x) || (e.Compr? && e.target == x)
    ensures Eval(e, act, env, ops) == Err
  {
  }

  lemma {:induction false} NumeralMethodFails(e: Expr, signed: bool, act: Activation, env: Scope, ops: Ops)
    requires IsMember(e) && NumeralRoot(e) && NumbersAreNumbers(ops)
    ensures Eval(e, act, env, ops) == Err && Eval(Reread(e, signed), act, env, ops) == Err
    decreases e, 0
  {
    var target, args := e.kids[0], e.kids[1..];
    NumeralYields(target, signed, act, env, ops);
    assert e == Node(e.op, [target] + args);
    MethodFails(e.op, target, args, act, env, ops);
    MethodFails(e.op, Reread(target, signed), RereadSeq(args), act, env, ops);
    assert Reread(e, signed) == Node(e.op, [Reread(target, signed)] + RereadSeq(args));
  }

  lemma MethodFails(op: Op, target: Expr, args: seq<Expr>, act: Activation, env: Scope, ops: Ops)
    requires op.Method? && NumbersAreNumbers(ops) && NumberOrError(Eval(target, act, env, ops))
    ensures Eval(Node(op, [target] + args), act, env, ops) == Err
  {
    EvalSeqCons(target, args, act, env, ops);
    var outs := EvalSeq([target] + args, act, env, ops);
    var vs := Strict(outs);
    assert outs[0] == Eval(target, act, env, ops);
    if vs.Some? { assert IsNumber(vs.value[0]); }
  }

  lemma NegatedNumeral(x: Expr, act: Activation, env: Scope, ops: Ops)
    requires NumeralRoot(x) && NumbersAreNumbers(ops)
    ensures Eval(Node(UnaryCall(Negate), [x]), act, env, ops) == Eval(Reread(x, true), act, env, ops)
  {
    NumeralYields(x, true, act, env, ops);
    EvalSeqCons(x, [], act, env, ops);
    assert [x] + [] == [x];
    if x.Lit? { StrictOne(x.v); }
  }

  /** What is read back evaluates as what was printed. */
  lemma {:induction false} RereadSame(e: Expr, act: Activation, env: Scope, ops: Ops)
    requires NumbersAreNumbers(ops)
    ensures Eval(Reread(e, false), act, env, ops) == Eval(e, act, env, ops)
    decreases e, 1
  {
    match e
    case Lit(_) =>
    case Ident(_) =>
    case Select(o, _) => RereadSame(o, act, env, ops);
    case Index(o, k) => RereadSame(o, act, env, ops); RereadSame(k, act, env, ops);
    case Has(x) => if x.Select? { RereadSame(x.operand, act, env, ops); } else { SelectAppears(x, act, env, ops); }
    case Default(x, y) =>
      RereadSame(x, act, env, ops); RereadSame(y, act, env, ops);
      if x.Select? { RereadSame(x.operand, act, env, ops); } else { SelectAppears(x, act, env, ops); }
    case Node(op, kids) => NodeRereadSame(e, act, env, ops);
    case Compr(_, t, x, bodies) =>
      RereadSame(t, act, env, ops);
      var xs := Elements(Eval(t, act, env, ops), ops);
      if xs.Some? { RereadSameBodies(bodies, x, xs.value, act, env, ops); }
    case Where(_, _) =>
  }

  /** A negated numeral may come back as a selection, but never from anything that has fields. */
  lemma SelectAppears(x: Expr, act: Activation, env: Scope, ops: Ops)
    requires NumbersAreNumbers(ops) && !x.Select?
    ensures var r := Reread(x, false);
      && (r.Select? ==> HasOf(Eval(r.operand, act, env, ops), r.field) == Err)
      && (r.Ident? ==> x.Ident?)
  {
    if IsUnaryCall(x) && x.op.unary == Negate && NumeralRoot(x.kids[0]) && x.kids[0].Select? {
      NumeralYields(x.kids[0].operand, true, act, env, ops);
    }
  }

  lemma {:induction false} NodeRereadSame(e: Expr, act: Activation, env: Scope, ops: Ops)
    requires NumbersAreNumbers(ops) && e.Node?
    ensures Eval(Reread(e, false), act, env, ops) == Eval(e, act, env, ops)
    decreases e, 0
  {
    var op, kids := e.op, e.kids;
    RereadSameSeq(kids, act, env, ops);
    if IsUnaryCall(e) && op.unary == Negate && NumeralRoot(kids[0]) {
      assert kids == [kids[0]];
      NegatedNumeral(kids[0], act, env, ops);
    } else if IsUnaryCall(e) || IsMember(e) {
      assert [Reread(kids[0], false)] + RereadSeq(kids[1..]) == RereadSeq(kids);
      assert IsUnaryCall(e) ==> RereadSeq(kids) == [Reread(kids[0], false)];
    }
  }

  lemma {:induction false} RereadSameSeq(es: seq<Expr>, act: Activation, env: Scope, ops: Ops)
    requires NumbersAreNumbers(ops)
    ensures EvalSeq(RereadSeq(es), act, env, ops) == EvalSeq(es, act, env, ops)
    decreases es, 0
  {
    if es != [] {
      RereadSame(es[0], act, env, ops);
      RereadSameSeq(es[1..], act, env, ops);
      EvalSeqCons(Reread(es[0], false), RereadSeq(es[1..]), act, env, ops);
    }
  }

  lemma {:induction false} RereadSameBodies(bodies: seq<Expr>, x: string, xs: seq<Value>, act: Activation, env: Scope,
                                            ops: Ops)
    requires NumbersAreNumbers(ops)
    ensures EvalBodies(RereadSeq(bodies), x, xs, act, env, ops) == EvalBodies(bodies, x, xs, act, env, ops)
    decreases bodies, 0
  {
    if bodies != [] {
      forall i | 0 <= i < |xs|
        ensures Eval(Reread(bodies[0], false), act, env[x := xs[i]], ops) == Eval(bodies[0], act, env[x := xs[i]], ops)
      {
        RereadSame(bodies[0], act, env[x := xs[i]], ops);
      }
      EvalEachSame(Reread(bodies[0], false), act, env, bodies[0], act, env, x, xs, ops);
      RereadSameBodies(bodies[1..], x, xs, act, env, ops);
      assert RereadSeq(bodies)[1..] == RereadSeq(bodies[1..]);
    }
  }

  /** A readable tree, printed and parsed, means what it meant. */
  lemma ReadableMeansTheSame(t: Expr, act: Activation, env: Scope, ops: Ops)
    requires NumbersAreNumbers(ops) && Readable(t)
    ensures var r := ParseExpr(Print(t));
      r.Got? && r.rest == [] && Eval(r.value, act, env, ops) == Eval(t, act, env, ops)
  {
    ExprReads(t, []);
    NothingAfter(Print(t));
    RereadSame(t, act, env, ops);
  }

  /** Any tree at all, grouped, printed and parsed, means what it meant. */
  lemma PrintedMeansTheSame(e: Expr, act: Activation, env: Scope, ops: Ops)
    requires NumbersAreNumbers(ops)
    ensures var r := ParseExpr(Print(GroupForParser(e)));
      r.Got? && r.rest == [] && Eval(r.value, act, env, ops) == Eval(e, act, env, ops)
  {
    GroupingIsPrintable(e);
    PrintableIsReadable(GroupForParser(e));
    ReadableMeansTheSame(GroupForParser(e), act, env, ops);
    GroupingSame(e, act, env, ops);
  }

  /** The predicate a Soul receives, as it parses the text, is equivalent to the one the author wrote:
      either the author's own text, or a printed one that reads back to the same meaning. */
  lemma RenderedTextIsEquivalent(r: Render.Renderer, e: Expr, soulAccepts: Expr -> bool, full: Activation,
                                 soul: Activation)
    requires Render.FillsOpen(r, full) && Render.ShowsOpen(r, full, soul) && NumbersAreNumbers(r.ops)
    ensures var out := Render.RenderPredicate(r, e, soulAccepts);
      out.Rendered? && out.tree != e ==>
        var read := ParseExpr(Print(out.tree));
        read.Got? && read.rest == [] && Eval(read.value, soul, map[], r.ops) == Eval(e, full, map[], r.ops)
  {
    Render.RenderedPredicateIsEquivalent(r, e, soulAccepts, full, soul);
    var out := Render.RenderPredicate(r, e, soulAccepts);
    if out.Rendered? && out.tree != e {
      var sub := Render.Subst(r, e, {});
      GroupingIsPrintable(sub);
      GroupingIsPrintable(Render.InComprehension(sub));
      PrintableIsReadable(out.tree);
      ReadableMeansTheSame(out.tree, soul, map[], r.ops);
    }
  }

  // ---- Without the grouping ---------------------------------------------------------------

  /** An ungrouped double negation is dropped, and an ungrouped sign slips outside a selection. */
  lemma UngroupedIsMisread(x: string, f: string, op: UnaryOp)
    ensures ParseExpr(Print(Node(UnaryCall(op), [Node(UnaryCall(op), [Ident(x)])]))) == Got(Ident(x), [])
    ensures ParseExpr(Print(Select(Node(UnaryCall(op), [Ident(x)]), f)))
      == Got(Node(UnaryCall(op), [Select(Ident(x), f)]), [])
  {
    var s := Sign(op);
    var ts := [s, s, Name(x)];
    assert Print(Node(UnaryCall(op), [Node(UnaryCall(op), [Ident(x)])])) == ts;
    assert RunEnd(ts, s, 2) == 2 && RunEnd(ts, s, 1) == 2;
    assert ts[2..] == [Name(x)];
    MemberReads(Ident(x), false, []);
    assert Signs(false) + Print(Ident(x)) + [] == [Name(x)];
    PostfixStops(Ident(x), []);
    var us := [s, Name(x), Field(f)];
    assert Print(Select(Node(UnaryCall(op), [Ident(x)]), f)) == us;
    assert RunEnd(us, s, 1) == 1 && us[1..] == [Name(x), Field(f)];
    MemberReads(Select(Ident(x), f), false, []);
    assert Signs(false) + Print(Select(Ident(x), f)) + [] == us[1..];
    PostfixStops(Select(Ident(x), f), []);
  }
}
