/**
 Condition expressions (internal/dynamodb/expr.go): the tokenizer, the recursive-descent parser
 and a printer with minimal parentheses, proved inverse to them.
 */
module Conditions {
  import opened Strings
  import opened Wrappers

  // ---------------------------------------------------------------- tokens

  datatype Token = Token(kind: string, text: string)

  predicate IsBlank(c: char) { c == ' ' || c == '\t' || c == '\n' || c == '\r' }

  predicate IsExprChar(c: char) {
    c == '#' || c == ':' || c == '_' || c == '.' || c == '[' || c == ']' || c == '-' ||
    'a' <= c <= 'z' || 'A' <= c <= 'Z' || '0' <= c <= '9'
  }

  predicate InAlphabet(c: char) {
    IsBlank(c) || IsExprChar(c) || c == '(' || c == ')' || c == ',' || c == '=' || c == '<' || c == '>'
  }

  /** The texts on which the tokenizer's loop advances at every character. */
  predicate Tokenizable(s: string) { forall i :: 0 <= i < |s| ==> InAlphabet(s[i]) }

  predicate IsKeyword(s: string) { s == "AND" || s == "OR" || s == "NOT" || s == "BETWEEN" || s == "IN" }

  /** How far the word at the start of `s` reaches. */
  function WordLength(s: string): (n: nat)
    ensures n <= |s| && (forall i :: 0 <= i < n ==> IsExprChar(s[i])) && (n < |s| ==> !IsExprChar(s[n]))
  {
    if s == "" || !IsExprChar(s[0]) then 0 else 1 + WordLength(s[1..])
  }

  function WordToken(word: string): Token {
    if IsKeyword(Upper(word)) then Token(Upper(word), Upper(word)) else Token("word", word)
  }

  predicate IsTwoCharOp(s: string) { s == "<=" || s == ">=" || s == "<>" }

  /** The tokens (none or one) at the start of a text and the characters they take. */
  function Step(s: string): (r: (seq<Token>, nat))
    requires s != "" && InAlphabet(s[0])
    ensures 0 < r.1 <= |s|
  {
    if IsBlank(s[0]) then ([], 1)
    else if s[0] == '(' || s[0] == ')' || s[0] == ',' then ([Token([s[0]], [s[0]])], 1)
    else if |s| > 1 && IsTwoCharOp(s[..2]) then ([Token("op", s[..2])], 2)
    else if s[0] == '=' || s[0] == '<' || s[0] == '>' then ([Token("op", [s[0]])], 1)
    else ([WordToken(s[..WordLength(s)])], WordLength(s))
  }

  /** tokenizeExpression. */
  function Tokens(s: string): seq<Token>
    requires Tokenizable(s)
  {
    if s == "" then [] else Step(s).0 + Tokens(s[Step(s).1..])
  }

  /** tokenizeExpression with its index. */
  method Tokenize(expr: string) returns (tokens: seq<Token>)
    requires Tokenizable(expr)
    ensures tokens == Tokens(expr)
  {
    hide Tokens, IsBlank, IsTwoCharOp, WordToken;
    tokens := [];
    var i := 0;
    assert expr[0..] == expr;
    while i < |expr|
      invariant i <= |expr| && tokens + Tokens(expr[i..]) == Tokens(expr)
    {
      ghost var rest, before, start := expr[i..], tokens, i;
      var ch := expr[i];
      if IsBlank(ch) {
        i := i + 1;
      } else if ch == '(' || ch == ')' || ch == ',' {
        tokens, i := tokens + [Token([ch], [ch])], i + 1;
      } else if i + 1 < |expr| && IsTwoCharOp(expr[i..i + 2]) {
        assert rest[..2] == expr[i..i + 2];
        tokens, i := tokens + [Token("op", expr[i..i + 2])], i + 2;
      } else if ch == '=' || ch == '<' || ch == '>' {
        assert i + 1 < |expr| ==> rest[..2] == expr[i..i + 2];
        tokens, i := tokens + [Token("op", [ch])], i + 1;
      } else {
        assert i + 1 < |expr| ==> rest[..2] == expr[i..i + 2];
        var word;
        word, i := ScanWord(expr, i);
        tokens := tokens + [WordToken(word)];
      }
      assert tokens == before + Step(rest).0 && i == start + Step(rest).1;
      StepTokens(expr, start);
    }
    EndTokens(expr);
  }

  lemma StepTokens(expr: string, i: nat)
    requires Tokenizable(expr) && i < |expr|
    ensures i + Step(expr[i..]).1 <= |expr|
    ensures Tokens(expr[i..]) == Step(expr[i..]).0 + Tokens(expr[i + Step(expr[i..]).1..])
  {
    hide Step;
    var n := Step(expr[i..]).1;
    assert expr[i..][n..] == expr[i + n..];
  }

  lemma EndTokens(expr: string)
    requires Tokenizable(expr)
    ensures Tokens(expr[|expr|..]) == []
  {
  }

  /** The default branch's inner loop. */
  method ScanWord(expr: string, start: nat) returns (word: string, i: nat)
    requires start <= |expr|
    ensures i == start + WordLength(expr[start..]) && word == expr[start..][..WordLength(expr[start..])]
  {
    i := start;
    while i < |expr| && IsExprChar(expr[i])
      invariant start <= i <= |expr| && forall j :: start <= j < i ==> IsExprChar(expr[j])
    {
      i := i + 1;
    }
    WordEnds(expr[start..], i - start);
    assert expr[start..i] == expr[start..][..i - start];
    word := expr[start..i];
  }

  lemma WordEnds(s: string, n: nat)
    requires n <= |s| && (forall i :: 0 <= i < n ==> IsExprChar(s[i])) && (n < |s| ==> !IsExprChar(s[n]))
    ensures WordLength(s) == n
  {
  }

  // ---------------------------------------------------------------- trees

  datatype Node =
    | Operand(raw: string)
    | Size(arg: Node)
    | Logical(op: string, left: Node, right: Node)
    | Not(child: Node)
    | Compare(op: string, left: Node, right: Node)
    | Between(target: Node, low: Node, high: Node)
    | In(target: Node, values: seq<Node>)
    | Function(name: string, args: seq<Node>)

  /** strings.EqualFold(s, "size") on the tokenizer's alphabet. */
  predicate IsSize(s: string) { Upper(s) == "SIZE" }

  // ---------------------------------------------------------------- the parser, on the tokens left

  type Parsed<T> = Result<(T, seq<Token>)>

  /** exprParser.peek: the kind or the text of the next token. */
  predicate Starts(ts: seq<Token>, kind: string) {
    ts != [] && (ts[0].kind == kind || ts[0].text == kind)
  }

  function ParseOr(ts: seq<Token>): (r: Parsed<Node>)
    ensures r.Ok? ==> |r.value.1| < |ts|
    decreases |ts|, 5
  {
    var l := ParseAnd(ts);
    if l.Err? then Err else OrTail(l.value.0, l.value.1)
  }

  function OrTail(left: Node, ts: seq<Token>): (r: Parsed<Node>)
    ensures r.Ok? ==> |r.value.1| <= |ts|
    decreases |ts|, 0
  {
    if !Starts(ts, "OR") then Ok((left, ts))
    else
      var r := ParseAnd(ts[1..]);
      if r.Err? then Err else OrTail(Logical("OR", left, r.value.0), r.value.1)
  }

  function ParseAnd(ts: seq<Token>): (r: Parsed<Node>)
    ensures r.Ok? ==> |r.value.1| < |ts|
    decreases |ts|, 4
  {
    var l := ParseNot(ts);
    if l.Err? then Err else AndTail(l.value.0, l.value.1)
  }

  function AndTail(left: Node, ts: seq<Token>): (r: Parsed<Node>)
    ensures r.Ok? ==> |r.value.1| <= |ts|
    decreases |ts|, 0
  {
    if !Starts(ts, "AND") then Ok((left, ts))
    else
      var r := ParseNot(ts[1..]);
      if r.Err? then Err else AndTail(Logical("AND", left, r.value.0), r.value.1)
  }

  function ParseNot(ts: seq<Token>): (r: Parsed<Node>)
    ensures r.Ok? ==> |r.value.1| < |ts|
    decreases |ts|, 3
  {
    if Starts(ts, "NOT") then
      var c := ParsePrimary(ts[1..]);
      if c.Err? then Err else Ok((Not(c.value.0), c.value.1))
    else ParsePrimary(ts)
  }

  function ParsePrimary(ts: seq<Token>): (r: Parsed<Node>)
    ensures r.Ok? ==> |r.value.1| < |ts|
    decreases |ts|, 2
  {
    if Starts(ts, "(") then
      var e := ParseOr(ts[1..]);
      if e.Err? || !Starts(e.value.1, ")") then Err else Ok((e.value.0, e.value.1[1..]))
    else
      var l := ParseOperand(ts);
      if l.Err? then Err else AfterOperand(l.value.0, l.value.1)
  }

  /** parsePrimary once its left operand is read. */
  function AfterOperand(left: Node, ts: seq<Token>): (r: Parsed<Node>)
    ensures r.Ok? ==> |r.value.1| <= |ts|
    decreases |ts|, 2
  {
    if Starts(ts, "(") && left.Operand? then ParseFunction(left.raw, ts)
    else if Starts(ts, "BETWEEN") then AfterBetween(left, ts[1..])
    else if Starts(ts, "IN") then AfterIn(left, ts[1..])
    else if Starts(ts, "op") then
      var right := ParseOperand(ts[1..]);
      if right.Err? then Err else Ok((Compare(ts[0].text, left, right.value.0), right.value.1))
    else Ok((left, ts))
  }

  function AfterIn(left: Node, ts: seq<Token>): (r: Parsed<Node>)
    ensures r.Ok? ==> |r.value.1| <= |ts|
    decreases |ts|, 2
  {
    if !Starts(ts, "(") then Err
    else
      var vs := Operands(ts[1..], []);
      if vs.Err? then Err else Ok((In(left, vs.value.0), vs.value.1))
  }

  function AfterBetween(left: Node, ts: seq<Token>): (r: Parsed<Node>)
    ensures r.Ok? ==> |r.value.1| <= |ts|
    decreases |ts|, 2
  {
    var low := ParseOperand(ts);
    if low.Err? || !Starts(low.value.1, "AND") then Err
    else
      var high := ParseOperand(low.value.1[1..]);
      if high.Err? then Err else Ok((Between(left, low.value.0, high.value.0), high.value.1))
  }

  function ParseFunction(name: string, ts: seq<Token>): (r: Parsed<Node>)
    ensures r.Ok? ==> |r.value.1| < |ts| && r.value.0.Function?
    decreases |ts|, 1
  {
    if !Starts(ts, "(") then Err
    else if Starts(ts[1..], ")") then Ok((Function(name, []), ts[2..]))
    else
      var args := Operands(ts[1..], []);
      if args.Err? then Err else Ok((Function(name, args.value.0), args.value.1))
  }

  /** Operands separated by commas, up to and with the closing parenthesis. */
  function Operands(ts: seq<Token>, before: seq<Node>): (r: Parsed<seq<Node>>)
    ensures r.Ok? ==> |r.value.1| < |ts|
    decreases |ts|, 1
  {
    var a := ParseOperand(ts);
    if a.Err? then Err
    else
      var (arg, rest) := a.value;
      if Starts(rest, ")") then Ok((before + [arg], rest[1..]))
      else if Starts(rest, ",") then Operands(rest[1..], before + [arg])
      else Err
  }

  function ParseOperand(ts: seq<Token>): (r: Parsed<Node>)
    ensures r.Ok? ==> |r.value.1| < |ts|
    decreases |ts|, 0
  {
    if ts == [] || ts[0].kind != "word" then Err
    else if IsSize(ts[0].text) && Starts(ts[1..], "(") then
      var f := ParseFunction(ts[0].text, ts[1..]);
      if f.Err? || |f.value.0.args| != 1 then Err
      else Ok((Size(f.value.0.args[0]), f.value.1))
    else Ok((Operand(ts[0].text), ts[1..]))
  }

  /** parseExpression from the first token; whatever follows the expression is left over. */
  function Parse(ts: seq<Token>): Parsed<Node> { ParseOr(ts) }

  // ---------------------------------------------------------------- well-formed trees and their tokens

  /** A text the tokenizer reads as one word token. */
  predicate IsWord(s: string) {
    s != "" && (forall i :: 0 <= i < |s| ==> IsExprChar(s[i])) && !IsKeyword(Upper(s))
  }

  /** parsePrimary takes any operator token, and also the word `op`, whose text equals the kind it asks for. */
  predicate IsOp(s: string) {
    s == "=" || s == "<" || s == ">" || s == "<=" || s == ">=" || s == "<>" || s == "op"
  }

  predicate IsOperand(n: Node) {
    match n
    case Operand(raw) => IsWord(raw)
    case Size(arg) => IsOperand(arg)
    case _ => false
  }

  /** The trees the grammar describes. */
  predicate WellFormed(n: Node) {
    match n
    case Operand(_) => IsOperand(n)
    case Size(_) => IsOperand(n)
    case Logical(op, l, r) => (op == "AND" || op == "OR") && WellFormed(l) && WellFormed(r)
    case Not(c) => WellFormed(c)
    case Compare(op, l, r) => IsOp(op) && IsOperand(l) && IsOperand(r)
    case Between(t, lo, hi) => IsOperand(t) && IsOperand(lo) && IsOperand(hi)
    case In(t, vs) => IsOperand(t) && vs != [] && forall v :: v in vs ==> IsOperand(v)
    case Function(name, args) => IsWord(name) && !IsSize(name) && forall a :: a in args ==> IsOperand(a)
  }

  function Punct(s: string): Token { Token(s, s) }

  function OpToken(op: string): Token { if op == "op" then Token("word", op) else Token("op", op) }

  /** How tightly a tree binds: OR, AND, NOT, then everything else. */
  function Level(n: Node): nat {
    match n
    case Logical(op, _, _) => if op == "OR" then 1 else 2
    case Not(_) => 3
    case _ => 4
  }

  function LexOperand(n: Node): seq<Token> {
    match n
    case Operand(raw) => [Token("word", raw)]
    case Size(arg) => [Token("word", "size"), Punct("(")] + LexOperand(arg) + [Punct(")")]
    case _ => []
  }

  /** Operands between commas, and the closing parenthesis. */
  function LexOperands(ns: seq<Node>): seq<Token> {
    if ns == [] then [Punct(")")]
    else if |ns| == 1 then LexOperand(ns[0]) + [Punct(")")]
    else LexOperand(ns[0]) + [Punct(",")] + LexOperands(ns[1..])
  }

  /** The tokens of a tree where a tree of at least `level` is expected; looser ones get parentheses. */
  function Lex(n: Node, level: nat): seq<Token>
    decreases n, if Level(n) < level then 1 else 0
  {
    if Level(n) < level then [Punct("(")] + Lex(n, 1) + [Punct(")")]
    else
      match n
      case Logical(op, l, r) =>
        var k := if op == "OR" then 1 else 2;
        Lex(l, k) + [Punct(op)] + Lex(r, k + 1)
      case Not(c) => [Punct("NOT")] + Lex(c, 4)
      case Compare(op, l, r) => LexOperand(l) + [OpToken(op)] + LexOperand(r)
      case Between(t, lo, hi) =>
        LexOperand(t) + [Punct("BETWEEN")] + LexOperand(lo) + [Punct("AND")] + LexOperand(hi)
      case In(t, vs) => LexOperand(t) + [Punct("IN"), Punct("(")] + LexOperands(vs)
      case Function(name, args) => [Token("word", name), Punct("(")] + LexOperands(args)
      case _ => LexOperand(n)
  }

  // ---------------------------------------------------------------- parsing what was printed

  /** What may follow a printed tree: nothing that would extend an operand. */
  predicate Follows(ts: seq<Token>) {
    !Starts(ts, "(") && !Starts(ts, "BETWEEN") && !Starts(ts, "IN") && !Starts(ts, "op")
  }

  /** A word never looks like punctuation or a keyword. */
  lemma NoClose(ts: seq<Token>, rest: seq<Token>)
    requires ts != [] && ts[0].kind == "word" && IsWord(ts[0].text)
    ensures !Starts(ts + rest, ")") && !Starts(ts + rest, "(") && !Starts(ts + rest, "NOT")
  {
    var w := ts[0].text;
    assert IsExprChar(w[0]) && !IsExprChar(")"[0]) && !IsExprChar("("[0]);
    assert Upper("NOT") == "NOT";
  }

  lemma OperandHead(n: Node)
    requires IsOperand(n)
    ensures LexOperand(n) != [] && LexOperand(n)[0].kind == "word" && IsWord(LexOperand(n)[0].text)
  {
    assert Upper("size") == "SIZE";
  }

  /** One operand in parentheses after the word size. */
  lemma SizeParses(inner: seq<Token>, arg: Node, rest: seq<Token>)
    requires inner != [] && inner[0].kind == "word" && IsWord(inner[0].text)
    requires ParseOperand(inner + ([Punct(")")] + rest)) == Ok((arg, [Punct(")")] + rest))
    ensures ParseFunction("size", [Punct("(")] + (inner + ([Punct(")")] + rest))) == Ok((Function("size", [arg]), rest))
  {
    hide ParseOperand;
    var tail := [Punct(")")] + rest;
    var all := inner + tail;
    assert ([Punct("(")] + all)[1..] == all && tail[1..] == rest;
    NoClose(inner, tail);
    assert [] + [arg] == [arg];
    assert Operands(all, []) == Ok(([arg], rest));
  }

  lemma {:induction false} OperandParses(n: Node, rest: seq<Token>)
    requires IsOperand(n) && !Starts(rest, "(")
    ensures LexOperand(n) != [] && LexOperand(n)[0].kind == "word"
    ensures ParseOperand(LexOperand(n) + rest) == Ok((n, rest))
  {
    hide ParseFunction, IsWord;
    var ts := LexOperand(n) + rest;
    match n
    case Operand(raw) =>
      assert ts[1..] == rest;
    case Size(arg) =>
      var tail := [Punct(")")] + rest;
      assert ts[1..] == [Punct("(")] + (LexOperand(arg) + tail);
      OperandParses(arg, tail);
      OperandHead(arg);
      SizeParses(LexOperand(arg), arg, rest);
  }

  lemma {:induction false} OperandsParse(ns: seq<Node>, before: seq<Node>, rest: seq<Token>)
    requires ns != [] && forall n :: n in ns ==> IsOperand(n)
    ensures Operands(LexOperands(ns) + rest, before) == Ok((before + ns, rest))
    decreases |ns|
  {
    hide ParseOperand, LexOperand, IsOperand;
    var n := ns[0];
    if |ns| == 1 {
      var tail := [Punct(")")] + rest;
      assert LexOperands(ns) + rest == LexOperand(n) + tail;
      OperandParses(n, tail);
      assert tail[1..] == rest && before + [n] == before + ns;
    } else {
      var tail := [Punct(",")] + (LexOperands(ns[1..]) + rest);
      assert LexOperands(ns) + rest == LexOperand(n) + tail;
      OperandParses(n, tail);
      assert tail[1..] == LexOperands(ns[1..]) + rest;
      OperandsParse(ns[1..], before + [n], rest);
      assert before + [n] + ns[1..] == before + ns;
    }
  }

  lemma CompareParses(op: string, l: Node, r: Node, rest: seq<Token>)
    requires IsOp(op) && IsOperand(l) && IsOperand(r) && Follows(rest)
    ensures AfterOperand(l, [OpToken(op)] + LexOperand(r) + rest) == Ok((Compare(op, l, r), rest))
  {
    hide ParseOperand, LexOperand, IsOperand;
    var ts := [OpToken(op)] + LexOperand(r) + rest;
    assert ts[1..] == LexOperand(r) + rest;
    OperandParses(r, rest);
  }

  lemma BetweenParses(t: Node, lo: Node, hi: Node, rest: seq<Token>)
    requires IsOperand(lo) && IsOperand(hi) && Follows(rest)
    ensures AfterOperand(t, [Punct("BETWEEN")] + LexOperand(lo) + [Punct("AND")] + LexOperand(hi) + rest) ==
            Ok((Between(t, lo, hi), rest))
  {
    hide ParseOperand, LexOperand, IsOperand;
    var ts := [Punct("BETWEEN")] + LexOperand(lo) + [Punct("AND")] + LexOperand(hi) + rest;
    var tail := [Punct("AND")] + (LexOperand(hi) + rest);
    assert ts[1..] == LexOperand(lo) + tail;
    OperandParses(lo, tail);
    assert tail[1..] == LexOperand(hi) + rest;
    OperandParses(hi, rest);
  }

  lemma InParses(t: Node, vs: seq<Node>, rest: seq<Token>)
    requires vs != [] && forall v :: v in vs ==> IsOperand(v)
    ensures AfterOperand(t, [Punct("IN"), Punct("(")] + LexOperands(vs) + rest) == Ok((In(t, vs), rest))
  {
    hide LexOperands, IsOperand, Operands;
    var ts := [Punct("IN"), Punct("(")] + LexOperands(vs) + rest;
    assert ts[1..][1..] == ts[2..] == LexOperands(vs) + rest;
    OperandsParse(vs, [], rest);
    assert [] + vs == vs;
  }

  lemma FunctionParses(name: string, args: seq<Node>, rest: seq<Token>)
    requires forall a :: a in args ==> IsOperand(a)
    ensures AfterOperand(Operand(name), [Punct("(")] + LexOperands(args) + rest) == Ok((Function(name, args), rest))
  {
    hide IsOperand, Operands, LexOperand;
    var ts := [Punct("(")] + LexOperands(args) + rest;
    assert ts[1..] == LexOperands(args) + rest;
    if args == [] {
      assert ts[2..] == rest;
    } else {
      OperandsParse(args, [], rest);
      assert [] + args == args;
      LexOperandsHead(args);
      NoClose(LexOperands(args), rest);
    }
  }

  lemma LexOperandsHead(args: seq<Node>)
    requires args != [] && forall a :: a in args ==> IsOperand(a)
    ensures LexOperands(args) != [] && LexOperands(args)[0].kind == "word" && IsWord(LexOperands(args)[0].text)
  {
    hide IsOperand, LexOperand;
    OperandHead(args[0]);
  }

  /** A primary that starts with an operand is parsed as that operand and what comes after it. */
  lemma PrimaryByOperand(n: Node, tail: seq<Token>)
    requires IsOperand(n) && !Starts(tail, "(")
    ensures ParsePrimary(LexOperand(n) + tail) == AfterOperand(n, tail)
  {
    hide ParseOperand, LexOperand, AfterOperand, IsOperand;
    OperandHead(n);
    NoClose(LexOperand(n), tail);
    OperandParses(n, tail);
  }

  lemma FunctionPrimary(name: string, args: seq<Node>, rest: seq<Token>)
    requires IsWord(name) && !IsSize(name) && forall a :: a in args ==> IsOperand(a)
    ensures ParsePrimary([Token("word", name), Punct("(")] + LexOperands(args) + rest) == Ok((Function(name, args), rest))
  {
    hide AfterOperand, LexOperands, IsOperand, IsWord, IsSize;
    var tail := [Punct("(")] + LexOperands(args) + rest;
    var ts := [Token("word", name)] + tail;
    assert [Token("word", name), Punct("(")] + LexOperands(args) + rest == ts;
    NoClose([Token("word", name)], tail);
    assert ts[1..] == tail;
    FunctionParses(name, args, rest);
  }

  lemma LeafParses(n: Node, rest: seq<Token>)
    requires WellFormed(n) && Level(n) == 4 && Follows(rest)
    ensures ParsePrimary(Lex(n, 4) + rest) == Ok((n, rest))
  {
    hide ParsePrimary, LexOperand, LexOperands, IsOperand, AfterOperand;
    match n
    case Compare(op, l, r) =>
      var tail := [OpToken(op)] + LexOperand(r) + rest;
      assert Lex(n, 4) + rest == LexOperand(l) + tail;
      PrimaryByOperand(l, tail);
      CompareParses(op, l, r, rest);
    case Between(t, lo, hi) =>
      var tail := [Punct("BETWEEN")] + LexOperand(lo) + [Punct("AND")] + LexOperand(hi) + rest;
      assert Lex(n, 4) + rest == LexOperand(t) + tail;
      PrimaryByOperand(t, tail);
      BetweenParses(t, lo, hi, rest);
    case In(t, vs) =>
      var tail := [Punct("IN"), Punct("(")] + LexOperands(vs) + rest;
      assert Lex(n, 4) + rest == LexOperand(t) + tail;
      PrimaryByOperand(t, tail);
      InParses(t, vs, rest);
    case Function(name, args) =>
      FunctionPrimary(name, args, rest);
    case _ =>
      PrimaryByOperand(n, rest);
      BareParses(n, rest);
  }

  lemma BareParses(n: Node, rest: seq<Token>)
    requires Follows(rest)
    ensures AfterOperand(n, rest) == Ok((n, rest))
  {
  }

  /** The first token of a printed tree is never OR, AND or a closing parenthesis; only NOT prints NOT first. */
  lemma {:induction false} LexHead(n: Node, level: nat)
    requires WellFormed(n)
    ensures Lex(n, level) != []
    ensures level == 4 ==> !Starts(Lex(n, level), "NOT")
    decreases n, if Level(n) < level then 1 else 0
  {
    hide LexOperand, LexOperands, IsOperand, IsWord;
    if Level(n) < level {
    } else {
      match n
      case Logical(op, l, r) => LexHead(l, if op == "OR" then 1 else 2);
      case Not(_) =>
      case Compare(_, l, _) => OperandHead(l); NoClose(LexOperand(l), []);
      case Between(t, _, _) => OperandHead(t); NoClose(LexOperand(t), []);
      case In(t, _) => OperandHead(t); NoClose(LexOperand(t), []);
      case Function(name, _) => NoClose([Token("word", name)], []);
      case _ => OperandHead(n); NoClose(LexOperand(n), []);
    }
  }

  /** A parenthesised tree is a primary, once its inside parses as a whole. */
  lemma ParenParses(inner: seq<Token>, n: Node, rest: seq<Token>)
    requires ParseOr(inner + ([Punct(")")] + rest)) == Ok((n, [Punct(")")] + rest))
    ensures ParsePrimary([Punct("(")] + inner + [Punct(")")] + rest) == Ok((n, rest))
  {
    hide ParseOr;
    var ts := [Punct("(")] + inner + [Punct(")")] + rest;
    assert ts[1..] == inner + ([Punct(")")] + rest);
    assert ([Punct(")")] + rest)[1..] == rest;
  }

  /** Rank of a parse of `n` at `level`: a parenthesised one starts again at level 1. */
  function Rank(n: Node, level: nat): nat
    requires level <= 4
  {
    if Level(n) < level then 20 - level else 10 - level
  }

  lemma {:induction false} OrParses(n: Node, rest: seq<Token>)
    requires WellFormed(n) && Follows(rest) && !Starts(rest, "AND")
    ensures ParseOr(Lex(n, 1) + rest) == OrTail(n, rest)
    decreases n, Rank(n, 1)
  {
    hide ParseAnd, Follows;
    if Level(n) == 1 {
      var tail := [Punct("OR")] + (Lex(n.right, 2) + rest);
      assert Lex(n, 1) + rest == Lex(n.left, 1) + tail;
      OrSeparates(tail);
      OrParses(n.left, tail);
      assert tail[1..] == Lex(n.right, 2) + rest;
      AndParses(n.right, rest);
      AndStops(n.right, rest);
    } else {
      LexSame(n, 1, 2);
      AndParses(n, rest);
      AndStops(n, rest);
    }
  }

  lemma {:induction false} AndParses(n: Node, rest: seq<Token>)
    requires WellFormed(n) && Follows(rest)
    ensures ParseAnd(Lex(n, 2) + rest) == AndTail(n, rest)
    decreases n, Rank(n, 2)
  {
    hide ParseNot, Follows;
    if Level(n) == 2 {
      var tail := [Punct("AND")] + (Lex(n.right, 3) + rest);
      assert Lex(n, 2) + rest == Lex(n.left, 2) + tail;
      AndSeparates(tail);
      AndParses(n.left, tail);
      assert tail[1..] == Lex(n.right, 3) + rest;
      NotParses(n.right, rest);
    } else {
      LexSame(n, 2, 3);
      NotParses(n, rest);
    }
  }

  lemma {:induction false} NotParses(n: Node, rest: seq<Token>)
    requires WellFormed(n) && Follows(rest)
    ensures ParseNot(Lex(n, 3) + rest) == Ok((n, rest))
    decreases n, Rank(n, 3)
  {
    hide ParsePrimary, Follows;
    if Level(n) == 3 {
      var ts := Lex(n, 3) + rest;
      assert ts[1..] == Lex(n.child, 4) + rest;
      PrimaryParses(n.child, rest);
    } else {
      LexSame(n, 3, 4);
      LexHead(n, 4);
      assert (Lex(n, 4) + rest)[0] == Lex(n, 4)[0];
      PrimaryParses(n, rest);
    }
  }

  lemma {:induction false} PrimaryParses(n: Node, rest: seq<Token>)
    requires WellFormed(n) && Follows(rest)
    ensures ParsePrimary(Lex(n, 4) + rest) == Ok((n, rest))
    decreases n, Rank(n, 4)
  {
    hide ParsePrimary, Follows, ParseOr;
    if Level(n) == 4 {
      LeafParses(n, rest);
    } else {
      var close := [Punct(")")] + rest;
      CloseFollows(rest);
      OrParses(n, close);
      ParenParses(Lex(n, 1), n, rest);
    }
  }

  lemma LexSame(n: Node, lower: nat, upper: nat)
    requires Level(n) >= upper >= lower || Level(n) < lower <= upper
    ensures Lex(n, lower) == Lex(n, upper)
  {
  }

  lemma OrSeparates(rest: seq<Token>)
    requires rest != [] && rest[0] == Punct("OR")
    ensures Follows(rest) && !Starts(rest, "AND")
  {
  }

  lemma AndSeparates(rest: seq<Token>)
    requires rest != [] && rest[0] == Punct("AND")
    ensures Follows(rest)
  {
  }

  lemma CloseFollows(rest: seq<Token>)
    ensures Follows([Punct(")")] + rest) && !Starts([Punct(")")] + rest, "AND")
    ensures !Starts([Punct(")")] + rest, "OR")
  {
  }

  lemma AndStops(n: Node, rest: seq<Token>)
    requires !Starts(rest, "AND")
    ensures AndTail(n, rest) == Ok((n, rest))
  {
  }

  /** Parsing the tokens of a well-formed tree gives the tree back and takes them all. */
  lemma ParsePrinted(n: Node)
    requires WellFormed(n)
    ensures Parse(Lex(n, 1)) == Ok((n, []))
  {
    assert Lex(n, 1) + [] == Lex(n, 1);
    OrParses(n, []);
  }

  // ---------------------------------------------------------------- printing and reading characters

  /** The tokens the tokenizer can produce. */
  predicate TokenOk(t: Token) {
    (t.kind == t.text && (t.text == "(" || t.text == ")" || t.text == "," || IsKeyword(t.text))) ||
    (t.kind == "op" && IsOp(t.text) && t.text != "op") ||
    (t.kind == "word" && IsWord(t.text))
  }

  ghost predicate AllOk(ts: seq<Token>) { forall t :: t in ts ==> TokenOk(t) }

  /** Token texts, each followed by a space. */
  function Spell(ts: seq<Token>): string {
    if ts == [] then "" else ts[0].text + (" " + Spell(ts[1..]))
  }

  lemma KeywordSpelling(w: string)
    requires IsKeyword(w)
    ensures Upper(w) == w && w != "" && forall i :: 0 <= i < |w| ==> IsExprChar(w[i])
  {
  }

  lemma WordStep(w: string, rest: string)
    requires w != "" && forall i :: 0 <= i < |w| ==> IsExprChar(w[i])
    ensures Step(w + (" " + rest)) == ([WordToken(w)], |w|)
  {
    var s := w + (" " + rest);
    assert s[..|w|] == w;
    WordEnds(s, |w|);
    assert s[0] == w[0];
    assert |s| > 1 ==> s[..2][0] == w[0];
    assert !IsExprChar('<') && !IsExprChar('>') && !IsExprChar('(') && !IsExprChar(')') && !IsExprChar(',') && !IsExprChar('=');
  }

  lemma PunctStep(t: Token, rest: string)
    requires TokenOk(t) && t.kind != "word" && !IsKeyword(t.text)
    ensures Step(t.text + (" " + rest)) == ([t], |t.text|)
  {
    var s := t.text + (" " + rest);
    assert s[..|t.text|] == t.text && s[0] == t.text[0];
    if |t.text| == 1 {
      assert t.text == [s[0]];
      assert s[..2] == [s[0], ' '];
    }
  }

  lemma TokenStep(t: Token, rest: string)
    requires TokenOk(t)
    ensures t.text != "" && (forall i :: 0 <= i < |t.text| ==> InAlphabet(t.text[i]))
    ensures Step(t.text + (" " + rest)) == ([t], |t.text|)
  {
    hide Step, Upper;
    if t.kind == "word" {
      WordStep(t.text, rest);
    } else if IsKeyword(t.text) {
      KeywordSpelling(t.text);
      WordStep(t.text, rest);
    } else {
      PunctStep(t, rest);
    }
  }

  /** Tokens spelled with spaces between them are read back. */
  lemma {:induction false} SpellReads(ts: seq<Token>)
    requires AllOk(ts)
    ensures Tokenizable(Spell(ts)) && Tokens(Spell(ts)) == ts
  {
    hide Step, TokenOk;
    if ts != [] {
      var w, tail := ts[0].text, Spell(ts[1..]);
      var s := w + (" " + tail);
      SpellReads(ts[1..]);
      TokenStep(ts[0], tail);
      assert s[|w|..] == " " + tail;
      BlankStep(tail);
      assert (" " + tail)[1..] == tail;
      assert ts == [ts[0]] + ts[1..];
    }
  }

  lemma BlankStep(tail: string)
    ensures Step(" " + tail) == ([], 1) && InAlphabet(' ')
  {
  }

  lemma StepOk(s: string)
    requires s != "" && InAlphabet(s[0])
    ensures AllOk(Step(s).0)
  {
    var w := s[..WordLength(s)];
    if IsKeyword(Upper(w)) {
      KeywordSpelling(Upper(w));
    }
  }

  lemma {:induction false} TokensOk(s: string)
    requires Tokenizable(s)
    ensures AllOk(Tokens(s))
  {
    hide Step, TokenOk;
    if s != "" {
      StepOk(s);
      TokensOk(s[Step(s).1..]);
    }
  }

  lemma {:induction false} LexOperandOk(n: Node)
    requires IsOperand(n)
    ensures AllOk(LexOperand(n))
  {
    if n.Size? {
      LexOperandOk(n.arg);
      assert Upper("size") == "SIZE";
    }
  }

  lemma {:induction false} LexOperandsOk(ns: seq<Node>)
    requires forall n :: n in ns ==> IsOperand(n)
    ensures AllOk(LexOperands(ns))
  {
    hide IsOperand, LexOperand;
    if ns != [] {
      LexOperandOk(ns[0]);
      LexOperandsOk(ns[1..]);
    }
    assert TokenOk(Punct(",")) && TokenOk(Punct(")"));
  }

  lemma {:induction false} LexOk(n: Node, level: nat)
    requires WellFormed(n)
    ensures AllOk(Lex(n, level))
    decreases n, if Level(n) < level then 1 else 0
  {
    hide LexOperand, LexOperands, IsOperand, IsWord;
    if Level(n) < level {
      LexOk(n, 1);
    } else {
      match n
      case Logical(op, l, r) => LexOk(l, if op == "OR" then 1 else 2); LexOk(r, if op == "OR" then 2 else 3);
      case Not(c) => LexOk(c, 4);
      case Compare(op, l, r) => LexOperandOk(l); LexOperandOk(r); OpTokenOk(op);
      case Between(t, lo, hi) => LexOperandOk(t); LexOperandOk(lo); LexOperandOk(hi);
      case In(t, vs) => LexOperandOk(t); LexOperandsOk(vs);
      case Function(_, args) => LexOperandsOk(args);
      case _ => LexOperandOk(n);
    }
  }

  lemma OpTokenOk(op: string)
    requires IsOp(op)
    ensures TokenOk(OpToken(op))
  {
    assert Upper("op") == "OP";
  }

  /** The text of a tree, with parentheses only where the grammar needs them. */
  function Print(n: Node): string { Spell(Lex(n, 1)) }

  // ---------------------------------------------------------------- everything parsed is well formed

  lemma {:induction false} OperandBuilt(ts: seq<Token>)
    requires AllOk(ts) && ParseOperand(ts).Ok?
    ensures IsOperand(ParseOperand(ts).value.0) && AllOk(ParseOperand(ts).value.1)
    ensures Starts(ParseOperand(ts).value.1, "(") && ParseOperand(ts).value.0.Operand? ==>
      !IsSize(ParseOperand(ts).value.0.raw)
    decreases |ts|, 0
  {
    assert TokenOk(ts[0]);
    if IsSize(ts[0].text) && Starts(ts[1..], "(") {
      FunctionBuilt(ts[0].text, ts[1..]);
    }
  }

  lemma {:induction false} FunctionBuilt(name: string, ts: seq<Token>)
    requires AllOk(ts) && ParseFunction(name, ts).Ok?
    ensures var (f, rest) := ParseFunction(name, ts).value;
      f == Function(name, f.args) && (forall a :: a in f.args ==> IsOperand(a)) && AllOk(rest)
    decreases |ts|, 1
  {
    hide TokenOk, IsOperand;
    if !Starts(ts[1..], ")") {
      OperandsBuilt(ts[1..], []);
    }
  }

  lemma {:induction false} OperandsBuilt(ts: seq<Token>, before: seq<Node>)
    requires AllOk(ts) && Operands(ts, before).Ok? && forall a :: a in before ==> IsOperand(a)
    ensures var (args, rest) := Operands(ts, before).value;
      args != [] && (forall a :: a in args ==> IsOperand(a)) && AllOk(rest)
    decreases |ts|, 1
  {
    hide TokenOk, IsOperand, ParseOperand;
    OperandBuilt(ts);
    var (arg, rest) := ParseOperand(ts).value;
    if !Starts(rest, ")") {
      OperandsBuilt(rest[1..], before + [arg]);
    }
  }

  lemma AfterOperandBuilt(left: Node, ts: seq<Token>)
    requires AllOk(ts) && IsOperand(left) && AfterOperand(left, ts).Ok?
    requires Starts(ts, "(") && left.Operand? ==> !IsSize(left.raw)
    ensures WellFormed(AfterOperand(left, ts).value.0) && AllOk(AfterOperand(left, ts).value.1)
  {
    hide ParseOperand, ParseFunction, Operands, TokenOk, IsSize, IsWord;
    if Starts(ts, "(") && left.Operand? {
      FunctionBuilt(left.raw, ts);
    } else if Starts(ts, "BETWEEN") {
      OperandBuilt(ts[1..]);
      OperandBuilt(ParseOperand(ts[1..]).value.1[1..]);
    } else if Starts(ts, "IN") {
      assert ts[1..][1..] == ts[2..];
      OperandsBuilt(ts[2..], []);
    } else if Starts(ts, "op") {
      OperandBuilt(ts[1..]);
      OpBuilt(ts[0]);
    }
  }

  lemma OpBuilt(t: Token)
    requires TokenOk(t) && (t.kind == "op" || t.text == "op")
    ensures IsOp(t.text)
  {
  }

  ghost predicate Built(r: Parsed<Node>) { r.Ok? ==> WellFormed(r.value.0) && AllOk(r.value.1) }

  lemma {:induction false} OrBuilt(ts: seq<Token>)
    requires AllOk(ts)
    ensures Built(ParseOr(ts))
    decreases |ts|, 5
  {
    hide TokenOk, ParseAnd;
    AndBuilt(ts);
    if ParseAnd(ts).Ok? {
      OrTailBuilt(ParseAnd(ts).value.0, ParseAnd(ts).value.1);
    }
  }

  lemma {:induction false} OrTailBuilt(left: Node, ts: seq<Token>)
    requires AllOk(ts) && WellFormed(left)
    ensures Built(OrTail(left, ts))
    decreases |ts|, 0
  {
    hide TokenOk, ParseAnd;
    if Starts(ts, "OR") {
      AndBuilt(ts[1..]);
      var r := ParseAnd(ts[1..]);
      if r.Ok? {
        OrTailBuilt(Logical("OR", left, r.value.0), r.value.1);
      }
    }
  }

  lemma {:induction false} AndBuilt(ts: seq<Token>)
    requires AllOk(ts)
    ensures Built(ParseAnd(ts))
    decreases |ts|, 4
  {
    hide TokenOk, ParseNot;
    NotBuilt(ts);
    if ParseNot(ts).Ok? {
      AndTailBuilt(ParseNot(ts).value.0, ParseNot(ts).value.1);
    }
  }

  lemma {:induction false} AndTailBuilt(left: Node, ts: seq<Token>)
    requires AllOk(ts) && WellFormed(left)
    ensures Built(AndTail(left, ts))
    decreases |ts|, 0
  {
    hide TokenOk, ParseNot;
    if Starts(ts, "AND") {
      NotBuilt(ts[1..]);
      var r := ParseNot(ts[1..]);
      if r.Ok? {
        AndTailBuilt(Logical("AND", left, r.value.0), r.value.1);
      }
    }
  }

  lemma {:induction false} NotBuilt(ts: seq<Token>)
    requires AllOk(ts)
    ensures Built(ParseNot(ts))
    decreases |ts|, 3
  {
    hide TokenOk, ParsePrimary;
    if Starts(ts, "NOT") {
      PrimaryBuilt(ts[1..]);
    } else {
      PrimaryBuilt(ts);
    }
  }

  lemma {:induction false} PrimaryBuilt(ts: seq<Token>)
    requires AllOk(ts)
    ensures Built(ParsePrimary(ts))
    decreases |ts|, 2
  {
    hide TokenOk, ParseOr, ParseOperand, AfterOperand, WellFormed, IsOperand;
    if Starts(ts, "(") {
      OrBuilt(ts[1..]);
    } else if ParsePrimary(ts).Ok? {
      OperandBuilt(ts);
      AfterOperandBuilt(ParseOperand(ts).value.0, ParseOperand(ts).value.1);
    }
  }

  // ---------------------------------------------------------------- main result

  /** Printing a tree, tokenizing the text and parsing the tokens gives the tree back. */
  lemma PrintParses(n: Node)
    requires WellFormed(n)
    ensures Tokenizable(Print(n)) && Parse(Tokens(Print(n))) == Ok((n, []))
  {
    hide Lex, Spell, Parse, Tokens, WellFormed;
    LexOk(n, 1);
    SpellReads(Lex(n, 1));
    ParsePrinted(n);
  }

  /** Whatever the parser makes of a text, it is a well-formed tree that survives the round trip. */
  lemma RoundTrip(expr: string)
    requires Tokenizable(expr) && Parse(Tokens(expr)).Ok?
    ensures var n := Parse(Tokens(expr)).value.0;
      WellFormed(n) && Tokenizable(Print(n)) && Parse(Tokens(Print(n))) == Ok((n, []))
  {
    hide ParseOr, Tokens, Print;
    TokensOk(expr);
    OrBuilt(Tokens(expr));
    PrintParses(Parse(Tokens(expr)).value.0);
  }

  // ---------------------------------------------------------------- the parser as it runs

  /** exprParser: a position moving through the tokens. */
  class ExprParser {
    const tokens: seq<Token>
    var pos: nat

    constructor (tokens: seq<Token>)
      ensures this.tokens == tokens && pos == 0
    {
      this.tokens := tokens;
      pos := 0;
    }

    ghost predicate InRange()
      reads this
    {
      pos <= |tokens|
    }

    /** The tokens not yet taken. */
    ghost function Left(): seq<Token>
      requires InRange()
      reads this
    {
      tokens[pos..]
    }

    /** A parse went as described: same failure, or same result and the same tokens left. */
    ghost predicate Went<T>(r: Result<T>, expected: Parsed<T>)
      reads this
    {
      InRange() &&
      match expected
      case Err => r.Err?
      case Ok((value, rest)) => r == Ok(value) && Left() == rest
    }

    method Peek(kind: string) returns (b: bool)
      requires InRange()
      ensures b == Starts(Left(), kind)
    {
      return pos < |tokens| && (tokens[pos].kind == kind || tokens[pos].text == kind);
    }

    method Match(kind: string) returns (b: bool)
      requires InRange()
      modifies this`pos
      ensures InRange() && b == Starts(old(Left()), kind)
      ensures Left() == if b then old(Left())[1..] else old(Left())
      ensures pos == if b then old(pos) + 1 else old(pos)
    {
      b := Peek(kind);
      if b {
        assert tokens[pos..][1..] == tokens[pos + 1..];
        pos := pos + 1;
      }
    }

    method ParseExpression() returns (r: Result<Node>)
      requires InRange()
      modifies this`pos
      ensures Went(r, ParseOr(old(Left())))
      decreases |tokens| - pos, 5
    {
      hide ParseAnd;
      var left := ParseAndExpression();
      if left.Err? {
        return Err;
      }
      var node := left.value;
      while true
        invariant InRange() && old(pos) < pos
        invariant OrTail(node, Left()) == ParseOr(old(Left()))
        decreases |tokens| - pos
      {
        var more := Match("OR");
        if !more {
          return Ok(node);
        }
        var right := ParseAndExpression();
        if right.Err? {
          return Err;
        }
        node := Logical("OR", node, right.value);
      }
    }

    method ParseAndExpression() returns (r: Result<Node>)
      requires InRange()
      modifies this`pos
      ensures Went(r, ParseAnd(old(Left()))) && (r.Ok? ==> old(pos) < pos)
      decreases |tokens| - pos, 4
    {
      hide ParseNot;
      var left := ParseNotExpression();
      if left.Err? {
        return Err;
      }
      var node := left.value;
      while true
        invariant InRange() && old(pos) < pos
        invariant AndTail(node, Left()) == ParseAnd(old(Left()))
        decreases |tokens| - pos
      {
        var more := Match("AND");
        if !more {
          return Ok(node);
        }
        var right := ParseNotExpression();
        if right.Err? {
          return Err;
        }
        node := Logical("AND", node, right.value);
      }
    }

    method ParseNotExpression() returns (r: Result<Node>)
      requires InRange()
      modifies this`pos
      ensures Went(r, ParseNot(old(Left()))) && (r.Ok? ==> old(pos) < pos)
      decreases |tokens| - pos, 3
    {
      hide ParsePrimary;
      var negated := Match("NOT");
      if negated {
        var child := ParsePrimaryExpression();
        return if child.Err? then Err else Ok(Not(child.value));
      }
      r := ParsePrimaryExpression();
    }

    method ParsePrimaryExpression() returns (r: Result<Node>)
      requires InRange()
      modifies this`pos
      ensures Went(r, ParsePrimary(old(Left()))) && (r.Ok? ==> old(pos) < pos)
      decreases |tokens| - pos, 2
    {
      hide ParseOr, ParseOperand, ParseFunction, Operands;
      var open := Match("(");
      if open {
        var node := ParseExpression();
        if node.Err? {
          return Err;
        }
        var closed := Match(")");
        return if closed then node else Err;
      }
      var left := ParseOneOperand();
      if left.Err? {
        return Err;
      }
      r := ParseAfterOperand(left.value);
    }

    /** The second half of parsePrimary. */
    method ParseAfterOperand(left: Node) returns (r: Result<Node>)
      requires InRange()
      modifies this`pos
      ensures Went(r, AfterOperand(left, old(Left()))) && (r.Ok? ==> old(pos) <= pos)
      decreases |tokens| - pos, 2
    {
      hide ParseOperand, ParseFunction, AfterIn, AfterBetween;
      var call := Peek("(");
      if call && left.Operand? {
        r := ParseFunctionCall(left.raw);
        return;
      }
      var matched := Match("BETWEEN");
      if matched {
        r := ParseAfterBetween(left);
        return;
      }
      matched := Match("IN");
      if matched {
        r := ParseAfterIn(left);
        return;
      }
      matched := Peek("op");
      if matched {
        var op := tokens[pos].text;
        assert tokens[pos..][1..] == tokens[pos + 1..];
        pos := pos + 1;
        var right := ParseOneOperand();
        return if right.Err? then Err else Ok(Compare(op, left, right.value));
      }
      return Ok(left);
    }

    method ParseAfterIn(left: Node) returns (r: Result<Node>)
      requires InRange()
      modifies this`pos
      ensures Went(r, AfterIn(left, old(Left()))) && (r.Ok? ==> old(pos) <= pos)
      decreases |tokens| - pos, 2
    {
      hide Operands;
      var open := Match("(");
      if !open {
        return Err;
      }
      var values := ParseOperands();
      return if values.Err? then Err else Ok(In(left, values.value));
    }

    method ParseAfterBetween(left: Node) returns (r: Result<Node>)
      requires InRange()
      modifies this`pos
      ensures Went(r, AfterBetween(left, old(Left()))) && (r.Ok? ==> old(pos) <= pos)
      decreases |tokens| - pos, 2
    {
      hide ParseOperand;
      var low := ParseOneOperand();
      if low.Err? {
        return Err;
      }
      var and := Match("AND");
      if !and {
        return Err;
      }
      var high := ParseOneOperand();
      return if high.Err? then Err else Ok(Between(left, low.value, high.value));
    }

    method ParseFunctionCall(name: string) returns (r: Result<Node>)
      requires InRange()
      modifies this`pos
      ensures Went(r, ParseFunction(name, old(Left()))) && (r.Ok? ==> old(pos) < pos && r.value.Function?)
      decreases |tokens| - pos, 1
    {
      hide Operands;
      var open := Match("(");
      if !open {
        return Err;
      }
      var closed := Match(")");
      if closed {
        return Ok(Function(name, []));
      }
      var args := ParseOperands();
      return if args.Err? then Err else Ok(Function(name, args.value));
    }

    /** The loop over operands and commas shared by function calls and IN. */
    method ParseOperands() returns (r: Result<seq<Node>>)
      requires InRange()
      modifies this`pos
      ensures Went(r, Operands(old(Left()), [])) && (r.Ok? ==> old(pos) < pos)
      decreases |tokens| - pos, 1
    {
      hide ParseOperand;
      var args: seq<Node> := [];
      while true
        invariant InRange() && old(pos) <= pos
        invariant Operands(Left(), args) == Operands(old(Left()), [])
        decreases |tokens| - pos
      {
        var arg := ParseOneOperand();
        if arg.Err? {
          return Err;
        }
        args := args + [arg.value];
        var closed := Match(")");
        if closed {
          return Ok(args);
        }
        var comma := Match(",");
        if !comma {
          return Err;
        }
      }
    }

    method ParseOneOperand() returns (r: Result<Node>)
      requires InRange()
      modifies this`pos
      ensures Went(r, ParseOperand(old(Left()))) && (r.Ok? ==> old(pos) < pos)
      decreases |tokens| - pos, 0
    {
      hide IsSize;
      if pos >= |tokens| {
        return Err;
      }
      var tok := tokens[pos];
      assert tokens[pos..][1..] == tokens[pos + 1..];
      pos := pos + 1;
      if tok.kind != "word" {
        return Err;
      }
      if IsSize(tok.text) {
        var call := Peek("(");
        if call {
          var fn := ParseFunctionCall(tok.text);
          if fn.Err? || |fn.value.args| != 1 {
            return Err;
          }
          return Ok(Size(fn.value.args[0]));
        }
      }
      return Ok(Operand(tok.text));
    }
  }
}
