/**
 The HCAN data query language: words in reverse Polish notation are compiled to 32-bit codes, and a
 stack machine runs the codes over one logged frame.
 */
module Query {
  import opened Seqs

  /** Size of m_code in words; `match` compares a byte-like counter with the same constant. */
  const CODE_SIZE := 128
  const STACK_SIZE := 16
  /** `atol` saturates here (32-bit long). */
  const LONG_MAX := 0x7fff_ffff

  datatype Frame = Frame(src: bv32, dst: bv32, proto: bv32, size: bv32, data: seq<bv32>)

  predicate ValidFrame(f: Frame) { |f.data| == 8 }

  datatype Operand = Int(n: bv32) | Src | Dst | Proto | Size | Data(i: nat)

  datatype Op = Equal | NotEqual | BitAnd | And | BitOr | Or

  datatype Token = Push(operand: Operand) | Not | Binary(op: Op)

  /** Operands as the compiler can produce them: 24-bit constants and data bytes 0 to 7. */
  predicate ValidToken(t: Token) {
    t.Push? ==> match t.operand
                case Int(n) => n & 0xff00_0000 == 0
                case Data(i) => i < 8
                case _ => true
  }

  // ---------------------------------------------------------------- words

  predicate AllDigits(w: string) {
    forall i :: 0 <= i < |w| ==> '0' <= w[i] <= '9'
  }

  /** Matches ^[0-9]+ as a whole. */
  predicate IsNumber(w: string) {
    w != "" && AllDigits(w)
  }

  function Decimal(w: string): nat
    requires AllDigits(w)
  {
    if w == "" then 0 else Decimal(w[..|w| - 1]) * 10 + (w[|w| - 1] - '0') as nat
  }

  function Atol(w: string): nat
    requires IsNumber(w)
  {
    if Decimal(w) > LONG_MAX then LONG_MAX else Decimal(w)
  }

  datatype Lookup = Found(token: Token) | Unknown

  /** The token of a word; words without one are passed over. */
  function TokenOf(w: string): (t: Lookup)
    ensures t.Found? ==> ValidToken(t.token)
  {
    if IsNumber(w) then Found(Push(Int((Atol(w) as bv32) & 0x00ff_ffff)))
    else if w == "src" then Found(Push(Src))
    else if w == "dst" then Found(Push(Dst))
    else if w == "proto" then Found(Push(Proto))
    else if w == "size" then Found(Push(Size))
    else if w == "d0" then Found(Push(Data(0)))
    else if w == "d1" then Found(Push(Data(1)))
    else if w == "d2" then Found(Push(Data(2)))
    else if w == "d3" then Found(Push(Data(3)))
    else if w == "d4" then Found(Push(Data(4)))
    else if w == "d5" then Found(Push(Data(5)))
    else if w == "d6" then Found(Push(Data(6)))
    else if w == "d7" then Found(Push(Data(7)))
    else if w == "=" then Found(Binary(Equal))
    else if w == "!=" then Found(Binary(NotEqual))
    else if w == "!" then Found(Not)
    else if w == "&" then Found(Binary(BitAnd))
    else if w == "&&" then Found(Binary(And))
    else if w == "|" then Found(Binary(BitOr))
    else if w == "||" then Found(Binary(Or))
    else Unknown
  }

  function Tokens(ws: seq<string>): (ts: seq<Token>)
    ensures forall t <- ts :: ValidToken(t)
  {
    if ws == [] then []
    else match TokenOf(ws[0])
         case Found(t) => [t] + Tokens(ws[1..])
         case Unknown => Tokens(ws[1..])
  }

  // ---------------------------------------------------------------- codes

  function OperandCode(o: Operand): bv32 {
    match o
    case Int(n) => 0x0100_0000 | n
    case Src => 0x1000_0000
    case Dst => 0x1100_0000
    case Proto => 0x1200_0000
    case Size => 0x1300_0000
    case Data(i) =>
      if i == 0 then 0x1400_0000 else if i == 1 then 0x1500_0000 else if i == 2 then 0x1600_0000
      else if i == 3 then 0x1700_0000 else if i == 4 then 0x1800_0000 else if i == 5 then 0x1900_0000
      else if i == 6 then 0x2000_0000 else 0x2100_0000
  }

  function Code(t: Token): bv32 {
    match t
    case Push(o) => OperandCode(o)
    case Binary(Equal) => 0x8000_0000
    case Binary(BitAnd) => 0x8100_0000
    case Binary(And) => 0x8200_0000
    case Binary(BitOr) => 0x8300_0000
    case Binary(Or) => 0x8400_0000
    case Binary(NotEqual) => 0x8500_0000
    case Not => 0x8600_0000
  }

  /** What the machine does with a code word. */
  datatype Instruction = Do(token: Token) | Stop | Illegal

  /** The switch over the opcode byte. */
  function Decode(code: bv32): Instruction {
    var opcode := code & 0xff00_0000;
    if opcode == 0 then Stop
    else if opcode == 0x0100_0000 then Do(Push(Int(code & 0x00ff_ffff)))
    else if opcode == 0x1000_0000 then Do(Push(Src))
    else if opcode == 0x1100_0000 then Do(Push(Dst))
    else if opcode == 0x1200_0000 then Do(Push(Proto))
    else if opcode == 0x1300_0000 then Do(Push(Size))
    else if opcode == 0x1400_0000 then Do(Push(Data(0)))
    else if opcode == 0x1500_0000 then Do(Push(Data(1)))
    else if opcode == 0x1600_0000 then Do(Push(Data(2)))
    else if opcode == 0x1700_0000 then Do(Push(Data(3)))
    else if opcode == 0x1800_0000 then Do(Push(Data(4)))
    else if opcode == 0x1900_0000 then Do(Push(Data(5)))
    else if opcode == 0x2000_0000 then Do(Push(Data(6)))
    else if opcode == 0x2100_0000 then Do(Push(Data(7)))
    else if opcode == 0x8000_0000 then Do(Binary(Equal))
    else if opcode == 0x8500_0000 then Do(Binary(NotEqual))
    else if opcode == 0x8600_0000 then Do(Not)
    else if opcode == 0x8100_0000 then Do(Binary(BitAnd))
    else if opcode == 0x8200_0000 then Do(Binary(And))
    else if opcode == 0x8300_0000 then Do(Binary(BitOr))
    else if opcode == 0x8400_0000 then Do(Binary(Or))
    else Illegal
  }

  lemma IntCode(n: bv32)
    requires n & 0xff00_0000 == 0
    ensures (0x0100_0000 | n) & 0xff00_0000 == 0x0100_0000
    ensures (0x0100_0000 | n) & 0x00ff_ffff == n
  {
  }

  /** Compiled codes are read back as the tokens they stand for. */
  lemma DecodeCode(t: Token)
    requires ValidToken(t)
    ensures Decode(Code(t)) == Do(t)
  {
    match t
    case Push(Int(n)) => IntCode(n);
    case Push(Data(i)) => DecodeData(i);
    case _ =>
  }

  lemma DecodeData(i: nat)
    requires i < 8
    ensures Decode(OperandCode(Data(i))) == Do(Push(Data(i)))
  {
  }

  // ---------------------------------------------------------------- meaning

  datatype Expr = Leaf(operand: Operand) | Negate(e: Expr) | Apply(op: Op, l: Expr, r: Expr)

  function Value(o: Operand, f: Frame): bv32
    requires ValidFrame(f)
  {
    match o
    case Int(n) => n
    case Src => f.src
    case Dst => f.dst
    case Proto => f.proto
    case Size => f.size
    case Data(i) => if i < 8 then f.data[i] else 0
  }

  function Truth(b: bool): bv32 { if b then 1 else 0 }

  /** An operator on its two operands; d1 was on top of the stack. */
  function Operate(op: Op, d1: bv32, d2: bv32): bv32 {
    match op
    case Equal => Truth(d1 == d2)
    case NotEqual => Truth(d1 != d2)
    case BitAnd => d1 & d2
    case And => Truth(d1 != 0 && d2 != 0)
    case BitOr => d1 | d2
    case Or => Truth(d1 != 0 || d2 != 0)
  }

  function Eval(e: Expr, f: Frame): bv32
    requires ValidFrame(f)
  {
    match e
    case Leaf(o) => Value(o, f)
    case Negate(x) => Truth(Eval(x, f) == 0)
    case Apply(op, l, r) => Operate(op, Eval(r, f), Eval(l, f))
  }

  /** The words of an expression in reverse Polish order. */
  function Postfix(e: Expr): seq<Token> {
    match e
    case Leaf(o) => [Push(o)]
    case Negate(x) => Postfix(x) + [Token.Not]
    case Apply(op, l, r) => Postfix(l) + (Postfix(r) + [Binary(op)])
  }

  // ---------------------------------------------------------------- stack discipline

  /** The token finds its operands and room for its result on a stack of height n. */
  predicate Steps(t: Token, n: int) {
    match t case Push(_) => 0 <= n && n + 1 < STACK_SIZE case Not => n >= 1 case Binary(_) => n >= 2
  }

  /** The height after the token. */
  function Level(t: Token, n: int): int {
    match t case Push(_) => n + 1 case Not => n case Binary(_) => n - 1
  }

  /** The tokens run from height n without overflow or underrun. */
  predicate Runs(ts: seq<Token>, n: int)
    decreases |ts|
  {
    ts == [] || (Steps(ts[0], n) && Runs(ts[1..], Level(ts[0], n)))
  }

  /** The height after the tokens, as far as counting goes. */
  function Height(ts: seq<Token>, n: int): int
    decreases |ts|
  {
    if ts == [] then n else Height(ts[1..], Level(ts[0], n))
  }

  /** No prefix of the tokens needs more than 15 stack slots. */
  predicate Shallow(ts: seq<Token>, n: int)
    decreases |ts|
  {
    ts == [] || ((ts[0].Push? ==> n + 1 < STACK_SIZE) && Shallow(ts[1..], Level(ts[0], n)))
  }

  /** One step of the machine on values. */
  function Act(t: Token, f: Frame, s: seq<bv32>): (r: seq<bv32>)
    requires ValidFrame(f) && Steps(t, |s|)
    ensures |r| == Level(t, |s|)
  {
    var n := |s|;
    match t
    case Push(o) => s + [Value(o, f)]
    case Not => s[..n - 1] + [Truth(s[n - 1] == 0)]
    case Binary(op) => s[..n - 2] + [Operate(op, s[n - 1], s[n - 2])]
  }

  /** The machine on values: the stack after the tokens. */
  function Exec(ts: seq<Token>, f: Frame, s: seq<bv32>): seq<bv32>
    requires ValidFrame(f) && Runs(ts, |s|)
    decreases |ts|
  {
    if ts == [] then s else Exec(ts[1..], f, Act(ts[0], f, s))
  }

  /** The same step on expressions: it builds the tree behind the value. */
  function Grow(t: Token, es: seq<Expr>): (r: seq<Expr>)
    requires Steps(t, |es|)
    ensures |r| == Level(t, |es|)
  {
    var n := |es|;
    match t
    case Push(o) => es + [Leaf(o)]
    case Not => es[..n - 1] + [Negate(es[n - 1])]
    case Binary(op) => es[..n - 2] + [Apply(op, es[n - 2], es[n - 1])]
  }

  function Build(ts: seq<Token>, es: seq<Expr>): seq<Expr>
    requires Runs(ts, |es|)
    decreases |ts|
  {
    if ts == [] then es else Build(ts[1..], Grow(ts[0], es))
  }

  function Evals(es: seq<Expr>, f: Frame): (vs: seq<bv32>)
    requires ValidFrame(f)
    ensures |vs| == |es|
  {
    seq(|es|, i requires 0 <= i < |es| => Eval(es[i], f))
  }

  function Postfixes(es: seq<Expr>): seq<Token> {
    if es == [] then [] else Postfixes(es[..|es| - 1]) + Postfix(es[|es| - 1])
  }

  // ---------------------------------------------------------------- running tokens is evaluating trees

  lemma {:induction false} RunsShallow(ts: seq<Token>, n: int)
    requires Runs(ts, n)
    ensures Shallow(ts, n)
    decreases |ts|
  {
    if ts != [] {
      RunsShallow(ts[1..], Level(ts[0], n));
    }
  }

  lemma ActEvaluates(t: Token, f: Frame, es: seq<Expr>)
    requires ValidFrame(f) && Steps(t, |es|)
    ensures Act(t, f, Evals(es, f)) == Evals(Grow(t, es), f)
  {
    hide Operate, Value, Truth;
  }

  /** Values on the stack are the values of the trees the tokens build. */
  lemma {:induction false} ExecEvaluates(ts: seq<Token>, f: Frame, es: seq<Expr>)
    requires ValidFrame(f) && Runs(ts, |es|)
    ensures Exec(ts, f, Evals(es, f)) == Evals(Build(ts, es), f)
    decreases |ts|
  {
    hide Act, Grow, Evals;
    if ts != [] {
      ExecEvaluates(ts[1..], f, Grow(ts[0], es));
      ActEvaluates(ts[0], f, es);
    }
  }

  lemma PostfixesPush(es: seq<Expr>, e: Expr)
    ensures Postfixes(es + [e]) == Postfixes(es) + Postfix(e)
  {
    assert (es + [e])[..|es|] == es;
  }

  lemma {:induction false} GrowReadsBack(t: Token, es: seq<Expr>)
    requires Steps(t, |es|)
    ensures Postfixes(Grow(t, es)) == Postfixes(es) + [t]
  {
    hide Postfixes, Postfix;
    var n := |es|;
    match t
    case Push(o) =>
      PostfixesLeaf(es, o);
    case Not =>
      var a, x := es[..n - 1], es[n - 1];
      assert es == a + [x];
      GrowNot(a, x);
    case Binary(op) =>
      var a, x, y := es[..n - 2], es[n - 2], es[n - 1];
      assert es == (a + [x]) + [y];
      GrowBinary(op, a, x, y);
  }

  lemma PostfixesLeaf(es: seq<Expr>, o: Operand)
    ensures Postfixes(es + [Leaf(o)]) == Postfixes(es) + [Push(o)]
  {
    PostfixesPush(es, Leaf(o));
  }

  lemma GrowNot(a: seq<Expr>, x: Expr)
    ensures Postfixes(a + [Negate(x)]) == Postfixes(a + [x]) + [Token.Not]
  {
    hide Postfixes;
    PostfixesPush(a, x);
    PostfixesPush(a, Negate(x));
    Assoc(Postfixes(a), Postfix(x), [Token.Not]);
  }

  lemma GrowBinary(op: Op, a: seq<Expr>, x: Expr, y: Expr)
    ensures Postfixes(a + [Apply(op, x, y)]) == Postfixes((a + [x]) + [y]) + [Binary(op)]
  {
    hide Postfixes;
    PostfixesPush(a, x);
    PostfixesPush(a + [x], y);
    PostfixesPush(a, Apply(op, x, y));
    Assoc(Postfixes(a), Postfix(x), Postfix(y) + [Binary(op)]);
    Assoc(Postfixes(a) + Postfix(x), Postfix(y), [Binary(op)]);
  }

  /** The trees built read back as the tokens consumed: nothing is lost or reordered. */
  lemma {:induction false} BuildReadsBack(ts: seq<Token>, es: seq<Expr>)
    requires Runs(ts, |es|)
    ensures Postfixes(Build(ts, es)) == Postfixes(es) + ts
    ensures |Build(ts, es)| == Height(ts, |es|)
    decreases |ts|
  {
    hide Postfixes, Grow;
    if ts != [] {
      BuildReadsBack(ts[1..], Grow(ts[0], es));
      GrowReadsBack(ts[0], es);
      Assoc(Postfixes(es), [ts[0]], ts[1..]);
      assert ts == [ts[0]] + ts[1..];
    }
  }

  /** The tokens of an expression, run from any height, end one higher and never underrun. */
  lemma {:induction false} PostfixRuns(e: Expr, rest: seq<Token>, n: nat)
    requires Shallow(Postfix(e) + rest, n)
    ensures Shallow(rest, n + 1)
    ensures Runs(rest, n + 1) ==> Runs(Postfix(e) + rest, n)
    decreases e
  {
    match e
    case Leaf(o) =>
      assert (Postfix(e) + rest)[1..] == rest;
    case Negate(x) =>
      Assoc(Postfix(x), [Token.Not], rest);
      PostfixRuns(x, [Token.Not] + rest, n);
      assert ([Token.Not] + rest)[1..] == rest;
    case Apply(op, l, r) =>
      var tail := [Binary(op)] + rest;
      Assoc(Postfix(r), [Binary(op)], rest);
      Assoc(Postfix(l), Postfix(r) + [Binary(op)], rest);
      PostfixRuns(l, Postfix(r) + tail, n);
      PostfixRuns(r, tail, n + 1);
      assert tail[1..] == rest;
  }

  lemma {:induction false} PostfixHeight(e: Expr, rest: seq<Token>, n: int)
    ensures Height(Postfix(e) + rest, n) == Height(rest, n + 1)
    decreases e
  {
    match e
    case Leaf(o) =>
      assert (Postfix(e) + rest)[1..] == rest;
    case Negate(x) =>
      Assoc(Postfix(x), [Token.Not], rest);
      PostfixHeight(x, [Token.Not] + rest, n);
      assert ([Token.Not] + rest)[1..] == rest;
    case Apply(op, l, r) =>
      var tail := [Binary(op)] + rest;
      Assoc(Postfix(r), [Binary(op)], rest);
      Assoc(Postfix(l), Postfix(r) + [Binary(op)], rest);
      PostfixHeight(l, Postfix(r) + tail, n);
      PostfixHeight(r, tail, n + 1);
      assert tail[1..] == rest;
  }

  lemma BuildOne(t: Token, rest: seq<Token>, es: seq<Expr>)
    requires Steps(t, |es|) && Runs(rest, Level(t, |es|))
    ensures Runs([t] + rest, |es|) && Build([t] + rest, es) == Build(rest, Grow(t, es))
  {
    assert ([t] + rest)[1..] == rest;
  }

  /** Building from the tokens of an expression gives back that expression: postfix is unambiguous. */
  lemma {:induction false} BuildPostfix(e: Expr, rest: seq<Token>, es: seq<Expr>)
    requires Shallow(Postfix(e) + rest, |es|) && Runs(rest, |es| + 1)
    ensures Runs(Postfix(e) + rest, |es|) && Build(Postfix(e) + rest, es) == Build(rest, es + [e])
    decreases e
  {
    hide Build, Runs, Shallow;
    PostfixRuns(e, rest, |es|);
    match e
    case Leaf(o) =>
      ShallowPush(o, rest, |es|);
      BuildOne(Push(o), rest, es);
    case Negate(x) =>
      Assoc(Postfix(x), [Token.Not], rest);
      BuildOne(Token.Not, rest, es + [x]);
      BuildPostfix(x, [Token.Not] + rest, es);
      assert Grow(Token.Not, es + [x]) == es + [e];
    case Apply(op, l, r) =>
      var tail := [Binary(op)] + rest;
      Assoc(Postfix(r), [Binary(op)], rest);
      Assoc(Postfix(l), Postfix(r) + [Binary(op)], rest);
      BuildOne(Binary(op), rest, es + [l] + [r]);
      PostfixRuns(l, Postfix(r) + tail, |es|);
      BuildPostfix(r, tail, es + [l]);
      BuildPostfix(l, Postfix(r) + tail, es);
      assert Grow(Binary(op), es + [l] + [r]) == es + [e];
  }

  lemma ShallowPush(o: Operand, rest: seq<Token>, n: nat)
    requires Shallow([Push(o)] + rest, n)
    ensures Steps(Push(o), n)
  {
  }

  /** What `match` needs of a query: few enough tokens, a legal stack all along, one value at the end. */
  predicate Accepted(ts: seq<Token>) {
    |ts| < CODE_SIZE / 4 && Runs(ts, 0) && Height(ts, 0) == 1
  }

  /** Some expression has these tokens. */
  ghost predicate IsPostfix(ts: seq<Token>) {
    exists e :: Postfix(e) == ts
  }

  /**
   A query is accepted exactly when it has at most 31 tokens, is the postfix form of one expression and
   needs at most 15 stack slots. The expression is unique, and the machine computes its value.
   */
  lemma AcceptedIsPostfix(ts: seq<Token>)
    ensures Accepted(ts) <==> |ts| <= 31 && IsPostfix(ts) && Shallow(ts, 0)
  {
    if Accepted(ts) {
      RunsShallow(ts, 0);
      BuildReadsBack(ts, []);
      var e := Build(ts, [])[0];
      PostfixesPush([], e);
      assert Build(ts, []) == [] + [e] && Postfixes([]) == [];
      assert Postfix(e) == [] + Postfix(e) == [] + ts == ts;
    }
    if IsPostfix(ts) && Shallow(ts, 0) {
      var e :| Postfix(e) == ts;
      assert Postfix(e) + [] == ts;
      PostfixRuns(e, [], 0);
      PostfixHeight(e, [], 0);
    }
  }

  lemma AcceptedValue(e: Expr, f: Frame)
    requires ValidFrame(f) && Accepted(Postfix(e))
    ensures Exec(Postfix(e), f, []) == [Eval(e, f)]
  {
    var ts := Postfix(e);
    assert ts + [] == ts;
    RunsShallow(ts, 0);
    BuildPostfix(e, [], []);
    ExecEvaluates(ts, f, []);
    assert Evals([], f) == [];
    assert [] + [e] == [e];
  }

  lemma PostfixUnique(e: Expr, e': Expr)
    requires Postfix(e) == Postfix(e') && Accepted(Postfix(e))
    ensures e == e'
  {
    var ts := Postfix(e);
    assert ts + [] == ts;
    RunsShallow(ts, 0);
    BuildPostfix(e, [], []);
    BuildPostfix(e', [], []);
    assert [] + [e] == [e] && [] + [e'] == [e'];
  }

  // ---------------------------------------------------------------- compiler and machine

  class DataQuery {
    const code: array<bv32>
    const stack: array<bv32>
    var sp: int
    /** The tokens compiled into `code`. */
    ghost var tokens: seq<Token>

    ghost predicate Sized() {
      code != stack && code.Length == CODE_SIZE && stack.Length == STACK_SIZE
    }

    /** The code words are the tokens, closed by a zero word. */
    ghost predicate Compiled()
      reads this, code
    {
      && Sized() && |tokens| < CODE_SIZE - 1 && code[|tokens|] == 0
      && (forall t <- tokens :: ValidToken(t))
      && forall k :: 0 <= k < |tokens| ==> code[k] == Code(tokens[k])
    }

    /** The values on the stack; slot 0 is never used. */
    ghost function Stack(): seq<bv32>
      requires Sized() && 0 <= sp < STACK_SIZE
      reads this, stack
    {
      stack[1..sp + 1]
    }

    constructor ()
      ensures Sized() && sp == 0 && fresh(code) && fresh(stack)
    {
      code := new bv32[CODE_SIZE];
      stack := new bv32[STACK_SIZE];
      sp, tokens := 0, [];
    }

    /** `compile_query` on the words of the query; fails when there are more than 126 tokens. */
    method Compile(ws: seq<string>) returns (ok: bool)
      requires Sized()
      modifies this`tokens, code
      ensures Sized() && ok == (|Tokens(ws)| <= CODE_SIZE - 2)
      ensures ok ==> Compiled() && tokens == Tokens(ws)
    {
      hide TokenOf, Code;
      tokens := [];
      var c, n := 0, 0;
      for i := 0 to |ws|
        invariant n == |tokens| && c == 4 * n && n < CODE_SIZE
        invariant Tokens(ws) == tokens + Tokens(ws[i..])
        invariant forall t <- tokens :: ValidToken(t)
        invariant forall k :: 0 <= k < n ==> code[k] == Code(tokens[k])
      {
        assert ws[i..][1..] == ws[i + 1..];
        if c >= 4 * CODE_SIZE - 4 { return false; }
        match TokenOf(ws[i]) {
          case Found(t) =>
            code[n] := Code(t);
            Assoc(tokens, [t], Tokens(ws[i + 1..]));
            tokens := tokens + [t];
            n, c := n + 1, c + 4;
          case Unknown =>
        }
      }
      if c >= 4 * CODE_SIZE - 4 { return false; }
      code[n] := 0;
      return true;
    }

    /** `push`; storing beyond the last slot is undefined in the original and left out here. */
    method Push(d: bv32) returns (ok: bool)
      requires Sized() && 0 <= sp < STACK_SIZE
      modifies this`sp, stack
      ensures sp == old(sp) + 1 && ok == (sp < STACK_SIZE)
      ensures ok ==> Stack() == old(Stack()) + [d]
    {
      sp := sp + 1;
      if sp > STACK_SIZE - 1 { return false; }
      stack[sp] := d;
      return true;
    }

    /** `pop`; on an empty stack slot 0 is read and the call fails. */
    method Pop() returns (ok: bool, d: bv32)
      requires Sized() && 0 <= sp < STACK_SIZE
      modifies this`sp
      ensures sp == old(sp) - 1 && ok == (sp >= 0)
      ensures ok ==> Stack() == old(Stack())[..sp] && d == old(Stack())[sp]
    {
      d := stack[sp];
      sp := sp - 1;
      return sp >= 0, d;
    }

    /** One operator or operand; fails on stack overflow or underrun. */
    method Execute(t: Token, f: Frame) returns (ok: bool)
      requires Sized() && 0 <= sp < STACK_SIZE && ValidFrame(f)
      modifies this`sp, stack
      ensures ok == Steps(t, old(sp))
      ensures ok ==> 0 <= sp < STACK_SIZE && Stack() == Act(t, f, old(Stack()))
    {
      hide Operate, Value, Truth;
      match t {
        case Push(o) =>
          ok := Push(Value(o, f));
        case Not =>
          var d1;
          ok, d1 := Pop();
          if !ok { return; }
          ok := Push(Truth(d1 == 0));
        case Binary(op) =>
          var d1, d2;
          ok, d1 := Pop();
          if !ok { return; }
          ok, d2 := Pop();
          if !ok { return; }
          ok := Push(Operate(op, d1, d2));
      }
    }

    /**
     `match` on the stack it finds: it returns normally exactly when the tokens run from that height and leave
     one value. Started with an empty stack these are the accepted queries, whatever the frame, with the truth
     of the expression as result. A match that fails otherwise than by overflow or underrun leaves its values
     on the stack.
     */
    method Match(f: Frame) returns (ok: bool, result: bool)
      requires Compiled() && 0 <= sp < STACK_SIZE && ValidFrame(f)
      modifies this`sp, stack
      ensures Compiled() && tokens == old(tokens)
      ensures ok == Returns(tokens, old(sp))
      ensures ok ==> result == (Exec(tokens, f, old(Stack())) != [0])
      ensures ok && old(sp) == 0 ==> forall e :: Postfix(e) == tokens ==> result == (Eval(e, f) != 0)
      ensures Pointer(tokens, old(sp)) >= 0 ==> sp == Pointer(tokens, old(sp)) < STACK_SIZE
      ensures !ok && Pointer(tokens, old(sp)) >= 0 ==> Stack() == Exec(Executed(tokens), f, old(Stack()))
    {
      hide Code, Decode, Act, Runs, Height, Exec, Eval, Postfix;
      ghost var n, s, ts := sp, Stack(), Executed(tokens);
      assert ts[0..] == ts;
      var c, k := 0, 0;
      result := false;
      while c < CODE_SIZE
        invariant c == 4 * k && k <= |ts| && 0 <= sp < STACK_SIZE && Compiled() && tokens == old(tokens)
        invariant Runs(ts, n) == Runs(ts[k..], sp)
        invariant Runs(ts, n) ==> Exec(ts, f, s) == Exec(ts[k..], f, Stack())
        invariant Height(ts, n) == Height(ts[k..], sp)
        decreases CODE_SIZE - c
      {
        StopCode();
        if k < |ts| {
          DecodeCode(ts[k]);
          StepTokens(ts, k, f, Stack());
        }
        match Decode(code[k]) {
          case Stop =>
            assert ts == tokens && ts[k..] == [];
            EmptyTokens(f, Stack());
            if sp != 1 { return false, false; }
            var d;
            ghost var left := Stack();
            ok, d := Pop();
            assert left == [d];
            if n == 0 { ResultMeans(tokens, f, d); }
            return true, d != 0;
          case Do(t) =>
            var fine := Execute(t, f);
            if !fine { return false, false; }
          case Illegal =>
            return false, false;
        }
        c, k := c + 4, k + 1;
      }
      assert ts[k..] == [];
      EmptyTokens(f, Stack());
      return false, false;
    }
  }

  // ---------------------------------------------------------------- one query, many frames

  /** The tokens `match` gets to before it gives up. */
  function Executed(ts: seq<Token>): seq<Token> {
    if |ts| < CODE_SIZE / 4 then ts else ts[..CODE_SIZE / 4]
  }

  /** A match from stack pointer n returns normally. */
  predicate Returns(ts: seq<Token>, n: int) {
    n >= 0 && |ts| < CODE_SIZE / 4 && Runs(ts, n) && Height(ts, n) == 1
  }

  /** The stack pointer after a match from n, or -1 when it ends in an overflow or underrun. */
  function Pointer(ts: seq<Token>, n: int): int {
    if n < 0 || !Runs(Executed(ts), n) then -1
    else if Returns(ts, n) then 0
    else Height(Executed(ts), n)
  }

  /** The stack pointer before the match with index k. */
  function PointerAt(ts: seq<Token>, k: nat): int {
    if k == 0 then 0 else Pointer(ts, PointerAt(ts, k - 1))
  }

  /** Counting does not depend on where it starts. */
  lemma {:induction false} HeightShift(ts: seq<Token>, n: int)
    ensures Height(ts, n) == n + Height(ts, 0)
    decreases |ts|
  {
    if ts != [] {
      HeightShift(ts[1..], Level(ts[0], n));
      HeightShift(ts[1..], Level(ts[0], 0));
    }
  }

  /** Tokens that run from the empty stack leave something behind. */
  lemma {:induction false} HeightPositive(ts: seq<Token>, n: nat)
    requires Runs(ts, n)
    ensures Height(ts, n) >= 0 && (ts != [] ==> Height(ts, n) >= 1)
    decreases |ts|
  {
    if ts != [] {
      HeightPositive(ts[1..], Level(ts[0], n));
    }
  }

  /** For a query that is not accepted, the pointer never gets to where a match would return. */
  lemma {:induction false} PointerStays(ts: seq<Token>, k: nat)
    ensures var n := PointerAt(ts, k);
            if Accepted(ts) then n == 0
            else n < 0 || n == 0 || (Runs(Executed(ts), 0) && n >= Height(Executed(ts), 0))
  {
    hide Runs, Height;
    if k > 0 {
      PointerStays(ts, k - 1);
      HeightShift(Executed(ts), PointerAt(ts, k - 1));
    }
  }

  /**
   In every session of a query, one match after the other, each match returns normally if the query is accepted,
   and none does if it is not: values left on the stack never make a later match succeed.
   */
  lemma SessionReturns(ts: seq<Token>, k: nat)
    ensures Returns(ts, PointerAt(ts, k)) <==> Accepted(ts)
  {
    hide Runs, Height;
    var n := PointerAt(ts, k);
    PointerStays(ts, k);
    if !Accepted(ts) && Returns(ts, n) && n > 0 {
      HeightShift(ts, n);
      HeightPositive(ts, 0);
      assert false;
    }
  }

  /** The frames for which the expression is true. */
  function Hits(e: Expr, fs: seq<Frame>): seq<Frame>
    requires forall f <- fs :: ValidFrame(f)
  {
    if fs == [] then [] else (if Eval(e, fs[0]) != 0 then [fs[0]] else []) + Hits(e, fs[1..])
  }

  lemma {:induction false} HitsConcat(e: Expr, a: seq<Frame>, b: seq<Frame>)
    requires (forall f <- a :: ValidFrame(f)) && forall f <- b :: ValidFrame(f)
    ensures forall f <- a + b :: ValidFrame(f)
    ensures Hits(e, a + b) == Hits(e, a) + Hits(e, b)
  {
    hide Eval, ValidFrame;
    if a == [] {
      assert a + b == b;
    } else {
      HitsConcat(e, a[1..], b);
      assert (a + b)[1..] == a[1..] + b;
      Assoc(if Eval(e, a[0]) != 0 then [a[0]] else [], Hits(e, a[1..]), Hits(e, b));
    }
  }

  lemma HitsSnoc(e: Expr, fs: seq<Frame>, i: nat)
    requires i < |fs| && forall f <- fs :: ValidFrame(f)
    ensures Hits(e, fs[..i + 1]) == Hits(e, fs[..i]) + if Eval(e, fs[i]) != 0 then [fs[i]] else []
    ensures Hits(e, fs[i..]) == (if Eval(e, fs[i]) != 0 then [fs[i]] else []) + Hits(e, fs[i + 1..])
  {
    hide Eval, ValidFrame;
    assert fs[..i + 1] == fs[..i] + [fs[i]] && [fs[i]][1..] == [];
    HitsConcat(e, fs[..i], [fs[i]]);
    assert fs[i..][1..] == fs[i + 1..];
  }

  lemma AcceptedReturns(ts: seq<Token>)
    ensures Returns(ts, 0) <==> Accepted(ts)
    ensures Accepted(ts) ==> Pointer(ts, 0) == 0
  {
  }

  /** All of a list, or its last elements only. */
  function LastOf<T>(s: seq<T>, last: int): seq<T> {
    if last == 0 || last >= |s| then s else if last < 0 then [] else s[|s| - last..]
  }

  /** `query_file` without a limit: prints the frames that match, in file order. */
  method PrintAll(q: DataQuery, fs: seq<Frame>, ghost e: Expr) returns (ok: bool, printed: seq<Frame>)
    requires q.Compiled() && q.sp == 0 && forall f <- fs :: ValidFrame(f)
    modifies q`sp, q.stack
    ensures q.Compiled() && q.tokens == old(q.tokens)
    ensures ok == (fs == [] || Accepted(q.tokens)) && (!ok || fs == [] ==> printed == [])
    ensures ok && Postfix(e) == q.tokens ==> printed == Hits(e, fs)
  {
    hide ValidFrame, Returns, Pointer, Accepted, Postfix, Eval, Hits;
    AcceptedReturns(q.tokens);
    printed := [];
    NoHits(e);
    for i := 0 to |fs|
      invariant q.Compiled() && q.tokens == old(q.tokens) && q.sp == 0
      invariant if i == 0 then printed == [] else Accepted(q.tokens)
      invariant Postfix(e) == q.tokens ==> printed == Hits(e, fs[..i])
    {
      var fine, hit := q.Match(fs[i]);
      if !fine { return false, printed; }
      HitsSnoc(e, fs, i);
      if hit { printed := printed + [fs[i]]; }
    }
    assert fs[..|fs|] == fs;
    return true, printed;
  }

  lemma NoHits(e: Expr)
    ensures Hits(e, []) == []
  {
  }

  /** The hits behind index i are the last ones of all. */
  lemma LastHits(e: Expr, fs: seq<Frame>, i: nat, last: int)
    requires i <= |fs| && forall f <- fs :: ValidFrame(f)
    requires (i == 0 && |Hits(e, fs[i..])| <= last) || (0 < last == |Hits(e, fs[i..])|) || (i == |fs| && last < 0)
    ensures LastOf(Hits(e, fs), last) == Hits(e, fs[i..])
  {
    hide ValidFrame, Eval;
    assert fs == fs[..i] + fs[i..];
    HitsConcat(e, fs[..i], fs[i..]);
  }

  /** The backward search of `query_file`: stacks at most `last` hits. */
  method SearchBack(q: DataQuery, fs: seq<Frame>, last: int, ghost e: Expr) returns (ok: bool, stack: seq<Frame>)
    requires q.Compiled() && q.sp == 0 && last != 0 && forall f <- fs :: ValidFrame(f)
    modifies q`sp, q.stack
    ensures q.Compiled() && q.tokens == old(q.tokens)
    ensures ok == (fs == [] || last < 0 || Accepted(q.tokens)) && (!ok || fs == [] ==> stack == [])
    ensures ok && Postfix(e) == q.tokens ==> stack == LastOf(Hits(e, fs), last)
  {
    hide ValidFrame, Returns, Pointer, Accepted, Postfix, Eval, Hits, LastOf;
    AcceptedReturns(q.tokens);
    NoHits(e);
    var n, i := 0, |fs| - 1;
    stack := [];
    assert fs[|fs|..] == [];
    while i >= 0 && n < last
      invariant -1 <= i < |fs| && n == |stack| && (last > 0 ==> n <= last) && (last < 0 ==> i == |fs| - 1)
      invariant q.Compiled() && q.tokens == old(q.tokens) && q.sp == 0
      invariant if i < |fs| - 1 then Accepted(q.tokens) else n == 0
      invariant Postfix(e) == q.tokens ==> stack == Hits(e, fs[i + 1..])
    {
      var fine, hit := q.Match(fs[i]);
      if !fine { return false, []; }
      HitsSnoc(e, fs, i);
      if hit { stack, n := [fs[i]] + stack, n + 1; }
      i := i - 1;
    }
    if Postfix(e) == q.tokens { LastHits(e, fs, i + 1, last); }
    return true, stack;
  }

  /** `query_file` with a limit: searches from the end, then prints what it stacked. */
  method PrintLast(q: DataQuery, fs: seq<Frame>, last: int, ghost e: Expr) returns (ok: bool, printed: seq<Frame>)
    requires q.Compiled() && q.sp == 0 && last != 0 && forall f <- fs :: ValidFrame(f)
    modifies q`sp, q.stack
    ensures q.Compiled() && q.tokens == old(q.tokens)
    ensures ok == (fs == [] || last < 0 || Accepted(q.tokens)) && (!ok || fs == [] ==> printed == [])
    ensures ok && Postfix(e) == q.tokens ==> printed == LastOf(Hits(e, fs), last)
  {
    hide ValidFrame, Accepted, Postfix, Hits, LastOf;
    var stack;
    ok, stack := SearchBack(q, fs, last, e);
    printed := [];
    ghost var all := stack;
    while stack != []
      invariant printed + stack == all
      decreases |stack|
    {
      printed, stack := printed + [stack[0]], stack[1..];
    }
  }

  /**
   `query_file`: fails exactly when it gets to match a query that is not accepted; otherwise it prints, in file
   order, exactly the frames for which the expression is true, or the last ones of them.
   */
  method QueryFile(q: DataQuery, fs: seq<Frame>, last: int) returns (ok: bool, printed: seq<Frame>)
    requires q.Compiled() && q.sp == 0 && forall f <- fs :: ValidFrame(f)
    modifies q`sp, q.stack
    ensures q.Compiled() && q.tokens == old(q.tokens)
    ensures ok == (fs == [] || last < 0 || Accepted(q.tokens)) && (!ok || fs == [] ==> printed == [])
    ensures ok && Accepted(q.tokens) ==> IsPostfix(q.tokens)
    ensures ok ==> forall e :: Postfix(e) == q.tokens ==> printed == LastOf(Hits(e, fs), last)
  {
    hide ValidFrame, Accepted, Postfix, Eval, Hits;
    ghost var e := if IsPostfix(q.tokens) then SomeExpr(q.tokens) else Leaf(Src);
    if last != 0 {
      ok, printed := PrintLast(q, fs, last, e);
    } else {
      ok, printed := PrintAll(q, fs, e);
    }
    AcceptedIsPostfix(q.tokens);
    forall e' | ok && Postfix(e') == q.tokens ensures printed == LastOf(Hits(e', fs), last) {
      if Accepted(q.tokens) {
        PostfixUnique(e, e');
      } else {
        NoHits(e');
        NoHits(e);
      }
    }
  }

  ghost function SomeExpr(ts: seq<Token>): (e: Expr)
    requires IsPostfix(ts)
    ensures Postfix(e) == ts
  {
    var e :| Postfix(e) == ts;
    e
  }

  /** The value left by an accepted query is that of its expression. */
  lemma ResultMeans(ts: seq<Token>, f: Frame, d: bv32)
    requires ValidFrame(f) && Accepted(ts) && Exec(ts, f, []) == [d]
    ensures forall e :: Postfix(e) == ts ==> Eval(e, f) == d
  {
    forall e | Postfix(e) == ts ensures Eval(e, f) == d {
      AcceptedValue(e, f);
      assert [Eval(e, f)][0] == [d][0];
    }
  }

  lemma EmptyTokens(f: Frame, s: seq<bv32>)
    requires ValidFrame(f)
    ensures Runs([], |s|) && Height([], |s|) == |s| && Exec([], f, s) == s
  {
  }

  lemma StopCode()
    ensures Decode(0) == Stop
  {
  }

  /** Running one token and then the rest. */
  lemma StepTokens(ts: seq<Token>, k: nat, f: Frame, s: seq<bv32>)
    requires k < |ts| && ValidFrame(f)
    ensures Height(ts[k..], |s|) == Height(ts[k + 1..], Level(ts[k], |s|))
    ensures Runs(ts[k..], |s|) == (Steps(ts[k], |s|) && Runs(ts[k + 1..], Level(ts[k], |s|)))
    ensures Runs(ts[k..], |s|) ==> Exec(ts[k..], f, s) == Exec(ts[k + 1..], f, Act(ts[k], f, s))
  {
    assert ts[k..][1..] == ts[k + 1..];
  }
}
