/**
 The query language from its words to its answers: what each word means, stated without the compiler's and the
 machine's tables.
 */
module QueryLaws {
  import opened Seqs
  import opened Query

  datatype Yield = Fails | Value(v: bv32)

  /** The value a query of these words leaves for a frame. */
  function Yields(ws: seq<string>, f: Frame): Yield
    requires ValidFrame(f)
  {
    var ts := Tokens(ws);
    if !Accepted(ts) then Fails
    else
      var s := Exec(ts, f, []);
      if |s| == 1 then Value(s[0]) else Fails
  }

  /** Compiling the words and matching one frame. */
  method Ask(ws: seq<string>, f: Frame) returns (ok: bool, result: bool)
    requires ValidFrame(f)
    ensures ok == Yields(ws, f).Value?
    ensures ok ==> result == (Yields(ws, f).v != 0)
  {
    hide Accepted, Exec, Tokens, Returns, Pointer;
    var q := new DataQuery();
    AcceptedReturns(Tokens(ws));
    AcceptedShort(Tokens(ws));
    if Accepted(Tokens(ws)) { AcceptedLeavesOne(Tokens(ws), f); }
    var compiled := q.Compile(ws);
    if !compiled { return false, false; }
    assert q.Stack() == [];
    ok, result := q.Match(f);
  }

  lemma AcceptedShort(ts: seq<Token>)
    ensures Accepted(ts) ==> |ts| <= 31
  {
    hide Runs, Height;
  }

  lemma AcceptedLeavesOne(ts: seq<Token>, f: Frame)
    requires ValidFrame(f) && Accepted(ts)
    ensures |Exec(ts, f, [])| == 1
  {
    hide Exec;
    AcceptedIsPostfix(ts);
    var e :| Postfix(e) == ts;
    AcceptedValue(e, f);
  }

  /** A query that is the postfix form of e yields the value of e if it is short and shallow enough. */
  lemma YieldsOf(ws: seq<string>, f: Frame, e: Expr)
    requires ValidFrame(f) && Tokens(ws) == Postfix(e)
    ensures Yields(ws, f) == if |Tokens(ws)| <= 31 && Shallow(Tokens(ws), 0) then Value(Eval(e, f)) else Fails
  {
    hide Exec, Tokens, Eval;
    var ts := Tokens(ws);
    AcceptedIsPostfix(ts);
    assert IsPostfix(ts);
    hide Postfix, Shallow, Accepted;
    if Accepted(ts) {
      AcceptedValue(e, f);
      assert [Eval(e, f)][0] == Eval(e, f);
    }
  }

  /** The expression behind a query that yields a value. */
  lemma YieldsBack(ws: seq<string>, f: Frame) returns (e: Expr)
    requires ValidFrame(f) && Yields(ws, f).Value?
    ensures Tokens(ws) == Postfix(e) && Yields(ws, f) == Value(Eval(e, f)) && Shallow(Tokens(ws), 0)
  {
    hide Exec, Tokens, Eval;
    AcceptedIsPostfix(Tokens(ws));
    e :| Postfix(e) == Tokens(ws);
    YieldsOf(ws, f, e);
  }

  // ---------------------------------------------------------------- composition

  lemma {:induction false} TokensConcat(a: seq<string>, b: seq<string>)
    ensures Tokens(a + b) == Tokens(a) + Tokens(b)
  {
    hide TokenOf;
    if a == [] {
      assert a + b == b;
    } else {
      TokensConcat(a[1..], b);
      assert (a + b)[1..] == a[1..] + b;
    }
  }

  lemma TokensOne(w: string)
    ensures Tokens([w]) == match TokenOf(w) case Found(t) => [t] case Unknown => []
  {
    hide TokenOf;
    assert Tokens([w][1..]) == [];
  }

  lemma {:induction false} ShallowConcat(a: seq<Token>, b: seq<Token>, n: int)
    ensures Shallow(a + b, n) <==> Shallow(a, n) && Shallow(b, Height(a, n))
    decreases |a|
  {
    if a == [] {
      assert a + b == b;
    } else {
      ShallowConcat(a[1..], b, Level(a[0], n));
      assert (a + b)[1..] == a[1..] + b;
    }
  }

  /** An operator behind two queries fits: at most 31 tokens, and the second query leaves a slot for the first value. */
  predicate Room(a: seq<string>, b: seq<string>) {
    |Tokens(a)| + |Tokens(b)| <= 30 && Shallow(Tokens(b), 1)
  }

  lemma Binary2(a: seq<string>, b: seq<string>, w: string, op: Op, f: Frame)
    requires ValidFrame(f) && Yields(a, f).Value? && Yields(b, f).Value? && TokenOf(w) == Found(Binary(op))
    ensures Yields(a + b + [w], f) == if Room(a, b) then Value(Operate(op, Yields(b, f).v, Yields(a, f).v)) else Fails
  {
    hide Yields, TokenOf, Operate;
    var x := YieldsBack(a, f);
    var y := YieldsBack(b, f);
    TokensConcat(a + b, [w]);
    TokensConcat(a, b);
    TokensOne(w);
    var ta, tb, ts := Tokens(a), Tokens(b), Tokens(a + b + [w]);
    assert ts == ta + tb + [Binary(op)];
    Assoc(ta, tb, [Binary(op)]);
    assert Postfix(Apply(op, x, y)) == ts;
    YieldsOf(a + b + [w], f, Apply(op, x, y));
    ShallowConcat(ta + tb, [Binary(op)], 0);
    ShallowConcat(ta, tb, 0);
    assert ta + [] == ta;
    PostfixHeight(x, [], 0);
    OperatorShallow(op, Height(ta + tb, 0));
  }

  lemma OperatorShallow(op: Op, n: int)
    ensures Shallow([Binary(op)], n)
  {
    assert [Binary(op)][1..] == [];
  }

  // Each operator fails exactly where there is no room for it.

  /** Equality of the two values. */
  lemma EqualLaw(a: seq<string>, b: seq<string>, f: Frame)
    requires ValidFrame(f) && Yields(a, f).Value? && Yields(b, f).Value?
    ensures var x, y := Yields(a, f).v, Yields(b, f).v;
            Yields(a + b + ["="], f) == if Room(a, b) then Value(if x == y then 1 else 0) else Fails
  {
    hide Yields, Room, TokenOf;
    assert TokenOf("=") == Found(Binary(Equal)) by { EqualLawWord(); }
    Binary2(a, b, "=", Equal, f);
  }

  lemma EqualLawWord()
    ensures TokenOf("=") == Found(Binary(Equal))
  {
  }

  /** Inequality. */
  lemma NotEqualLaw(a: seq<string>, b: seq<string>, f: Frame)
    requires ValidFrame(f) && Yields(a, f).Value? && Yields(b, f).Value?
    ensures var x, y := Yields(a, f).v, Yields(b, f).v;
            Yields(a + b + ["!="], f) == if Room(a, b) then Value(if x == y then 0 else 1) else Fails
  {
    hide Yields, Room, TokenOf;
    assert TokenOf("!=") == Found(Binary(NotEqual)) by { NotEqualLawWord(); }
    Binary2(a, b, "!=", NotEqual, f);
  }

  lemma NotEqualLawWord()
    ensures TokenOf("!=") == Found(Binary(NotEqual))
  {
  }

  /** True exactly if both are. */
  lemma BothLaw(a: seq<string>, b: seq<string>, f: Frame)
    requires ValidFrame(f) && Yields(a, f).Value? && Yields(b, f).Value?
    ensures var x, y := Yields(a, f).v, Yields(b, f).v;
            Yields(a + b + ["&&"], f) == if Room(a, b) then Value(if x == 0 || y == 0 then 0 else 1) else Fails
  {
    hide Yields, Room, TokenOf;
    assert TokenOf("&&") == Found(Binary(And)) by { BothLawWord(); }
    Binary2(a, b, "&&", And, f);
  }

  lemma BothLawWord()
    ensures TokenOf("&&") == Found(Binary(And))
  {
  }

  /** True exactly if one of them is. */
  lemma EitherLaw(a: seq<string>, b: seq<string>, f: Frame)
    requires ValidFrame(f) && Yields(a, f).Value? && Yields(b, f).Value?
    ensures var x, y := Yields(a, f).v, Yields(b, f).v;
            Yields(a + b + ["||"], f) == if Room(a, b) then Value(if x == 0 && y == 0 then 0 else 1) else Fails
  {
    hide Yields, Room, TokenOf;
    assert TokenOf("||") == Found(Binary(Or)) by { EitherLawWord(); }
    Binary2(a, b, "||", Or, f);
  }

  lemma EitherLawWord()
    ensures TokenOf("||") == Found(Binary(Or))
  {
  }

  function And32(x: bv32, y: bv32): bv32 { y & x }

  function Or32(x: bv32, y: bv32): bv32 { y | x }

  /** Bitwise and. */
  lemma BitAndLaw(a: seq<string>, b: seq<string>, f: Frame)
    requires ValidFrame(f) && Yields(a, f).Value? && Yields(b, f).Value?
    ensures var x, y := Yields(a, f).v, Yields(b, f).v;
            Yields(a + b + ["&"], f) == if Room(a, b) then Value(And32(x, y)) else Fails
  {
    hide Yields, Room, TokenOf, Operate, And32, Or32;
    assert TokenOf("&") == Found(Binary(BitAnd)) by { BitAndLawWord(); }
    BitAndOperates(Yields(a, f).v, Yields(b, f).v);
    Binary2(a, b, "&", BitAnd, f);
  }

  lemma BitAndOperates(x: bv32, y: bv32)
    ensures Operate(BitAnd, y, x) == And32(x, y)
  {
  }

  lemma BitAndLawWord()
    ensures TokenOf("&") == Found(Binary(BitAnd))
  {
  }

  /** Bitwise or. */
  lemma BitOrLaw(a: seq<string>, b: seq<string>, f: Frame)
    requires ValidFrame(f) && Yields(a, f).Value? && Yields(b, f).Value?
    ensures var x, y := Yields(a, f).v, Yields(b, f).v;
            Yields(a + b + ["|"], f) == if Room(a, b) then Value(Or32(x, y)) else Fails
  {
    hide Yields, Room, TokenOf, Operate, And32, Or32;
    assert TokenOf("|") == Found(Binary(BitOr)) by { BitOrLawWord(); }
    BitOrOperates(Yields(a, f).v, Yields(b, f).v);
    Binary2(a, b, "|", BitOr, f);
  }

  lemma BitOrOperates(x: bv32, y: bv32)
    ensures Operate(BitOr, y, x) == Or32(x, y)
  {
  }

  lemma BitOrLawWord()
    ensures TokenOf("|") == Found(Binary(BitOr))
  {
  }

  /** Negation: true exactly for 0. */
  lemma NotLaw(a: seq<string>, f: Frame)
    requires ValidFrame(f) && Yields(a, f).Value?
    ensures Yields(a + ["!"], f) == if |Tokens(a)| <= 30 then Value(if Yields(a, f).v == 0 then 1 else 0) else Fails
  {
    hide Yields, TokenOf;
    var x := YieldsBack(a, f);
    TokensConcat(a, ["!"]);
    TokensOne("!");
    assert TokenOf("!") == Found(Not) by { NotWord(); }
    assert Tokens(a + ["!"]) == Postfix(Negate(x));
    YieldsOf(a + ["!"], f, Negate(x));
    ShallowConcat(Tokens(a), [Token.Not], 0);
    assert [Token.Not][1..] == [];
  }

  lemma NotWord()
    ensures TokenOf("!") == Found(Not)
  {
  }

  // ---------------------------------------------------------------- operands

  lemma Operand1(w: string, o: Operand, f: Frame)
    requires ValidFrame(f) && TokenOf(w) == Found(Push(o))
    ensures Yields([w], f) == Value(Eval(Leaf(o), f))
  {
    hide Yields, TokenOf;
    TokensOne(w);
    YieldsOf([w], f, Leaf(o));
    assert [Push(o)][1..] == [];
  }

  lemma FieldWords()
    ensures TokenOf("src") == Found(Push(Src)) && TokenOf("dst") == Found(Push(Dst))
    ensures TokenOf("proto") == Found(Push(Proto)) && TokenOf("size") == Found(Push(Size))
  {
  }

  function Digit(d: nat): char
    requires d < 10
  {
    ['0', '1', '2', '3', '4', '5', '6', '7', '8', '9'][d]
  }

  lemma DataWord(i: nat)
    requires i < 8
    ensures TokenOf(['d', Digit(i)]) == Found(Push(Data(i)))
  {
    var w := ['d', Digit(i)];
    assert w[0] == 'd' && !AllDigits(w);
    assert w[1] == Digit(i);
  }

  /** The words for the parts of a frame. */
  lemma FieldLaws(f: Frame)
    requires ValidFrame(f)
    ensures Yields(["src"], f) == Value(f.src) && Yields(["dst"], f) == Value(f.dst)
    ensures Yields(["proto"], f) == Value(f.proto) && Yields(["size"], f) == Value(f.size)
  {
    hide Yields, TokenOf;
    FieldWords();
    Operand1("src", Src, f);
    Operand1("dst", Dst, f);
    Operand1("proto", Proto, f);
    Operand1("size", Size, f);
  }

  /** The words d0 to d7. */
  lemma DataLaws(i: nat, f: Frame)
    requires ValidFrame(f) && i < 8
    ensures Yields([['d', Digit(i)]], f) == Value(f.data[i])
  {
    hide Yields, TokenOf;
    DataWord(i);
    Operand1(['d', Digit(i)], Data(i), f);
  }

  // ---------------------------------------------------------------- numbers

  /** The decimal notation of n. */
  function Numeral(n: nat): (w: string)
    ensures w != ""
  {
    if n < 10 then [Digit(n)] else Numeral(n / 10) + [Digit(n % 10)]
  }

  lemma DigitRoundTrip(w: string, d: nat)
    requires AllDigits(w) && d < 10
    ensures IsNumber(w + [Digit(d)]) && Decimal(w + [Digit(d)]) == Decimal(w) * 10 + d
  {
    assert (w + [Digit(d)])[..|w|] == w;
  }

  lemma {:induction false} NumeralRoundTrip(n: nat)
    ensures IsNumber(Numeral(n)) && Decimal(Numeral(n)) == n
  {
    if n < 10 {
      DigitRoundTrip("", n);
      assert "" + [Digit(n)] == [Digit(n)];
    } else {
      NumeralRoundTrip(n / 10);
      DigitRoundTrip(Numeral(n / 10), n % 10);
    }
  }

  /** A number below 2^24, written in decimal, stands for itself. */
  lemma NumberLaw(n: nat, f: Frame)
    requires ValidFrame(f) && n < 0x100_0000
    ensures Yields([Numeral(n)], f) == Value(n as bv32)
  {
    hide Yields, Numeral;
    NumeralRoundTrip(n);
    NumberWord(Numeral(n), n);
    Operand1(Numeral(n), Int(n as bv32), f);
  }

  lemma NumberWord(w: string, n: nat)
    requires IsNumber(w) && Decimal(w) == n < 0x100_0000
    ensures TokenOf(w) == Found(Push(Int(n as bv32)))
  {
    SmallBits(n);
    LowBits(n as bv32);
  }

  /** Larger numbers saturate at 2^31 - 1 and keep their low 24 bits. */
  lemma LargeNumberLaw(n: nat, f: Frame)
    requires ValidFrame(f)
    ensures Yields([Numeral(n)], f) == Value(((if n > 0x7fff_ffff then 0x7fff_ffff else n) as bv32) & 0x00ff_ffff)
  {
    hide Yields, Numeral, TokenOf;
    NumeralRoundTrip(n);
    var m := if n > 0x7fff_ffff then 0x7fff_ffff else n;
    LargeWord(Numeral(n), m);
    Operand1(Numeral(n), Int((m as bv32) & 0x00ff_ffff), f);
  }

  lemma LargeWord(w: string, m: nat)
    requires IsNumber(w) && m == if Decimal(w) > 0x7fff_ffff then 0x7fff_ffff else Decimal(w)
    ensures TokenOf(w) == Found(Push(Int((m as bv32) & 0x00ff_ffff)))
  {
    assert m == Atol(w);
  }

  lemma SmallBits(n: nat)
    requires n < 0x100_0000
    ensures (n as bv32) < 0x0100_0000
  {
  }

  lemma LowBits(v: bv32)
    requires v < 0x0100_0000
    ensures v & 0x00ff_ffff == v
  {
  }

  // ---------------------------------------------------------------- comparisons

  /** A field word, a number and `=`: true exactly if the field has that value. */
  lemma CompareLaw(w: string, x: bv32, n: nat, f: Frame)
    requires ValidFrame(f) && n < 0x100_0000 && Yields([w], f) == Value(x) && |Tokens([w])| == 1
    ensures Yields([w, Numeral(n), "="], f) == Value(if x == n as bv32 then 1 else 0)
    ensures Yields([w, Numeral(n), "!="], f) == Value(if x == n as bv32 then 0 else 1)
  {
    hide Yields, Numeral, TokenOf;
    NumberLaw(n, f);
    NumeralRoundTrip(n);
    NumberWord(Numeral(n), n);
    TokensOne(Numeral(n));
    PushShallow(Int(n as bv32));
    EqualLaw([w], [Numeral(n)], f);
    NotEqualLaw([w], [Numeral(n)], f);
    assert [w] + [Numeral(n)] + ["="] == [w, Numeral(n), "="];
    assert [w] + [Numeral(n)] + ["!="] == [w, Numeral(n), "!="];
  }

  lemma PushShallow(o: Operand)
    ensures Shallow([Push(o)], 1)
  {
    assert [Push(o)][1..] == [];
  }

  /** The twelve fields compared with a number. */
  lemma FieldsCompare(n: nat, f: Frame)
    requires ValidFrame(f) && n < 0x100_0000
    ensures Yields(["src", Numeral(n), "="], f) == Value(if f.src == n as bv32 then 1 else 0)
    ensures Yields(["dst", Numeral(n), "="], f) == Value(if f.dst == n as bv32 then 1 else 0)
    ensures Yields(["proto", Numeral(n), "="], f) == Value(if f.proto == n as bv32 then 1 else 0)
    ensures Yields(["size", Numeral(n), "="], f) == Value(if f.size == n as bv32 then 1 else 0)
  {
    hide Yields, Numeral, TokenOf;
    FieldLaws(f);
    FieldWords();
    TokensOne("src");
    TokensOne("dst");
    TokensOne("proto");
    TokensOne("size");
    CompareLaw("src", f.src, n, f);
    CompareLaw("dst", f.dst, n, f);
    CompareLaw("proto", f.proto, n, f);
    CompareLaw("size", f.size, n, f);
  }

  /** A data byte: its word is d and its index. */
  lemma DataCompare(i: nat, n: nat, f: Frame)
    requires ValidFrame(f) && n < 0x100_0000 && i < 8
    ensures Yields([['d', Digit(i)], Numeral(n), "="], f) == Value(if f.data[i] == n as bv32 then 1 else 0)
  {
    hide Yields, Numeral, TokenOf;
    DataLaws(i, f);
    DataWord(i);
    TokensOne(['d', Digit(i)]);
    CompareLaw(['d', Digit(i)], f.data[i], n, f);
  }

  // ---------------------------------------------------------------- other words

  /** The words of the language that are not numbers. */
  const WORDS: seq<string> := ["src", "dst", "proto", "size", "d0", "d1", "d2", "d3", "d4", "d5", "d6", "d7",
                               "=", "!=", "!", "&", "&&", "|", "||"]

  /** Every other word is passed over. */
  lemma OtherWordsSkipped(a: seq<string>, w: string, b: seq<string>, f: Frame)
    requires ValidFrame(f) && w !in WORDS && !(w != "" && forall i :: 0 <= i < |w| ==> '0' <= w[i] <= '9')
    ensures Yields(a + [w] + b, f) == Yields(a + b, f)
  {
    TokensConcat(a + [w], b);
    TokensConcat(a, [w]);
    TokensConcat(a, b);
    OtherWord(w);
    TokensOne(w);
    assert Tokens(a) + [] == Tokens(a);
  }

  lemma OtherWord(w: string)
    requires w !in WORDS && !(w != "" && forall i :: 0 <= i < |w| ==> '0' <= w[i] <= '9')
    ensures TokenOf(w) == Unknown
  {
    assert forall i :: 0 <= i < |WORDS| ==> w != WORDS[i];
    assert w != WORDS[0] && w != WORDS[1] && w != WORDS[2] && w != WORDS[3] && w != WORDS[4] && w != WORDS[5];
    assert w != WORDS[6] && w != WORDS[7] && w != WORDS[8] && w != WORDS[9] && w != WORDS[10] && w != WORDS[11];
    assert w != WORDS[12] && w != WORDS[13] && w != WORDS[14] && w != WORDS[15] && w != WORDS[16];
    assert w != WORDS[17] && w != WORDS[18];
  }

  // ---------------------------------------------------------------- files

  /** The frames for which the words yield a value other than 0, in order. */
  function Answers(ws: seq<string>, fs: seq<Frame>): seq<Frame>
    requires forall f <- fs :: ValidFrame(f)
  {
    if fs == [] then []
    else
      var y := Yields(ws, fs[0]);
      (if y.Value? && y.v != 0 then [fs[0]] else []) + Answers(ws, fs[1..])
  }

  lemma {:induction false} HitsAreAnswers(ws: seq<string>, e: Expr, fs: seq<Frame>)
    requires (forall f <- fs :: ValidFrame(f)) && Postfix(e) == Tokens(ws) && Accepted(Tokens(ws))
    ensures Hits(e, fs) == Answers(ws, fs)
  {
    hide Yields, Postfix, Accepted, Eval, Tokens;
    if fs != [] {
      HitsAreAnswers(ws, e, fs[1..]);
      YieldsAccepted(ws, fs[0], e);
    }
  }

  lemma YieldsAccepted(ws: seq<string>, f: Frame, e: Expr)
    requires ValidFrame(f) && Postfix(e) == Tokens(ws) && Accepted(Tokens(ws))
    ensures Yields(ws, f) == Value(Eval(e, f))
  {
    hide Exec, Accepted, Postfix, Tokens, Eval;
    AcceptedValue(e, f);
    assert [Eval(e, f)][0] == Eval(e, f);
  }

  /** From the words of a query to the frames printed: those it answers for, or the last of them, in file order. */
  method AskFile(ws: seq<string>, fs: seq<Frame>, last: int) returns (ok: bool, printed: seq<Frame>)
    requires forall f <- fs :: ValidFrame(f)
    ensures ok ==> fs == [] || last < 0 || (forall f <- fs :: Yields(ws, f).Value?)
    ensures ok && (forall f <- fs :: Yields(ws, f).Value?) ==> printed == LastOf(Answers(ws, fs), last)
    ensures !ok ==> printed == [] && forall f <- fs :: Yields(ws, f) == Fails
  {
    hide Hits, Answers, Postfix, Eval, Tokens, Exec;
    var q := new DataQuery();
    var compiled := q.Compile(ws);
    AcceptedShort(Tokens(ws));
    if !compiled { return false, []; }
    ok, printed := QueryFile(q, fs, last);
    if Accepted(Tokens(ws)) {
      AcceptedIsPostfix(Tokens(ws));
      ghost var e :| Postfix(e) == Tokens(ws);
      HitsAreAnswers(ws, e, fs);
      forall f | f in fs ensures Yields(ws, f).Value? { YieldsAccepted(ws, f, e); }
    } else if fs == [] {
      NoAnswers(ws);
    } else {
      assert fs[0] in fs && Yields(ws, fs[0]) == Fails;
    }
  }

  lemma NoAnswers(ws: seq<string>)
    ensures Answers(ws, []) == []
  {
  }

  /** What is printed are the last elements, in order. */
  lemma LastOfMeans(s: seq<Frame>, last: int)
    ensures var r := LastOf(s, last);
            && r <= s[|s| - |r|..] && |r| <= |s|
            && |r| == if last == 0 || last >= |s| then |s| else if last < 0 then 0 else last
  {
  }
}
