/**
 * The code generator of `compile` (garnet.js:102-120): the `for` loop that
 * turns the parts into the body of the template function. Each part becomes at
 * most one instruction (`Instr`); `Emit` writes an instruction as JavaScript
 * source and `GenerateBody` is the loop, proved to write `Program(parts)`.
 * `Execute` gives the instructions their meaning on the accumulator, and
 * `Expected` says independently what a template without statements renders to.
 */
module CodeGen {
  import opened Wrappers
  import opened Strings
  import opened Escape

  /** One statement of the generated body, `acc` being the accumulator variable. */
  datatype Instr =
    | InitText(text: string)     // var acc='text';
    | AppendText(text: string)   // acc+='text';
    | AppendEscaped(expr: string) // acc+=sanitizeForHTML(String(expr\n));
    | AppendRaw(expr: string)    // acc+=String(expr\n);
    | Exec(stmt: string)         // stmt;\n
    | ReturnAcc                  // return acc;

  /** `'r' + String(Math.floor(Math.random() * 1000000000))`, with the random draw as `nonce`. */
  function ResultName(nonce: nat): (r: string)
    requires nonce < 1000000000
    ensures |r| >= 2 && r[0] == 'r'
    ensures forall i :: 1 <= i < |r| ==> '0' <= r[i] <= '9'
  {
    "r" + DecimalString(nonce)
  }

  /** Different draws give different accumulator names. */
  lemma ResultNameInjective(n: nat, m: nat)
    requires n < 1000000000 && m < 1000000000
    ensures ResultName(n) == ResultName(m) <==> n == m
  {
    if ResultName(n) == ResultName(m) {
      assert DecimalString(n) == ResultName(n)[1..] == ResultName(m)[1..] == DecimalString(m);
      DecimalRoundTrip(n);
      DecimalRoundTrip(m);
    }
  }

  /**
   * The accumulator never shadows a parameter of the generated function
   * (`sanitizeForHTML`, `render`, `locals`): its second character is a digit.
   */
  lemma ResultNameIsFresh(nonce: nat)
    requires nonce < 1000000000
    ensures ResultName(nonce) != "sanitizeForHTML"
    ensures ResultName(nonce) != "render"
    ensures ResultName(nonce) != "locals"
  {
    var r := ResultName(nonce);
    assert '0' <= r[1] <= '9';
  }

  /**
   * The instruction for `parts[i]`, `i >= 1` (garnet.js:106-118): a text part
   * (even `i`) is appended unless empty; a code part (odd `i`) starting with
   * `=` is appended escaped, one starting with `-` is appended raw, any other
   * is run as a statement; the expression or statement is trimmed.
   */
  function PartInstrs(i: nat, part: string): (r: seq<Instr>)
    ensures |r| <= 1
    ensures i % 2 == 0 ==> (r == [] <==> part == [])
    ensures i % 2 == 1 ==> |r| == 1 && !r[0].InitText? && !r[0].AppendText? && !r[0].ReturnAcc?
  {
    if i % 2 == 0 then
      if |part| > 0 then [AppendText(part)] else []
    else if |part| > 0 && part[0] == '=' then [AppendEscaped(Trim(part[1..]))]
    else if |part| > 0 && part[0] == '-' then [AppendRaw(Trim(part[1..]))]
    else [Exec(Trim(part))]
  }

  /** The instructions for `parts[..n]`: the initialisation, then one entry per later part. */
  function ProgramUpTo(parts: seq<string>, n: nat): (r: seq<Instr>)
    requires 1 <= n <= |parts|
    ensures |r| >= 1 && r[0] == InitText(parts[0])
  {
    if n == 1 then [InitText(parts[0])] else ProgramUpTo(parts, n - 1) + PartInstrs(n - 1, parts[n - 1])
  }

  /** The whole body: every part, then `return acc;`. */
  function Program(parts: seq<string>): (r: seq<Instr>)
    requires |parts| >= 1
    ensures |r| >= 2 && r[0] == InitText(parts[0]) && r[|r| - 1] == ReturnAcc
  {
    ProgramUpTo(parts, |parts|) + [ReturnAcc]
  }

  /**
   * The JavaScript source of one instruction, text going through
   * `sanitizeForString` as written. Every instruction is a complete statement:
   * it ends with `;`, and a statement copied from the template with `;` and a
   * line break, so that a `//` comment in it cannot swallow what follows.
   */
  function Emit(acc: string, instr: Instr): (r: string)
    ensures instr.Exec? ==> |r| >= 2 && r[|r| - 2..] == ";\n"
    ensures !instr.Exec? ==> |r| >= 1 && r[|r| - 1] == ';'
  {
    match instr
    case InitText(s) => "var " + acc + "='" + SanitizeForString(s) + "';"
    case AppendText(s) => acc + "+='" + SanitizeForString(s) + "';"
    case AppendEscaped(e) => acc + "+=sanitizeForHTML(String(" + e + "\n));"
    case AppendRaw(e) => acc + "+=String(" + e + "\n);"
    case Exec(s) => s + ";\n"
    case ReturnAcc => "return " + acc + ";"
  }

  function EmitAll(acc: string, instrs: seq<Instr>): string
  {
    if instrs == [] then [] else EmitAll(acc, instrs[..|instrs| - 1]) + Emit(acc, instrs[|instrs| - 1])
  }

  lemma EmitAllSnoc(acc: string, instrs: seq<Instr>, more: seq<Instr>)
    requires |more| <= 1
    ensures EmitAll(acc, instrs + more) == EmitAll(acc, instrs) + (if more == [] then [] else Emit(acc, more[0]))
  {
    if more == [] {
      assert instrs + more == instrs;
    } else {
      assert (instrs + more)[..|instrs|] == instrs;
    }
  }

  lemma EmitOne(acc: string, instr: Instr)
    ensures EmitAll(acc, [instr]) == Emit(acc, instr)
  {
    assert [instr][..0] == [];
  }

  /**
   * The statement written for `parts[i]`, `i >= 1`: one pass of the loop body
   * (garnet.js:106-118), returning what it appends to `body`.
   */
  method GeneratePart(i: nat, part: string, acc: string) returns (piece: string)
    ensures piece == EmitAll(acc, PartInstrs(i, part))
  {
    piece := [];
    if i % 2 == 0 {
      if |part| > 0 {
        piece := acc + "+='" + SanitizeForString(part) + "';";
        EmitOne(acc, AppendText(part));
      }
    } else {
      if |part| > 0 && part[0] == '=' {
        piece := acc + "+=sanitizeForHTML(String(" + Trim(part[1..]) + "\n));";
        EmitOne(acc, AppendEscaped(Trim(part[1..])));
      } else if |part| > 0 && part[0] == '-' {
        piece := acc + "+=String(" + Trim(part[1..]) + "\n);";
        EmitOne(acc, AppendRaw(Trim(part[1..])));
      } else {
        piece := Trim(part) + ";\n";
        EmitOne(acc, Exec(Trim(part)));
      }
    }
  }

  /** One more part adds its instructions' source to the body. */
  lemma EmitUpToNext(parts: seq<string>, i: nat, acc: string)
    requires 1 <= i < |parts|
    ensures EmitAll(acc, ProgramUpTo(parts, i + 1)) == EmitAll(acc, ProgramUpTo(parts, i)) + EmitAll(acc, PartInstrs(i, parts[i]))
  {
    var p, q := ProgramUpTo(parts, i), PartInstrs(i, parts[i]);
    if q == [] {
      assert p + q == p;
    } else {
      assert (p + q)[..|p|] == p;
      EmitOne(acc, q[0]);
    }
  }

  /** The body before the loop, and the body after it. */
  lemma EmitEnds(parts: seq<string>, acc: string)
    requires 1 <= |parts|
    ensures EmitAll(acc, ProgramUpTo(parts, 1)) == Emit(acc, InitText(parts[0]))
    ensures EmitAll(acc, Program(parts)) == EmitAll(acc, ProgramUpTo(parts, |parts|)) + Emit(acc, ReturnAcc)
  {
    EmitOne(acc, InitText(parts[0]));
    assert (ProgramUpTo(parts, |parts|) + [ReturnAcc])[..|ProgramUpTo(parts, |parts|)|] == ProgramUpTo(parts, |parts|);
  }

  /** The `for` loop of garnet.js:104-120, writing the body for `parts` with accumulator `acc`. */
  method GenerateBody(parts: seq<string>, acc: string) returns (body: string)
    requires |parts| >= 1
    ensures body == EmitAll(acc, Program(parts))
  {
    EmitEnds(parts, acc);
    body := "var " + acc + "='" + SanitizeForString(parts[0]) + "';";
    for i := 1 to |parts|
      invariant body == EmitAll(acc, ProgramUpTo(parts, i))
    {
      var piece := GeneratePart(i, parts[i], acc);
      EmitUpToNext(parts, i, acc);
      body := body + piece;
    }
    body := body + ("return " + acc + ";");
  }

  /** Every body declares the accumulator first and returns it last. */
  lemma {:induction false} BodyFrame(parts: seq<string>, acc: string)
    requires |parts| >= 1
    ensures var body := EmitAll(acc, Program(parts));
            var head := "var " + acc + "='";
            var tail := "return " + acc + ";";
            |head| + |tail| <= |body| && body[..|head|] == head && body[|body| - |tail|..] == tail
  {
    var p := ProgramUpTo(parts, |parts|);
    var tail := "return " + acc + ";";
    EmitAllSnoc(acc, p, [ReturnAcc]);
    EmitAllStarts(acc, p);
    PrefixKept(EmitAll(acc, p), tail, "var " + acc + "='");
  }

  /** Text written after a prefix keeps it, and the new text ends the result. */
  lemma PrefixKept(x: string, y: string, head: string)
    requires |head| <= |x| && x[..|head|] == head
    ensures |head| <= |x + y| && (x + y)[..|head|] == head
    ensures (x + y)[|x + y| - |y|..] == y
  {
    assert (x + y)[..|head|] == x[..|head|];
  }

  lemma {:induction false} EmitAllStarts(acc: string, instrs: seq<Instr>)
    requires |instrs| >= 1 && instrs[0].InitText?
    ensures var head := "var " + acc + "='";
            |head| <= |EmitAll(acc, instrs)| && EmitAll(acc, instrs)[..|head|] == head
    decreases |instrs|
  {
    var head := "var " + acc + "='";
    var last := Emit(acc, instrs[|instrs| - 1]);
    if |instrs| > 1 {
      EmitAllStarts(acc, instrs[..|instrs| - 1]);
      PrefixKept(EmitAll(acc, instrs[..|instrs| - 1]), last, head);
    } else {
      var lit := SanitizeForString(instrs[0].text);
      assert instrs == [instrs[0]];
      EmitOne(acc, instrs[0]);
      PrefixKept(head, lit, head);
      PrefixKept(head + lit, "';", head);
    }
  }

  // ---------------------------------------------------------------------------
  // What the body computes

  /**
   * The string the literal `'…'` that `Emit` writes for the text `s` denotes,
   * read by JavaScript's string-literal grammar after the opening quote;
   * `None` when it does not lex, so that `new Function` rejects the body.
   */
  function TextValue(s: string): Option<string>
  {
    match LexLiteral(SanitizeForString(s) + "'")
    case Some((v, _)) => Some(v)
    case None => None
  }

  /**
   * `t` holds no carriage return, the one line terminator `sanitizeForString`
   * does not escape.
   */
  predicate NoCarriageReturn(t: string)
  {
    forall k :: 0 <= k < |t| ==> t[k] != '\r'
  }

  /** The literal of a text without `\r` denotes the text itself. */
  lemma TextValueExact(s: string)
    requires NoCarriageReturn(s)
    ensures TextValue(s) == Some(s)
  {
    assert '\r' !in s;
    SanitizeForStringRoundTrip(s, []);
    assert SanitizeForString(s) + "'" + [] == SanitizeForString(s) + "'";
  }

  /** The literal written for text with a CRLF line ending denotes nothing. */
  lemma CarriageReturnTextValue()
    ensures TextValue("a\r\nb") == None
  {
    CarriageReturnBreaksLiteral("a\r\nb", []);
    assert SanitizeForString("a\r\nb") + "'" + [] == SanitizeForString("a\r\nb") + "'";
  }

  /**
   * The accumulator after one instruction, `eval` giving `String(e)` for an
   * expression `e` under the template's `locals`. A text contributes what its
   * emitted literal denotes. A statement other than the empty one can do
   * anything JavaScript can; its effect is outside the model (`None`).
   */
  function Step(instr: Instr, eval: string -> string, acc: string): Option<string>
  {
    match instr
    case InitText(s) => TextValue(s)
    case AppendText(s) =>
      (match TextValue(s)
       case Some(v) => Some(acc + v)
       case None => None)
    case AppendEscaped(e) => Some(acc + SanitizeForHTML(eval(e)))
    case AppendRaw(e) => Some(acc + eval(e))
    case Exec(s) => if s == [] then Some(acc) else None
    case ReturnAcc => Some(acc)
  }

  /** The accumulator after running `instrs` in order. */
  function Execute(instrs: seq<Instr>, eval: string -> string): Option<string>
  {
    if instrs == [] then Some([])
    else match Execute(instrs[..|instrs| - 1], eval)
      case None => None
      case Some(acc) => Step(instrs[|instrs| - 1], eval, acc)
  }

  /** Code whose effect the model knows: an `=` or `-` expression, or blank. */
  predicate KnownCode(code: string)
  {
    (|code| > 0 && (code[0] == '=' || code[0] == '-')) || Trim(code) == []
  }

  /** What a known code part contributes to the output. */
  function Value(code: string, eval: string -> string): string
  {
    if |code| > 0 && code[0] == '=' then SanitizeForHTML(eval(Trim(code[1..])))
    else if |code| > 0 && code[0] == '-' then eval(Trim(code[1..]))
    else []
  }

  /**
   * The output a template of texts and expressions stands for: each text,
   * then each value, in order. (The tokenizer always yields an odd count; an
   * even one reads as if an empty text followed the last code part.)
   */
  function Expected(parts: seq<string>, eval: string -> string): string
    decreases |parts|
  {
    if |parts| == 0 then []
    else if |parts| == 1 then parts[0]
    else parts[0] + Value(parts[1], eval) + Expected(parts[2..], eval)
  }

  /** An odd count is 1, or 2 more than a smaller odd count. */
  lemma OddStep(n: nat)
    requires n % 2 == 1
    ensures n == 1 || (3 <= n && (n - 2) % 2 == 1)
  {
  }

  lemma {:induction false} ExpectedSnoc(parts: seq<string>, code: string, text: string, eval: string -> string)
    requires |parts| % 2 == 1
    ensures Expected(parts + [code, text], eval) == Expected(parts, eval) + Value(code, eval) + text
    decreases |parts|
  {
    OddStep(|parts|);
    if |parts| == 1 {
      ExpectedSnocOne(parts, code, text, eval);
    } else {
      ExpectedSnoc(parts[2..], code, text, eval);
      ExpectedSnocStep(parts, code, text, eval);
    }
  }

  lemma ExpectedSnocOne(parts: seq<string>, code: string, text: string, eval: string -> string)
    requires |parts| == 1
    ensures Expected(parts + [code, text], eval) == Expected(parts, eval) + Value(code, eval) + text
  {
    var ps := parts + [code, text];
    assert ps[2..] == [text];
  }

  lemma ExpectedSnocStep(parts: seq<string>, code: string, text: string, eval: string -> string)
    requires |parts| >= 2
    requires Expected(parts[2..] + [code, text], eval) == Expected(parts[2..], eval) + Value(code, eval) + text
    ensures Expected(parts + [code, text], eval) == Expected(parts, eval) + Value(code, eval) + text
  {
    var ps := parts + [code, text];
    SnocAfterTwo(parts, [code, text]);
    Regroup(parts[0], Value(parts[1], eval), Expected(parts[2..], eval), Value(code, eval), text);
  }

  lemma SnocAfterTwo(parts: seq<string>, more: seq<string>)
    requires |parts| >= 2
    ensures var ps := parts + more;
            ps[0] == parts[0] && ps[1] == parts[1] && ps[2..] == parts[2..] + more
  {
    assert (parts + more)[2..] == parts[2..] + more;
  }

  lemma Regroup(a: string, v: string, e: string, w: string, t: string)
    ensures a + v + (e + w + t) == a + v + e + w + t
  {
  }

  lemma ExecuteSnoc(instrs: seq<Instr>, more: seq<Instr>, eval: string -> string)
    requires |more| == 1
    ensures Execute(instrs + more, eval) ==
            match Execute(instrs, eval)
            case None => None
            case Some(acc) => Step(more[0], eval, acc)
  {
    assert (instrs + more)[..|instrs|] == instrs;
  }

  /** The instruction of a known code part appends its value. */
  lemma CodeStep(n: nat, code: string, eval: string -> string, acc: string)
    requires n % 2 == 1 && KnownCode(code)
    ensures Step(PartInstrs(n, code)[0], eval, acc) == Some(acc + Value(code, eval))
  {
    if !(|code| > 0 && (code[0] == '=' || code[0] == '-')) {
      assert acc + [] == acc;
    }
  }

  /** The instructions of a text part append the text. */
  lemma TextStep(instrs: seq<Instr>, n: nat, text: string, eval: string -> string, acc: string)
    requires n % 2 == 0 && NoCarriageReturn(text) && Execute(instrs, eval) == Some(acc)
    ensures Execute(instrs + PartInstrs(n, text), eval) == Some(acc + text)
  {
    if text == [] {
      assert instrs + PartInstrs(n, text) == instrs;
      assert acc + text == acc;
    } else {
      ExecuteSnoc(instrs, PartInstrs(n, text), eval);
      TextValueExact(text);
    }
  }

  /** Running the instructions of a code part and the text after it adds the value and the text. */
  lemma CodeThenText(instrs: seq<Instr>, n: nat, code: string, text: string, eval: string -> string, acc: string)
    requires n % 2 == 1 && KnownCode(code) && NoCarriageReturn(text) && Execute(instrs, eval) == Some(acc)
    ensures Execute(instrs + PartInstrs(n, code) + PartInstrs(n + 1, text), eval) == Some(acc + Value(code, eval) + text)
  {
    ExecuteSnoc(instrs, PartInstrs(n, code), eval);
    CodeStep(n, code, eval, acc);
    assert Execute(instrs + PartInstrs(n, code), eval) == Some(acc + Value(code, eval));
    TextStep(instrs + PartInstrs(n, code), n + 1, text, eval, acc + Value(code, eval));
  }

  lemma ExecutePair(parts: seq<string>, n: nat, eval: string -> string, acc: string)
    requires 1 <= n && n % 2 == 1 && n + 2 <= |parts| && KnownCode(parts[n]) && NoCarriageReturn(parts[n + 1])
    requires Execute(ProgramUpTo(parts, n), eval) == Some(acc)
    ensures Execute(ProgramUpTo(parts, n + 2), eval) == Some(acc + Value(parts[n], eval) + parts[n + 1])
  {
    CodeThenText(ProgramUpTo(parts, n), n, parts[n], parts[n + 1], eval, acc);
  }

  lemma ExecuteFirst(parts: seq<string>, n: nat, eval: string -> string)
    requires n == 1 <= |parts| && NoCarriageReturn(parts[0])
    ensures Execute(ProgramUpTo(parts, n), eval) == Some(Expected(parts[..n], eval))
  {
    TextValueExact(parts[0]);
    assert [InitText(parts[0])][..0] == [];
    assert parts[..1] == [parts[0]];
  }

  lemma ExpectedPrefix(parts: seq<string>, n: nat, eval: string -> string)
    requires n % 2 == 1 && n + 2 <= |parts|
    ensures Expected(parts[..n + 2], eval) == Expected(parts[..n], eval) + Value(parts[n], eval) + parts[n + 1]
  {
    assert parts[..n + 2] == parts[..n] + [parts[n], parts[n + 1]];
    ExpectedSnoc(parts[..n], parts[n], parts[n + 1], eval);
  }

  /** One more code part and the text after it keep the body's output equal to the expected one. */
  lemma ExecuteTwoMore(parts: seq<string>, m: nat, eval: string -> string)
    requires 1 <= m && m % 2 == 1 && m + 2 <= |parts|
    requires forall i :: 0 <= i < |parts| && i % 2 == 1 ==> KnownCode(parts[i])
    requires forall i :: 0 <= i < |parts| && i % 2 == 0 ==> NoCarriageReturn(parts[i])
    requires Execute(ProgramUpTo(parts, m), eval) == Some(Expected(parts[..m], eval))
    ensures Execute(ProgramUpTo(parts, m + 2), eval) == Some(Expected(parts[..m + 2], eval))
  {
    PartsAt(parts, m);
    ExecutePair(parts, m, eval, Expected(parts[..m], eval));
    ExpectedPrefix(parts, m, eval);
  }

  /** The code part at odd `m` and the text part after it are ones the model renders. */
  lemma PartsAt(parts: seq<string>, m: nat)
    requires m % 2 == 1 && m + 2 <= |parts|
    requires forall i :: 0 <= i < |parts| && i % 2 == 1 ==> KnownCode(parts[i])
    requires forall i :: 0 <= i < |parts| && i % 2 == 0 ==> NoCarriageReturn(parts[i])
    ensures KnownCode(parts[m]) && NoCarriageReturn(parts[m + 1])
  {
  }

  /** The last code part and text part of `parts[..n]`, `n` odd, are ones the model renders. */
  lemma PartsBefore(parts: seq<string>, n: nat)
    requires 1 <= n <= |parts| && n % 2 == 1
    requires forall i :: 0 <= i < |parts| && i % 2 == 1 ==> KnownCode(parts[i])
    requires forall i :: 0 <= i < |parts| && i % 2 == 0 ==> NoCarriageReturn(parts[i])
    ensures NoCarriageReturn(parts[n - 1])
    ensures n != 1 ==> 3 <= n && (n - 2) % 2 == 1 && KnownCode(parts[n - 2])
  {
  }

  /** The loop's instructions for `parts[..n]`, `n` odd, compute the expected output of `parts[..n]`. */
  lemma {:induction false} ExecuteUpTo(parts: seq<string>, n: nat, eval: string -> string)
    requires 1 <= n <= |parts| && n % 2 == 1
    requires forall i :: 0 <= i < |parts| && i % 2 == 1 ==> KnownCode(parts[i])
    requires forall i :: 0 <= i < |parts| && i % 2 == 0 ==> NoCarriageReturn(parts[i])
    ensures Execute(ProgramUpTo(parts, n), eval) == Some(Expected(parts[..n], eval))
    decreases n
  {
    PartsBefore(parts, n);
    if n == 1 {
      ExecuteFirst(parts, n, eval);
    } else {
      ExecuteUpTo(parts, n - 2, eval);
      ExecuteTwoMore(parts, n - 2, eval);
    }
  }

  /**
   * A template whose code parts are all expressions (or blank) renders its
   * texts and the values of its expressions in order: the generated function
   * returns `Expected(parts, eval)`.
   */
  lemma RendersExpected(parts: seq<string>, eval: string -> string)
    requires |parts| % 2 == 1
    requires forall i :: 0 <= i < |parts| && i % 2 == 1 ==> KnownCode(parts[i])
    requires forall i :: 0 <= i < |parts| && i % 2 == 0 ==> NoCarriageReturn(parts[i])
    ensures Execute(Program(parts), eval) == Some(Expected(parts, eval))
  {
    ExecuteUpTo(parts, |parts|, eval);
    ExecuteSnoc(ProgramUpTo(parts, |parts|), [ReturnAcc], eval);
    assert parts[..|parts|] == parts;
  }

  /**
   * A template saved with a CRLF line ending renders nothing: the literal
   * written for its text does not lex, so the body is rejected.
   */
  lemma CarriageReturnRendersNothing(eval: string -> string)
    ensures Execute(Program(["a\r\nb"]), eval) == None
  {
    var t := "a\r\nb";
    assert ProgramUpTo([t], 1) == [InitText(t)];
    assert Program([t]) == [InitText(t), ReturnAcc];
    assert [InitText(t), ReturnAcc][..1] == [InitText(t)];
    assert [InitText(t)][..0] == [];
    CarriageReturnTextValue();
  }
}
