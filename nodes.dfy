/**
 * The statement tree of the generated C program and its rendering to text
 * (the node classes of generator.py and their `emit` methods).
 *
 * Expressions are opaque: wherever the source holds an `Id` in an expression
 * position it is rendered with indent 0, which yields exactly its text, so the
 * model keeps that text as a `string`.
 */
module Nodes {

  /** The tag of a node that owns a list of child statements. */
  datatype Kind =
    | Case(expr: string)
    | Default
    | Switch(expr: string)
    | For(variable: string, start: string, end: string)
    | If(expr: string)
    | ElseIf(expr: string)
    | Else
    | Main

  /** One node of the tree: a leaf statement or a container with its children. */
  datatype Node =
    | Id(v: string)
    | Assign(lhs: string, rhs: string)
    | Print(s: string)
    | Printi(s: string)
    | Block(kind: Kind, body: seq<Node>)

  /** Nodes that accept children through `statement`. */
  predicate IsContainer(n: Node) {
    n.Block?
  }

  /** Containers that define `close`; `Case` and `Default` are transparent. */
  predicate HasClose(n: Node) {
    n.Block? && !n.kind.Case? && !n.kind.Default?
  }

  /** `isinstance(x, Switch)` */
  predicate IsSwitch(n: Node) {
    n.Block? && n.kind.Switch?
  }

  /** `isinstance(x, If)`: an `ElseIf` is a subclass of `If`, an `Else` is not. */
  predicate IsIf(n: Node) {
    n.Block? && (n.kind.If? || n.kind.ElseIf?)
  }

  predicate IsMain(n: Node) {
    n.Block? && n.kind.Main?
  }

  /** `statement(stmt)` of a container: appends one child in place. */
  function Statement(n: Node, c: Node): (r: Node)
    requires IsContainer(n)
    ensures IsContainer(r) && r.kind == n.kind && r.body == n.body + [c]
  {
    Block(n.kind, n.body + [c])
  }

  /** Appends several children, first to last. */
  function AppendAll(n: Node, cs: seq<Node>): (r: Node)
    requires IsContainer(n)
    ensures IsContainer(r) && r.kind == n.kind && r.body == n.body + cs
    decreases |cs|
  {
    if cs == [] then n else AppendAll(Statement(n, cs[0]), cs[1..])
  }

  // ---------------------------------------------------------------------
  // Rendering
  // ---------------------------------------------------------------------

  function Spaces(i: nat): (r: string)
    ensures |r| == i && forall k :: 0 <= k < i ==> r[k] == ' '
  {
    if i == 0 then "" else Spaces(i - 1) + " "
  }

  /** `withIndent(s, i)`: the text `s` after exactly `i` spaces. */
  function WithIndent(s: string, i: nat): (r: string)
    ensures |r| == i + |s|
    ensures forall k :: 0 <= k < i ==> r[k] == ' '
    ensures r[i..] == s
  {
    Spaces(i) + s
  }

  /** `"\n".join(lines)` */
  function Join(lines: seq<string>): (r: string)
    decreases |lines|
  {
    if |lines| == 0 then ""
    else if |lines| == 1 then lines[0]
    else lines[0] + "\n" + Join(lines[1..])
  }

  /** The opening line of a container, before indentation. */
  function Header(k: Kind): (r: string) {
    match k
    case Case(e) => "case " + e + ":"
    case Default => "default:"
    case Switch(e) => "switch (" + e + ") {"
    case For(v, s, e) => "for (int " + v + " = " + s + "; " + v + " < " + e + "; " + v + "++) {"
    case If(e) => "if (" + e + ") {"
    case ElseIf(e) => "else if (" + e + ") {"
    case Else => "else {"
    case Main => "int main() {\n"
  }

  /** The closing lines of a container rendered at indent `i`. */
  function Footer(k: Kind, i: nat): (r: seq<string>) {
    match k
    case Case(_) => [WithIndent("break;", i + 4)]
    case Default => [WithIndent("break;", i + 4)]
    case Main => [WithIndent("return 0;", i + 4), WithIndent("}", i)]
    case _ => [WithIndent("}", i)]
  }

  /** The text of a leaf statement, before indentation. */
  function LeafText(n: Node): (r: string)
    requires !n.Block?
  {
    match n
    case Id(v) => v
    case Assign(l, r) => l + " = " + r + ";"
    case Print(s) => "printf(\"%s\\n\", \"" + s + "\");"
    case Printi(s) => "printf(\"%d\\n\", " + s + ");"
  }

  /** `emit(indent)` of every node class. */
  function Emit(n: Node, i: nat): (r: string)
    decreases n, 1
  {
    match n
    case Block(k, body) => Join([WithIndent(Header(k), i)] + EmitEach(body, i + 4) + Footer(k, i))
    case _ => WithIndent(LeafText(n), i)
  }

  /** The rendering of each child, in order (the loop over `self.stmts`). */
  function EmitEach(cs: seq<Node>, i: nat): (r: seq<string>)
    ensures |r| == |cs|
    decreases cs, 0
  {
    if cs == [] then [] else [Emit(cs[0], i)] + EmitEach(cs[1..], i)
  }

  // ---------------------------------------------------------------------
  // A line-by-line reference rendering
  // ---------------------------------------------------------------------

  /** The rendered text as a flat list of lines, with no joining inside containers. */
  function Lines(n: Node, i: nat): (r: seq<string>)
    ensures |r| > 0
    decreases n, 1
  {
    match n
    case Block(k, body) => [WithIndent(Header(k), i)] + LinesEach(body, i + 4) + Footer(k, i)
    case _ => [WithIndent(LeafText(n), i)]
  }

  function LinesEach(cs: seq<Node>, i: nat): (r: seq<string>)
    ensures |r| == 0 <==> |cs| == 0
    decreases cs, 0
  {
    if cs == [] then [] else Lines(cs[0], i) + LinesEach(cs[1..], i)
  }

  /** Every line of `ls` with `k` more spaces in front. */
  function Shift(ls: seq<string>, k: nat): (r: seq<string>)
    ensures |r| == |ls|
  {
    if ls == [] then [] else [Spaces(k) + ls[0]] + Shift(ls[1..], k)
  }

  // ---------------------------------------------------------------------
  // Properties of the rendering
  // ---------------------------------------------------------------------

  /** Joining two non-empty runs of lines puts exactly one newline between them. */
  lemma {:induction false} JoinAppend(a: seq<string>, b: seq<string>)
    requires |a| > 0 && |b| > 0
    ensures Join(a + b) == Join(a) + "\n" + Join(b)
    decreases |a|
  {
    if |a| == 1 {
      assert (a + b)[1..] == b;
    } else {
      assert (a + b)[1..] == a[1..] + b;
      JoinAppend(a[1..], b);
    }
  }

  /** Replacing a middle run of lines by one that joins to the same text keeps the joined text. */
  lemma JoinSplice(a: seq<string>, x: seq<string>, y: seq<string>, b: seq<string>)
    requires |a| > 0 && |b| > 0
    requires Join(x) == Join(y) && (|x| == 0 <==> |y| == 0)
    ensures Join(a + x + b) == Join(a + y + b)
  {
    if |x| == 0 {
      assert a + x + b == a + y + b;
    } else {
      JoinAppend(a + x, b);
      JoinAppend(a, x);
      JoinAppend(a + y, b);
      JoinAppend(a, y);
    }
  }

  /** The nested rendering of `emit` equals the flat line list joined once. */
  lemma {:induction false} EmitIsJoinedLines(n: Node, i: nat)
    ensures Emit(n, i) == Join(Lines(n, i))
    decreases n, 1
  {
    match n
    case Block(k, body) =>
      EmitEachIsJoinedLines(body, i + 4);
      JoinSplice([WithIndent(Header(k), i)], EmitEach(body, i + 4), LinesEach(body, i + 4), Footer(k, i));
    case _ =>
  }

  lemma {:induction false} EmitEachIsJoinedLines(cs: seq<Node>, i: nat)
    ensures Join(EmitEach(cs, i)) == Join(LinesEach(cs, i))
    decreases cs, 0
  {
    if cs != [] {
      EmitIsJoinedLines(cs[0], i);
      EmitEachIsJoinedLines(cs[1..], i);
      if cs[1..] != [] {
        JoinAppend([Emit(cs[0], i)], EmitEach(cs[1..], i));
        JoinAppend(Lines(cs[0], i), LinesEach(cs[1..], i));
      } else {
        assert LinesEach(cs, i) == Lines(cs[0], i);
      }
    }
  }

  lemma SpacesAdd(i: nat, k: nat)
    ensures Spaces(i + k) == Spaces(k) + Spaces(i)
  {
    assert forall j :: 0 <= j < i + k ==> (Spaces(k) + Spaces(i))[j] == ' ';
  }

  lemma {:induction false} ShiftAppend(a: seq<string>, b: seq<string>, k: nat)
    ensures Shift(a + b, k) == Shift(a, k) + Shift(b, k)
    decreases |a|
  {
    if a == [] {
      assert a + b == b;
    } else {
      assert (a + b)[1..] == a[1..] + b;
      ShiftAppend(a[1..], b, k);
      assert [Spaces(k) + a[0]] + (Shift(a[1..], k) + Shift(b, k))
          == ([Spaces(k) + a[0]] + Shift(a[1..], k)) + Shift(b, k);
    }
  }

  /** Line `j` of `Shift(ls, k)` is line `j` of `ls` after `k` spaces. */
  lemma {:induction false} ShiftAt(ls: seq<string>, k: nat, j: nat)
    requires j < |ls|
    ensures Shift(ls, k)[j] == Spaces(k) + ls[j]
    decreases |ls|
  {
    if j > 0 {
      ShiftAt(ls[1..], k, j - 1);
    }
  }

  lemma WithIndentShift(s: string, i: nat, k: nat)
    ensures WithIndent(s, i + k) == Spaces(k) + WithIndent(s, i)
  {
    var a, b := Spaces(k), Spaces(i);
    assert WithIndent(s, i + k) == (a + b) + s by { SpacesAdd(i, k); }
    assert (a + b) + s == a + (b + s);
  }

  lemma FooterShift(kd: Kind, i: nat, k: nat)
    ensures Footer(kd, i + k) == Shift(Footer(kd, i), k)
  {
    WithIndentShift("}", i, k);
    WithIndentShift("break;", i + 4, k);
    WithIndentShift("return 0;", i + 4, k);
    assert i + k + 4 == i + 4 + k;
  }

  /**
   * Rendering at a deeper indent only puts more spaces in front of every line:
   * the layout of a subtree does not depend on where it is nested.
   */
  lemma {:induction false} LinesShift(n: Node, i: nat, k: nat)
    ensures Lines(n, i + k) == Shift(Lines(n, i), k)
    decreases n, 1
  {
    match n
    case Block(kd, body) =>
      LinesEachShift(body, i + 4, k);
      assert i + k + 4 == i + 4 + k;
      BlockShift(kd, body, i, k);
    case _ =>
      WithIndentShift(LeafText(n), i, k);
  }

  /** One step of `LinesShift`: a block shifts once its children do. */
  lemma BlockShift(kd: Kind, body: seq<Node>, i: nat, k: nat)
    requires LinesEach(body, i + k + 4) == Shift(LinesEach(body, i + 4), k)
    ensures Lines(Block(kd, body), i + k) == Shift(Lines(Block(kd, body), i), k)
  {
    var h, b, f := [WithIndent(Header(kd), i)], LinesEach(body, i + 4), Footer(kd, i);
    assert [WithIndent(Header(kd), i + k)] == Shift(h, k) by {
      WithIndentShift(Header(kd), i, k);
    }
    assert Footer(kd, i + k) == Shift(f, k) by { FooterShift(kd, i, k); }
    assert Shift(h + b + f, k) == Shift(h, k) + Shift(b, k) + Shift(f, k) by {
      ShiftAppend(h + b, f, k);
      ShiftAppend(h, b, k);
    }
  }

  lemma {:induction false} LinesEachShift(cs: seq<Node>, i: nat, k: nat)
    ensures LinesEach(cs, i + k) == Shift(LinesEach(cs, i), k)
    decreases cs, 0
  {
    if cs != [] {
      LinesShift(cs[0], i, k);
      LinesEachShift(cs[1..], i, k);
      ShiftAppend(Lines(cs[0], i), LinesEach(cs[1..], i), k);
    }
  }

  /** Every line of `ls` starts with `k` spaces. */
  predicate Indented(ls: seq<string>, k: nat) {
    forall j :: 0 <= j < |ls| ==> |ls[j]| >= k && ls[j][..k] == Spaces(k)
  }

  lemma ShiftIndented(ls: seq<string>, k: nat)
    ensures Indented(Shift(ls, k), k)
  {
    forall j | 0 <= j < |ls|
      ensures |Shift(ls, k)[j]| >= k && Shift(ls, k)[j][..k] == Spaces(k)
    {
      ShiftAt(ls, k, j);
    }
  }

  /**
   * Every element of the line list a node renders at indent `i` starts with
   * `i` spaces (an element holds several text lines when an expression or
   * the `main` header contains a newline).
   */
  lemma LinesIndented(n: Node, i: nat)
    ensures Indented(Lines(n, i), i)
  {
    var ls := Lines(n, 0);
    LinesShift(n, 0, i);
    ShiftIndented(ls, i);
    assert Lines(n, i) == Shift(ls, i);
  }

  lemma LinesEachIndented(cs: seq<Node>, i: nat)
    ensures Indented(LinesEach(cs, i), i)
  {
    var ls := LinesEach(cs, 0);
    LinesEachShift(cs, 0, i);
    ShiftIndented(ls, i);
    assert LinesEach(cs, i) == Shift(ls, i);
  }

  /**
   * The layout of every container, element by element of its line list: its
   * opening line at its own indent, every element its children render at
   * four more spaces, then its closing lines — `}` at its own indent, or for
   * `case`/`default` one `break;` four spaces in.
   */
  lemma BlockLayout(k: Kind, body: seq<Node>, i: nat)
    ensures var ls := Lines(Block(k, body), i);
      var m := |LinesEach(body, i + 4)|;
      && Emit(Block(k, body), i) == Join(ls)
      && ls[0] == WithIndent(Header(k), i)
      && |ls| > m && Indented(ls[1..m + 1], i + 4)
      && (k.Case? || k.Default? ==> |ls| == m + 2 && ls[m + 1] == Spaces(i + 4) + "break;")
      && (k.Main? ==> |ls| == m + 3 && ls[m + 1] == Spaces(i + 4) + "return 0;" && ls[m + 2] == Spaces(i) + "}")
      && (HasClose(Block(k, body)) && !k.Main? ==> |ls| == m + 2 && ls[m + 1] == Spaces(i) + "}")
  {
    EmitIsJoinedLines(Block(k, body), i);
    LinesEachIndented(body, i + 4);
    var ls := Lines(Block(k, body), i);
    var m := |LinesEach(body, i + 4)|;
    assert ls[1..m + 1] == LinesEach(body, i + 4);
  }

  /**
   * The header of `main` carries its own newline, so the rendered program has
   * a blank line right after `int main() {`.
   */
  lemma MainBlankLine(body: seq<Node>, i: nat)
    ensures Emit(Block(Main, body), i) ==
      Spaces(i) + "int main() {\n\n" + Join(LinesEach(body, i + 4) + Footer(Main, i))
  {
    var rest := LinesEach(body, i + 4) + Footer(Main, i);
    var h := Spaces(i) + "int main() {\n";
    EmitIsJoinedLines(Block(Main, body), i);
    assert Lines(Block(Main, body), i) == [h] + rest;
    JoinCons(h, rest);
    assert h + "\n" == Spaces(i) + "int main() {\n\n" by {
      assert "int main() {\n" + "\n" == "int main() {\n\n";
    }
  }

  /**
   * `Print` puts its text between quotes after a `%s` format, `Printi` puts
   * it bare after a `%d` format, at every indent; so the two never render alike.
   */
  lemma PrintFormats(s: string, i: nat)
    ensures Emit(Print(s), i) == Spaces(i) + ("printf(\"%s\\n\", \"" + s + "\");")
    ensures Emit(Printi(s), i) == Spaces(i) + ("printf(\"%d\\n\", " + s + ");")
    ensures Emit(Print(s), i) != Emit(Printi(s), i)
  {
    var p, q := "printf(\"%s\\n\", \"", "printf(\"%d\\n\", ";
    assert p[9] == 's' && q[9] == 'd';
    assert LeafText(Print(s))[9] == 's' by { assert LeafText(Print(s)) == p + (s + "\");"); }
    assert LeafText(Printi(s))[9] == 'd' by { assert LeafText(Printi(s)) == q + (s + ");"); }
    assert Emit(Print(s), i)[i..] == LeafText(Print(s));
    assert Emit(Printi(s), i)[i..] == LeafText(Printi(s));
  }

  /** Joining one more line in front. */
  lemma JoinCons(x: string, t: seq<string>)
    requires |t| > 0
    ensures Join([x] + t) == x + "\n" + Join(t)
  {
    assert ([x] + t)[1..] == t;
  }

  // ---------------------------------------------------------------------
  // Balanced braces
  // ---------------------------------------------------------------------

  /** How many times `c` occurs in `s`. */
  function Count(c: char, s: string): (r: nat) {
    if s == [] then 0 else (if s[0] == c then 1 else 0) + Count(c, s[1..])
  }

  /** Opening minus closing braces in a text. */
  function Balance(s: string): (r: int) {
    Count('{', s) - Count('}', s)
  }

  function BalanceAll(ls: seq<string>): (r: int) {
    if ls == [] then 0 else Balance(ls[0]) + BalanceAll(ls[1..])
  }

  predicate BraceFree(s: string) {
    '{' !in s && '}' !in s
  }

  /** Every expression text in the tree is free of braces. */
  predicate ExprsBraceFree(n: Node)
    decreases n, 1
  {
    match n
    case Id(v) => BraceFree(v)
    case Assign(l, r) => BraceFree(l) && BraceFree(r)
    case Print(s) => BraceFree(s)
    case Printi(s) => BraceFree(s)
    case Block(k, body) => KindBraceFree(k) && AllBraceFree(body)
  }

  predicate AllBraceFree(cs: seq<Node>)
    decreases cs, 0
  {
    cs == [] || (ExprsBraceFree(cs[0]) && AllBraceFree(cs[1..]))
  }

  predicate KindBraceFree(k: Kind) {
    match k
    case Case(e) => BraceFree(e)
    case Switch(e) => BraceFree(e)
    case For(v, s, e) => BraceFree(v) && BraceFree(s) && BraceFree(e)
    case If(e) => BraceFree(e)
    case ElseIf(e) => BraceFree(e)
    case _ => true
  }

  lemma {:induction false} CountConcat(c: char, a: string, b: string)
    ensures Count(c, a + b) == Count(c, a) + Count(c, b)
    decreases |a|
  {
    if a == [] {
      assert a + b == b;
    } else {
      assert (a + b)[1..] == a[1..] + b;
      CountConcat(c, a[1..], b);
    }
  }

  lemma BalanceConcat(a: string, b: string)
    ensures Balance(a + b) == Balance(a) + Balance(b)
  {
    CountConcat('{', a, b);
    CountConcat('}', a, b);
  }

  lemma {:induction false} CountAbsent(c: char, s: string)
    requires c !in s
    ensures Count(c, s) == 0
    decreases |s|
  {
    if s != [] {
      assert c !in s[1..];
      CountAbsent(c, s[1..]);
    }
  }

  lemma BraceFreeBalance(s: string)
    requires BraceFree(s)
    ensures Balance(s) == 0
  {
    CountAbsent('{', s);
    CountAbsent('}', s);
  }

  lemma {:induction false} BalanceAllAppend(a: seq<string>, b: seq<string>)
    ensures BalanceAll(a + b) == BalanceAll(a) + BalanceAll(b)
    decreases |a|
  {
    if a == [] {
      assert a + b == b;
    } else {
      assert (a + b)[1..] == a[1..] + b;
      BalanceAllAppend(a[1..], b);
    }
  }

  lemma {:induction false} JoinBalance(ls: seq<string>)
    ensures Balance(Join(ls)) == BalanceAll(ls)
    decreases |ls|
  {
    if |ls| == 1 {
      assert ls[1..] == [];
    } else if |ls| > 1 {
      JoinBalance(ls[1..]);
      BalanceConcat(ls[0] + "\n", Join(ls[1..]));
      BalanceConcat(ls[0], "\n");
    }
  }

  lemma OpenBalance(p: string)
    requires BraceFree(p)
    ensures Balance(p + "{") == 1
  {
    BalanceConcat(p, "{");
    BraceFreeBalance(p);
    assert "{"[1..] == "";
  }

  lemma CloseBalance(p: string)
    requires BraceFree(p)
    ensures Balance(p + "}") == -1
  {
    BalanceConcat(p, "}");
    BraceFreeBalance(p);
    assert "}"[1..] == "";
  }

  /** The balance of `pre + e + post` when `e` holds no brace. */
  lemma Around(pre: string, e: string, post: string)
    requires BraceFree(e)
    ensures Balance(pre + e + post) == Balance(pre) + Balance(post)
  {
    BalanceConcat(pre + e, post);
    BalanceConcat(pre, e);
    BraceFreeBalance(e);
  }

  /** A header of the shape `pre (e) {`. */
  lemma ParenHeaderBalance(pre: string, e: string)
    requires BraceFree(pre) && BraceFree(e)
    ensures Balance(pre + e + ") {") == 1
  {
    Around(pre, e, ") {");
    BraceFreeBalance(pre);
    OpenBalance(") ");
    assert ") " + "{" == ") {";
  }

  lemma ForHeaderBalance(v: string, s: string, e: string)
    requires BraceFree(v) && BraceFree(s) && BraceFree(e)
    ensures Balance(Header(For(v, s, e))) == 1
  {
    var p := "for (int " + v + " = " + s + "; " + v + " < " + e + "; " + v + "++) ";
    assert BraceFree(p);
    OpenBalance(p);
    assert p + "{" == Header(For(v, s, e));
  }

  lemma HeaderBalance(k: Kind)
    requires KindBraceFree(k)
    ensures Balance(Header(k)) == if k.Case? || k.Default? then 0 else 1
  {
    match k
    case Case(e) =>
      WrappedBalance("case ", e, ":");
    case Default =>
      BraceFreeBalance("default:");
    case Switch(e) =>
      ParenHeaderBalance("switch (", e);
    case For(v, s, e) =>
      ForHeaderBalance(v, s, e);
    case If(e) =>
      ParenHeaderBalance("if (", e);
    case ElseIf(e) =>
      ParenHeaderBalance("else if (", e);
    case Else =>
      ElseHeaderBalance();
    case Main =>
      MainHeaderBalance();
  }

  lemma ElseHeaderBalance()
    ensures Balance("else {") == 1
  {
    OpenBalance("else ");
    assert "else " + "{" == "else {";
  }

  /** A brace-free text, one opening brace, and another brace-free text. */
  lemma OpenLine(p: string, q: string)
    requires BraceFree(p) && BraceFree(q)
    ensures Balance(p + "{" + q) == 1
  {
    OpenBalance(p);
    BraceFreeBalance(q);
    BalanceConcat(p + "{", q);
  }

  lemma MainHeaderBalance()
    ensures Balance("int main() {\n") == 1
  {
    OpenLine("int main() ", "\n");
    assert "int main() " + "{" + "\n" == "int main() {\n";
  }

  lemma FooterBalance(k: Kind, i: nat)
    ensures BalanceAll(Footer(k, i)) == if k.Case? || k.Default? then 0 else -1
  {
    CloseBalance(Spaces(i));
    BraceFreeBalance(Spaces(i + 4) + "break;");
    BraceFreeBalance(Spaces(i + 4) + "return 0;");
    var close := [WithIndent("}", i)];
    assert BalanceAll(close) == -1 by {
      assert close[1..] == [];
    }
    if k.Main? {
      assert Footer(k, i)[1..] == close;
    }
  }

  /** Each container line opens as many braces as its closing lines close. */
  lemma KindBalance(k: Kind, i: nat)
    requires KindBraceFree(k)
    ensures Balance(WithIndent(Header(k), i)) + BalanceAll(Footer(k, i)) == 0
  {
    BraceFreeBalance(Spaces(i));
    BalanceConcat(Spaces(i), Header(k));
    HeaderBalance(k);
    FooterBalance(k, i);
  }

  /** A leaf text of the shape `pre e post` with brace-free parts. */
  lemma WrappedBalance(pre: string, e: string, post: string)
    requires BraceFree(pre) && BraceFree(e) && BraceFree(post)
    ensures Balance(pre + e + post) == 0
  {
    Around(pre, e, post);
    BraceFreeBalance(pre);
    BraceFreeBalance(post);
  }

  lemma LeafBalance(n: Node, i: nat)
    requires !n.Block? && ExprsBraceFree(n)
    ensures Balance(WithIndent(LeafText(n), i)) == 0
  {
    LeafPiecesBraceFree();
    assert BraceFree(LeafText(n));
    assert BraceFree(Spaces(i));
    BraceFreeBalance(Spaces(i) + LeafText(n));
  }

  /** The fixed text around the expressions of a leaf statement. */
  lemma LeafPiecesBraceFree()
    ensures BraceFree(" = ") && BraceFree(";")
    ensures BraceFree("printf(\"%s\\n\", \"") && BraceFree("\");")
    ensures BraceFree("printf(\"%d\\n\", ") && BraceFree(");")
  {
  }

  lemma {:induction false} LinesBalanced(n: Node, i: nat)
    requires ExprsBraceFree(n)
    ensures BalanceAll(Lines(n, i)) == 0
    decreases n, 1
  {
    assert BraceFree(Spaces(i));
    match n
    case Block(k, body) =>
      LinesEachBalanced(body, i + 4);
      KindBalance(k, i);
      BalanceAllAppend([WithIndent(Header(k), i)] + LinesEach(body, i + 4), Footer(k, i));
      BalanceAllAppend([WithIndent(Header(k), i)], LinesEach(body, i + 4));
    case _ =>
      LeafBalance(n, i);
  }

  lemma {:induction false} LinesEachBalanced(cs: seq<Node>, i: nat)
    requires AllBraceFree(cs)
    ensures BalanceAll(LinesEach(cs, i)) == 0
    decreases cs, 0
  {
    if cs != [] {
      LinesBalanced(cs[0], i);
      LinesEachBalanced(cs[1..], i);
      BalanceAllAppend(Lines(cs[0], i), LinesEach(cs[1..], i));
    }
  }

  /** Every prefix of `ls` keeps a brace balance of at least `lo`. */
  predicate NeverBelow(ls: seq<string>, lo: int) {
    forall m :: 0 <= m <= |ls| ==> BalanceAll(ls[..m]) >= lo
  }

  lemma NeverBelowAppend(a: seq<string>, b: seq<string>, lo: int)
    requires NeverBelow(a, lo) && NeverBelow(b, lo - BalanceAll(a))
    ensures NeverBelow(a + b, lo)
  {
    forall m | 0 <= m <= |a + b|
      ensures BalanceAll((a + b)[..m]) >= lo
    {
      if m <= |a| {
        assert (a + b)[..m] == a[..m];
      } else {
        var t := b[..m - |a|];
        assert (a + b)[..m] == a + t;
        assert a[..|a|] == a;
        BalanceAllAppend(a, t);
      }
    }
  }

  lemma SingleLine(l: string, lo: int)
    requires lo <= 0 && lo <= Balance(l)
    ensures NeverBelow([l], lo)
  {
    assert [l][..0] == [] && [l][..1] == [l] && [l][1..] == [];
  }

  lemma FooterNeverBelow(k: Kind, i: nat)
    ensures NeverBelow(Footer(k, i), if k.Case? || k.Default? then 0 else -1)
  {
    var close := WithIndent("}", i);
    var ret := WithIndent("return 0;", i + 4);
    CloseBalance(Spaces(i));
    BraceFreeBalance(Spaces(i + 4) + "break;");
    BraceFreeBalance(Spaces(i + 4) + "return 0;");
    if k.Case? || k.Default? {
      SingleLine(WithIndent("break;", i + 4), 0);
    } else if k.Main? {
      SingleLine(ret, -1);
      SingleLine(close, -1);
      assert BalanceAll([ret]) == 0 by { assert [ret][1..] == []; }
      NeverBelowAppend([ret], [close], -1);
      assert Footer(k, i) == [ret] + [close];
    } else {
      SingleLine(close, -1);
    }
  }

  /**
   * Read line by line, no prefix of a node's lines closes a brace it has not
   * opened.
   */
  lemma {:induction false} LinesNeverBelow(n: Node, i: nat)
    requires ExprsBraceFree(n)
    ensures NeverBelow(Lines(n, i), 0)
    decreases n, 1
  {
    assert BraceFree(Spaces(i));
    match n
    case Block(k, body) =>
      var h := WithIndent(Header(k), i);
      var b := LinesEach(body, i + 4);
      KindBalance(k, i);
      FooterBalance(k, i);
      SingleLine(h, 0);
      LinesEachNeverBelow(body, i + 4);
      LinesEachBalanced(body, i + 4);
      assert BalanceAll([h]) == Balance(h) by { assert [h][1..] == []; }
      NeverBelowAppend([h], b, 0);
      BalanceAllAppend([h], b);
      FooterNeverBelow(k, i);
      NeverBelowAppend([h] + b, Footer(k, i), 0);
    case _ =>
      LeafBalance(n, i);
      SingleLine(WithIndent(LeafText(n), i), 0);
  }

  lemma {:induction false} LinesEachNeverBelow(cs: seq<Node>, i: nat)
    requires AllBraceFree(cs)
    ensures NeverBelow(LinesEach(cs, i), 0)
    decreases cs, 0
  {
    if cs == [] {
      assert LinesEach(cs, i)[..0] == [];
    } else {
      LinesNeverBelow(cs[0], i);
      LinesBalanced(cs[0], i);
      LinesEachNeverBelow(cs[1..], i);
      NeverBelowAppend(Lines(cs[0], i), LinesEach(cs[1..], i), 0);
    }
  }

  /** With brace-free expressions, the rendered text has as many `{` as `}`. */
  lemma EmitBalanced(n: Node, i: nat)
    requires ExprsBraceFree(n)
    ensures Count('{', Emit(n, i)) == Count('}', Emit(n, i))
    ensures Emit(n, i) == Join(Lines(n, i)) && NeverBelow(Lines(n, i), 0) && BalanceAll(Lines(n, i)) == 0
  {
    LinesNeverBelow(n, i);
    EmitIsJoinedLines(n, i);
    JoinBalance(Lines(n, i));
    LinesBalanced(n, i);
  }
}
