/**
 * The incremental builder `Program` of generator.py: a cursor `cur` (the scope
 * taking statements) and a stack of open ancestor scopes, `Main` at the bottom.
 *
 * The specification functions below work on the "extended stack"
 * `stack + [cur]`, which is exactly what every command of the source builds
 * first (`self.stack.append(self.cur)`) before it folds scopes back together.
 */
module Builder {
  import opened Nodes

  datatype Option<T> = None | Some(value: T)

  /** What `close()` leaves on the stack, and the node it returns. */
  datatype Closed = Closed(stack: seq<Node>, x: Option<Node>)

  predicate AllContainers(s: seq<Node>) {
    forall k :: 0 <= k < |s| ==> IsContainer(s[k])
  }

  function Last(s: seq<Node>): (r: Node)
    requires |s| > 0
  {
    s[|s| - 1]
  }

  /**
   * The loop of `close()` with `buf` holding the transparent entries popped
   * so far (in the order popped) and `x` the last entry popped: the first
   * entry that has `close` takes every entry of `buf` and is pushed back;
   * when the stack runs out, the transparent entries stay popped.
   */
  function CloseLoop(s: seq<Node>, buf: seq<Node>, x: Option<Node>): (c: Closed)
    requires AllContainers(s)
    ensures AllContainers(c.stack) && |c.stack| <= |s|
    decreases |s|
  {
    if s == [] then Closed([], x)
    else
      var y := Last(s);
      if HasClose(y) then
        var z := AppendAll(y, buf);
        Closed(s[..|s| - 1] + [z], Some(z))
      else
        CloseLoop(s[..|s| - 1], buf + [y], Some(y))
  }

  /** `close()`: the loop above, started with an empty `buf` and no entry popped. */
  function CloseSpec(s: seq<Node>): (c: Closed)
    requires AllContainers(s)
    ensures AllContainers(c.stack) && |c.stack| <= |s|
  {
    CloseLoop(s, [], None)
  }

  /** Pops the top entry and appends it to the entry below: `stack[-1].statement(stack.pop())`. */
  function Attach(s: seq<Node>): (r: seq<Node>)
    requires |s| >= 2 && IsContainer(s[|s| - 2])
    ensures |r| == |s| - 1
  {
    s[..|s| - 2] + [Statement(s[|s| - 2], s[|s| - 1])]
  }

  /** The `while True` loop of `__docase`: fold until `close()` returns a `Switch`. */
  function FoldToSwitch(s: seq<Node>): (r: Option<seq<Node>>)
    requires AllContainers(s)
    decreases |s|
  {
    var c := CloseSpec(s);
    if c.x.Some? && IsSwitch(c.x.value) then Some(c.stack)
    else if |c.stack| < 2 then None
    else FoldToSwitch(Attach(c.stack))
  }

  /** The `while True` loop of `else_`/`elseif`: fold until the node just attached is an `If`. */
  function FoldToIf(s: seq<Node>): (r: Option<seq<Node>>)
    requires AllContainers(s)
    decreases |s|
  {
    var c := CloseSpec(s);
    if |c.stack| < 2 then None
    else if IsIf(Last(c.stack)) then Some(Attach(c.stack))
    else FoldToIf(Attach(c.stack))
  }

  /** The `while True` loop of `Program.emit`: fold until one entry is left. */
  function FoldAll(s: seq<Node>): (r: Option<Node>)
    requires AllContainers(s)
    decreases |s|
  {
    var c := CloseSpec(s);
    if |c.stack| == 1 then Some(c.stack[0])
    else if |c.stack| < 2 then None
    else FoldAll(Attach(c.stack))
  }

  /** `__docase` on the extended stack: the new stack, under the new case. */
  function CaseSpec(ext: seq<Node>): (r: Option<seq<Node>>)
    requires |ext| > 0 && AllContainers(ext)
  {
    if IsSwitch(Last(ext)) then Some(ext) else FoldToSwitch(ext)
  }

  /** `doclose` on the extended stack: the new extended stack (its top is the new cursor). */
  function DoCloseSpec(ext: seq<Node>): (r: Option<seq<Node>>)
    requires AllContainers(ext)
  {
    var c := CloseSpec(ext);
    if |c.stack| < 2 then None else Some(Attach(c.stack))
  }

  /** The text `Program.emit(indent)` returns for the scopes `stack + [cur]`. */
  function Render(ext: seq<Node>, indent: nat): (r: Option<string>)
    requires AllContainers(ext)
  {
    match FoldAll(ext)
    case Some(root) => Some(Emit(root, indent))
    case None => None
  }

  // ---------------------------------------------------------------------
  // Well-formed scope stacks
  // ---------------------------------------------------------------------

  /** The entry at `k` has `close`, or else sits directly above a `Switch`. */
  ghost predicate CaseInSwitch(s: seq<Node>, k: nat)
    requires 0 < k < |s|
  {
    HasClose(s[k]) || IsSwitch(s[k - 1])
  }

  /** Every transparent entry (`Case`/`Default`) sits directly above a `Switch`. */
  ghost predicate Nested(s: seq<Node>) {
    && AllContainers(s)
    && (|s| > 0 ==> HasClose(s[0]))
    && forall k :: 0 < k < |s| ==> CaseInSwitch(s, k)
  }

  /** `Main` at the bottom and nowhere else, and every case directly inside its switch. */
  ghost predicate WellFormedScopes(s: seq<Node>) {
    && |s| > 0
    && IsMain(s[0])
    && (forall k :: 0 < k < |s| ==> !IsMain(s[k]))
    && Nested(s)
  }

  predicate HasSwitch(s: seq<Node>) {
    exists k :: 0 <= k < |s| && IsSwitch(s[k])
  }

  /** An `If` or `ElseIf` that still has a parent scope below it. */
  predicate HasIfWithParent(s: seq<Node>) {
    exists k :: 0 < k < |s| && IsIf(s[k])
  }

  /** The leaf statements of a tree, in order. */
  function Leaves(n: Node): (r: seq<Node>)
    decreases n, 1
  {
    if n.Block? then LeavesAll(n.body) else [n]
  }

  function LeavesAll(cs: seq<Node>): (r: seq<Node>)
    decreases cs, 0
  {
    if cs == [] then [] else Leaves(cs[0]) + LeavesAll(cs[1..])
  }

  // ---------------------------------------------------------------------
  // Folding steps on a well-formed stack
  // ---------------------------------------------------------------------

  lemma {:induction false} LeavesAllAppend(a: seq<Node>, b: seq<Node>)
    ensures LeavesAll(a + b) == LeavesAll(a) + LeavesAll(b)
    decreases |a|
  {
    if a == [] {
      assert a + b == b;
    } else {
      assert (a + b)[1..] == a[1..] + b;
      LeavesAllAppend(a[1..], b);
    }
  }

  lemma LeavesAllSingle(x: Node)
    ensures LeavesAll([x]) == Leaves(x)
  {
    assert [x][1..] == [];
  }

  /** Appending a statement to a scope appends its leaves. */
  lemma LeavesStatement(p: Node, c: Node)
    requires IsContainer(p)
    ensures Leaves(Statement(p, c)) == Leaves(p) + Leaves(c)
  {
    LeavesAllAppend(p.body, [c]);
    LeavesAllSingle(c);
  }

  /** Reattaching the top scope to its parent neither loses nor reorders a statement. */
  lemma AttachKeepsLeaves(s: seq<Node>)
    requires |s| >= 2 && IsContainer(s[|s| - 2])
    ensures LeavesAll(Attach(s)) == LeavesAll(s)
  {
    var n := |s|;
    var pre, p, c := s[..n - 2], s[n - 2], s[n - 1];
    assert LeavesAll(s) == LeavesAll(pre) + (Leaves(p) + Leaves(c)) by {
      assert s == pre + [p, c];
      LeavesAllAppend(pre, [p, c]);
      assert [p, c][1..] == [c];
      LeavesAllSingle(c);
    }
    assert LeavesAll(Attach(s)) == LeavesAll(pre) + Leaves(Statement(p, c)) by {
      LeavesAllAppend(pre, [Statement(p, c)]);
      LeavesAllSingle(Statement(p, c));
    }
    LeavesStatement(p, c);
  }

  lemma AttachShape(s: seq<Node>)
    requires |s| >= 2 && AllContainers(s)
    ensures Attach(s)[..|s| - 2] == s[..|s| - 2]
    ensures forall k :: 0 <= k < |s| - 1 ==> Attach(s)[k].Block? && Attach(s)[k].kind == s[k].kind
  {
  }

  lemma AttachSlice(s: seq<Node>, j: nat)
    requires |s| >= 2 && j <= |s| - 2 && IsContainer(s[|s| - 2])
    ensures Attach(s)[j..] == Attach(s[j..])
    ensures Attach(s)[..j] == s[..j]
  {
    assert s[j..][..|s| - j - 2] == s[j..|s| - 2];
  }

  lemma AttachNested(s: seq<Node>)
    requires Nested(s) && |s| >= 2
    ensures Nested(Attach(s))
    ensures WellFormedScopes(s) ==> WellFormedScopes(Attach(s))
  {
    AttachShape(s);
    var a := Attach(s);
    forall k | 0 < k < |a|
      ensures CaseInSwitch(a, k)
    {
      assert CaseInSwitch(s, k);
    }
  }

  lemma NestedSuffix(s: seq<Node>, j: nat)
    requires Nested(s) && j < |s| && HasClose(s[j])
    ensures Nested(s[j..])
  {
    var t := s[j..];
    forall k | 0 < k < |t|
      ensures CaseInSwitch(t, k)
    {
      assert CaseInSwitch(s, j + k);
    }
  }

  /** `close()` with a scope that has `close` on top pops and pushes it back unchanged. */
  lemma CloseClosable(s: seq<Node>)
    requires AllContainers(s) && |s| > 0 && HasClose(Last(s))
    ensures CloseSpec(s) == Closed(s, Some(Last(s)))
  {
    var n := |s|;
    assert AppendAll(s[n - 1], []) == s[n - 1];
    assert s[..n - 1] + [s[n - 1]] == s;
  }

  /** `close()` with a case on top of its switch appends the case to the switch. */
  lemma CloseCase(s: seq<Node>)
    requires AllContainers(s) && |s| >= 2 && !HasClose(Last(s)) && IsSwitch(s[|s| - 2])
    ensures CloseSpec(s) == Closed(Attach(s), Some(Last(Attach(s))))
  {
    var n := |s|;
    var t := s[..n - 1];
    assert [] + [s[n - 1]] == [s[n - 1]];
    assert CloseSpec(s) == CloseLoop(t, [s[n - 1]], Some(s[n - 1]));
    assert Last(t) == s[n - 2] && t[..n - 2] == s[..n - 2];
    assert AppendAll(s[n - 2], [s[n - 1]]) == Statement(s[n - 2], s[n - 1]);
  }

  /** On a well-formed stack `close()` folds at most the one case on top into its switch. */
  lemma CloseNested(s: seq<Node>)
    requires Nested(s) && |s| > 0
    ensures HasClose(Last(s)) ==> CloseSpec(s) == Closed(s, Some(Last(s)))
    ensures !HasClose(Last(s)) ==>
      |s| >= 2 && CloseSpec(s) == Closed(Attach(s), Some(Last(Attach(s)))) && HasClose(Last(Attach(s)))
  {
    var n := |s|;
    if HasClose(Last(s)) {
      CloseClosable(s);
    } else {
      assert CaseInSwitch(s, n - 1);
      CloseCase(s);
    }
  }

  /** One fold step does not change what the whole stack folds into. */
  lemma FoldAllStep(s: seq<Node>)
    requires Nested(s) && |s| >= 2
    ensures FoldAll(s) == FoldAll(Attach(s))
  {
    CloseNested(s);
    if !HasClose(Last(s)) {
      AttachNested(s);
      CloseNested(Attach(s));
    }
  }

  /** A single scope folds into itself; it is a switch only if it is one; it has no parent for `else_`. */
  lemma FoldSingle(s: seq<Node>)
    requires Nested(s) && |s| == 1
    ensures FoldAll(s) == Some(s[0])
    ensures FoldToSwitch(s) == if IsSwitch(s[0]) then Some(s) else None
    ensures FoldToIf(s) == None
  {
    CloseNested(s);
  }

  /** One step of the `case`/`default` fold: stop at a switch, otherwise attach the top and go on. */
  lemma FoldToSwitchStep(s: seq<Node>)
    requires Nested(s) && |s| >= 2
    ensures FoldToSwitch(s) == if IsSwitch(Last(s)) then Some(s) else FoldToSwitch(Attach(s))
  {
    CloseNested(s);
    if !HasClose(Last(s)) {
      AttachNested(s);
      CloseNested(Attach(s));
    }
  }

  /** One step of the `else_`/`elseif` fold: an `If` on top is attached and ends it. */
  lemma FoldToIfStep(s: seq<Node>)
    requires Nested(s) && |s| >= 2
    ensures FoldToIf(s) == if IsIf(Last(s)) then Some(Attach(s)) else FoldToIf(Attach(s))
  {
    CloseNested(s);
    if !HasClose(Last(s)) {
      AttachNested(s);
      CloseNested(Attach(s));
    }
  }

  /**
   * `Program.emit` never fails on a well-formed stack: it yields a node of
   * the bottom entry's kind whose first children are the bottom entry's own.
   */
  lemma {:induction false} FoldAllNested(s: seq<Node>)
    requires Nested(s) && |s| > 0
    ensures FoldAll(s).Some?
    ensures FoldAll(s).value.Block? && FoldAll(s).value.kind == s[0].kind
    ensures |FoldAll(s).value.body| >= |s[0].body| && FoldAll(s).value.body[..|s[0].body|] == s[0].body
    decreases |s|
  {
    if |s| == 1 {
      FoldSingle(s);
    } else {
      var a := Attach(s);
      FoldAllStep(s);
      AttachNested(s);
      assert a[0].kind == s[0].kind && |a[0].body| >= |s[0].body| && a[0].body[..|s[0].body|] == s[0].body by {
        if |s| > 2 {
          assert a[0] == s[0];
        }
      }
      FoldAllNested(a);
    }
  }

  /** The tree `Program.emit` folds holds every leaf statement of the stack, in stack order. */
  lemma {:induction false} FoldAllLeaves(s: seq<Node>)
    requires Nested(s) && |s| > 0
    ensures FoldAll(s).Some? && Leaves(FoldAll(s).value) == LeavesAll(s)
    decreases |s|
  {
    if |s| == 1 {
      FoldSingle(s);
      assert s[1..] == [];
    } else {
      FoldAllStep(s);
      AttachNested(s);
      AttachKeepsLeaves(s);
      FoldAllLeaves(Attach(s));
    }
  }

  /** Folding the scopes above `j` into `s[j]` first does not change the final tree. */
  lemma {:induction false} FoldAllSplit(s: seq<Node>, j: nat)
    requires Nested(s) && j < |s| && HasClose(s[j])
    ensures FoldAll(s[j..]).Some? && FoldAll(s[j..]).value.Block?
    ensures FoldAll(s) == FoldAll(s[..j] + [FoldAll(s[j..]).value])
    decreases |s| - j
  {
    NestedSuffix(s, j);
    FoldAllNested(s[j..]);
    if |s| - j == 1 {
      FoldSingle(s[j..]);
      assert s[..j] + [s[j]] == s;
    } else {
      var a := Attach(s);
      FoldAllStep(s);
      AttachNested(s);
      AttachShape(s);
      AttachSlice(s, j);
      FoldAllSplit(a, j);
      FoldAllStep(s[j..]);
    }
  }

  /**
   * The fold of `case`/`default` stops at the nearest open `Switch` (the
   * topmost one, at `j`): everything above it is folded into it and the
   * entries below it are untouched.
   */
  lemma {:induction false} FoldToSwitchFinds(s: seq<Node>, j: nat)
    requires Nested(s) && j < |s| && IsSwitch(s[j])
    requires forall k :: j < k < |s| ==> !IsSwitch(s[k])
    ensures FoldAll(s[j..]).Some?
    ensures FoldToSwitch(s) == Some(s[..j] + [FoldAll(s[j..]).value])
    decreases |s|
  {
    NestedSuffix(s, j);
    FoldAllNested(s[j..]);
    if j == |s| - 1 {
      FoldSingle(s[j..]);
      assert s[..j] + [s[j]] == s;
      if |s| == 1 {
        FoldSingle(s);
      } else {
        FoldToSwitchStep(s);
      }
    } else {
      var a := Attach(s);
      FoldToSwitchStep(s);
      AttachNested(s);
      AttachShape(s);
      AttachSlice(s, j);
      FoldToSwitchFinds(a, j);
      FoldAllStep(s[j..]);
    }
  }

  /** With no open `Switch`, the fold of `case`/`default` runs off the stack. */
  lemma {:induction false} FoldToSwitchFails(s: seq<Node>)
    requires Nested(s) && |s| > 0 && !HasSwitch(s)
    ensures FoldToSwitch(s) == None
    decreases |s|
  {
    if |s| == 1 {
      FoldSingle(s);
    } else {
      FoldToSwitchStep(s);
      AttachNested(s);
      AttachShape(s);
      FoldToSwitchFails(Attach(s));
    }
  }

  /**
   * `else_`/`elseif` close every scope up to and including the nearest `If` or
   * `ElseIf` (at `j`) and append it to its parent, which ends on top.
   */
  lemma {:induction false} FoldToIfFinds(s: seq<Node>, j: nat)
    requires Nested(s) && 0 < j < |s| && IsIf(s[j])
    requires forall k :: j < k < |s| ==> !IsIf(s[k])
    ensures FoldAll(s[j..]).Some? && FoldAll(s[j..]).value.Block?
    ensures FoldToIf(s) == Some(Attach(s[..j] + [FoldAll(s[j..]).value]))
    decreases |s|
  {
    NestedSuffix(s, j);
    FoldAllNested(s[j..]);
    FoldToIfStep(s);
    if j == |s| - 1 {
      FoldSingle(s[j..]);
      assert s[..j] + [s[j]] == s;
    } else {
      var a := Attach(s);
      AttachNested(s);
      AttachShape(s);
      AttachSlice(s, j);
      FoldToIfFinds(a, j);
      FoldAllStep(s[j..]);
    }
  }

  /** With no `If`/`ElseIf` above the bottom scope, `else_`/`elseif` fail. */
  lemma {:induction false} FoldToIfFails(s: seq<Node>)
    requires Nested(s) && |s| > 0 && !HasIfWithParent(s)
    ensures FoldToIf(s) == None
    decreases |s|
  {
    if |s| == 1 {
      FoldSingle(s);
    } else {
      FoldToIfStep(s);
      AttachNested(s);
      AttachShape(s);
      FoldToIfFails(Attach(s));
    }
  }

  // ---------------------------------------------------------------------
  // The commands on a well-formed stack
  // ---------------------------------------------------------------------

  lemma {:induction false} TopmostSwitch(s: seq<Node>) returns (j: nat)
    requires HasSwitch(s)
    ensures j < |s| && IsSwitch(s[j]) && forall k :: j < k < |s| ==> !IsSwitch(s[k])
    decreases |s|
  {
    if IsSwitch(Last(s)) {
      j := |s| - 1;
    } else {
      var i :| 0 <= i < |s| && IsSwitch(s[i]);
      var t := s[..|s| - 1];
      assert t[i] == s[i];
      j := TopmostSwitch(t);
      assert forall k :: j < k < |t| ==> t[k] == s[k];
    }
  }

  lemma {:induction false} TopmostIf(s: seq<Node>) returns (j: nat)
    requires HasIfWithParent(s)
    ensures 0 < j < |s| && IsIf(s[j]) && forall k :: j < k < |s| ==> !IsIf(s[k])
    decreases |s|
  {
    if IsIf(Last(s)) {
      j := |s| - 1;
    } else {
      var i :| 0 < i < |s| && IsIf(s[i]);
      var t := s[..|s| - 1];
      assert t[i] == s[i];
      j := TopmostIf(t);
      assert forall k :: j < k < |t| ==> t[k] == s[k];
    }
  }

  /** Replacing `s[j]` and everything above it by one node of the same kind keeps the stack well formed. */
  lemma NestedReplace(s: seq<Node>, j: nat, r: Node)
    requires Nested(s) && j < |s| && HasClose(s[j]) && r.Block? && r.kind == s[j].kind
    ensures Nested(s[..j] + [r])
    ensures WellFormedScopes(s) ==> WellFormedScopes(s[..j] + [r])
  {
    var t := s[..j] + [r];
    forall k | 0 < k < |t|
      ensures CaseInSwitch(t, k)
    {
      if k < j {
        assert CaseInSwitch(s, k);
      }
    }
  }

  /** Folding the scopes from `j` up keeps every leaf, in order, and the tree `emit` would produce. */
  lemma SplitFacts(s: seq<Node>, j: nat)
    requires Nested(s) && j < |s| && HasClose(s[j])
    ensures FoldAll(s[j..]).Some?
    ensures var r := FoldAll(s[j..]).value; var t := s[..j] + [r];
      && r.Block? && r.kind == s[j].kind
      && Nested(t) && (WellFormedScopes(s) ==> WellFormedScopes(t))
      && LeavesAll(t) == LeavesAll(s) && FoldAll(t) == FoldAll(s)
  {
    NestedSuffix(s, j);
    FoldAllNested(s[j..]);
    FoldAllSplit(s, j);
    var r := FoldAll(s[j..]).value;
    NestedReplace(s, j, r);
    assert LeavesAll(s[..j] + [r]) == LeavesAll(s) by {
      FoldAllLeaves(s[j..]);
      assert s == s[..j] + s[j..];
      LeavesAllAppend(s[..j], s[j..]);
      LeavesAllAppend(s[..j], [r]);
      LeavesAllSingle(r);
    }
  }

  /** Opening a scope that has `close` (or a case right on its switch) keeps the stack well formed. */
  lemma PushFacts(ext: seq<Node>, c: Node)
    requires WellFormedScopes(ext) && c.Block? && c.body == [] && !IsMain(c)
    requires HasClose(c) || IsSwitch(Last(ext))
    ensures WellFormedScopes(ext + [c])
    ensures LeavesAll(ext + [c]) == LeavesAll(ext)
  {
    var t := ext + [c];
    forall k | 0 < k < |t|
      ensures CaseInSwitch(t, k)
    {
      if k < |ext| {
        assert CaseInSwitch(ext, k);
      }
    }
    LeavesAllAppend(ext, [c]);
    LeavesAllSingle(c);
  }

  /** `statement` keeps the stack well formed and adds the leaves of the statement after all others. */
  lemma StatementFacts(ext: seq<Node>, stmt: Node)
    requires WellFormedScopes(ext)
    ensures var t := ext[..|ext| - 1] + [Statement(Last(ext), stmt)];
      WellFormedScopes(t) && LeavesAll(t) == LeavesAll(ext) + Leaves(stmt)
  {
    var n := |ext|;
    var t := ext[..n - 1] + [Statement(Last(ext), stmt)];
    forall k | 0 < k < |t|
      ensures CaseInSwitch(t, k)
    {
      assert CaseInSwitch(ext, k);
    }
    assert ext == ext[..n - 1] + [Last(ext)];
    LeavesAllAppend(ext[..n - 1], [Last(ext)]);
    LeavesAllAppend(ext[..n - 1], [Statement(Last(ext), stmt)]);
    LeavesAllSingle(Last(ext));
    LeavesAllSingle(Statement(Last(ext), stmt));
    LeavesStatement(Last(ext), stmt);
  }

  /**
   * `case`/`default`: they succeed exactly when a `Switch` is open. When
   * `cur` is the switch nothing is folded; when `cur` is the previous case it
   * is appended to its switch; in every case the switch ends on top and no
   * statement is lost or reordered.
   */
  lemma CaseFacts(ext: seq<Node>)
    requires WellFormedScopes(ext)
    ensures CaseSpec(ext).Some? <==> HasSwitch(ext)
    ensures IsSwitch(Last(ext)) ==> CaseSpec(ext) == Some(ext)
    ensures !HasClose(Last(ext)) ==> CaseSpec(ext) == Some(Attach(ext))
    ensures CaseSpec(ext).Some? ==>
      && WellFormedScopes(CaseSpec(ext).value) && IsSwitch(Last(CaseSpec(ext).value))
      && LeavesAll(CaseSpec(ext).value) == LeavesAll(ext)
      && FoldAll(CaseSpec(ext).value) == FoldAll(ext)
  {
    var n := |ext|;
    if n >= 2 {
      assert CaseInSwitch(ext, n - 1);
    }
    if IsSwitch(Last(ext)) {
      assert IsSwitch(ext[n - 1]);
    } else if HasSwitch(ext) {
      var j := TopmostSwitch(ext);
      FoldToSwitchFinds(ext, j);
      SplitFacts(ext, j);
      if !HasClose(Last(ext)) {
        assert CaseInSwitch(ext, n - 1);
        assert j == n - 2;
        CaseOnSwitch(ext);
      }
    } else {
      FoldToSwitchFails(ext);
    }
  }

  lemma CaseOnSwitch(ext: seq<Node>)
    requires WellFormedScopes(ext) && !HasClose(Last(ext)) && IsSwitch(ext[|ext| - 2])
    ensures FoldToSwitch(ext) == Some(Attach(ext))
  {
    AttachNested(ext);
    AttachShape(ext);
    FoldToSwitchStep(ext);
    FoldToSwitchStep(Attach(ext));
  }

  /**
   * `else_`/`elseif`: they succeed exactly when an `If` or `ElseIf` with a
   * parent is open; the topmost one, with everything above it folded in, is
   * appended to its parent, which ends on top.
   */
  lemma ElseFacts(ext: seq<Node>)
    requires WellFormedScopes(ext)
    ensures FoldToIf(ext).Some? <==> HasIfWithParent(ext)
    ensures FoldToIf(ext).Some? ==>
      && WellFormedScopes(FoldToIf(ext).value)
      && LeavesAll(FoldToIf(ext).value) == LeavesAll(ext)
      && FoldAll(FoldToIf(ext).value) == FoldAll(ext)
  {
    if HasIfWithParent(ext) {
      var j := TopmostIf(ext);
      FoldToIfFinds(ext, j);
      SplitFacts(ext, j);
      var t := ext[..j] + [FoldAll(ext[j..]).value];
      AttachNested(t);
      AttachKeepsLeaves(t);
      FoldAllStep(t);
    } else {
      FoldToIfFails(ext);
    }
  }

  /**
   * `doclose`: it succeeds exactly when `cur` has a parent. It appends `cur`
   * to its parent, which becomes the new top; a case is first appended to
   * its switch, so one `doclose` closes both.
   */
  lemma DoCloseFacts(ext: seq<Node>)
    requires WellFormedScopes(ext)
    ensures DoCloseSpec(ext).Some? <==> |ext| >= 2
    ensures HasClose(Last(ext)) && |ext| >= 2 ==> DoCloseSpec(ext) == Some(Attach(ext))
    ensures !HasClose(Last(ext)) ==> |ext| >= 3 && DoCloseSpec(ext) == Some(Attach(Attach(ext)))
    ensures DoCloseSpec(ext).Some? ==>
      && WellFormedScopes(DoCloseSpec(ext).value)
      && LeavesAll(DoCloseSpec(ext).value) == LeavesAll(ext)
      && FoldAll(DoCloseSpec(ext).value) == FoldAll(ext)
  {
    if HasClose(Last(ext)) {
      DoCloseOnClosable(ext);
      if |ext| >= 2 {
        AttachFacts(ext);
      }
    } else {
      DoCloseOnCase(ext);
      AttachFacts(ext);
      AttachFacts(Attach(ext));
    }
  }

  /** `doclose` with a closable scope on top attaches just that scope. */
  lemma DoCloseOnClosable(ext: seq<Node>)
    requires WellFormedScopes(ext) && HasClose(Last(ext))
    ensures DoCloseSpec(ext) == if |ext| >= 2 then Some(Attach(ext)) else None
  {
    CloseNested(ext);
  }

  /** `doclose` with a case on top attaches the case and then its switch. */
  lemma DoCloseOnCase(ext: seq<Node>)
    requires WellFormedScopes(ext) && !HasClose(Last(ext))
    ensures |ext| >= 3 && WellFormedScopes(Attach(ext))
    ensures DoCloseSpec(ext) == Some(Attach(Attach(ext)))
  {
    var n := |ext|;
    CloseNested(ext);
    assert CaseInSwitch(ext, n - 1);
    AttachNested(ext);
    AttachFacts(ext);
  }

  /** One fold step on a well-formed stack keeps it well formed, its leaves and its final tree. */
  lemma AttachFacts(s: seq<Node>)
    requires WellFormedScopes(s) && |s| >= 2
    ensures WellFormedScopes(Attach(s))
    ensures LeavesAll(Attach(s)) == LeavesAll(s)
    ensures FoldAll(Attach(s)) == FoldAll(s)
  {
    AttachNested(s);
    AttachKeepsLeaves(s);
    FoldAllStep(s);
  }

  /**
   * `Program.emit` on a well-formed stack: it always succeeds, the tree it
   * renders is rooted at `Main`, and its statements are those of the stack
   * in order.
   */
  lemma RenderFacts(ext: seq<Node>, indent: nat)
    requires WellFormedScopes(ext)
    ensures Render(ext, indent).Some? && FoldAll(ext).Some?
    ensures IsMain(FoldAll(ext).value) && Leaves(FoldAll(ext).value) == LeavesAll(ext)
    ensures Render(ext, indent) == Some(Emit(FoldAll(ext).value, indent))
  {
    FoldAllNested(ext);
    FoldAllLeaves(ext);
  }
}
