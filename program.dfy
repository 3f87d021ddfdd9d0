/**
 * The `Program` builder of generator.py as a class: the cursor `cur` and the
 * stack of open ancestor scopes are fields that every command updates, and
 * each `while` loop of the source is a loop here, proved against the
 * specification functions of module `Builder`.
 *
 * Every command that can fail returns `ok`. On failure the source has raised
 * an `IndexError` out of `stack.pop()` or `stack[-1]`; at that point the
 * stack is always empty and `cur` is untouched, which is what the contracts
 * below state. Nothing is rolled back.
 */
module Generator {
  import opened Nodes
  import opened Builder

  class Program {
    /** The scope currently taking statements. */
    var cur: Node
    /** The open ancestor scopes of `cur`, outermost first. */
    var stack: seq<Node>
    /** Every statement handed to `statement`, in order. */
    ghost var added: seq<Node>

    /** The scopes, as the source pushes them first thing in most commands. */
    function Ext(): (r: seq<Node>)
      reads this
    {
      stack + [cur]
    }

    predicate Valid()
      reads this
    {
      AllContainers(stack) && IsContainer(cur)
    }

    /**
     * The invariant of correct use: `Main` at the bottom, each case directly
     * on its switch, and the leaf statements of all open scopes, bottom to
     * top, exactly those added so far in the order they were added.
     */
    ghost predicate WellFormed()
      reads this
    {
      && WellFormedScopes(stack + [cur])
      && LeavesAll(stack + [cur]) == LeavesAll(added)
    }

    /** `Program()`: an empty `main` and nothing open above it. */
    constructor ()
      ensures cur == Block(Main, []) && stack == [] && added == []
      ensures Valid() && WellFormed()
    {
      cur := Block(Main, []);
      stack := [];
      added := [];
      new;
      assert LeavesAll([Block(Main, [])]) == [] by {
        assert [Block(Main, [])][1..] == [];
      }
    }

    /** The copy `copy.deepcopy` makes: the same scopes, sharing nothing. */
    constructor Copy(p: Program)
      ensures cur == p.cur && stack == p.stack && added == p.added
    {
      cur := p.cur;
      stack := p.stack;
      added := p.added;
    }

    /** `close()`: see `CloseLoop`; the transparent entries are gathered in `buf`. */
    method Close() returns (x: Option<Node>)
      requires AllContainers(stack)
      modifies this
      ensures Closed(stack, x) == CloseSpec(old(stack))
      ensures cur == old(cur) && added == old(added)
    {
      var buf: seq<Node> := [];
      x := None;
      while |stack| > 0
        invariant AllContainers(stack)
        invariant CloseLoop(stack, buf, x) == CloseSpec(old(stack))
        invariant x.None? ==> buf == []
        invariant cur == old(cur) && added == old(added)
        decreases |stack|
      {
        var y := stack[|stack| - 1];
        stack := stack[..|stack| - 1];
        x := Some(y);
        if HasClose(y) {
          var z := y;
          for i := 0 to |buf|
            invariant z == Block(y.kind, y.body + buf[..i])
          {
            assert buf[..i + 1] == buf[..i] + [buf[i]];
            z := Nodes.Statement(z, buf[i]);
          }
          assert buf[..|buf|] == buf;
          stack := stack + [z];
          x := Some(z);
          break;
        } else {
          buf := buf + [y];
        }
      }
      if x.None? {
        stack := stack + buf;
      }
    }

    /** `x = stack.pop(); stack[-1].statement(x)`, failing on a stack too short for either. */
    method PopAttach() returns (ok: bool, x: Option<Node>)
      requires AllContainers(stack)
      modifies this
      ensures ok <==> |old(stack)| >= 2
      ensures x == if old(stack) == [] then None else Some(Last(old(stack)))
      ensures ok ==> stack == Attach(old(stack))
      ensures !ok ==> stack == []
      ensures cur == old(cur) && added == old(added)
    {
      if |stack| == 0 {
        return false, None;
      }
      var y := stack[|stack| - 1];
      x := Some(y);
      stack := stack[..|stack| - 1];
      if |stack| == 0 {
        return false, x;
      }
      stack := stack[..|stack| - 1] + [Nodes.Statement(stack[|stack| - 1], y)];
      ok := true;
    }

    /** `switch(expr)`: the new switch becomes `cur`, the old `cur` is pushed. */
    method OpenSwitch(e: string)
      requires Valid()
      modifies this
      ensures stack == old(stack) + [old(cur)] && cur == Block(Switch(e), []) && added == old(added)
      ensures Valid()
      ensures old(WellFormed()) ==> WellFormed()
    {
      ghost var ext := Ext();
      stack := stack + [cur];
      cur := Block(Switch(e), []);
      if WellFormedScopes(ext) && LeavesAll(ext) == LeavesAll(added) {
        PushFacts(ext, cur);
      }
    }

    /** `if_(expr)` */
    method OpenIf(e: string)
      requires Valid()
      modifies this
      ensures stack == old(stack) + [old(cur)] && cur == Block(If(e), []) && added == old(added)
      ensures Valid()
      ensures old(WellFormed()) ==> WellFormed()
    {
      ghost var ext := Ext();
      stack := stack + [cur];
      cur := Block(If(e), []);
      if WellFormedScopes(ext) && LeavesAll(ext) == LeavesAll(added) {
        PushFacts(ext, cur);
      }
    }

    /** `for_(var, start, end)` */
    method OpenFor(v: string, s: string, e: string)
      requires Valid()
      modifies this
      ensures stack == old(stack) + [old(cur)] && cur == Block(For(v, s, e), []) && added == old(added)
      ensures Valid()
      ensures old(WellFormed()) ==> WellFormed()
    {
      ghost var ext := Ext();
      stack := stack + [cur];
      cur := Block(For(v, s, e), []);
      if WellFormedScopes(ext) && LeavesAll(ext) == LeavesAll(added) {
        PushFacts(ext, cur);
      }
    }

    /** `statement(stmt)`: appends to `cur` in place. */
    method Statement(stmt: Node)
      requires Valid()
      modifies this
      ensures stack == old(stack) && cur == Nodes.Statement(old(cur), stmt)
      ensures added == old(added) + [stmt]
      ensures Valid()
      ensures old(WellFormed()) ==> WellFormed()
    {
      ghost var ext := Ext();
      cur := Nodes.Statement(cur, stmt);
      added := added + [stmt];
      if WellFormedScopes(ext) && LeavesAll(ext) == LeavesAll(old(added)) {
        StatementFacts(ext, stmt);
        assert ext[..|ext| - 1] + [cur] == Ext();
        LeavesAllAppend(old(added), [stmt]);
        LeavesAllSingle(stmt);
      }
    }

    /**
     * `__docase(case)`: unless `cur` is a switch, fold scopes into their
     * parents until `close()` returns a switch; then the case becomes `cur`.
     */
    method DoCase(c: Node) returns (ok: bool)
      requires Valid() && c.Block? && (c.kind.Case? || c.kind.Default?) && c.body == []
      modifies this
      ensures ok <==> CaseSpec(old(Ext())).Some?
      ensures ok ==> stack == CaseSpec(old(Ext())).value && cur == c
      ensures !ok ==> stack == [] && cur == old(cur)
      ensures added == old(added) && Valid()
      ensures old(WellFormed()) ==> (ok <==> HasSwitch(old(Ext())))
      ensures old(WellFormed()) && ok ==> WellFormed()
    {
      ghost var wf := WellFormed();
      if wf {
        CaseFacts(Ext());
      }
      ok := UnwindToSwitch();
      if ok {
        cur := c;
        if wf {
          PushFacts(stack, c);
        }
      }
    }

    /** The loop of `__docase`, proved against `CaseSpec`; `cur` is left in place. */
    method UnwindToSwitch() returns (ok: bool)
      requires Valid()
      modifies this
      ensures ok <==> CaseSpec(old(Ext())).Some?
      ensures ok ==> stack == CaseSpec(old(Ext())).value
      ensures !ok ==> stack == []
      ensures cur == old(cur) && added == old(added) && AllContainers(stack)
    {
      ghost var ext := Ext();
      stack := stack + [cur];
      ok := true;
      if !IsSwitch(cur) {
        while true
          invariant AllContainers(stack) && cur == old(cur) && added == old(added)
          invariant FoldToSwitch(stack) == CaseSpec(ext)
          decreases |stack|
        {
          var x := Close();
          if x.Some? && IsSwitch(x.value) {
            break;
          }
          ok, x := PopAttach();
          if !ok {
            return;
          }
        }
      }
    }

    /** `case(expr)` */
    method OpenCase(e: string) returns (ok: bool)
      requires Valid()
      modifies this
      ensures ok <==> CaseSpec(old(Ext())).Some?
      ensures ok ==> stack == CaseSpec(old(Ext())).value && cur == Block(Case(e), [])
      ensures !ok ==> stack == [] && cur == old(cur)
      ensures added == old(added) && Valid()
      ensures old(WellFormed()) ==> (ok <==> HasSwitch(old(Ext())))
      ensures old(WellFormed()) && ok ==> WellFormed()
    {
      ok := DoCase(Block(Case(e), []));
    }

    /** `default()` */
    method OpenDefault() returns (ok: bool)
      requires Valid()
      modifies this
      ensures ok <==> CaseSpec(old(Ext())).Some?
      ensures ok ==> stack == CaseSpec(old(Ext())).value && cur == Block(Default, [])
      ensures !ok ==> stack == [] && cur == old(cur)
      ensures added == old(added) && Valid()
      ensures old(WellFormed()) ==> (ok <==> HasSwitch(old(Ext())))
      ensures old(WellFormed()) && ok ==> WellFormed()
    {
      ok := DoCase(Block(Default, []));
    }

    /**
     * What `else_` and `elseif` share: fold scopes into their parents until
     * the one just attached is an `If`/`ElseIf`; then `c` becomes `cur`.
     */
    method DoElse(c: Node) returns (ok: bool)
      requires Valid() && c.Block? && (c.kind.Else? || c.kind.ElseIf?) && c.body == []
      modifies this
      ensures ok <==> FoldToIf(old(Ext())).Some?
      ensures ok ==> stack == FoldToIf(old(Ext())).value && cur == c
      ensures !ok ==> stack == [] && cur == old(cur)
      ensures added == old(added) && Valid()
      ensures old(WellFormed()) ==> (ok <==> HasIfWithParent(old(Ext())))
      ensures old(WellFormed()) && ok ==> WellFormed()
    {
      ghost var wf := WellFormed();
      if wf {
        ElseFacts(Ext());
      }
      ok := UnwindToIf();
      if ok {
        cur := c;
        if wf {
          PushFacts(stack, c);
        }
      }
    }

    /** The loop of `else_`/`elseif`, proved against `FoldToIf`; `cur` is left in place. */
    method UnwindToIf() returns (ok: bool)
      requires Valid()
      modifies this
      ensures ok <==> FoldToIf(old(Ext())).Some?
      ensures ok ==> stack == FoldToIf(old(Ext())).value
      ensures !ok ==> stack == []
      ensures cur == old(cur) && added == old(added) && AllContainers(stack)
    {
      ghost var ext := Ext();
      stack := stack + [cur];
      while true
        invariant AllContainers(stack) && cur == old(cur) && added == old(added)
        invariant FoldToIf(stack) == FoldToIf(ext)
        decreases |stack|
      {
        var _ := Close();
        var x;
        ok, x := PopAttach();
        if !ok {
          return;
        }
        if IsIf(x.value) {
          break;
        }
      }
    }

    /** `else_()` */
    method OpenElse() returns (ok: bool)
      requires Valid()
      modifies this
      ensures ok <==> FoldToIf(old(Ext())).Some?
      ensures ok ==> stack == FoldToIf(old(Ext())).value && cur == Block(Else, [])
      ensures !ok ==> stack == [] && cur == old(cur)
      ensures added == old(added) && Valid()
      ensures old(WellFormed()) ==> (ok <==> HasIfWithParent(old(Ext())))
      ensures old(WellFormed()) && ok ==> WellFormed()
    {
      ok := DoElse(Block(Else, []));
    }

    /** `elseif(expr)` */
    method OpenElseIf(e: string) returns (ok: bool)
      requires Valid()
      modifies this
      ensures ok <==> FoldToIf(old(Ext())).Some?
      ensures ok ==> stack == FoldToIf(old(Ext())).value && cur == Block(ElseIf(e), [])
      ensures !ok ==> stack == [] && cur == old(cur)
      ensures added == old(added) && Valid()
      ensures old(WellFormed()) ==> (ok <==> HasIfWithParent(old(Ext())))
      ensures old(WellFormed()) && ok ==> WellFormed()
    {
      ok := DoElse(Block(ElseIf(e), []));
    }

    /** `doclose()`: `cur` is appended to its parent, which becomes `cur`. */
    method DoClose() returns (ok: bool)
      requires Valid()
      modifies this
      ensures ok <==> DoCloseSpec(old(Ext())).Some?
      ensures ok ==> stack + [cur] == DoCloseSpec(old(Ext())).value
      ensures !ok ==> stack == [] && cur == old(cur)
      ensures added == old(added) && Valid()
      ensures old(WellFormed()) ==> (ok <==> old(stack) != [])
      ensures old(WellFormed()) && ok ==> WellFormed()
    {
      ghost var ext := Ext();
      ghost var wf := WellFormed();
      if wf {
        DoCloseFacts(ext);
      }
      ok := CloseCur();
    }

    /** The steps of `doclose()`, proved against `DoCloseSpec`. */
    method CloseCur() returns (ok: bool)
      requires Valid()
      modifies this
      ensures ok <==> DoCloseSpec(old(Ext())).Some?
      ensures ok ==> stack + [cur] == DoCloseSpec(old(Ext())).value
      ensures !ok ==> stack == [] && cur == old(cur)
      ensures added == old(added) && Valid()
    {
      ghost var ext := Ext();
      stack := stack + [cur];
      var _ := Close();
      var x;
      ok, x := PopAttach();
      if !ok {
        return;
      }
      cur := stack[|stack| - 1];
      stack := stack[..|stack| - 1];
      assert stack + [cur] == DoCloseSpec(ext).value;
    }

    /**
     * `Program.emit(indent)`: folds every open scope back into `main` and
     * renders it. It leaves the folded tree as the only stack entry, so the
     * source only ever calls it on a copy.
     */
    method Emit(indent: nat) returns (r: Option<string>)
      requires Valid()
      modifies this
      ensures r == Render(old(Ext()), indent)
      ensures r.Some? ==> stack == [FoldAll(old(Ext())).value]
      ensures r.None? ==> stack == []
      ensures cur == old(cur) && added == old(added)
    {
      ghost var ext := Ext();
      stack := stack + [cur];
      while true
        invariant AllContainers(stack) && cur == old(cur) && added == old(added)
        invariant FoldAll(stack) == FoldAll(ext)
        decreases |stack|
      {
        var _ := Close();
        if |stack| == 1 {
          break;
        }
        var ok, _ := PopAttach();
        if !ok {
          return None;
        }
      }
      r := Some(Nodes.Emit(stack[0], indent));
    }
  }

  /**
   * The module-level `emit(program)`: renders a copy at indent 0, so the
   * program itself is left as it was and the same program always renders
   * to the same text. On a well-formed program it always succeeds.
   */
  method EmitProgram(p: Program) returns (r: Option<string>)
    requires p.Valid()
    ensures r == Render(p.stack + [p.cur], 0)
    ensures p.WellFormed() ==> r.Some?
  {
    var q := new Program.Copy(p);
    r := q.Emit(0);
    if p.WellFormed() {
      RenderFacts(p.stack + [p.cur], 0);
    }
  }
}
