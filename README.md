# A verified model of the C program generator

generator.py builds a small C program step by step. It has two parts:

- **The node classes.** `Id`, `Assign`, `Print`, `Printi`, `Case`, `Default`, `Switch`, `For`, `If`, `ElseIf`, `Else` and `Main` form a statement tree. Each class's `emit(indent)` renders its subtree as indented C text.
- **The `Program` builder.** It keeps a cursor `cur`, the scope taking statements, and a `stack` of the open scopes around it, with `main` at the bottom.
  - Its commands are `switch`, `case`, `default`, `if_`, `elseif`, `else_`, `for_`, `statement` and `doclose`. They open scopes and fold them back into their parents without the caller naming a depth.
  - The primitive behind the folding is `close()`. `Case` and `Default` are transparent to it because they have no `close` method.
  - The module-level `emit` renders a deep copy of a program.

The model has four modules:

- `Nodes` (nodes.dfy) models the tree and its rendering.
  - The tree is one datatype. A container is `Block(kind, body)`, with a `Kind` tag per container class.
  - Rendering is the recursive function `Emit`. The line-list reference function `Lines` renders the same tree without nested joins.
  - Lemmas prove the layout, the blank line after `int main() {`, indentation, and brace balance.
- `Builder` (builder.dfy) holds the specification functions of the builder's loops, as functions of the stack:
  - `CloseSpec` for `close()`;
  - `FoldToSwitch` for `__docase`;
  - `FoldToIf` for `else_`/`elseif`;
  - `FoldAll` for `Program.emit`;
  - `DoCloseSpec` for `doclose`.

  It also proves what each command does on a well-formed stack: `main` at the bottom, every case directly on its switch, and no statement lost or reordered.
- `Generator` (program.dfy) is the `Program` class. Its fields `cur` and `stack` are updated by one method per command. Each `while` loop of the source is a loop proved against the matching `Builder` function.
- `Demo` (demo.dfy) replays the source's `__main__` scenario on the class. It proves the exact text that `emit(program)` returns.

Expressions are kept as their text: an `Id` in an expression position is rendered at indent 0, which is its text. A command that the source aborts with an `IndexError` returns `ok == false` here. In every such case the source leaves the stack empty and `cur` untouched, and the contracts say exactly that; nothing is rolled back.

## Model

| member | source | states |
|---|---|---|
| Nodes.WithIndent | generator.py:1-2 | the result is exactly `i` spaces followed by `s`, so its length is `i + |s|` |
| Nodes.Statement | generator.py:46-48 | `statement` keeps the container's class and its old children, and adds the new child after them as the last one |
| Nodes.AppendAll | generator.py:191-192 | appending the children of `buf` one by one leaves them all at the end of the body, in order |
| Nodes.EmitIsJoinedLines | generator.py:50-177 | every `emit` equals the newline-join of a flat list of lines, where a container's lines are its header, then its children's lines, then its footer |
| Nodes.LinesShift | generator.py:57-58 | rendering a subtree `k` columns deeper only adds `k` spaces in front of each element of its line list `Lines`, so a subtree's layout does not depend on its nesting |
| Nodes.LinesIndented | generator.py:1-2 | every element of the line list `Lines` that a node renders at indent `i` starts with `i` spaces |
| Nodes.BlockLayout | generator.py:50-177 | every container renders its header at its own indent, and every element of `Lines` that its children render starts 4 spaces further in. `case`/`default` end in exactly one `break;` at 4 more spaces, even with an empty body. `main` ends with `return 0;` at 4 more spaces and then `}`. `Switch`, `For`, `If`, `ElseIf` and `Else` end with `}` at their own indent |
| Nodes.MainBlankLine | generator.py:171-177 | `main` renders as `int main() {`, a blank line (its header carries its own newline), then its statements, `return 0;` and `}` |
| Nodes.PrintFormats | generator.py:33-38 | at every indent, `Print` puts its text between quotes after a `%s` format and `Printi` puts it bare after a `%d` format, so the two never render alike |
| Nodes.HeaderBalance | generator.py:50-177 | with brace-free expressions, each header opens one brace; `case`/`default` headers open none |
| Nodes.EmitBalanced | generator.py:50-177 | with brace-free expressions, the rendered text holds as many `{` as `}`; read element by element of `Lines`, no prefix closes a brace it has not opened |
| Builder.CloseNested | generator.py:185-201 | on a well-formed stack, `close()` leaves a top scope that has `close` in place, and appends a case on top to its switch, which it then returns |
| Builder.CloseClosable | generator.py:188-194 | `close()` with a closable scope on top pushes that scope back unchanged and returns it |
| Builder.CloseCase | generator.py:188-196 | `close()` with a case on its switch appends the case to the switch and returns the switch |
| Builder.AttachKeepsLeaves | generator.py:219-220 | attaching the top scope to its parent neither loses nor reorders a statement |
| Builder.FoldAllNested | generator.py:273-281 | the fold of `Program.emit` never fails on a well-formed stack; it yields a node of the bottom scope's class whose first children are the bottom scope's own |
| Builder.FoldAllLeaves | generator.py:273-281 | the tree that `Program.emit` folds holds every statement of the stack exactly once, in stack order |
| Builder.FoldToSwitchFinds | generator.py:215-220 | the `__docase` loop folds everything above the nearest open `Switch` into it and leaves the switch on top, with the entries below it untouched |
| Builder.FoldToSwitchFails | generator.py:215-220 | with no `Switch` open, the `__docase` loop runs off the stack and fails |
| Builder.FoldToIfFinds | generator.py:239-244 | the `else_`/`elseif` loop closes every scope up to and including the nearest `If` or `ElseIf` (`isinstance(x, If)`) and appends it to its parent, which ends on top |
| Builder.FoldToIfFails | generator.py:239-244 | with no `If`/`ElseIf` above `main`, the loop fails at `stack[-1]`; an `Else` does not qualify |
| Builder.CaseFacts | generator.py:211-229 | `case`/`default` succeed exactly when a `Switch` is open; with `cur` a switch nothing is folded; with `cur` a case that case is appended to its switch; the switch ends on top; well-formedness, the statements and the final tree are preserved |
| Builder.ElseFacts | generator.py:237-257 | `else_`/`elseif` succeed exactly when an `If`/`ElseIf` above `main` is open, and preserve well-formedness, the statements and the final tree |
| Builder.DoCloseFacts | generator.py:283-289 | `doclose` succeeds exactly when `cur` has a parent; it appends `cur` to that parent; a case and its switch are closed together; well-formedness, the statements and the final tree are preserved |
| Builder.DoCloseOnClosable | generator.py:283-289 | `doclose` with a closable `cur` attaches exactly that scope, and fails with only `main` open |
| Builder.DoCloseOnCase | generator.py:283-289 | `doclose` with a case as `cur` attaches the case to its switch and the switch to its parent |
| Builder.StatementFacts | generator.py:270-271 | `statement` keeps the stack well formed and adds the new statement's leaves after all others |
| Builder.PushFacts | generator.py:207-209 | opening a new scope keeps the stack well formed and adds no statement |
| Builder.RenderFacts | generator.py:273-281 | on a well-formed stack, `Program.emit` always succeeds, renders a tree rooted at `main`, and holds exactly the added statements in order |
| Generator.Program.constructor | generator.py:181-183 | a new program has an empty `main` as `cur` and nothing on the stack, and is well formed |
| Generator.Program.Close | generator.py:185-201 | the imperative loop of `close()` produces the stack and the node given by `CloseSpec` |
| Generator.Program.PopAttach | generator.py:219-220 | pops the top and appends it to the new top; it fails on a stack of fewer than two scopes |
| Generator.Program.OpenSwitch | generator.py:203-209 | `switch` pushes `cur` and opens an empty `Switch`; well-formedness is kept |
| Generator.Program.UnwindToSwitch | generator.py:213-220 | the `__docase` loop ends in the stack given by `CaseSpec`, or fails with an empty stack |
| Generator.Program.DoCase | generator.py:211-221 | the new case becomes `cur` over the stack given by `CaseSpec`; it succeeds exactly when a `Switch` is open |
| Generator.Program.OpenCase | generator.py:223-226 | `case(expr)` is `__docase` with a new empty `Case` |
| Generator.Program.OpenDefault | generator.py:228-229 | `default()` is `__docase` with a new empty `Default` |
| Generator.Program.OpenIf | generator.py:231-235 | `if_` pushes `cur` and opens an empty `If` |
| Generator.Program.UnwindToIf | generator.py:238-244 | the `else_`/`elseif` loop ends in the stack given by `FoldToIf`, or fails with an empty stack |
| Generator.Program.DoElse | generator.py:237-257 | the part `else_` and `elseif` share: the new `Else`/`ElseIf` becomes `cur` over the stack given by `FoldToIf`; on a well-formed program it succeeds exactly when an `If`/`ElseIf` above `main` is open, and keeps well-formedness |
| Generator.Program.OpenElse | generator.py:237-245 | `else_` makes a new `Else` the `cur` over the folded stack; it succeeds exactly when an `If`/`ElseIf` above `main` is open |
| Generator.Program.OpenElseIf | generator.py:247-257 | `elseif` does the same with a new `ElseIf` |
| Generator.Program.OpenFor | generator.py:259-267 | `for_` pushes `cur` and opens an empty `For` |
| Generator.Program.Statement | generator.py:270-271 | `statement` appends to `cur` and records the statement as added, keeping well-formedness |
| Generator.Program.CloseCur | generator.py:284-289 | the steps of `doclose` end in the scopes given by `DoCloseSpec`, with the parent popped into `cur` |
| Generator.Program.DoClose | generator.py:283-289 | `doclose` on a well-formed program succeeds exactly when the stack is non-empty, and keeps well-formedness |
| Generator.Program.Emit | generator.py:273-281 | `Program.emit` returns the rendering given by `Render` and leaves the folded tree as the only stack entry |
| Generator.Program.Copy | generator.py:293-294 | the copy `deepcopy` makes holds the same `cur`, stack and added statements |
| Generator.EmitProgram | generator.py:292-295 | the module-level `emit` renders a copy at indent 0 and leaves the program unchanged, so repeated calls give the same text; on a well-formed program it always succeeds |
| Demo.TreeRendering | generator.py:297-313 | the scenario's tree renders line by line to the expected C program |
| Demo.Scenario | generator.py:297-313 | every command of the `__main__` scenario succeeds, and `emit(program)` returns exactly the expected text |

## Left out

- app.py (the web routes, the global session table and the chat pushes) and doprogram.py (compiling and running the generated program with gcc) are not part of this model. Both are network, process or file I/O around `Program`.
- `copy.deepcopy` is modelled by the copy constructor `Program.Copy`. Nodes are values, so the copy shares nothing, and aliasing between scopes is not modelled.
- `Program.buf` is a field in the source but only a local of `close()` in the model, because nothing reads it across calls.
- `hasattr`/`isinstance` dispatch becomes datatype tags.
- The automatic wrapping of raw values in `Id` becomes expressions passed as their text.
- The empty `Expr` marker class is not modelled.
- `statement` accepts any object with `emit` in the source; in the model it accepts any `Node`.
- The `cur is not None` test of `switch` is not modelled, because `cur` is never `None`.
- The exception type raised on failure (`IndexError`) is not modelled; failure is the `ok` flag.
- Generator.Program.Emit: called directly, `Program.emit` folds the live stack, as in the source. Only the module-level `emit`, which works on a copy, is proved to leave a program unchanged.
- The `print` of the rendered text in `__main__` is output only.
- Nodes.HeaderBalance and Nodes.EmitBalanced: brace balance is proved only for expressions without braces, because an expression text may contain any characters.
- Nodes.LinesIndented: the indentation is proved for the elements of `Lines`, not for the lines of the rendered text. An expression text that contains a newline, or the header of `main`, which carries its own newline, makes one element hold several rendered lines. The rendered lines after such a newline have no indentation, and the model does not claim any.
- Nodes.EmitBalanced: the prefix property is stated per element of `Lines`, not per character or per rendered line.
- Nodes.BlockLayout: the indentation of the children is proved for the elements of `Lines`, not for the lines of the rendered text. An expression text that contains a newline makes one element hold several rendered lines, and the lines after such a newline are not indented (for example a child `Assign("y", "0;\nz")` renders `z;` at column 0).
- Nodes.LinesShift: the added spaces are in front of each element of `Lines`; rendered lines after a newline inside an element are not shifted.
